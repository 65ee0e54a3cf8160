/** The UART's two ring buffers, shared between thread code and the interrupt handler. */
module Uarts {
  import opened Machine

  type Byte = x: int | 0 <= x < 256

  const UART_RX_BUFFER_SIZE: nat := 256
  const UART_TX_BUFFER_SIZE: nat := 512

  // ---------- ring contents ----------

  /** The bytes from `tail` round to `head`. */
  function Ring(buf: seq<Byte>, tail: nat, head: nat): (r: seq<Byte>)
    requires tail < |buf| && head < |buf|
    ensures |r| < |buf|
  {
    if tail <= head then buf[tail..head] else buf[tail..] + buf[..head]
  }

  /** The distance formula of uart_available and uart_tx_pending. */
  lemma RingLength(buf: seq<Byte>, tail: nat, head: nat)
    requires tail < |buf| && head < |buf|
    ensures (head + |buf| - tail) % |buf| == |Ring(buf, tail, head)|
  {
    if tail <= head {
      assert (head - tail + |buf|) % |buf| == head - tail by { WrapOnce(head - tail + |buf|, |buf|); }
    }
  }

  lemma WrapOnce(x: nat, n: nat)
    requires n <= x < 2 * n
    ensures x % n == x - n
  {
  }

  lemma SuccIsMod(i: nat, n: nat)
    requires i < n
    ensures (i + 1) % n == Succ(i, n)
  {
    if i + 1 < n { assert (i + 1) % n == i + 1; }
  }

  /** A byte stored at the head is appended, provided the ring is not full. */
  lemma RingPush(buf: seq<Byte>, tail: nat, head: nat, b: Byte)
    requires tail < |buf| && head < |buf|
    ensures Succ(head, |buf|) == tail <==> |Ring(buf, tail, head)| == |buf| - 1
    ensures Succ(head, |buf|) != tail ==>
              Ring(buf[head := b], tail, Succ(head, |buf|)) == Ring(buf, tail, head) + [b]
  {
    var buf' := buf[head := b];
    if tail <= head && head + 1 == |buf| && tail != 0 {
      assert Ring(buf', tail, 0) == buf'[tail..] + buf'[..0] == buf[tail..head] + [b];
    }
  }

  /** The byte at the tail is the first one out. */
  lemma RingPop(buf: seq<Byte>, tail: nat, head: nat)
    requires tail < |buf| && head < |buf|
    ensures head != tail <==> Ring(buf, tail, head) != []
    ensures head != tail ==>
              && Ring(buf, tail, head)[0] == buf[tail]
              && Ring(buf, Succ(tail, |buf|), head) == Ring(buf, tail, head)[1..]
  {
    if tail > head && tail + 1 == |buf| {
      assert buf[tail..] == [buf[tail]];
    }
  }

  // ---------- the driver ----------

  class Uart {
    const rxBuf: array<Byte>
    const txBuf: array<Byte>
    var rxHead: nat
    var rxTail: nat
    var rxOverflow: Word
    var rxErrors: Word
    var txHead: nat
    var txTail: nat
    var txeie: bool  // TXEIE in CR1

    ghost var arrived: nat          // bytes received by the hardware
    ghost var accepted: seq<Byte>   // those that found room, in order
    ghost var delivered: seq<Byte>  // those handed to the reader
    ghost var queued: seq<Byte>     // bytes accepted from writers
    ghost var sent: seq<Byte>       // bytes written to TDR

    ghost predicate Shape()
      reads this
    {
      && rxBuf.Length == UART_RX_BUFFER_SIZE && txBuf.Length == UART_TX_BUFFER_SIZE && rxBuf != txBuf
      && rxHead < UART_RX_BUFFER_SIZE && rxTail < UART_RX_BUFFER_SIZE
      && txHead < UART_TX_BUFFER_SIZE && txTail < UART_TX_BUFFER_SIZE
    }

    ghost function RxContents(): seq<Byte>
      requires Shape()
      reads this, rxBuf
    {
      Ring(rxBuf[..], rxTail, rxHead)
    }

    ghost function TxPending(): seq<Byte>
      requires Shape()
      reads this, txBuf
    {
      Ring(txBuf[..], txTail, txHead)
    }

    /** Both rings are FIFO queues, no arrived byte is unaccounted for, in whatever state a step may
        be interrupted. */
    ghost predicate Valid()
      reads this, rxBuf, txBuf
    {
      && Shape()
      && accepted == delivered + RxContents()
      && |accepted| <= arrived && rxOverflow == (arrived - |accepted|) % WORD_LIMIT
      && queued == sent + TxPending()
    }

    /** Outside the writer: whatever waits will be asked for. */
    ghost predicate Quiet()
      requires Shape()
      reads this, txBuf
    {
      TxPending() != [] ==> txeie
    }

    /** Nothing but the interrupt handler has run: unread bytes are in place with new ones behind
        them, and what was pending has been sent from the front. */
    twostate predicate Interrupted()
      requires old(Valid()) && Valid()
      reads this, rxBuf, txBuf
    {
      && rxTail == old(rxTail) && txHead == old(txHead)
      && delivered == old(delivered) && queued == old(queued)
      && old(RxContents()) <= RxContents()
      && old(accepted) <= accepted && old(sent) <= sent
      && (old(Quiet()) ==> Quiet())
    }

    constructor ()
      ensures Valid() && Quiet() && fresh(rxBuf) && fresh(txBuf)
      ensures accepted == delivered == queued == sent == [] && arrived == 0
    {
      rxBuf := new Byte[UART_RX_BUFFER_SIZE](_ => 0);
      txBuf := new Byte[UART_TX_BUFFER_SIZE](_ => 0);
      rxHead, rxTail, rxOverflow, rxErrors, txHead, txTail, txeie := 0, 0, 0, 0, 0, 0, false;
      arrived, accepted, delivered, queued, sent := 0, [], [], [], [];
    }

    // ---------- the interrupt handler ----------

    /** One interrupt: the flags and the received byte are what the hardware presents. */
    method IrqHandler(error: bool, rxne: bool, rdr: Byte, txe: bool) returns (tdr: Option<Byte>)
      requires Valid()
      modifies this`rxHead, this`rxOverflow, this`rxErrors, this`txTail, this`txeie, rxBuf
      modifies this`arrived, this`accepted, this`sent
      ensures Valid() && Interrupted()
      ensures rxErrors == if error then (old(rxErrors) + 1) % WORD_LIMIT else old(rxErrors)
      ensures RxContents() == if rxne && |old(RxContents())| < 255
                              then old(RxContents()) + [rdr] else old(RxContents())
      ensures arrived == if rxne then old(arrived) + 1 else old(arrived)
      ensures tdr == if txe && old(TxPending()) != [] then Some(old(TxPending())[0]) else None
      ensures TxPending() == if tdr.Some? then old(TxPending())[1..] else old(TxPending())
      ensures sent == if tdr.Some? then old(sent) + [tdr.value] else old(sent)
      ensures txeie == (old(txeie) && !(txe && tdr.None?))
    {
      if error { rxErrors := (rxErrors + 1) % WORD_LIMIT; }
      if rxne { Receive(rdr); }
      tdr := None;
      if txe { tdr := Transmit(); }
    }

    /** The transmit half of the handler: the next byte goes out, or the interrupt source is shut. */
    method Transmit() returns (tdr: Option<Byte>)
      requires Valid()
      modifies this`txTail, this`txeie, this`sent
      ensures Valid()
      ensures tdr == if old(TxPending()) != [] then Some(old(TxPending())[0]) else None
      ensures TxPending() == if tdr.Some? then old(TxPending())[1..] else old(TxPending())
      ensures sent == if tdr.Some? then old(sent) + [tdr.value] else old(sent)
      ensures txeie == (old(txeie) && tdr.Some?)
    {
      RingPop(txBuf[..], txTail, txHead);
      if txHead != txTail {
        tdr := Some(txBuf[txTail]);
        sent := sent + [txBuf[txTail]];
        SuccIsMod(txTail, UART_TX_BUFFER_SIZE);
        txTail := (txTail + 1) % UART_TX_BUFFER_SIZE;
      } else {
        tdr := None;
        txeie := false;
      }
    }

    /** The receive half of the handler. */
    method Receive(b: Byte)
      requires Valid()
      modifies this`rxHead, this`rxOverflow, rxBuf, this`arrived, this`accepted
      ensures Valid() && arrived == old(arrived) + 1 && old(accepted) <= accepted
      ensures RxContents() == if |old(RxContents())| < UART_RX_BUFFER_SIZE - 1
                              then old(RxContents()) + [b] else old(RxContents())
    {
      var head := rxHead;
      SuccIsMod(head, UART_RX_BUFFER_SIZE);
      RingPush(rxBuf[..], rxTail, head, b);
      arrived := arrived + 1;
      var next := (head + 1) % UART_RX_BUFFER_SIZE;
      if next != rxTail {
        rxBuf[head] := b;
        rxHead := next;
        accepted := accepted + [b];
      } else {
        CountOverflow(rxOverflow, arrived - 1 - |accepted|);
        rxOverflow := (rxOverflow + 1) % WORD_LIMIT;
      }
    }

    /** Any number of interrupts with any data. */
    method Interrupts()
      requires Valid()
      modifies this`rxHead, this`rxOverflow, this`rxErrors, this`txTail, this`txeie, rxBuf
      modifies this`arrived, this`accepted, this`sent
      ensures Valid() && Interrupted()
    {
      var n: nat := *;
      while n > 0
        invariant Valid() && Interrupted()
      {
        var error, rxne, b, txe := *, *, *, *;
        var byte: Byte := b;
        var _ := IrqHandler(error, rxne, byte, txe);
        n := n - 1;
      }
    }

    // ---------- thread code ----------

    method Available() returns (n: nat)
      requires Valid()
      ensures n == |RxContents()|
    {
      RingLength(rxBuf[..], rxTail, rxHead);
      return (rxHead + UART_RX_BUFFER_SIZE - rxTail) % UART_RX_BUFFER_SIZE;
    }

    /** uart_read_buffer, interrupted between any two steps: it delivers the oldest bytes in order,
        as many as were asked for or as were there when it looked. */
    method ReadBuffer(dst: array<Byte>, len: nat) returns (copied: nat)
      requires Valid() && len <= dst.Length && dst != rxBuf && dst != txBuf
      modifies this`rxHead, this`rxTail, this`rxOverflow, this`rxErrors, this`txTail, this`txeie, rxBuf, dst
      modifies this`arrived, this`accepted, this`delivered, this`sent
      ensures Valid() && copied <= len
      ensures delivered == old(delivered) + dst[..copied]
      ensures dst[copied..] == old(dst[copied..])
      ensures copied == len || |old(RxContents())| <= copied
      ensures old(accepted) <= accepted
      ensures queued == old(queued) && old(sent) <= sent && (old(Quiet()) ==> Quiet())
    {
      hide Ring, Rotate;
      Interrupts();
      var head := rxHead;
      ghost var snapshot := RxContents();
      RingEnds(rxBuf[..], rxTail, rxHead);
      Interrupts();
      var tail := rxTail;
      copied, tail := CopyOut(dst, len, head, tail, snapshot);
      Publish(tail, dst[..copied]);
      Interrupts();
    }

    /** The reader's loop: `snapshot` was unread when the head was looked at. */
    method CopyOut(dst: array<Byte>, len: nat, head: nat, start: nat, ghost snapshot: seq<Byte>)
        returns (copied: nat, tail: nat)
      requires Valid() && len <= dst.Length && dst != rxBuf && dst != txBuf && start == rxTail
      requires snapshot <= RxContents() && |snapshot| < UART_RX_BUFFER_SIZE
      requires head == Rotate(rxTail, |snapshot|, UART_RX_BUFFER_SIZE)
      modifies this`rxHead, this`rxOverflow, this`rxErrors, this`txTail, this`txeie, rxBuf, dst
      modifies this`arrived, this`accepted, this`sent
      ensures Valid() && Interrupted() && snapshot <= RxContents()
      ensures copied <= len && copied <= |snapshot| && (copied == len || copied == |snapshot|)
      ensures tail == Rotate(rxTail, copied, UART_RX_BUFFER_SIZE)
      ensures dst[..copied] == snapshot[..copied] && dst[copied..] == old(dst[copied..])
    {
      hide Ring, Rotate;
      RotateZero(rxTail, UART_RX_BUFFER_SIZE);
      copied, tail := 0, start;
      while copied < len && head != tail
        invariant Valid() && Interrupted() && snapshot <= RxContents()
        invariant copied <= len && copied <= |snapshot|
        invariant tail == Rotate(rxTail, copied, UART_RX_BUFFER_SIZE)
        invariant dst[..copied] == snapshot[..copied] && dst[copied..] == old(dst[copied..])
      {
        RingAt(rxBuf[..], rxTail, rxHead, copied);
        dst[copied] := rxBuf[tail];
        RotateStep(rxTail, copied, UART_RX_BUFFER_SIZE);
        copied := copied + 1;
        tail := (tail + 1) % UART_RX_BUFFER_SIZE;
        Interrupts();
      }
      if head == tail { RotateInjective(rxTail, copied, |snapshot|, UART_RX_BUFFER_SIZE); }
    }

    /** The reader gives the slots of `data` back. */
    method Publish(tail: nat, ghost data: seq<Byte>)
      requires Valid() && data <= RxContents() && |data| < UART_RX_BUFFER_SIZE
      requires tail == Rotate(rxTail, |data|, UART_RX_BUFFER_SIZE)
      modifies this`rxTail, this`delivered
      ensures Valid() && delivered == old(delivered) + data
    {
      hide Ring;
      RingAdvance(rxBuf[..], rxTail, rxHead, |data|);
      assert accepted == (delivered + data) + RxContents()[|data|..];
      delivered := delivered + data;
      rxTail := tail;
    }

    method TxPendingCount() returns (n: nat)
      requires Valid()
      ensures n == |TxPending()|
    {
      RingLength(txBuf[..], txTail, txHead);
      return (txHead + UART_TX_BUFFER_SIZE - txTail) % UART_TX_BUFFER_SIZE;
    }

    /** uart_write_buffer, interrupted between any two steps: it queues a prefix, at least as much
        as there was room for, and leaves the transmit interrupt on. */
    method WriteBuffer(src: seq<Byte>) returns (n: nat)
      requires Valid()
      modifies this`rxHead, this`rxOverflow, this`rxErrors, this`txHead, this`txTail, this`txeie, rxBuf, txBuf
      modifies this`arrived, this`accepted, this`queued, this`sent
      ensures Valid() && Quiet() && n <= |src|
      ensures queued == old(queued) + src[..n]
      ensures n == |src| || |old(TxPending())| + n >= 511
      ensures delivered == old(delivered) && old(accepted) <= accepted && old(sent) <= sent
    {
      hide Ring;
      n := 0;
      while n < |src|
        invariant Valid() && n <= |src|
        invariant queued == old(queued) + src[..n]
        invariant |TxPending()| <= |old(TxPending())| + n
        invariant old(accepted) <= accepted && old(sent) <= sent
      {
        var room := Offer(src[n]);
        if !room { break; }
        n := n + 1;
      }
      Kick();
    }

    /** The update of CR1, interrupted before and after. */
    method Kick()
      requires Valid()
      modifies this`rxHead, this`rxOverflow, this`rxErrors, this`txTail, this`txeie, rxBuf
      modifies this`arrived, this`accepted, this`sent
      ensures Valid() && Quiet() && old(accepted) <= accepted && old(sent) <= sent
    {
      hide Ring;
      Interrupts();
      txeie := true;
      Interrupts();
    }

    /** One turn of the writer's loop: head and tail are looked at one after the other, and a byte
        that finds no room was refused by a full ring. */
    method Offer(b: Byte) returns (room: bool)
      requires Valid()
      modifies this`rxHead, this`rxOverflow, this`rxErrors, this`txHead, this`txTail, this`txeie, rxBuf, txBuf
      modifies this`arrived, this`accepted, this`queued, this`sent
      ensures Valid() && queued == if room then old(queued) + [b] else old(queued)
      ensures !room ==> |old(TxPending())| == UART_TX_BUFFER_SIZE - 1
      ensures |TxPending()| <= |old(TxPending())| + (if room then 1 else 0)
      ensures old(accepted) <= accepted && old(sent) <= sent
    {
      hide Ring;
      Interrupts();
      var head := txHead;
      Interrupts();
      var tail := txTail;
      RingPush(txBuf[..], tail, head, b);
      SuccIsMod(head, UART_TX_BUFFER_SIZE);
      var nextHead := (head + 1) % UART_TX_BUFFER_SIZE;
      Interrupts();
      if nextHead == tail { return false; }
      RingPush(txBuf[..], txTail, head, b);
      Enqueue(head, nextHead, b);
      return true;
    }

    /** Stores a byte, then publishes it by moving the head. */
    method Enqueue(head: nat, nextHead: nat, b: Byte)
      requires Valid() && head == txHead && nextHead == Succ(head, UART_TX_BUFFER_SIZE) != txTail
      modifies this`rxHead, this`rxOverflow, this`rxErrors, this`txHead, this`txTail, this`txeie, rxBuf, txBuf
      modifies this`arrived, this`accepted, this`queued, this`sent
      ensures Valid() && queued == old(queued) + [b]
      ensures |TxPending()| <= |old(TxPending())| + 1
      ensures delivered == old(delivered) && rxTail == old(rxTail)
      ensures old(accepted) <= accepted && old(sent) <= sent
    {
      hide Ring;
      RingPush(txBuf[..], txTail, head, b);
      RingIgnores(txBuf[..], txTail, head, b);
      txBuf[head] := b;
      Interrupts();
      RingPush(txBuf[..], txTail, head, b);
      assert txBuf[..][head := b] == txBuf[..];
      txHead := nextHead;
      queued := queued + [b];
      Interrupts();
    }

    /** The hardware raises TXE interrupts while the source is enabled: everything pending goes out,
        in order, and the source is shut. */
    method Drain()
      requires Valid() && Quiet()
      modifies this`rxHead, this`rxOverflow, this`rxErrors, this`txTail, this`txeie, rxBuf
      modifies this`arrived, this`accepted, this`sent
      ensures Valid() && !txeie && TxPending() == [] && sent == queued == old(queued)
    {
      while txeie
        invariant Valid() && Quiet() && queued == old(queued)
        decreases |TxPending()|, txeie
      {
        var _ := IrqHandler(false, false, 0, true);
      }
    }

    /** Any interleaving of interrupts and writers: each of the `txes` transmit interrupts between
        the calls sends a byte as long as there is one, so as many interrupts as there were bytes
        pending have sent all of those, in order and ahead of everything queued since. */
    method Traffic() returns (ghost txes: nat)
      requires Valid()
      modifies this`rxHead, this`rxOverflow, this`rxErrors, this`txHead, this`txTail, this`txeie, rxBuf, txBuf
      modifies this`arrived, this`accepted, this`queued, this`sent
      ensures Valid() && old(queued) <= queued && old(sent) <= sent
      ensures old(Quiet()) ==> Quiet()
      ensures txes >= |old(TxPending())| ==> old(queued) <= sent
    {
      hide Ring;
      txes := 0;
      var calls: nat := *;
      while calls > 0
        invariant Valid() && old(queued) <= queued && old(sent) <= sent
        invariant old(Quiet()) ==> Quiet()
        invariant |sent| >= |old(sent)| + txes || |sent| >= |old(queued)|
      {
        var writes: bool := *;
        if writes {
          var src: seq<Byte> := *;
          var _ := WriteBuffer(src);
        } else {
          var txe := OneInterrupt();
          txes := txes + (if txe then 1 else 0);
        }
        calls := calls - 1;
      }
      Prefixes(old(queued), sent, queued);
    }

    /** One interrupt with any flags and data. */
    method OneInterrupt() returns (txe: bool)
      requires Valid()
      modifies this`rxHead, this`rxOverflow, this`rxErrors, this`txTail, this`txeie, rxBuf
      modifies this`arrived, this`accepted, this`sent
      ensures Valid() && Interrupted()
      ensures |sent| == |old(sent)| + (if txe && old(TxPending()) != [] then 1 else 0)
    {
      hide Ring;
      var error, rxne, b, t := *, *, *, *;
      txe := t;
      var byte: Byte := b;
      var _ := IrqHandler(error, rxne, byte, txe);
    }
  }

  /** Of two prefixes of one sequence the shorter is a prefix of the longer. */
  lemma Prefixes(a: seq<Byte>, b: seq<Byte>, whole: seq<Byte>)
    requires a <= whole && b <= whole
    ensures |a| <= |b| ==> a <= b
  {
  }

  // ---------- positions in a ring ----------

  /** The slot j places after t. */
  function Rotate(t: nat, j: nat, n: nat): (r: nat)
    requires t < n && j < n
    ensures r < n
  {
    if t + j < n then t + j else t + j - n
  }

  lemma RotateInjective(t: nat, i: nat, j: nat, n: nat)
    requires t < n && i < n && j < n && Rotate(t, i, n) == Rotate(t, j, n)
    ensures i == j
  {
  }

  lemma RotateZero(t: nat, n: nat)
    requires t < n
    ensures Rotate(t, 0, n) == t
  {
  }

  lemma RotateStep(t: nat, j: nat, n: nat)
    requires t < n && j + 1 < n
    ensures (Rotate(t, j, n) + 1) % n == Rotate(t, j + 1, n)
  {
    SuccIsMod(Rotate(t, j, n), n);
  }

  lemma RingAt(buf: seq<Byte>, tail: nat, head: nat, j: nat)
    requires tail < |buf| && head < |buf| && j < |Ring(buf, tail, head)|
    ensures Ring(buf, tail, head)[j] == buf[Rotate(tail, j, |buf|)]
  {
  }

  lemma RingEnds(buf: seq<Byte>, tail: nat, head: nat)
    requires tail < |buf| && head < |buf|
    ensures head == Rotate(tail, |Ring(buf, tail, head)|, |buf|)
  {
  }

  /** Moving the tail j places on drops the first j bytes. */
  lemma RingAdvance(buf: seq<Byte>, tail: nat, head: nat, j: nat)
    requires tail < |buf| && head < |buf| && j <= |Ring(buf, tail, head)|
    ensures Ring(buf, Rotate(tail, j, |buf|), head) == Ring(buf, tail, head)[j..]
  {
    if tail > head && tail + j >= |buf| {
      assert Ring(buf, tail, head)[j..] == buf[..head][j - (|buf| - tail)..];
    }
  }

  /** The slot at the head is not part of the contents. */
  lemma RingIgnores(buf: seq<Byte>, tail: nat, head: nat, b: Byte)
    requires tail < |buf| && head < |buf|
    ensures Ring(buf[head := b], tail, head) == Ring(buf, tail, head)
  {
  }

  lemma CountOverflow(count: Word, lost: nat)
    requires count == lost % WORD_LIMIT
    ensures (count + 1) % WORD_LIMIT == (lost + 1) % WORD_LIMIT
  {
  }
}
