/** The transmit rows as they are declared: 256 cells each, while indices run over 512. Row i then
    shares its upper half with the lower half of row i + 1. */
module UartRows {
  import opened Machine
  import opened Uarts

  const UART_MAX_INSTANCES: nat := 6

  /** Where cell k of row i is, counted from the beginning of the array. */
  function Cell(i: nat, k: nat): nat { UART_RX_BUFFER_SIZE * i + k }

  /** All rows, and what each instance has been given and has sent. Memory `m` is the array and the
      256 bytes behind it. */
  datatype Lines = Lines(m: seq<Byte>, head: seq<nat>, tail: seq<nat>,
                         queued: seq<seq<Byte>>, sent: seq<seq<Byte>>)

  /** A writer queues one byte; the interrupt handler sends one. */
  datatype Op = Put(i: nat, b: Byte) | Get(i: nat)

  ghost predicate Shape(l: Lines) {
    && |l.m| == Cell(UART_MAX_INSTANCES, UART_RX_BUFFER_SIZE)
    && |l.head| == |l.tail| == |l.queued| == |l.sent| == UART_MAX_INSTANCES
    && forall i :: 0 <= i < UART_MAX_INSTANCES ==> l.head[i] < UART_TX_BUFFER_SIZE && l.tail[i] < UART_TX_BUFFER_SIZE
  }

  function Row(m: seq<Byte>, i: nat): (r: seq<Byte>)
    requires |m| == Cell(UART_MAX_INSTANCES, UART_RX_BUFFER_SIZE) && i < UART_MAX_INSTANCES
    ensures |r| == UART_TX_BUFFER_SIZE
  {
    m[Cell(i, 0)..Cell(i, UART_TX_BUFFER_SIZE)]
  }

  ghost function Pending(l: Lines, i: nat): seq<Byte>
    requires Shape(l) && i < UART_MAX_INSTANCES
  {
    Ring(Row(l.m, i), l.tail[i], l.head[i])
  }

  ghost predicate Fifo(l: Lines, i: nat) {
    Shape(l) && i < UART_MAX_INSTANCES && l.queued[i] == l.sent[i] + Pending(l, i)
  }

  function Zeroes(n: nat): (r: seq<Byte>)
    ensures |r| == n && forall k :: 0 <= k < n ==> r[k] == 0
  {
    if n == 0 then [] else Zeroes(n - 1) + [0]
  }

  function Start(): (l: Lines)
    ensures Shape(l)
  {
    Lines(Zeroes(Cell(UART_MAX_INSTANCES, UART_RX_BUFFER_SIZE)),
          [0, 0, 0, 0, 0, 0], [0, 0, 0, 0, 0, 0], [[], [], [], [], [], []], [[], [], [], [], [], []])
  }

  ghost function Do(l: Lines, op: Op): (l': Lines)
    requires Shape(l) && op.i < UART_MAX_INSTANCES
    ensures Shape(l')
  {
    var i := op.i;
    match op
    case Put(_, b) =>
      if Succ(l.head[i], UART_TX_BUFFER_SIZE) == l.tail[i] then l
      else l.(m := l.m[Cell(i, l.head[i]) := b],
              head := l.head[i := Succ(l.head[i], UART_TX_BUFFER_SIZE)],
              queued := l.queued[i := l.queued[i] + [b]])
    case Get(_) =>
      if l.head[i] == l.tail[i] then l
      else l.(tail := l.tail[i := Succ(l.tail[i], UART_TX_BUFFER_SIZE)],
              sent := l.sent[i := l.sent[i] + [l.m[Cell(i, l.tail[i])]]])
  }

  predicate By(ops: seq<Op>, active: set<nat>) {
    forall k :: 0 <= k < |ops| ==> ops[k].i in active && ops[k].i < UART_MAX_INSTANCES
  }

  ghost function After(ops: seq<Op>, active: set<nat>): (l: Lines)
    requires By(ops, active)
    ensures Shape(l)
  {
    if ops == [] then Start() else Do(After(ops[..|ops| - 1], active), ops[|ops| - 1])
  }

  /** The upper half of the last row lies behind the array. */
  lemma RowInArrayIff(i: nat)
    requires i < UART_MAX_INSTANCES
    ensures (forall k :: 0 <= k < UART_TX_BUFFER_SIZE ==> Cell(i, k) < Cell(UART_MAX_INSTANCES, 0)) <==>
            i + 1 < UART_MAX_INSTANCES
  {
    if i + 1 == UART_MAX_INSTANCES { assert Cell(i, UART_RX_BUFFER_SIZE) >= Cell(UART_MAX_INSTANCES, 0); }
  }

  ghost predicate Apart(active: set<nat>) {
    forall i :: i in active ==> i + 1 !in active
  }

  /** The rows of instances that are not neighbours share no cell. */
  lemma StoreSpares(m: seq<Byte>, i: nat, j: nat, k: nat, b: Byte)
    requires |m| == Cell(UART_MAX_INSTANCES, UART_RX_BUFFER_SIZE) && k < UART_TX_BUFFER_SIZE
    requires i < UART_MAX_INSTANCES && j < UART_MAX_INSTANCES && (i + 2 <= j || j + 2 <= i)
    ensures Row(m[Cell(j, k) := b], i) == Row(m, i)
  {
  }

  lemma StoreInRow(m: seq<Byte>, i: nat, k: nat, b: Byte)
    requires |m| == Cell(UART_MAX_INSTANCES, UART_RX_BUFFER_SIZE) && k < UART_TX_BUFFER_SIZE
    requires i < UART_MAX_INSTANCES
    ensures Row(m[Cell(i, k) := b], i) == Row(m, i)[k := b] && Row(m, i)[k] == m[Cell(i, k)]
  {
  }

  lemma StepKeepsFifo(l: Lines, op: Op, i: nat)
    requires Fifo(l, i) && op.i < UART_MAX_INSTANCES && (op.i == i || i + 2 <= op.i || op.i + 2 <= i)
    ensures Fifo(Do(l, op), i)
  {
    hide Row, Cell, Ring;
    var j := op.i;
    if op.Put? {
      if j == i {
        StoreInRow(l.m, i, l.head[i], op.b);
        RingPush(Row(l.m, i), l.tail[i], l.head[i], op.b);
      } else {
        StoreSpares(l.m, i, j, l.head[j], op.b);
      }
    } else if j == i {
      StoreInRow(l.m, i, l.tail[i], 0);
      RingPop(Row(l.m, i), l.tail[i], l.head[i]);
    }
  }

  lemma {:induction false} RunKeepsFifo(ops: seq<Op>, active: set<nat>, i: nat)
    requires By(ops, active) && Apart(active) && i in active && i < UART_MAX_INSTANCES
    ensures Fifo(After(ops, active), i)
  {
    hide Do, Fifo, Shape;
    if ops == [] {
      StartsEmpty(i);
    } else {
      var n := |ops| - 1;
      var j := ops[n].i;
      RunKeepsFifo(ops[..n], active, i);
      assert j in active && (j + 1 == i ==> j !in active) && (i + 1 == j ==> i !in active);
      StepKeepsFifo(After(ops[..n], active), ops[n], i);
    }
  }

  lemma StartsEmpty(i: nat)
    requires i < UART_MAX_INSTANCES
    ensures Fifo(Start(), i)
  {
  }

  // ---------- neighbours collide ----------

  function Zeros(i: nat, n: nat): (ops: seq<Op>)
    ensures |ops| == n && forall k :: 0 <= k < n ==> ops[k] == Put(i, 0)
  {
    if n == 0 then [] else Zeros(i, n - 1) + [Put(i, 0)]
  }

  /** Instance i has queued n zeros and nothing else has happened. */
  lemma {:induction false} ZerosQueue(i: nat, n: nat, active: set<nat>)
    requires i in active && i < UART_MAX_INSTANCES && n < UART_TX_BUFFER_SIZE
    ensures By(Zeros(i, n), active)
    ensures var l := After(Zeros(i, n), active);
            && l.tail == Start().tail && l.head == Start().head[i := n] && l.sent == Start().sent
            && l.queued == Start().queued[i := Zeroes(n)]
  {
    hide Cell, Shape, Start, Do, Zeroes;
    if n > 0 {
      ZerosQueue(i, n - 1, active);
      var ops := Zeros(i, n);
      assert ops[..n - 1] == Zeros(i, n - 1) && ops[n - 1] == Put(i, 0);
      ZeroStep(After(Zeros(i, n - 1), active), i, n - 1);
    } else {
      StartUpdates(i);
    }
  }

  lemma StartUpdates(i: nat)
    requires i < UART_MAX_INSTANCES
    ensures Start().head[i := 0] == Start().head && Start().queued[i := Zeroes(0)] == Start().queued
  {
  }

  lemma ZeroStep(l: Lines, i: nat, n: nat)
    requires Shape(l) && i < UART_MAX_INSTANCES && n + 1 < UART_TX_BUFFER_SIZE
    requires l.tail == Start().tail && l.head == Start().head[i := n] && l.sent == Start().sent
    requires l.queued == Start().queued[i := Zeroes(n)]
    ensures var l' := Do(l, Put(i, 0));
            && l'.tail == Start().tail && l'.head == Start().head[i := n + 1] && l'.sent == Start().sent
            && l'.queued == Start().queued[i := Zeroes(n + 1)]
  {
    hide Cell;
    assert l.tail[i] == 0 && l.head[i] == n;
  }

  /** With 257 zeros pending on one instance, the first byte of the next one overwrites the last. */
  lemma NeighboursCollide(i: nat, active: set<nat>)
    requires i in active && i + 1 in active && i + 1 < UART_MAX_INSTANCES
    ensures var ops := Zeros(i, UART_RX_BUFFER_SIZE + 1) + [Put(i + 1, 1)];
            By(ops, active) && !Fifo(After(ops, active), i)
  {
    var zeros := Zeros(i, UART_RX_BUFFER_SIZE + 1);
    ZerosQueue(i, UART_RX_BUFFER_SIZE + 1, active);
    var ops := zeros + [Put(i + 1, 1)];
    assert ops[..|ops| - 1] == zeros && ops[|ops| - 1] == Put(i + 1, 1);
    var l, l' := After(zeros, active), After(ops, active);
    assert l' == Do(l, Put(i + 1, 1));
    hide Do, After, Fifo;
    Collides(l, i);
  }

  lemma Collides(l: Lines, i: nat)
    requires Shape(l) && i + 1 < UART_MAX_INSTANCES && l.tail == Start().tail && l.sent[i] == []
    requires l.head == Start().head[i := UART_RX_BUFFER_SIZE + 1]
    requires l.queued[i] == Zeroes(UART_RX_BUFFER_SIZE + 1)
    ensures !Fifo(Do(l, Put(i + 1, 1)), i)
  {
    hide Zeroes;
    var l' := Do(l, Put(i + 1, 1));
    assert l'.m[Cell(i + 1, 0)] == 1 && Cell(i, UART_RX_BUFFER_SIZE) == Cell(i + 1, 0);
    assert Pending(l', i)[UART_RX_BUFFER_SIZE] == 1;
    assert (l'.sent[i] + Pending(l', i))[UART_RX_BUFFER_SIZE] == 1;
    assert l'.queued[i][UART_RX_BUFFER_SIZE] == 0;
  }

  /** Every active instance sends its bytes in order, over every run. */
  ghost predicate AllFifo(active: set<nat>) {
    forall ops, i :: By(ops, active) && i in active ==> Fifo(After(ops, active), i)
  }

  /** With the rows as declared, every active instance sends its bytes in order over every run exactly
      when no two active instances are neighbours. */
  lemma FifoIff(active: set<nat>)
    requires forall i :: i in active ==> i < UART_MAX_INSTANCES
    ensures AllFifo(active) <==> Apart(active)
  {
    hide Fifo, Cell;
    if Apart(active) {
      forall ops, i | By(ops, active) && i in active ensures Fifo(After(ops, active), i) {
        RunKeepsFifo(ops, active, i);
      }
    } else {
      var i :| i in active && i + 1 in active;
      NeighboursCollide(i, active);
    }
  }

  function Registered(n: nat): (active: set<nat>)
    ensures forall i: nat :: i in active <==> i < n
  {
    if n == 0 then {} else Registered(n - 1) + {n - 1}
  }

  /** Instances are registered from 0 upwards, so the rows serve a single instance only. */
  lemma RegisteredFifoIff(n: nat)
    requires n <= UART_MAX_INSTANCES
    ensures AllFifo(Registered(n)) <==> n <= 1
  {
    var active := Registered(n);
    FifoIff(active);
    hide AllFifo, Registered;
    if n > 1 {
      assert 0 in active && 1 in active;
      assert !Apart(active);
    }
  }
}
