/** cli_printf: the bounded formatter, against an unbounded expansion of the format. */
module Printf {
  import opened Machine
  import opened Text

  const CLI_MAX_LINE_LEN: nat := 128
  const LIMIT: nat := 127  // room for characters; the last cell takes the NUL

  /** What va_arg delivers; a string argument may be NULL. */
  datatype Arg =
    | Int(i: int)
    | Uint(u: Word)
    | Str(s: string)
    | NullStr
    | Chr(c: char)

  // ---------- the format language ----------

  /** The conversion characters that take an argument. */
  predicate TakesArg(c: char) {
    c == 'd' || c == 'u' || c == 'x' || c == 's' || c == 'c'
  }

  /** The argument has the type the conversion asks for; the most negative int cannot be negated. */
  predicate Suits(c: char, a: Arg) {
    match c
    case 'd' => a.Int? && -INT_MAX <= a.i <= INT_MAX
    case 'u' => a.Uint?
    case 'x' => a.Uint?
    case 's' => a.NullStr? || (a.Str? && NUL !in a.s)
    case 'c' => a.Chr?
    case _ => true
  }

  /** C's own demands on the caller: no conversion cut off by the end of the format, and for each
      conversion an argument of its type. */
  predicate WellFormed(fmt: string, args: seq<Arg>) {
    if fmt == "" then true
    else if fmt[0] != '%' then WellFormed(fmt[1..], args)
    else if |fmt| == 1 then false
    else if TakesArg(fmt[1]) then args != [] && Suits(fmt[1], args[0]) && WellFormed(fmt[2..], args[1..])
    else WellFormed(fmt[2..], args)
  }

  /** What one conversion stands for; an unknown one stands for nothing. */
  function Piece(c: char, a: Arg): string
    requires Suits(c, a)
  {
    match c
    case 'd' => if a.i < 0 then "-" + Numeral(-a.i, 10) else Numeral(a.i, 10)
    case 'u' => Numeral(a.u, 10)
    case 'x' => "0x" + Numeral(a.u, 16)
    case 's' => if a.Str? then a.s else ""
    case 'c' => [a.c]
    case '%' => "%"
    case _ => ""
  }

  /** The full text that a format and its arguments stand for. */
  function Expand(fmt: string, args: seq<Arg>): string
    requires WellFormed(fmt, args)
  {
    if fmt == "" then ""
    else if fmt[0] != '%' then [fmt[0]] + Expand(fmt[1..], args)
    else if TakesArg(fmt[1]) then Piece(fmt[1], args[0]) + Expand(fmt[2..], args[1..])
    else Piece(fmt[1], NullStr) + Expand(fmt[2..], args)
  }

  function Clip(s: string): (r: string)
    ensures |r| <= LIMIT && r <= s && (|s| <= LIMIT ==> r == s)
  {
    if |s| <= LIMIT then s else s[..LIMIT]
  }

  /** The output after `out` has been written: conversions are cut at the limit, and the "0x" of a
      hexadecimal one is left out when it does not fit whole. */
  function Emit(fmt: string, args: seq<Arg>, out: string): (r: string)
    requires WellFormed(fmt, args) && |out| <= LIMIT
    ensures |r| <= LIMIT && out <= r
    decreases |fmt|
  {
    if fmt == "" || |out| == LIMIT then out
    else if fmt[0] != '%' then Emit(fmt[1..], args, out + [fmt[0]])
    else if fmt[1] == 'x' && |out| == LIMIT - 1 then
      Emit(fmt[2..], args[1..], Clip(out + Numeral(args[0].u, 16)))
    else if TakesArg(fmt[1]) then Emit(fmt[2..], args[1..], Clip(out + Piece(fmt[1], args[0])))
    else Emit(fmt[2..], args, Clip(out + Piece(fmt[1], NullStr)))
  }

  /** A hexadecimal conversion of a number other than 0 begins when exactly one place is left. */
  predicate HexAtEdge(fmt: string, args: seq<Arg>, n: nat)
    requires WellFormed(fmt, args)
    decreases |fmt|
  {
    if fmt == "" || n >= LIMIT then false
    else if fmt[0] != '%' then HexAtEdge(fmt[1..], args, n + 1)
    else if fmt[1] == 'x' && n == LIMIT - 1 then args[0].u != 0
    else if TakesArg(fmt[1]) then HexAtEdge(fmt[2..], args[1..], n + |Piece(fmt[1], args[0])|)
    else HexAtEdge(fmt[2..], args, n + |Piece(fmt[1], NullStr)|)
  }

  /** The output is the first 127 characters of the expansion, except that a hexadecimal conversion
      in the very last place prints its first digit where the expansion has '0'. */
  lemma {:induction false} EmitIsPrefixIff(fmt: string, args: seq<Arg>, out: string)
    requires WellFormed(fmt, args) && |out| <= LIMIT
    ensures Emit(fmt, args, out) == Clip(out + Expand(fmt, args)) <==> !HexAtEdge(fmt, args, |out|)
    decreases |fmt|
  {
    hide Numeral, Clip;
    if fmt == "" {
      assert out + "" == out;
    } else if |out| == LIMIT {
      ClipFull(out, Expand(fmt, args));
    } else if fmt[0] != '%' {
      EmitIsPrefixIff(fmt[1..], args, out + [fmt[0]]);
      assert out + ([fmt[0]] + Expand(fmt[1..], args)) == (out + [fmt[0]]) + Expand(fmt[1..], args);
    } else if fmt[1] == 'x' && |out| == LIMIT - 1 {
      HexEdge(fmt, args, out);
    } else {
      var rest := if TakesArg(fmt[1]) then args[1..] else args;
      var piece := Piece(fmt[1], if TakesArg(fmt[1]) then args[0] else NullStr);
      if |out + piece| <= LIMIT {
        EmitIsPrefixIff(fmt[2..], rest, out + piece);
      }
      hide Piece, Numeral, Suits;
      AfterPiece(fmt[2..], rest, out, piece);
    }
  }

  lemma ClipFull(out: string, rest: string)
    requires |out| == LIMIT
    ensures Clip(out + rest) == out
  {
  }

  /** A piece that overruns the limit ends the output and settles the question. */
  lemma AfterPiece(fmt: string, args: seq<Arg>, out: string, piece: string)
    requires WellFormed(fmt, args) && |out| <= LIMIT
    requires |out + piece| <= LIMIT ==>
               (Emit(fmt, args, out + piece) == Clip((out + piece) + Expand(fmt, args))
                <==> !HexAtEdge(fmt, args, |out + piece|))
    ensures Emit(fmt, args, Clip(out + piece)) == Clip(out + (piece + Expand(fmt, args)))
            <==> !HexAtEdge(fmt, args, |out| + |piece|)
  {
    if |out + piece| > LIMIT { FullStays(fmt, args, Clip(out + piece)); FullEdge(fmt, args, |out| + |piece|); }
    hide Emit, Expand, HexAtEdge, WellFormed, Clip;
    ClipFront(out, piece, Expand(fmt, args));
  }

  lemma ClipFront(out: string, piece: string, rest: string)
    ensures out + (piece + rest) == (out + piece) + rest
    ensures |out + piece| > LIMIT ==> Clip((out + piece) + rest) == Clip(out + piece)
  {
  }

  lemma FullEdge(fmt: string, args: seq<Arg>, n: nat)
    requires WellFormed(fmt, args) && n >= LIMIT
    ensures !HexAtEdge(fmt, args, n)
  {
  }

  lemma HexEdge(fmt: string, args: seq<Arg>, out: string)
    requires WellFormed(fmt, args) && |fmt| >= 2 && fmt[0] == '%' && fmt[1] == 'x' && |out| == LIMIT - 1
    ensures Emit(fmt, args, out) == Clip(out + Expand(fmt, args)) <==> args[0].u == 0
  {
    hide Numeral, HexAtEdge, Emit, Expand, WellFormed, Piece, Clip;
    HexStep(fmt, args, out);
    var digits, tail := Numeral(args[0].u, 16), Expand(fmt[2..], args[1..]);
    LeadingDigit(args[0].u, 16);
    EdgeClips(out, digits, digits + tail);
    FullStays(fmt[2..], args[1..], Clip(out + digits));
  }

  lemma FullStays(fmt: string, args: seq<Arg>, out: string)
    requires WellFormed(fmt, args) && |out| <= LIMIT
    ensures |out| == LIMIT ==> Emit(fmt, args, out) == out
  {
  }

  lemma HexStep(fmt: string, args: seq<Arg>, out: string)
    requires WellFormed(fmt, args) && |fmt| >= 2 && fmt[0] == '%' && fmt[1] == 'x' && |out| == LIMIT - 1
    ensures args != [] && args[0].Uint? && WellFormed(fmt[2..], args[1..])
    ensures Emit(fmt, args, out) == Emit(fmt[2..], args[1..], Clip(out + Numeral(args[0].u, 16)))
    ensures Expand(fmt, args) == "0x" + (Numeral(args[0].u, 16) + Expand(fmt[2..], args[1..]))
  {
    hide Numeral;
    var digits, tail := Numeral(args[0].u, 16), Expand(fmt[2..], args[1..]);
    assert ("0x" + digits) + tail == "0x" + (digits + tail);
  }

  lemma EdgeClips(out: string, digits: string, rest: string)
    requires |out| == LIMIT - 1 && digits != ""
    ensures Clip(out + digits) == Clip(out + ("0x" + rest)) <==> digits[0] == '0'
    ensures |Clip(out + digits)| == LIMIT
  {
    assert Clip(out + digits) == out + [digits[0]];
    assert Clip(out + ("0x" + rest)) == out + ['0'];
    assert (out + [digits[0]])[LIMIT - 1] == digits[0] && (out + ['0'])[LIMIT - 1] == '0';
  }

  lemma {:induction false} LeadingDigit(n: nat, b: nat)
    requires 2 <= b <= 16
    ensures Numeral(n, b)[0] == '0' <==> n == 0
  {
    if n >= b {
      Shrinks(n, b);
      LeadingDigit(n / b, b);
    }
  }

  /** What %u prints for n, wherever ten places are left on the line, atoi reads back as n. */
  lemma PrintedThenParsed(n: Word, out: string)
    requires |out| + 10 <= LIMIT
    ensures WellFormed("%u", [Uint(n)])
    ensures var line := Emit("%u", [Uint(n)], out);
            line == out + Numeral(n, 10) && Value(DigitPrefix(line[|out|..])) == n
  {
    hide Numeral, DigitPrefix, Value, Power;
    WordDigits(n);
    var fmt, args := "%u", [Uint(n)];
    assert fmt[2..] == "" && args[1..] == [];
    assert WellFormed(fmt[2..], args[1..]);
    assert Piece('u', args[0]) == Numeral(n, 10);
    assert Emit(fmt, args, out) == Emit("", [], Clip(out + Numeral(n, 10)));
    DecimalRoundTrip(n, "");
    assert Numeral(n, 10) + "" == Numeral(n, 10);
    assert (out + Numeral(n, 10))[|out|..] == Numeral(n, 10);
  }

  /** A format that is a single conversion adds what the conversion stands for, cut at the limit. */
  lemma EmitSingle(c: char, a: Arg, out: string)
    requires |out| < LIMIT && Suits(c, a) && TakesArg(c) && (c == 'x' ==> |out| < LIMIT - 1)
    ensures WellFormed(['%', c], [a]) && Emit(['%', c], [a], out) == Clip(out + Piece(c, a))
  {
    hide Piece, Clip;
    var fmt, args := ['%', c], [a];
    assert fmt[2..] == "" && args[1..] == [] && WellFormed(fmt[2..], args[1..]);
    assert Emit(fmt, args, out) == Emit("", [], Clip(out + Piece(c, a)));
  }

  /** Where eleven places are left, %d prints a minus sign exactly for negative numbers, then the
      digits of the absolute value. */
  lemma PrintsInt(i: int, out: string)
    requires -INT_MAX <= i <= INT_MAX && |out| + 11 <= LIMIT
    ensures WellFormed("%d", [Int(i)])
    ensures var line := Emit("%d", [Int(i)], out);
            && out <= line && |line| > |out|
            && (line[|out|] == '-' <==> i < 0)
            && var digits := line[|out| + (if i < 0 then 1 else 0)..];
            && digits != "" && (forall c :: c in digits ==> IsDigit(c))
            && Value(digits) == (if i < 0 then -i else i)
  {
    hide Emit, Numeral, Value, Clip, WellFormed;
    var n: Word := if i < 0 then -i else i;
    var sign := if i < 0 then "-" else "";
    WordDigits(n);
    ValueOfDecimal(n);
    EmitSingle('d', Int(i), out);
    assert Piece('d', Int(i)) == sign + Numeral(n, 10);
    hide Piece;
    Signed(out, sign, Numeral(n, 10));
  }

  lemma Signed(out: string, sign: string, digits: string)
    requires (sign == "" || sign == "-") && digits != "" && forall c :: c in digits ==> IsDigit(c)
    requires |out| + |sign| + |digits| <= LIMIT
    ensures var line := Clip(out + (sign + digits));
            && out <= line && |line| > |out| && (line[|out|] == '-' <==> sign == "-")
            && line[|out| + |sign|..] == digits
  {
    assert sign == "" ==> digits[0] in digits;
  }

  /** The other conversions: a character, a string cut at the limit, nothing for NULL, and where ten
      places are left "0x" and the digits. */
  lemma PrintsOthers(out: string, c: char, s: string, n: Word)
    requires |out| + 10 <= LIMIT && NUL !in s
    ensures WellFormed("%c", [Chr(c)]) && Emit("%c", [Chr(c)], out) == out + [c]
    ensures WellFormed("%s", [Str(s)]) && Emit("%s", [Str(s)], out) == Clip(out + s)
    ensures WellFormed("%s", [NullStr]) && Emit("%s", [NullStr], out) == out
    ensures WellFormed("%x", [Uint(n)]) && Emit("%x", [Uint(n)], out) == out + "0x" + Numeral(n, 16)
  {
    WordDigits(n);
    EmitSingle('c', Chr(c), out);
    EmitSingle('s', Str(s), out);
    EmitSingle('s', NullStr, out);
    EmitSingle('x', Uint(n), out);
    hide Emit, WellFormed, Numeral;
    assert out + ("0x" + Numeral(n, 16)) == out + "0x" + Numeral(n, 16);
    assert out + "" == out;
  }

  /** "%%" prints one percent sign; a conversion that is none of the known ones prints nothing and
      takes no argument. */
  lemma PrintsPercent(out: string, c: char)
    requires |out| < LIMIT
    ensures WellFormed("%%", []) && Emit("%%", [], out) == out + "%"
    ensures c != 'd' && c != 'u' && c != 'x' && c != 's' && c != 'c' && c != '%' ==>
              WellFormed(['%', c], []) && Emit(['%', c], [], out) == out
  {
    assert "%%"[2..] == "" && ['%', c][2..] == "";
    assert WellFormed("", []) && out + "" == out;
    assert Emit("%%", [], out) == Emit("", [], Clip(out + "%"));
    if !TakesArg(c) && c != '%' {
      assert Emit(['%', c], [], out) == Emit("", [], Clip(out + ""));
    }
  }

  // ---------- the formatter's loops ----------

  function Rev(s: string): (r: string)
    ensures |r| == |s| && forall k :: 0 <= k < |s| ==> r[k] == s[|s| - 1 - k]
  {
    if s == "" then "" else [s[|s| - 1]] + Rev(s[..|s| - 1])
  }

  /** Digits are produced last first, then copied in reverse while there is room. */
  method PutNumber(buff: array<char>, start: nat, n: Word, base: nat) returns (pos: nat)
    requires buff.Length == CLI_MAX_LINE_LEN && start <= LIMIT && (base == 10 || base == 16)
    modifies buff
    ensures start <= pos <= LIMIT && buff[..pos] == Clip(old(buff[..start]) + Numeral(n, base))
  {
    var digitBuff, i := Digits(n, base);
    ghost var text := Numeral(n, base);
    ghost var front := buff[..start];
    pos := start;
    assert front + text[..0] == front;
    while i > 0 && pos < LIMIT
      invariant 0 <= i <= |text| && pos == start + (|text| - i) && start <= pos <= LIMIT
      invariant buff[..pos] == front + text[..|text| - i]
      invariant forall k :: 0 <= k < |text| ==> digitBuff[k] == text[|text| - 1 - k]
    {
      i := i - 1;
      assert digitBuff[i] == text[|text| - 1 - i];
      assert text[..|text| - i] == text[..|text| - i - 1] + [text[|text| - i - 1]];
      buff[pos] := digitBuff[i];
      pos := pos + 1;
    }
    CutAt(front, text, |text| - i);
  }

  lemma CutAt(front: string, text: string, k: nat)
    requires |front| <= LIMIT && k <= |text| && (k == |text| || |front| + k == LIMIT) && |front| + k <= LIMIT
    ensures front + text[..k] == Clip(front + text)
  {
    assert front + text == (front + text[..k]) + text[k..];
    if k == |text| { assert text[..k] == text; }
  }

  /** The do-while loop: at most ten digits, so the bound on i never stops it. */
  method Digits(n: Word, base: nat) returns (digitBuff: array<char>, i: nat)
    requires base == 10 || base == 16
    ensures fresh(digitBuff) && i == |Numeral(n, base)| <= 10 <= digitBuff.Length
    ensures forall k :: 0 <= k < i ==> digitBuff[k] == Numeral(n, base)[i - 1 - k]
  {
    hide Numeral, DigitChar, Rev;
    var limit := if base == 10 then 12 else 10;
    WordDigits(n);
    digitBuff := new char[limit](_ => NUL);
    var value: nat := n;
    i := 0;
    assert Numeral(n, base) == Numeral(value, base) + Rev(digitBuff[..0]);
    while true
      invariant i < 10
      invariant Numeral(n, base) == Numeral(value, base) + Rev(digitBuff[..i])
      decreases value
    {
      ghost var before := digitBuff[..i];
      digitBuff[i] := DigitChar(value % base);
      i := i + 1;
      NextDigit(value, base, before, Numeral(n, base));
      assert digitBuff[..i] == before + [DigitChar(value % base)];
      value := value / base;
      if !(value > 0 && i < limit) { break; }
    }
    assert Numeral(n, base) == Rev(digitBuff[..i]);
  }

  /** One more digit: what is left to print shrinks, what has been printed grows at the front. */
  lemma NextDigit(value: nat, base: nat, printed: string, whole: string)
    requires 2 <= base <= 16 && whole == Numeral(value, base) + Rev(printed)
    ensures var printed' := printed + [DigitChar(value % base)];
            if value / base == 0 then whole == Rev(printed')
            else whole == Numeral(value / base, base) + Rev(printed')
    ensures value / base < value || value == 0
  {
    hide Numeral, DigitChar, Rev;
    NumeralStep(value, base);
    RevStep(if value / base == 0 then "" else Numeral(value / base, base), DigitChar(value % base), printed);
  }

  lemma RevStep(front: string, d: char, printed: string)
    ensures (front + [d]) + Rev(printed) == front + Rev(printed + [d])
    ensures front == "" ==> front + Rev(printed + [d]) == Rev(printed + [d])
  {
    assert (printed + [d])[..|printed|] == printed;
    assert Rev(printed + [d]) == [d] + Rev(printed);
    assert (front + [d]) + Rev(printed) == front + ([d] + Rev(printed));
  }

  lemma NumeralStep(value: nat, base: nat)
    requires 2 <= base <= 16
    ensures Numeral(value, base) ==
              (if value / base == 0 then "" else Numeral(value / base, base)) + [DigitChar(value % base)]
    ensures value / base < value || value == 0
  {
    if value < base {
      assert value / base == 0 && value % base == value;
    } else {
      Shrinks(value, base);
    }
  }

  lemma Shrinks(value: nat, base: nat)
    requires 2 <= base <= value
    ensures 0 < value / base < value
  {
    assert value == base * (value / base) + value % base;
  }

  /** Copies a string argument while there is room. */
  method PutString(buff: array<char>, start: nat, text: string) returns (pos: nat)
    requires buff.Length == CLI_MAX_LINE_LEN && start <= LIMIT
    modifies buff
    ensures start <= pos <= LIMIT && buff[..pos] == Clip(old(buff[..start]) + text)
  {
    ghost var front := buff[..start];
    var k := 0;
    pos := start;
    assert front + text[..0] == front;
    while k < |text| && pos < LIMIT
      invariant k <= |text| && pos == start + k <= LIMIT
      invariant buff[..pos] == front + text[..k]
    {
      assert text[..k + 1] == text[..k] + [text[k]];
      buff[pos] := text[k];
      pos := pos + 1;
      k := k + 1;
    }
    CutAt(front, text, k);
  }

  /** cli_printf up to the call of puts: no write past the last cell of the 128-byte line. */
  method Format(fmt: string, args: seq<Arg>) returns (buff: array<char>, pos: nat)
    requires WellFormed(fmt, args)
    ensures fresh(buff) && buff.Length == CLI_MAX_LINE_LEN && pos <= LIMIT
    ensures buff[..pos] == Emit(fmt, args, "") && buff[pos] == NUL
  {
    hide Piece, Clip;
    buff := new char[CLI_MAX_LINE_LEN](_ => NUL);
    pos := 0;
    var t: nat, a: nat := 0, 0;
    assert buff[..0] == "" && fmt[0..] == fmt && args[0..] == args;
    while t < |fmt| && pos < LIMIT
      invariant t <= |fmt| && a <= |args| && pos <= LIMIT
      invariant WellFormed(fmt[t..], args[a..])
      invariant Emit(fmt, args, "") == Emit(fmt[t..], args[a..], buff[..pos])
      decreases |fmt| - t
    {
      pos, t, a := FormatOne(buff, pos, fmt, t, args, a);
    }
    buff[pos] := NUL;
  }

  /** One turn of the loop: a character of the format, or a conversion. */
  method FormatOne(buff: array<char>, start: nat, fmt: string, from: nat, args: seq<Arg>, used: nat)
      returns (pos: nat, t: nat, a: nat)
    requires buff.Length == CLI_MAX_LINE_LEN && start < LIMIT && from < |fmt| && used <= |args|
    requires WellFormed(fmt[from..], args[used..])
    modifies buff
    ensures from < t <= |fmt| && a <= |args| && pos <= LIMIT && WellFormed(fmt[t..], args[a..])
    ensures Emit(fmt[t..], args[a..], buff[..pos]) == Emit(fmt[from..], args[used..], old(buff[..start]))
  {
    hide Emit, Piece, Clip, WellFormed;
    ghost var f, g, out := fmt[from..], args[used..], buff[..start];
    Tails(fmt, args, from, used);
    EmitStep(f, g, out);
    pos, t, a := start, from, used;
    if fmt[t] == '%' {
      t := t + 1;
      if TakesArg(fmt[t]) {
        pos := Convert(buff, pos, fmt[t], args[a]);
        a := a + 1;
      } else if fmt[t] == '%' {
        buff[pos] := '%';
        pos := pos + 1;
        ClipShort(out, "%");
        assert buff[..pos] == out + "%";
      } else {
        ClipShort(out, "");
        assert out + "" == out;
      }
      t := t + 1;
    } else {
      buff[pos] := fmt[t];
      pos := pos + 1;
      t := t + 1;
      assert buff[..pos] == out + [f[0]];
    }
  }

  lemma ClipShort(out: string, piece: string)
    requires |out| + |piece| <= LIMIT
    ensures Clip(out + piece) == out + piece
  {
  }

  /** What a conversion without an argument prints. */
  function Literal(c: char): string {
    if c == '%' then "%" else ""
  }

  lemma EmitStep(fmt: string, args: seq<Arg>, out: string)
    requires WellFormed(fmt, args) && fmt != "" && |out| < LIMIT
    ensures fmt[0] != '%' ==>
              WellFormed(fmt[1..], args) && Emit(fmt, args, out) == Emit(fmt[1..], args, out + [fmt[0]])
    ensures fmt[0] == '%' ==> |fmt| >= 2
    ensures fmt[0] == '%' && !TakesArg(fmt[1]) ==>
              && WellFormed(fmt[2..], args)
              && Emit(fmt, args, out) == Emit(fmt[2..], args, Clip(out + Literal(fmt[1])))
    ensures fmt[0] == '%' && TakesArg(fmt[1]) ==>
              && args != [] && Suits(fmt[1], args[0]) && WellFormed(fmt[2..], args[1..])
              && Emit(fmt, args, out) == Emit(fmt[2..], args[1..], Clip(out +
                   (if fmt[1] == 'x' && |out| == LIMIT - 1 then Numeral(args[0].u, 16) else Piece(fmt[1], args[0]))))
  {
  }

  lemma Tails(fmt: string, args: seq<Arg>, t: nat, a: nat)
    requires t < |fmt| && a <= |args|
    ensures fmt[t..][0] == fmt[t] && fmt[t..][1..] == fmt[t + 1..]
    ensures t + 1 < |fmt| ==> fmt[t..][1] == fmt[t + 1] && fmt[t..][2..] == fmt[t + 2..]
    ensures a < |args| ==> args[a..][0] == args[a] && args[a..][1..] == args[a + 1..]
  {
  }

  /** One conversion that takes an argument. */
  method Convert(buff: array<char>, start: nat, c: char, arg: Arg) returns (pos: nat)
    requires buff.Length == CLI_MAX_LINE_LEN && start < LIMIT && TakesArg(c) && Suits(c, arg)
    modifies buff
    ensures start <= pos <= LIMIT
    ensures buff[..pos] == Clip(old(buff[..start]) +
              (if c == 'x' && start == LIMIT - 1 then Numeral(arg.u, 16) else Piece(c, arg)))
  {
    ghost var out := buff[..start];
    pos := start;
    match c {
      case 'd' =>
        var value := arg.i;
        if value < 0 {
          buff[pos] := '-';
          pos := pos + 1;
          value := -value;
          assert buff[..pos] == out + "-";
          assert (out + "-") + Numeral(value, 10) == out + ("-" + Numeral(value, 10));
        }
        pos := PutNumber(buff, pos, value, 10);
      case 'u' =>
        pos := PutNumber(buff, pos, arg.u, 10);
      case 'x' =>
        if pos < CLI_MAX_LINE_LEN - 2 {
          buff[pos], buff[pos + 1] := '0', 'x';
          pos := pos + 2;
          assert buff[..pos] == out + "0x";
          assert (out + "0x") + Numeral(arg.u, 16) == out + ("0x" + Numeral(arg.u, 16));
        }
        pos := PutNumber(buff, pos, arg.u, 16);
      case 's' =>
        if arg.Str? {
          pos := PutString(buff, pos, arg.s);
        } else {
          assert out + "" == out;
        }
      case 'c' =>
        buff[pos] := arg.c;
        pos := pos + 1;
        assert buff[..pos] == out + [arg.c];
    }
  }
}
