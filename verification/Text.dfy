/** C strings, and the number and comparison loops of core/utils.c. */
module Text {
  import opened Machine

  const INT_MAX: int := 0x7FFF_FFFF
  const NUL: char := '\0'

  // ---------- C strings ----------

  /** The string that starts at position `at`: everything before the next NUL. */
  function CStr(buf: seq<char>, at: nat): (s: string)
    requires at <= |buf|
    ensures at + |s| <= |buf| && s == buf[at..at + |s|] && NUL !in s
    ensures at + |s| < |buf| ==> buf[at + |s|] == NUL
    decreases |buf| - at
  {
    if at == |buf| || buf[at] == NUL then "" else [buf[at]] + CStr(buf, at + 1)
  }

  /** A NUL follows at or after position `at`. */
  predicate Terminated(buf: seq<char>, at: nat)
    requires at <= |buf|
  {
    at + |CStr(buf, at)| < |buf|
  }

  lemma CStrUnique(buf: seq<char>, at: nat, n: nat)
    requires at + n < |buf| && buf[at + n] == NUL && NUL !in buf[at..at + n]
    ensures CStr(buf, at) == buf[at..at + n]
    decreases n
  {
    if n > 0 {
      assert buf[at] == buf[at..at + n][0];
      assert buf[at + 1..at + n] == buf[at..at + n][1..];
      CStrUnique(buf, at + 1, n - 1);
    }
  }

  // ---------- numerals ----------

  predicate IsDigit(c: char) { '0' <= c <= '9' }

  /** The character printed for digit d. Above nine the code adds d, not d - 10, to 'a'. */
  function DigitChar(d: nat): char
    requires d < 16
  {
    if d < 10 then '0' + (d as char) else 'a' + (d as char)
  }

  /** The numeral of n in base b, without leading zeros. */
  function Numeral(n: nat, b: nat): (s: string)
    requires 2 <= b <= 16
    ensures s != ""
    decreases n
  {
    if n < b then [DigitChar(n)] else Numeral(n / b, b) + [DigitChar(n % b)]
  }

  /** The digits that hexadecimal numerals are usually written with. */
  function HexDigit(d: nat): char
    requires d < 16
  {
    if d < 10 then '0' + (d as char) else 'a' + ((d - 10) as char)
  }

  function Hexadecimal(n: nat): (s: string)
    ensures s != ""
    decreases n
  {
    if n < 16 then [HexDigit(n)] else Hexadecimal(n / 16) + [HexDigit(n % 16)]
  }

  /** No hexadecimal digit of n is above nine. */
  predicate DigitsBelowTen(n: nat) {
    n % 16 < 10 && (n >= 16 ==> DigitsBelowTen(n / 16))
  }

  /** The code prints the usual hexadecimal numeral exactly when it needs no letter. */
  lemma {:induction false} HexIsUsualIff(n: nat)
    ensures Numeral(n, 16) == Hexadecimal(n) <==> DigitsBelowTen(n)
  {
    var s, t := Numeral(n, 16), Hexadecimal(n);
    if n >= 16 {
      HexIsUsualIff(n / 16);
      assert s[..|s| - 1] == Numeral(n / 16, 16) && t[..|t| - 1] == Hexadecimal(n / 16);
      assert s[|s| - 1] == DigitChar(n % 16) && t[|t| - 1] == HexDigit(n % 16);
    } else {
      assert s[0] == DigitChar(n) && t[0] == HexDigit(n);
    }
  }

  /** Ten comes out as k instead of a, and so on up to p. */
  lemma HexLetters(d: nat)
    requires 10 <= d < 16
    ensures Numeral(d, 16) == ["klmnop"[d - 10]] && Hexadecimal(d) == ["abcdef"[d - 10]]
    ensures Numeral(10, 16) == "k" && Hexadecimal(10) == "a"
  {
  }

  function DigitValue(c: char): nat
    requires IsDigit(c)
  {
    (c - '0') as nat
  }

  /** The number that a string of digits denotes. */
  function Value(s: string): nat
    requires forall c :: c in s ==> IsDigit(c)
  {
    if s == "" then 0 else 10 * Value(s[..|s| - 1]) + DigitValue(s[|s| - 1])
  }

  /** The leading digits of a string. */
  function DigitPrefix(s: string): (r: string)
    ensures r <= s && (forall c :: c in r ==> IsDigit(c))
    ensures |r| < |s| ==> !IsDigit(s[|r|])
  {
    if s == "" || !IsDigit(s[0]) then "" else [s[0]] + DigitPrefix(s[1..])
  }

  lemma {:induction false} DecimalDigits(n: nat)
    ensures forall c :: c in Numeral(n, 10) ==> IsDigit(c)
  {
    if n >= 10 { DecimalDigits(n / 10); }
  }

  lemma {:induction false} ValueOfDecimal(n: nat)
    ensures (forall c :: c in Numeral(n, 10) ==> IsDigit(c)) && Value(Numeral(n, 10)) == n
  {
    DecimalDigits(n);
    if n >= 10 {
      ValueOfDecimal(n / 10);
      var s := Numeral(n, 10);
      assert s[..|s| - 1] == Numeral(n / 10, 10);
    }
  }

  /** Parsing what was printed gives the number back, whatever non-digit follows it. */
  lemma DecimalRoundTrip(n: nat, rest: string)
    requires rest == "" || !IsDigit(rest[0])
    ensures DigitPrefix(Numeral(n, 10) + rest) == Numeral(n, 10)
    ensures Value(DigitPrefix(Numeral(n, 10) + rest)) == n
  {
    ValueOfDecimal(n);
    PrefixOfDigits(Numeral(n, 10), rest);
  }

  lemma {:induction false} PrefixOfDigits(ds: string, rest: string)
    requires forall c :: c in ds ==> IsDigit(c)
    requires rest == "" || !IsDigit(rest[0])
    ensures DigitPrefix(ds + rest) == ds
  {
    if ds == "" {
      assert ds + rest == rest;
    } else {
      var all := ds + rest;
      assert all[0] == ds[0] && all[1..] == ds[1..] + rest;
      PrefixOfDigits(ds[1..], rest);
    }
  }

  function Power(b: nat, k: nat): nat {
    if k == 0 then 1 else b * Power(b, k - 1)
  }

  lemma {:induction false} NumeralLength(n: nat, b: nat, k: nat)
    requires 2 <= b <= 16 && 0 < k && n < Power(b, k)
    ensures |Numeral(n, b)| <= k
    decreases k
  {
    assert Power(b, 1) == b * Power(b, 0) == b;
    if n >= b && k > 1 {
      Quotient(n, b, Power(b, k - 1));
      NumeralLength(n / b, b, k - 1);
    }
  }

  lemma Quotient(n: nat, b: nat, p: nat)
    requires 0 < b && n < b * p
    ensures n / b < p
  {
    assert b * (n / b) <= n < b * p;
    assert b * (p - n / b) > 0;
  }

  /** A 32-bit number has at most ten decimal and eight hexadecimal digits. */
  lemma WordDigits(n: Word)
    ensures |Numeral(n, 10)| <= 10 && |Numeral(n, 16)| <= 8
  {
    assert Power(10, 5) == 100000 by {
      assert Power(10, 2) == 100;
      assert Power(10, 4) == 10 * Power(10, 3) == 10000;
    }
    assert Power(10, 7) == 10 * Power(10, 6) == 10000000;
    assert Power(10, 10) == 10 * Power(10, 9) == 10 * (10 * Power(10, 8)) == 10000000000;
    assert Power(16, 2) == 256 && Power(16, 4) == 16 * Power(16, 3) == 65536;
    assert Power(16, 6) == 16 * Power(16, 5) == 16777216;
    assert Power(16, 8) == 16 * Power(16, 7) == 4294967296;
    NumeralLength(n, 10, 10);
    NumeralLength(n, 16, 8);
  }

  // ---------- the loops ----------

  /** atoi: signed overflow is the caller's to avoid. */
  method Atoi(buf: seq<char>, start: nat) returns (res: int)
    requires start <= |buf| && Terminated(buf, start)
    requires Value(DigitPrefix(CStr(buf, start))) <= INT_MAX
    ensures res == Value(DigitPrefix(CStr(buf, start)))
    ensures 0 <= res <= INT_MAX
  {
    hide CStr, DigitPrefix;
    ghost var digits := DigitPrefix(CStr(buf, start));
    var p := start;
    res := 0;
    assert digits[..0] == "";
    while buf[p] != NUL && '0' <= buf[p] <= '9'
      invariant start <= p <= start + |digits| && p < |buf|
      invariant res == Value(digits[..p - start])
      decreases |buf| - p
    {
      AtoiStep(buf, start, p);
      var interim := (buf[p] - '0') as int;
      res := res * 10 + interim;
      p := p + 1;
    }
    AtoiStops(buf, start, p);
  }

  lemma AtoiStep(buf: seq<char>, start: nat, p: nat)
    requires start <= |buf| && Terminated(buf, start)
    requires var ds := DigitPrefix(CStr(buf, start)); start <= p <= start + |ds|
    requires p < |buf| && IsDigit(buf[p])
    ensures var ds := DigitPrefix(CStr(buf, start));
            && p - start < |ds| && ds[p - start] == buf[p] && p + 1 < |buf|
            && ds[..p - start + 1][..p - start] == ds[..p - start]
  {
    hide CStr, DigitPrefix;
    var s := CStr(buf, start);
    var ds := DigitPrefix(s);
    if p - start < |s| { assert s[p - start] == buf[p]; }
  }

  lemma AtoiStops(buf: seq<char>, start: nat, p: nat)
    requires start <= |buf| && Terminated(buf, start)
    requires var ds := DigitPrefix(CStr(buf, start)); start <= p <= start + |ds|
    requires p < |buf| && !IsDigit(buf[p])
    ensures var ds := DigitPrefix(CStr(buf, start)); p - start == |ds| && ds[..p - start] == ds
  {
    hide CStr, DigitPrefix;
    var s := CStr(buf, start);
    var ds := DigitPrefix(s);
    forall j | start <= j < start + |ds| ensures IsDigit(buf[j]) {
      assert ds[j - start] in ds && ds[j - start] == s[j - start] == buf[j];
    }
  }

  /** strcmp: zero exactly for equal strings, otherwise the difference at the first mismatch. */
  method StrCmp(a: seq<char>, i: nat, b: seq<char>, j: nat) returns (r: int)
    requires i <= |a| && Terminated(a, i) && j <= |b| && Terminated(b, j)
    ensures r == 0 <==> CStr(a, i) == CStr(b, j)
    ensures r != 0 ==> exists k :: 0 <= k <= |CStr(a, i)| && k <= |CStr(b, j)|
                         && CStr(a, i)[..k] == CStr(b, j)[..k] && r == a[i + k] as int - b[j + k] as int
  {
    var k := 0;
    ghost var s, t := CStr(a, i), CStr(b, j);
    while a[i + k] != NUL && a[i + k] == b[j + k]
      invariant k <= |s| && k <= |t| && s[..k] == t[..k]
      decreases |a| - i - k
    {
      assert k < |s| && k < |t| && s[k] == a[i + k] && t[k] == b[j + k];
      assert s[..k + 1] == s[..k] + [s[k]] && t[..k + 1] == t[..k] + [t[k]];
      k := k + 1;
    }
    r := a[i + k] as int - b[j + k] as int;
    StrCmpStops(a, i, b, j, k);
  }

  lemma StrCmpStops(a: seq<char>, i: nat, b: seq<char>, j: nat, k: nat)
    requires i <= |a| && Terminated(a, i) && j <= |b| && Terminated(b, j)
    requires var s, t := CStr(a, i), CStr(b, j); k <= |s| && k <= |t| && s[..k] == t[..k]
    requires a[i + k] == NUL || a[i + k] != b[j + k]
    ensures a[i + k] == b[j + k] <==> CStr(a, i) == CStr(b, j)
  {
    var s, t := CStr(a, i), CStr(b, j);
    if k < |s| { assert s[k] == a[i + k]; assert s[k] in s; }
    if k < |t| { assert t[k] == b[j + k]; assert t[k] in t; }
  }
}
