/** Splitting a command line: the in-place tokenizer, against a pure split. */
module Clis {
  import opened Text

  const CLI_MAX_ARGS: nat := 16

  // ---------- splitting a line ----------

  predicate IsSpace(c: char) { c == ' ' || c == '\t' }

  function SkipSpaces(s: string, i: nat): (r: nat)
    requires i <= |s|
    ensures i <= r <= |s| && (forall k :: i <= k < r ==> IsSpace(s[k]))
    ensures r < |s| ==> !IsSpace(s[r])
    decreases |s| - i
  {
    if i < |s| && IsSpace(s[i]) then SkipSpaces(s, i + 1) else i
  }

  function TokenEnd(s: string, i: nat): (r: nat)
    requires i <= |s|
    ensures i <= r <= |s| && (forall k :: i <= k < r ==> !IsSpace(s[k]))
    ensures r < |s| ==> IsSpace(s[r])
    decreases |s| - i
  {
    if i < |s| && !IsSpace(s[i]) then TokenEnd(s, i + 1) else i
  }

  /** Where the words of the line begin, from position i on. */
  function Starts(s: string, i: nat): (r: seq<nat>)
    requires i <= |s|
    ensures forall k :: 0 <= k < |r| ==> i <= r[k] < |s| && !IsSpace(s[r[k]])
    ensures forall j, k :: 0 <= j < k < |r| ==> TokenEnd(s, r[j]) < r[k]
    decreases |s| - i
  {
    var b := SkipSpaces(s, i);
    if b == |s| then [] else
      TokenEndAfter(s, b);
      [b] + Starts(s, TokenEnd(s, b))
  }

  lemma TokenEndAfter(s: string, b: nat)
    requires b < |s| && !IsSpace(s[b])
    ensures TokenEnd(s, b) > b
  {
  }

  /** The words of the line: maximal stretches without spaces or tabs, in order. */
  function Split(s: string): (r: seq<string>)
    ensures |r| == |Starts(s, 0)|
  {
    seq(|Starts(s, 0)|, k requires 0 <= k < |Starts(s, 0)| => s[Starts(s, 0)[k]..TokenEnd(s, Starts(s, 0)[k])])
  }

  lemma ShiftEnds(a: string, b: string, i: nat)
    requires i <= |b|
    ensures SkipSpaces(a + b, |a| + i) == |a| + SkipSpaces(b, i)
    ensures TokenEnd(a + b, |a| + i) == |a| + TokenEnd(b, i)
    decreases |b| - i
  {
    if i < |b| { ShiftEnds(a, b, i + 1); }
  }

  lemma {:induction false} ShiftStarts(a: string, b: string, i: nat)
    requires i <= |b|
    ensures |Starts(a + b, |a| + i)| == |Starts(b, i)|
    ensures forall k :: 0 <= k < |Starts(b, i)| ==> Starts(a + b, |a| + i)[k] == |a| + Starts(b, i)[k]
    decreases |b| - i
  {
    hide SkipSpaces, TokenEnd, Starts;
    ShiftEnds(a, b, i);
    var begin := SkipSpaces(b, i);
    NextStart(b, i);
    NextStart(a + b, |a| + i);
    if begin < |b| {
      ShiftEnds(a, b, begin);
      ShiftStarts(a, b, TokenEnd(b, begin));
    }
  }

  lemma NextStart(s: string, i: nat)
    requires i <= |s|
    ensures var b := SkipSpaces(s, i);
            && (b == |s| ==> Starts(s, i) == [])
            && (b < |s| ==> i <= b < TokenEnd(s, b) && Starts(s, i) == [b] + Starts(s, TokenEnd(s, b)))
  {
    var b := SkipSpaces(s, i);
    if b < |s| { TokenEndAfter(s, b); }
  }

  /** What splitting means, case by case: a blank line has no words, and a word with whatever blanks
      before it is the first of the words. */
  lemma SplitBlank(gap: string)
    requires forall c :: c in gap ==> c == ' ' || c == '\t'
    ensures Split(gap) == []
  {
    forall k | 0 <= k < |gap| ensures IsSpace(gap[k]) { assert gap[k] in gap; }
    NextStart(gap, 0);
  }

  lemma SplitWord(gap: string, word: string, rest: string)
    requires (forall c :: c in gap ==> c == ' ' || c == '\t')
    requires word != "" && (forall c :: c in word ==> c != ' ' && c != '\t')
    requires rest == "" || rest[0] == ' ' || rest[0] == '\t'
    ensures Split(gap + word + rest) == [word] + Split(rest)
  {
    hide Starts, TokenEnd, SkipSpaces, Split;
    var s, e := gap + word + rest, |gap| + |word|;
    FrontSpaces(gap, word, rest);
    FirstStart(s, |gap|, e);
    assert s[|gap|..e] == word;
    SplitAt(s, 0);
    ShiftStarts(gap + word, rest, 0);
    forall k | 0 <= k < |Split(rest)| ensures Split(s)[k + 1] == Split(rest)[k] {
      SplitAt(s, k + 1);
      SplitAt(rest, k);
      ShiftedWord(gap + word, rest, Starts(rest, 0)[k]);
    }
  }

  /** A line without words is a line of blanks. */
  lemma NoWordsIff(s: string)
    ensures Split(s) == [] <==> forall c :: c in s ==> c == ' ' || c == '\t'
  {
    if Split(s) == [] {
      NextStart(s, 0);
      assert SkipSpaces(s, 0) == |s|;
      forall c | c in s ensures c == ' ' || c == '\t' {
        var k :| 0 <= k < |s| && s[k] == c;
        assert IsSpace(s[k]);
      }
    } else if forall c :: c in s ==> c == ' ' || c == '\t' {
      SplitBlank(s);
    }
  }

  lemma {:induction false} StartsFrom(s: string, i: nat, k: nat)
    requires i <= |s| && k < |Starts(s, i)|
    ensures Starts(s, Starts(s, i)[k]) == Starts(s, i)[k..]
    decreases |s| - i
  {
    hide SkipSpaces, TokenEnd;
    NextStart(s, i);
    var b := SkipSpaces(s, i);
    if k == 0 {
      NextStart(s, b);
      WordIsHere(s, b);
    } else {
      StartsFrom(s, TokenEnd(s, b), k - 1);
      hide Starts;
      assert Starts(s, i)[k..] == Starts(s, TokenEnd(s, b))[k - 1..];
    }
  }

  lemma WordIsHere(s: string, b: nat)
    requires b < |s| && !IsSpace(s[b])
    ensures SkipSpaces(s, b) == b
  {
  }

  /** From the start of a word to the end of the line there are that word and all later ones. */
  lemma SplitSuffix(s: string, k: nat)
    requires k < |Split(s)|
    ensures Split(s[Starts(s, 0)[k]..]) == Split(s)[k..]
  {
    hide Starts, Split;
    var p := Starts(s, 0)[k];
    var front, back := s[..p], s[p..];
    assert front + back == s;
    StartsFrom(s, 0, k);
    SplitBack(front, back, k);
  }

  lemma SplitBack(front: string, back: string, k: nat)
    requires k < |Split(front + back)| && Starts(front + back, |front|) == Starts(front + back, 0)[k..]
    ensures Split(back) == Split(front + back)[k..]
  {
    hide Starts, TokenEnd, SkipSpaces, Split;
    ShiftStarts(front, back, 0);
    forall j | 0 <= j < |Split(back)| ensures Split(back)[j] == Split(front + back)[k..][j] {
      SplitAt(back, j);
      SplitAt(front + back, k + j);
      ShiftedWord(front, back, Starts(back, 0)[j]);
    }
  }

  lemma SplitAt(s: string, k: nat)
    requires k < |Starts(s, 0)|
    ensures Split(s)[k] == s[Starts(s, 0)[k]..TokenEnd(s, Starts(s, 0)[k])]
  {
    hide Starts, TokenEnd;
  }

  lemma FrontSpaces(gap: string, word: string, rest: string)
    requires (forall c :: c in gap ==> IsSpace(c)) && (forall c :: c in word ==> !IsSpace(c))
    requires rest == "" || IsSpace(rest[0])
    ensures var s, e := gap + word + rest, |gap| + |word|;
            && (forall k :: 0 <= k < e ==> (IsSpace(s[k]) <==> k < |gap|))
            && (e < |s| ==> IsSpace(s[e]))
  {
    hide IsSpace;
    var s := gap + word + rest;
    forall k | 0 <= k < |gap| + |word| ensures IsSpace(s[k]) <==> k < |gap| {
      if k < |gap| {
        assert s[k] == gap[k] && gap[k] in gap;
      } else {
        assert s[k] == word[k - |gap|] && word[k - |gap|] in word;
      }
    }
  }

  lemma ShiftedWord(front: string, rest: string, b: nat)
    requires b <= |rest|
    ensures TokenEnd(front + rest, |front| + b) == |front| + TokenEnd(rest, b)
    ensures (front + rest)[|front| + b..|front| + TokenEnd(rest, b)] == rest[b..TokenEnd(rest, b)]
  {
    hide TokenEnd;
    ShiftEnds(front, rest, b);
    Slices(front, rest, b, TokenEnd(rest, b));
  }

  lemma FirstStart(s: string, b: nat, e: nat)
    requires b < e <= |s| && (forall k :: 0 <= k < e ==> (IsSpace(s[k]) <==> k < b))
    requires e < |s| ==> IsSpace(s[e])
    ensures Starts(s, 0) == [b] + Starts(s, e) && TokenEnd(s, b) == e
  {
    hide SkipSpaces, TokenEnd, Starts, IsSpace;
    NextStart(s, 0);
    assert !IsSpace(s[b]);
  }

  lemma Slices(a: string, b: string, i: nat, j: nat)
    requires i <= j <= |b|
    ensures (a + b)[|a| + i..|a| + j] == b[i..j]
  {
  }

  function Join(words: seq<string>): string {
    if words == [] then ""
    else if |words| == 1 then words[0]
    else words[0] + (" " + Join(words[1..]))
  }

  predicate IsWord(w: string) {
    w != "" && forall c :: c in w ==> !IsSpace(c)
  }

  predicate Plain(words: seq<string>) {
    forall k :: 0 <= k < |words| ==> IsWord(words[k])
  }

  /** Words typed with one blank between them come back as they were. */
  lemma {:induction false} SplitJoin(words: seq<string>)
    requires Plain(words)
    ensures Split(Join(words)) == words
  {
    hide Split, IsWord;
    if words == [] {
      SplitBlank("");
    } else if |words| == 1 {
      SplitFirst("", words[0], "");
      SplitBlank("");
      assert words[0] + "" == words[0];
    } else {
      assert Plain(words[1..]);
      SplitFirst("", words[0], " " + Join(words[1..]));
      SplitJoin(words[1..]);
      BlankFirst(words[1..]);
    }
  }

  lemma BlankFirst(words: seq<string>)
    requires Plain(words) && words != []
    ensures Split(" " + Join(words)) == Split(Join(words))
  {
    hide Split, IsWord;
    var rest := if |words| == 1 then "" else " " + Join(words[1..]);
    assert words[0] + rest == Join(words);
    SplitFirst(" ", words[0], rest);
    SplitFirst("", words[0], rest);
  }

  lemma SplitFirst(gap: string, word: string, rest: string)
    requires (gap == "" || gap == " ") && IsWord(word) && (rest == "" || rest[0] == ' ')
    ensures Split(gap + (word + rest)) == [word] + Split(rest)
    ensures gap == "" ==> Split(word + rest) == [word] + Split(rest)
  {
    hide Split;
    SplitWord(gap, word, rest);
    assert gap + word + rest == gap + (word + rest);
    assert gap == "" ==> gap + (word + rest) == word + rest;
  }

  // ---------- the tokenizer ----------

  /** The words still to come at position p, inside a word or not. */
  function Rest(s: string, p: nat, inside: bool): seq<nat>
    requires p <= |s|
  {
    Starts(s, if inside then TokenEnd(s, p) else p)
  }

  lemma RestStep(s: string, p: nat, inside: bool)
    requires p < |s|
    ensures IsSpace(s[p]) ==> Rest(s, p, inside) == Rest(s, p + 1, false)
    ensures !IsSpace(s[p]) ==> Rest(s, p, inside) == (if inside then [] else [p]) + Rest(s, p + 1, true)
  {
  }

  lemma RestEnds(s: string, inside: bool)
    ensures Rest(s, |s|, inside) == []
  {
  }

  /** Positions before p have been visited: their separators are NUL now. */
  ghost predicate Visited(line: seq<char>, was: seq<char>, p: nat)
    requires p <= |line| == |was|
  {
    && (forall k :: 0 <= k < p ==> line[k] == if IsSpace(was[k]) then NUL else was[k])
    && line[p..] == was[p..]
  }

  /** The loop: argv[..argc] holds the first words, the rest are still to come, and the loop stands
      right behind the start of the sixteenth word if it has found that many. */
  ghost predicate Scanned(s: string, argv: seq<nat>, argc: nat, p: nat, inside: bool) {
    && p <= |s| && argc <= |argv| == CLI_MAX_ARGS
    && Starts(s, 0) == argv[..argc] + Rest(s, p, inside)
    && (forall k :: 0 <= k < argc ==> argv[k] < p)
    && (argc == CLI_MAX_ARGS ==> p == argv[argc - 1] + 1)
  }

  /** What argv means: each word is a C string of its own, and on a line of more than fifteen words
      the last entry is the whole rest of the line. */
  ghost predicate Tokenized(was: seq<char>, line: seq<char>, argv: seq<nat>, argc: nat) {
    var s := CStr(was, 0);
    var words := Split(s);
    && |line| == |was| && |argv| == CLI_MAX_ARGS
    && argc == (if |words| < CLI_MAX_ARGS then |words| else CLI_MAX_ARGS)
    && forall k :: 0 <= k < argc ==>
         && argv[k] == Starts(s, 0)[k] < |line|
         && CStr(line, argv[k]) == (if k < CLI_MAX_ARGS - 1 then words[k] else s[argv[k]..])
         && Terminated(line, argv[k])
  }

  /** The state between two characters. */
  ghost predicate Scanning(was: seq<char>, line: seq<char>, argv: seq<nat>, argc: nat, p: nat, inside: bool) {
    && |line| == |was| && p <= |CStr(was, 0)| < |was|
    && Visited(line, was, p)
    && Scanned(CStr(was, 0), argv, argc, p, inside)
  }

  method Tokenize(line: array<char>, argv: array<nat>) returns (argc: nat)
    requires Terminated(line[..], 0) && argv.Length == CLI_MAX_ARGS
    modifies line, argv
    ensures Tokenized(old(line[..]), line[..], argv[..], argc)
    ensures Terminated(line[..], 0)
  {
    hide CStr, Scanning, Tokenized;
    ghost var was := line[..];
    ghost var n := |CStr(was, 0)|;
    argc := 0;
    var isToken := false;
    var p := 0;
    ScanBegins(was, argv[..]);
    while line[p] != NUL && argc < CLI_MAX_ARGS
      invariant p <= n < line.Length && Scanning(was, line[..], argv[..], argc, p, isToken)
      invariant argc <= CLI_MAX_ARGS
      decreases n - p
    {
      ghost var entered := p;
      Looks(was, line[..], argv[..], argc, p, isToken);
      while line[p] == ' ' || line[p] == '\t'
        invariant entered <= p <= n && Scanning(was, line[..], argv[..], argc, p, isToken)
        invariant p == entered ==> line[p] != NUL
        decreases n - p
      {
        Looks(was, line[..], argv[..], argc, p, isToken);
        ScanSpace(was, line[..], argv[..], argc, p, isToken);
        line[p] := NUL;
        p := p + 1;
        isToken := false;
      }
      Looks(was, line[..], argv[..], argc, p, isToken);
      if line[p] == NUL { break; }
      if !isToken {
        ScanStart(was, line[..], argv[..], argc, p);
        argv[argc] := p;
        argc := argc + 1;
        isToken := true;
      } else {
        ScanInside(was, line[..], argv[..], argc, p);
      }
      p := p + 1;
    }
    Looks(was, line[..], argv[..], argc, p, isToken);
    Finish(was, line[..], argv[..], argc, p, isToken);
  }

  lemma ScanBegins(was: seq<char>, argv: seq<nat>)
    requires Terminated(was, 0) && |argv| == CLI_MAX_ARGS
    ensures Scanning(was, was, argv, 0, 0, false)
  {
  }

  /** The character under the pointer is the original one. */
  lemma Looks(was: seq<char>, line: seq<char>, argv: seq<nat>, argc: nat, p: nat, inside: bool)
    requires Scanning(was, line, argv, argc, p, inside)
    ensures p <= |CStr(was, 0)| < |line|
    ensures line[p] == NUL <==> p == |CStr(was, 0)|
    ensures p < |CStr(was, 0)| ==> line[p] == CStr(was, 0)[p]
  {
    assert line[p..][0] == was[p..][0];
    if p < |CStr(was, 0)| { assert CStr(was, 0)[p] in CStr(was, 0); }
  }

  lemma VisitedStep(was: seq<char>, line: seq<char>, p: nat)
    requires p < |line| == |was| && Visited(line, was, p)
    ensures IsSpace(was[p]) ==> Visited(line[p := NUL], was, p + 1)
    ensures !IsSpace(was[p]) ==> Visited(line, was, p + 1)
  {
    assert line[p..][0] == was[p..][0];
    assert line[p + 1..] == line[p..][1..] && was[p + 1..] == was[p..][1..];
    assert line[p := NUL][p + 1..] == line[p + 1..];
  }

  lemma ScanSpace(was: seq<char>, line: seq<char>, argv: seq<nat>, argc: nat, p: nat, inside: bool)
    requires Scanning(was, line, argv, argc, p, inside) && argc < CLI_MAX_ARGS
    requires p < |CStr(was, 0)| && IsSpace(CStr(was, 0)[p])
    ensures Scanning(was, line[p := NUL], argv, argc, p + 1, false)
  {
    hide Visited, CStr, Starts, Rest;
    RestStep(CStr(was, 0), p, inside);
    VisitedStep(was, line, p);
  }

  lemma ScanInside(was: seq<char>, line: seq<char>, argv: seq<nat>, argc: nat, p: nat)
    requires Scanning(was, line, argv, argc, p, true) && argc < CLI_MAX_ARGS
    requires p < |CStr(was, 0)| && !IsSpace(CStr(was, 0)[p])
    ensures Scanning(was, line, argv, argc, p + 1, true)
  {
    hide Visited, CStr, Starts, Rest;
    RestStep(CStr(was, 0), p, true);
    VisitedStep(was, line, p);
  }

  lemma ScanStart(was: seq<char>, line: seq<char>, argv: seq<nat>, argc: nat, p: nat)
    requires Scanning(was, line, argv, argc, p, false) && argc < CLI_MAX_ARGS
    requires p < |CStr(was, 0)| && !IsSpace(CStr(was, 0)[p])
    ensures Scanning(was, line, argv[argc := p], argc + 1, p + 1, true)
  {
    hide Visited, CStr, Starts, Rest;
    var rest := Rest(CStr(was, 0), p + 1, true);
    RestStep(CStr(was, 0), p, false);
    VisitedStep(was, line, p);
    assert argv[argc := p][..argc + 1] == argv[..argc] + [p];
    assert argv[..argc] + ([p] + rest) == argv[argc := p][..argc + 1] + rest;
  }

  lemma Finish(was: seq<char>, line: seq<char>, argv: seq<nat>, argc: nat, p: nat, inside: bool)
    requires Scanning(was, line, argv, argc, p, inside)
    requires p == |CStr(was, 0)| || argc == CLI_MAX_ARGS
    ensures Tokenized(was, line, argv, argc) && Terminated(line, 0)
  {
    hide CStr, Starts, Rest, Split, Visited, TokenEnd;
    var s := CStr(was, 0);
    RestEnds(s, inside);
    var starts := Starts(s, 0);
    LineEnd(was, line, p);
    TerminatedBy(line, 0, |s|);
    forall k | 0 <= k < argc
      ensures argv[k] == starts[k] < |line|
      ensures CStr(line, argv[k]) == if k < CLI_MAX_ARGS - 1 then Split(s)[k] else s[argv[k]..]
      ensures Terminated(line, argv[k])
    {
      FinishWord(was, line, argv, argc, p, inside, k);
    }
  }

  lemma FinishWord(was: seq<char>, line: seq<char>, argv: seq<nat>, argc: nat, p: nat, inside: bool, k: nat)
    requires Scanning(was, line, argv, argc, p, inside) && k < argc
    requires p == |CStr(was, 0)| || argc == CLI_MAX_ARGS
    ensures k < |Starts(CStr(was, 0), 0)| && argv[k] == Starts(CStr(was, 0), 0)[k] < |CStr(was, 0)|
    ensures CStr(line, argv[k]) ==
            if k < CLI_MAX_ARGS - 1 then Split(CStr(was, 0))[k] else CStr(was, 0)[argv[k]..]
    ensures Terminated(line, argv[k])
  {
    hide CStr, Starts, Rest, Visited, TokenEnd, Split;
    var s := CStr(was, 0);
    var starts := Starts(s, 0);
    assert argv[k] == argv[..argc][k] == starts[k];
    SplitAt(s, k);
    RestEnds(s, inside);
    if k < CLI_MAX_ARGS - 1 {
      if k + 1 < argc {
        assert argv[k + 1] == argv[..argc][k + 1] == starts[k + 1];
      }
      WordIsString(was, line, p, starts[k]);
    } else {
      RestIsString(was, line, p, starts[k]);
    }
  }

  lemma LineEnd(was: seq<char>, line: seq<char>, p: nat)
    requires |line| == |was| && p <= |CStr(was, 0)| < |was| && Visited(line, was, p)
    ensures line[|CStr(was, 0)|] == NUL
  {
    var n := |CStr(was, 0)|;
    assert line[p..][n - p] == was[p..][n - p];
  }

  lemma {:induction false} TerminatedBy(buf: seq<char>, at: nat, n: nat)
    requires at <= n < |buf| && buf[n] == NUL
    ensures Terminated(buf, at)
    decreases n - at
  {
    if buf[at] != NUL { TerminatedBy(buf, at + 1, n); }
  }

  /** A word whose end has been visited is followed by NUL. */
  lemma WordIsString(was: seq<char>, line: seq<char>, p: nat, b: nat)
    requires |line| == |was| && p <= |CStr(was, 0)| < |was| && Visited(line, was, p)
    requires b < p && !IsSpace(CStr(was, 0)[b])
    requires var e := TokenEnd(CStr(was, 0), b); e < p || (e == p == |CStr(was, 0)|)
    ensures CStr(line, b) == CStr(was, 0)[b..TokenEnd(CStr(was, 0), b)]
  {
    var s := CStr(was, 0);
    var e := TokenEnd(s, b);
    forall k | b <= k < e ensures line[k] == s[k] != NUL { assert s[k] in s; }
    LineEnd(was, line, p);
    SameSlice(line, s, b, e);
    CStrUnique(line, b, e - b);
  }

  lemma SameSlice(line: seq<char>, s: string, b: nat, e: nat)
    requires b <= e <= |line| && e <= |s| && forall k :: b <= k < e ==> line[k] == s[k] != NUL
    ensures line[b..e] == s[b..e] && NUL !in line[b..e]
  {
  }

  lemma RestIsString(was: seq<char>, line: seq<char>, p: nat, b: nat)
    requires |line| == |was| && p <= |CStr(was, 0)| < |was| && Visited(line, was, p)
    requires p == b + 1 && !IsSpace(CStr(was, 0)[b])
    ensures CStr(line, b) == CStr(was, 0)[b..]
  {
    var s := CStr(was, 0);
    forall k | b <= k < |s| ensures line[k] == s[k] != NUL {
      assert s[k] in s;
      if k >= p { assert line[p..][k - p] == was[p..][k - p]; }
    }
    LineEnd(was, line, p);
    SameSlice(line, s, b, |s|);
    assert s[b..|s|] == s[b..];
    CStrUnique(line, b, |s| - b);
  }
}
