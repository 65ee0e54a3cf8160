/** The console task: the line editor, the table of commands, and the dispatch of a finished line. */
module Consoles {
  import opened Machine
  import opened Text
  import opened Clis
  import P = Printf

  const CLI_MAX_CMDS: nat := 32
  const CLI_OK: int := 0
  const CLI_ERR: int := -1
  const CLI_ERR_NOCMD: int := -2

  datatype Command = Command(name: string, handler: int)

  /** What the console does to the outside: text for the terminal, and handlers called. */
  datatype Effect = Puts(text: string) | Invoke(handler: int, args: seq<string>)

  predicate Named(cmds: seq<Command>) {
    forall k :: 0 <= k < |cmds| ==> NUL !in cmds[k].name
  }

  // ---------- the table of commands ----------

  /** The first command of that name from position i on; the length of the table if there is none. */
  function LookupFrom(cmds: seq<Command>, name: string, i: nat): (r: nat)
    requires i <= |cmds|
    ensures i <= r <= |cmds| && (r < |cmds| ==> cmds[r].name == name)
    ensures forall k :: i <= k < r ==> cmds[k].name != name
    decreases |cmds| - i
  {
    if i == |cmds| || cmds[i].name == name then i else LookupFrom(cmds, name, i + 1)
  }

  function Lookup(cmds: seq<Command>, name: string): (r: nat)
    ensures r <= |cmds| && (r < |cmds| ==> cmds[r].name == name)
    ensures forall k :: 0 <= k < r ==> cmds[k].name != name
  {
    LookupFrom(cmds, name, 0)
  }

  /** The command that a name runs. */
  function Runs(cmds: seq<Command>, name: string): Option<Command> {
    if Lookup(cmds, name) < |cmds| then Some(cmds[Lookup(cmds, name)]) else None
  }

  /** The last command takes the place of the one that goes. */
  function Without(cmds: seq<Command>, name: string): seq<Command> {
    var i := Lookup(cmds, name);
    if i == |cmds| then cmds else cmds[i := cmds[|cmds| - 1]][..|cmds| - 1]
  }

  lemma LookupAt(cmds: seq<Command>, name: string, i: nat)
    requires i <= |cmds| && (i < |cmds| ==> cmds[i].name == name)
    requires forall k :: 0 <= k < i ==> cmds[k].name != name
    ensures Lookup(cmds, name) == i
  {
  }

  /** A registration is undone by its name unless an older, different command has that name: then
      the older one is replaced. */
  lemma UnregisterUndoesIff(cmds: seq<Command>, cmd: Command)
    ensures Without(cmds + [cmd], cmd.name) == cmds <==>
            (Runs(cmds, cmd.name) == None || Runs(cmds, cmd.name) == Some(cmd))
  {
    var i := Lookup(cmds, cmd.name);
    LookupAt(cmds + [cmd], cmd.name, i);
    assert (cmds + [cmd])[i := cmd][..|cmds|] == if i < |cmds| then cmds[i := cmd] else cmds;
  }

  /** Taking one command out changes what another name runs exactly when that name was registered
      twice, differently, and the last registration moves in front of the one that used to win. */
  lemma UnregisterSparesIff(cmds: seq<Command>, gone: string, name: string)
    requires name != gone && Lookup(cmds, gone) < |cmds|
    ensures Runs(Without(cmds, gone), name) == Runs(cmds, name) <==>
            !(cmds[|cmds| - 1].name == name && Lookup(cmds, gone) < Lookup(cmds, name)
              && cmds[Lookup(cmds, name)] != cmds[|cmds| - 1])
  {
    hide Lookup;
    var i, j, last := Lookup(cmds, gone), Lookup(cmds, name), |cmds| - 1;
    var rest := Without(cmds, gone);
    assert forall k :: 0 <= k < last ==> rest[k] == if k == i then cmds[last] else cmds[k];
    if i == last {
      LookupAt(rest, name, if j < last then j else last);
    } else if cmds[last].name == name {
      LookupAt(rest, name, if j < i then j else i);
    } else {
      LookupAt(rest, name, if j < last then j else last);
    }
  }

  // ---------- the answer to a finished line ----------

  /** The words of the line; on a line of more than fifteen the last is all that is left. */
  function Args(s: string): (r: seq<string>)
    ensures |r| <= CLI_MAX_ARGS && (|Split(s)| < CLI_MAX_ARGS ==> r == Split(s))
  {
    if |Split(s)| < CLI_MAX_ARGS then Split(s)
    else Split(s)[..CLI_MAX_ARGS - 1] + [s[Starts(s, 0)[CLI_MAX_ARGS - 1]..]]
  }

  /** On a longer line the handler gets the first fifteen words, and a sixteenth argument that is the
      end of the line and holds all the other words. */
  lemma LongLine(s: string)
    requires |Split(s)| >= CLI_MAX_ARGS
    ensures |Args(s)| == CLI_MAX_ARGS && Args(s)[..15] == Split(s)[..15]
    ensures Split(Args(s)[15]) == Split(s)[15..]
    ensures |Args(s)[15]| <= |s| && Args(s)[15] == s[|s| - |Args(s)[15]|..]
  {
    hide Split, Starts;
    SplitSuffix(s, CLI_MAX_ARGS - 1);
  }

  const COMPLAINT: string := "Unknown command: "
  const UNKNOWN: string := COMPLAINT + "%s\r\n"
  const HINT: string := "Type 'help' for list.\r\n"

  function Complaint(name: string): seq<Effect> {
    [Puts(P.Clip(COMPLAINT + name + "\r\n")), Puts(HINT)]
  }

  function Reply(cmds: seq<Command>, prompt: string, line: string): seq<Effect> {
    var args := Args(line);
    if args == [] then [Puts(prompt)]
    else
      (match Runs(cmds, args[0])
       case Some(cmd) => [Invoke(cmd.handler, args)]
       case None => Complaint(args[0]))
      + [Puts(prompt)]
  }

  lemma {:induction false} LiteralFront(lit: string, rest: string, args: seq<P.Arg>, n: nat)
    requires '%' !in lit && P.WellFormed(rest, args)
    ensures P.WellFormed(lit + rest, args)
    ensures P.Expand(lit + rest, args) == lit + P.Expand(rest, args)
    ensures P.HexAtEdge(lit + rest, args, n) == P.HexAtEdge(rest, args, n + |lit|)
  {
    if lit == "" {
      assert lit + rest == rest;
    } else {
      LiteralFront(lit[1..], rest, args, n + 1);
      assert (lit + rest)[1..] == lit[1..] + rest && (lit + rest)[0] == lit[0];
    }
  }

  lemma LiteralText(lit: string)
    requires '%' !in lit && |lit| <= P.LIMIT
    ensures P.WellFormed(lit, []) && P.Emit(lit, [], "") == lit
  {
    LiteralFront(lit, "", [], 0);
    assert lit + "" == lit && "" + lit == lit;
    P.EmitIsPrefixIff(lit, [], "");
  }

  /** What the formatter prints about an unknown name: a long one loses the end of the line. */
  lemma UnknownText(name: string)
    requires NUL !in name
    ensures P.WellFormed(UNKNOWN, [P.Str(name)])
    ensures P.Emit(UNKNOWN, [P.Str(name)], "") == P.Clip("Unknown command: " + name + "\r\n")
    ensures Complaint(name) ==
            [Puts(P.Clip("Unknown command: " + name + "\r\n")), Puts("Type 'help' for list.\r\n")]
    ensures P.Emit(UNKNOWN, [P.Str(name)], "") != ""
  {
    assert '%' !in COMPLAINT;
    hide P.WellFormed, P.Expand, P.HexAtEdge, P.Emit, P.Clip;
    NamedText(COMPLAINT, name);
  }

  lemma NamedText(front: string, name: string)
    requires '%' !in front && front != "" && NUL !in name
    ensures P.WellFormed(front + "%s\r\n", [P.Str(name)])
    ensures P.Emit(front + "%s\r\n", [P.Str(name)], "") == P.Clip(front + name + "\r\n") != ""
  {
    UnknownTail(name, |front|);
    hide P.WellFormed, P.Expand, P.HexAtEdge, P.Emit, P.Clip;
    LiteralFront(front, "%s\r\n", [P.Str(name)], 0);
    P.EmitIsPrefixIff(front + "%s\r\n", [P.Str(name)], "");
    Reassociate(front, name, "\r\n");
  }

  lemma Reassociate(a: string, b: string, c: string)
    requires a != ""
    ensures "" + (a + (b + c)) == a + b + c
    ensures P.Clip(a + b + c) != ""
  {
  }

  lemma UnknownTail(name: string, n: nat)
    requires NUL !in name
    ensures P.WellFormed("%s\r\n", [P.Str(name)])
    ensures P.Expand("%s\r\n", [P.Str(name)]) == name + "\r\n"
    ensures !P.HexAtEdge("%s\r\n", [P.Str(name)], n)
  {
    var tail, args := "%s\r\n", [P.Str(name)];
    assert tail[2..] == "\r\n" && args[1..] == [];
    LiteralFront("\r\n", "", [], n + |name|);
    assert "\r\n" + "" == "\r\n";
  }

  // ---------- the line editor ----------

  predicate Ends(c: char) { c == '\r' || c == '\n' }

  const BS: char := '\U{8}'
  const DEL: char := '\U{7F}'

  predicate Erases(c: char) { c == BS || c == DEL }

  predicate Prints(c: char) { ' ' <= c <= '~' }

  /** What a line can hold. */
  predicate IsLine(text: string) {
    |text| <= P.LIMIT && forall c :: c in text ==> Prints(c)
  }

  /** The line after a key. */
  function Edit(text: string, c: char): (r: string)
    ensures IsLine(text) ==> IsLine(r)
  {
    if Ends(c) then ""
    else if Erases(c) then (if text == "" then "" else text[..|text| - 1])
    else if Prints(c) && |text| < P.LIMIT then text + [c]
    else text
  }

  /** What a key makes the console do. */
  function Answer(cmds: seq<Command>, prompt: string, text: string, c: char): seq<Effect> {
    if Ends(c) then [Puts("\r\n")] + Reply(cmds, prompt, text)
    else if Erases(c) then (if text == "" then [] else [Puts([BS, ' ', BS])])
    else if Prints(c) && |text| < P.LIMIT then [Puts([c])]
    else []
  }

  function Typed(text: string, keys: string): (r: string)
    ensures IsLine(text) ==> IsLine(r)
    decreases keys
  {
    if keys == "" then text else Typed(Edit(text, keys[0]), keys[1..])
  }

  function Answers(cmds: seq<Command>, prompt: string, text: string, keys: string): seq<Effect>
    decreases keys
  {
    if keys == "" then []
    else Answer(cmds, prompt, text, keys[0]) + Answers(cmds, prompt, Edit(text, keys[0]), keys[1..])
  }

  lemma {:induction false} TypedInTwo(cmds: seq<Command>, prompt: string, text: string, a: string, b: string)
    ensures Typed(text, a + b) == Typed(Typed(text, a), b)
    ensures Answers(cmds, prompt, text, a + b) ==
            Answers(cmds, prompt, text, a) + Answers(cmds, prompt, Typed(text, a), b)
    decreases a
  {
    hide Reply;
    if a == "" {
      assert a + b == b;
    } else {
      assert (a + b)[0] == a[0] && (a + b)[1..] == a[1..] + b;
      TypedInTwo(cmds, prompt, Edit(text, a[0]), a[1..], b);
    }
  }

  /** What each key does, by its code: 10 and 13 finish the line, 8 and 127 erase its last character
      and rub it out on the terminal, 32 to 126 are added and echoed while there is room, and all
      others are ignored. */
  lemma KeyEffects(cmds: seq<Command>, prompt: string, text: string, c: char)
    ensures var code, next, shown := c as int, Edit(text, c), Answer(cmds, prompt, text, c);
            && (code == 10 || code == 13 ==> next == "" && shown == [Puts("\r\n")] + Reply(cmds, prompt, text))
            && (code == 8 || code == 127 ==>
                  if text == "" then next == "" && shown == []
                  else next == text[..|text| - 1] && shown == [Puts([8 as char, ' ', 8 as char])])
            && (32 <= code <= 126 ==>
                  if |text| < 127 then next == text + [c] && shown == [Puts([c])] else next == text && shown == [])
            && (code !in {8, 10, 13, 127} && !(32 <= code <= 126) ==> next == text && shown == [])
  {
    hide Reply;
  }

  function Invocations(effects: seq<Effect>): nat {
    if effects == [] then 0
    else Invocations(effects[..|effects| - 1]) + (if effects[|effects| - 1].Invoke? then 1 else 0)
  }

  /** After every finished line, whatever it holds, the terminal gets a new line first and the prompt
      last; one handler is called if the first word is a registered name, and none otherwise; and on a
      line of blanks nothing else happens. */
  lemma FinishedLine(cmds: seq<Command>, prompt: string, text: string, enter: char)
    requires Ends(enter)
    ensures Typed(text, [enter]) == ""
    ensures var shown := Answers(cmds, prompt, text, [enter]);
            && |shown| >= 2 && shown[0] == Puts("\r\n") && shown[|shown| - 1] == Puts(prompt)
            && Invocations(shown) ==
               (if Split(text) != [] && exists k :: 0 <= k < |cmds| && cmds[k].name == Split(text)[0] then 1 else 0)
            && ((forall c :: c in text ==> c == ' ' || c == '\t') ==> shown == [Puts("\r\n"), Puts(prompt)])
  {
    hide Answers, Typed, Split, Starts, Reply, Invocations;
    EnterAnswers(cmds, prompt, text, enter);
    NoWordsIff(text);
    ReplyShape(cmds, prompt, text);
    CountReply(Reply(cmds, prompt, text), prompt);
  }

  lemma CountReply(reply: seq<Effect>, prompt: string)
    requires 0 < |reply| <= 3 && reply[|reply| - 1] == Puts(prompt)
    requires (|reply| == 3 ==> reply[0].Puts? && reply[1].Puts?) && (|reply| == 2 ==> reply[0].Invoke?)
    ensures Invocations([Puts("\r\n")] + reply) == if |reply| == 2 then 1 else 0
  {
    hide Invocations;
    var body := reply[..|reply| - 1];
    var nl: seq<Effect> := [Puts("\r\n")];
    assert nl + reply == nl + body + [Puts(prompt)];
    InvocationsOf(nl, body, Puts(prompt));
  }

  /** The reply is what the words call for, then the prompt. */
  lemma ReplyShape(cmds: seq<Command>, prompt: string, text: string)
    ensures var reply := Reply(cmds, prompt, text);
            && reply != [] && reply[|reply| - 1] == Puts(prompt)
            && (Split(text) == [] ==> reply == [Puts(prompt)])
            && |reply| <= 3 && (|reply| == 3 ==> reply[0].Puts? && reply[1].Puts?)
            && (|reply| == 2 ==> reply[0].Invoke?)
            && (|reply| == 2 <==>
                Split(text) != [] && exists k :: 0 <= k < |cmds| && cmds[k].name == Split(text)[0])
  {
    hide Split, Starts;
    var args := Args(text);
    assert Split(text) != [] ==> args != [] && args[0] == Split(text)[0];
    if args != [] {
      var i := Lookup(cmds, args[0]);
      assert i == |cmds| ==> forall k :: 0 <= k < |cmds| ==> cmds[k].name != args[0];
    }
  }

  lemma InvocationsOf(nl: seq<Effect>, body: seq<Effect>, last: Effect)
    requires |nl| == 1 && nl[0].Puts? && |body| <= 2 && last.Puts?
    requires (|body| == 2 ==> body[0].Puts? && body[1].Puts?) && (|body| == 1 ==> body[0].Invoke?)
    ensures Invocations(nl + body + [last]) == if |body| == 1 then 1 else 0
  {
    var all := nl + body + [last];
    assert all[..|all| - 1] == nl + body;
    if |body| == 0 {
      assert nl + body == nl && nl[..0] == [];
      assert Invocations(nl) == 0;
    } else {
      assert (nl + body)[..|body|] == nl + body[..|body| - 1];
      assert body[..|body| - 1] == (if |body| == 2 then [body[0]] else []);
      assert nl[..0] == [] && Invocations(nl) == 0 && nl + [] == nl;
      if |body| == 2 { assert (nl + [body[0]])[..1] == nl; }
    }
  }

  /** Any number of blanks and Enter: the blanks are echoed as far as the line goes, then a new line
      and the prompt. */
  lemma BlankLine(cmds: seq<Command>, prompt: string, blanks: string, enter: char)
    requires Ends(enter) && forall c :: c in blanks ==> c == ' '
    ensures Answers(cmds, prompt, "", blanks + [enter]) ==
            Echoes(P.Clip(blanks)) + [Puts("\r\n"), Puts(prompt)]
  {
    hide Answers, Typed, Echoes, Split, Starts, P.Clip;
    var line := P.Clip(blanks);
    assert "" + blanks == blanks && line[0..] == line;
    TypedInTwo(cmds, prompt, "", blanks, [enter]);
    TypingFillsTheLine(cmds, prompt, "", blanks);
    assert forall c :: c in line ==> c in blanks;
    FinishedLine(cmds, prompt, line, enter);
  }

  function Echoes(keys: string): (shown: seq<Effect>)
    ensures |shown| == |keys| && forall k :: 0 <= k < |keys| ==> shown[k] == Puts([keys[k]])
  {
    if keys == "" then [] else [Puts([keys[0]])] + Echoes(keys[1..])
  }

  /** Printable keys go on the line, and are echoed, until it is full. */
  lemma {:induction false} TypingFillsTheLine(cmds: seq<Command>, prompt: string, text: string, keys: string)
    requires |text| <= P.LIMIT && forall c :: c in keys ==> Prints(c)
    ensures Typed(text, keys) == P.Clip(text + keys)
    ensures Answers(cmds, prompt, text, keys) == Echoes(P.Clip(text + keys)[|text|..])
    decreases keys
  {
    hide Reply;
    if keys == "" {
      assert text + keys == text;
    } else {
      hide Answer, Edit;
      var c, rest := keys[0], keys[1..];
      assert keys == [c] + rest && c in keys && (forall d :: d in rest ==> d in keys);
      PrintingKey(cmds, prompt, text, c);
      TypingFillsTheLine(cmds, prompt, Edit(text, c), rest);
      ClipKey(text, c, rest);
    }
  }

  lemma PrintingKey(cmds: seq<Command>, prompt: string, text: string, c: char)
    requires |text| <= P.LIMIT && Prints(c)
    ensures Edit(text, c) == if |text| < P.LIMIT then text + [c] else text
    ensures Answer(cmds, prompt, text, c) == if |text| < P.LIMIT then [Puts([c])] else []
  {
  }

  lemma ClipKey(text: string, c: char, rest: string)
    requires |text| <= P.LIMIT
    ensures |text| < P.LIMIT ==>
              var all := P.Clip((text + [c]) + rest);
              && P.Clip(text + ([c] + rest)) == all && |all| > |text|
              && all[|text|..] == [c] + all[|text| + 1..]
    ensures |text| == P.LIMIT ==>
              P.Clip(text + ([c] + rest)) == text == P.Clip(text + rest)
  {
    assert text + ([c] + rest) == (text + [c]) + rest;
  }

  lemma TypedOne(text: string, c: char)
    ensures Typed(text, [c]) == Edit(text, c)
  {
    assert [c][1..] == "";
  }

  /** Backspace undoes a printable key exactly when the line was not full: on a full line the key
      was dropped, and the backspace takes an older one. */
  lemma BackspaceUndoesIff(text: string, c: char, back: char)
    requires IsLine(text) && Prints(c) && Erases(back)
    ensures Typed(text, [c, back]) == text <==> |text| < P.LIMIT
  {
    hide Typed, Answers, Answer, Edit, IsLine, Prints, Erases;
    TypedInTwo([], "", text, [c], [back]);
    assert [c] + [back] == [c, back];
    TypedOne(text, c);
    TypedOne(Edit(text, c), back);
    PressBoth(text, c, back);
  }

  lemma PressBoth(text: string, c: char, back: char)
    requires IsLine(text) && Prints(c) && Erases(back)
    ensures Edit(Edit(text, c), back) == text <==> |text| < P.LIMIT
  {
    assert (text + [c])[..|text|] == text;
    assert |Edit(text, c)| > 0;
  }

  /** Up to fifteen words, typed with a blank between them and ended with Enter, reach the handler
      of the first command of that name exactly as they were; an unknown name reaches none. */
  lemma TypedCommandRuns(cmds: seq<Command>, prompt: string, words: seq<string>, enter: char)
    requires Plain(words) && 0 < |words| < CLI_MAX_ARGS && IsLine(Join(words)) && Ends(enter)
    ensures Typed("", Join(words) + [enter]) == ""
    ensures Answers(cmds, prompt, "", Join(words) + [enter]) ==
            Echoes(Join(words)) + [Puts("\r\n")]
            + (match Runs(cmds, words[0])
               case Some(cmd) => [Invoke(cmd.handler, words)]
               case None => Complaint(words[0]))
            + [Puts(prompt)]
  {
    hide Complaint, Echoes, Runs, Args, Answers, Answer, Typed, Split, Join, Ends, IsLine, Plain;
    var line := Join(words);
    LineIsPrintable(line);
    EnterAnswers(cmds, prompt, line, enter);
    TypedInTwo(cmds, prompt, "", line, [enter]);
    TypingFillsTheLine(cmds, prompt, "", line);
    assert "" + line == line && line[0..] == line;
    SplitJoin(words);
    assert Args(line) == words;
  }

  lemma LineIsPrintable(line: string)
    requires IsLine(line)
    ensures |line| <= P.LIMIT && forall c :: c in line ==> Prints(c)
  {
  }

  lemma EnterAnswers(cmds: seq<Command>, prompt: string, line: string, enter: char)
    requires Ends(enter)
    ensures Typed(line, [enter]) == ""
    ensures Answers(cmds, prompt, line, [enter]) == [Puts("\r\n")] + Reply(cmds, prompt, line)
  {
    hide Reply;
    assert [enter][1..] == "";
    assert Answers(cmds, prompt, Edit(line, enter), "") == [];
  }

  // ---------- the console ----------

  /** The strings that argv points at. */
  function Strings(line: seq<char>, argv: seq<nat>): (r: seq<string>)
    requires forall k :: 0 <= k < |argv| ==> argv[k] <= |line|
  {
    seq(|argv|, k requires 0 <= k < |argv| => CStr(line, argv[k]))
  }

  lemma StringsAreArgs(was: seq<char>, line: seq<char>, argv: seq<nat>, argc: nat)
    requires Tokenized(was, line, argv, argc) && Terminated(line, 0)
    ensures argc <= |argv| && forall k :: 0 <= k < argc ==> argv[k] < |line|
    ensures Strings(line, argv[..argc]) == Args(CStr(was, 0))
    ensures argc > 0 ==> Terminated(line, argv[0]) && CStr(line, argv[0]) == Args(CStr(was, 0))[0]
  {
    hide CStr, Split, Starts;
    var s := CStr(was, 0);
    var all := Strings(line, argv[..argc]);
    assert |all| == |Args(s)|;
    forall k | 0 <= k < argc ensures all[k] == Args(s)[k] {
      assert all[k] == CStr(line, argv[k]);
    }
    assert argc > 0 ==> all[0] == CStr(line, argv[0]);
  }

  class Console {
    var commands: seq<Command>
    const lineBuffer: array<char>
    var linePos: nat
    const prompt: string
    var log: seq<Effect>

    ghost predicate Valid()
      reads this, lineBuffer
    {
      && Named(commands) && |commands| <= CLI_MAX_CMDS
      && lineBuffer.Length == P.CLI_MAX_LINE_LEN && linePos <= P.LIMIT
      && IsLine(Line())
    }

    ghost function Line(): string
      requires linePos <= lineBuffer.Length
      reads this, lineBuffer
    {
      lineBuffer[..linePos]
    }

    constructor (prompt: string, help: int)
      ensures Valid() && fresh(lineBuffer) && this.prompt == prompt && Line() == "" && log == []
      ensures commands == [Command("help", help)]
    {
      lineBuffer := new char[P.CLI_MAX_LINE_LEN](_ => NUL);
      linePos := 0;
      this.prompt := prompt;
      log := [];
      commands := [Command("help", help)];
    }

    /** None stands for a null command, name or handler. */
    method Register(cmd: Option<Command>) returns (code: int)
      requires Valid() && (cmd.Some? ==> NUL !in cmd.value.name)
      modifies this`commands
      ensures Valid()
      ensures code == CLI_OK <==> old(|commands|) < 32 && cmd.Some?
      ensures code == CLI_OK ==> commands == old(commands) + [cmd.value]
      ensures code != CLI_OK ==> code == CLI_ERR && commands == old(commands)
    {
      if |commands| >= CLI_MAX_CMDS { return CLI_ERR; }
      if cmd.None? { return CLI_ERR; }
      commands := commands + [cmd.value];
      return CLI_OK;
    }

    method Unregister(name: string) returns (code: int)
      requires Valid() && NUL !in name
      modifies this`commands
      ensures Valid() && commands == Without(old(commands), name)
      ensures code == if Lookup(old(commands), name) < old(|commands|) then CLI_OK else CLI_ERR_NOCMD
    {
      var i := 0;
      while i < |commands|
        invariant i <= |commands| && commands == old(commands)
        invariant Lookup(commands, name) == LookupFrom(commands, name, i)
      {
        StringOf(name);
        var same := Same(name + [NUL], 0, commands[i].name);
        if same {
          commands := commands[i := commands[|commands| - 1]][..|commands| - 1];
          return CLI_OK;
        }
        i := i + 1;
      }
      return CLI_ERR_NOCMD;
    }

    method ProcessCmd()
      requires Valid() && Terminated(lineBuffer[..], 0)
      modifies this`log, lineBuffer
      ensures log == old(log) + Reply(commands, prompt, CStr(old(lineBuffer[..]), 0))
    {
      hide CStr, Tokenized;
      ghost var was := lineBuffer[..];
      ghost var s := CStr(was, 0);
      var argv := new nat[CLI_MAX_ARGS];
      var argc := Tokenize(lineBuffer, argv);
      var line := lineBuffer[..];
      StringsAreArgs(was, line, argv[..], argc);
      assert argc == |Args(s)|;
      assert argc > 0 ==> argv[..][0] == argv[0];
      hide Args, Reply, Strings, Lookup, LookupFrom;
      if argc == 0 {
        log := log + [Puts(prompt)];
        return;
      }
      var first, args := argv[0], argv[..argc];
      var i, found := 0, false;
      while i < |commands| && !found
        invariant i <= |commands| && Lookup(commands, Args(s)[0]) >= i
        invariant found ==> i < |commands| && Lookup(commands, Args(s)[0]) == i
        invariant log == old(log) + if found then [Invoke(commands[i].handler, Args(s))] else []
        decreases |commands| - i, !found
      {
        found := Same(line, first, commands[i].name);
        if found {
          log := log + [Invoke(commands[i].handler, Strings(line, args))];
        } else {
          i := i + 1;
        }
      }
      if !found {
        Complain(CStr(line, first));
      }
      log := log + [Puts(prompt)];
    }

    method Complain(name: string)
      requires NUL !in name
      modifies this`log
      ensures log == old(log) + Complaint(name)
    {
      hide P.Emit, P.WellFormed, P.Clip;
      UnknownText(name);
      LiteralText(HINT);
      var buff, pos := P.Format(UNKNOWN, [P.Str(name)]);
      if pos > 0 { log := log + [Puts(buff[..pos])]; }
      buff, pos := P.Format(HINT, []);
      if pos > 0 { log := log + [Puts(buff[..pos])]; }
    }

    /** What cli_task_entry prints before its loop. */
    method Greet()
      modifies this`log
      ensures log == old(log) + [Puts("\r\n"), Puts(prompt)]
    {
      log := log + [Puts("\r\n")];
      log := log + [Puts(prompt)];
    }

    /** One turn of the console's loop in which a character was read. */
    method Keystroke(c: char)
      requires Valid()
      modifies this`log, this`linePos, lineBuffer
      ensures Valid() && Line() == Edit(old(Line()), c)
      ensures log == old(log) + Answer(commands, prompt, old(Line()), c)
    {
      hide Reply, CStr;
      if c == '\r' || c == '\n' {
        log := log + [Puts("\r\n")];
        lineBuffer[linePos] := NUL;
        LineIsString(lineBuffer[..], linePos);
        ProcessCmd();
        linePos := 0;
      } else if c == BS || c == DEL {
        if linePos > 0 {
          linePos := linePos - 1;
          log := log + [Puts([BS, ' ', BS])];
        }
      } else if ' ' <= c <= '~' {
        if linePos < P.CLI_MAX_LINE_LEN - 1 {
          lineBuffer[linePos] := c;
          linePos := linePos + 1;
          log := log + [Puts([c])];
        }
      }
    }
  }

  lemma LineIsString(buf: seq<char>, n: nat)
    requires n < |buf| && buf[n] == NUL && IsLine(buf[..n])
    ensures Terminated(buf, 0) && CStr(buf, 0) == buf[..n]
  {
    assert buf[0..0 + n] == buf[..n];
    CStrUnique(buf, 0, n);
  }

  lemma StringOf(name: string)
    requires NUL !in name
    ensures Terminated(name + [NUL], 0) && CStr(name + [NUL], 0) == name
  {
    assert (name + [NUL])[0..0 + |name|] == name;
    CStrUnique(name + [NUL], 0, |name|);
  }

  /** strcmp against a command's name. */
  method Same(line: seq<char>, at: nat, name: string) returns (r: bool)
    requires at <= |line| && Terminated(line, at) && NUL !in name
    ensures r == (CStr(line, at) == name)
  {
    StringOf(name);
    var d := StrCmp(line, at, name + [NUL], 0);
    r := d == 0;
  }
}
