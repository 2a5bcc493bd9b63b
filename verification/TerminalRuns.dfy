/** The line editor over whole inputs. */
module TerminalRuns {
  import opened Text
  import opened Utf8
  import opened Terminal

  /** The editor after a string of input bytes. */
  function Run(s: Editor, input: seq<byte>): (r: Editor)
    requires Inv(s)
    ensures Inv(r)
  {
    if input == [] then s
    else
      var n := |input| - 1;
      var m := Run(s, input[..n]);
      StepKeeps(m, input[n]);
      Step(m, input[n]).next
  }

  /** The lines completed along the way. */
  function Lines(s: Editor, input: seq<byte>): seq<seq<byte>>
    requires Inv(s)
  {
    if input == [] then []
    else
      var n := |input| - 1;
      var done := Step(Run(s, input[..n]), input[n]).done;
      Lines(s, input[..n]) + (if done.Some? then [done.value] else [])
  }

  lemma {:induction false} RunConcat(s: Editor, a: seq<byte>, b: seq<byte>)
    requires Inv(s)
    ensures Run(s, a + b) == Run(Run(s, a), b)
    decreases |b|
  {
    hide Inv, Step;
    if b == [] {
      assert a + b == a;
    } else {
      var n := |b| - 1;
      RunConcat(s, a, b[..n]);
      assert (a + b)[..|a + b| - 1] == a + b[..n];
    }
  }

  /** Whatever bytes arrive, the editor's state is sound and every line handed on is UTF-8 text
      without ASCII control characters. */
  lemma {:induction false} EveryInputSound(input: seq<byte>)
    ensures Inv(Run(FRESH, input))
    ensures forall i :: 0 <= i < |Lines(FRESH, input)| ==>
              ValidUtf8(Lines(FRESH, input)[i]) && Clean(Lines(FRESH, input)[i])
  {
    hide Inv, Step, Clean, ValidUtf8;
    FreshOk();
    if input != [] {
      var n := |input| - 1;
      EveryInputSound(input[..n]);
      StepKeeps(Run(FRESH, input[..n]), input[n]);
    }
  }

  lemma FreshOk()
    ensures Inv(FRESH)
  {
  }

  // ---------------------------------------------------------------------------
  // Typing

  /** A key that inserts itself. */
  predicate Printable(b: byte) { b >= SPACE && b != 0x7f }

  lemma KeyAtEnd(s: Editor, b: byte)
    requires Inv(s) && s.esc == Normal && s.cursor == |s.line| < MAX_LINE_LENGTH && Printable(b)
    ensures Step(s, b).next == s.(line := s.line + [b], cursor := |s.line| + 1)
  {
    hide HistoryOk, Tab, Enter, Erase;
    assert s.line[..s.cursor] + [b] + s.line[s.cursor..] == s.line + [b];
  }

  lemma {:induction false} Typed(s: Editor, text: seq<byte>)
    requires Inv(s) && s.esc == Normal && s.cursor == |s.line| && Clean(text)
    requires |s.line| + |text| <= MAX_LINE_LENGTH
    ensures Run(s, text) == s.(line := s.line + text, cursor := |s.line + text|)
  {
    hide Inv, Step;
    if text == [] {
      assert s.line + text == s.line;
    } else {
      var n := |text| - 1;
      Typed(s, text[..n]);
      KeyAtEnd(Run(s, text[..n]), text[n]);
      assert s.line + text[..n] + [text[n]] == s.line + text;
    }
  }

  /** The line entered is the text typed; ill-formed UTF-8 is repaired, nothing else changes. */
  lemma TypedIsEntered(s: Editor, text: seq<byte>)
    requires Inv(s) && s.esc == Normal && s.line == [] && Clean(text) && |text| <= MAX_LINE_LENGTH
    ensures Step(Run(s, text), 0x0d).done == Some(Lossy(text))
    ensures ValidUtf8(text) ==> Step(Run(s, text), 0x0d).done == Some(text)
    ensures Run(s, text + [0x0d])
         == s.(line := [], cursor := 0, index := None, saved := [], history := Remember(s.history, Lossy(text)))
  {
    hide ValidUtf8, Lossy, HistoryOk, Remember;
    Typed(s, text);
    assert s.line + text == text;
    LossyFixesOnlyInvalid(text);
    assert (text + [0x0d])[..|text|] == text;
  }

  /** Backspace undoes the key before it, wherever the cursor is. */
  lemma EraseUndoesKey(s: Editor, b: byte)
    requires Inv(s) && s.esc == Normal && Printable(b) && |s.line| < MAX_LINE_LENGTH
    ensures Run(s, [b, BACKSPACE]) == s
  {
    hide HistoryOk, Run, Tab, Enter, Clean;
    assert [b] + [BACKSPACE] == [b, BACKSPACE];
    RunConcat(s, [b], [BACKSPACE]);
    One(s, b);
    var m := Insert(s, b).next;
    One(m, BACKSPACE);
    assert m.line[..m.cursor - 1] == s.line[..s.cursor] && m.line[m.cursor..] == s.line[s.cursor..];
    assert s.line[..s.cursor] + s.line[s.cursor..] == s.line;
  }

  // ---------------------------------------------------------------------------
  // The length limit

  /** How many bytes a tab adds to the line. */
  function TabAdds(s: Editor): nat {
    var typed := TrimStart(Lossy(s.line));
    var all := Completions(typed);
    if all == [] then 0
    else if |all| == 1 then |all[0]| - |typed| + 1
    else if |Common(all)| > |typed| then |Common(all)| - |typed|
    else 0
  }

  /** The line an arrow key would recall, or [] if none. */
  function Recalled(s: Editor, b: byte): seq<byte>
    requires Inv(s)
  {
    if b == 0x41 && s.history != [] && s.index != Some(0) then
      s.history[if s.index.None? then |s.history| - 1 else s.index.value - 1]
    else if b == 0x42 && s.index.Some? then
      (if s.index.value + 1 < |s.history| then s.history[s.index.value + 1] else s.saved)
    else []
  }

  /** The three ways past the limit: up or down recalls a line that is too long, or a tab adds more
      than there is room for. */
  predicate Overflows(s: Editor, b: byte)
    requires Inv(s)
  {
    || (s.esc == GotCsi && |Recalled(s, b)| > MAX_LINE_LENGTH)
    || (s.esc == Normal && b == 0x09 && s.autocomplete && |s.line| + TabAdds(s) > MAX_LINE_LENGTH)
  }

  /** One byte takes the line past the limit exactly in these ways. */
  lemma PastLimitIff(s: Editor, b: byte)
    requires Inv(s) && |s.line| <= MAX_LINE_LENGTH
    ensures |Step(s, b).next.line| > MAX_LINE_LENGTH <==> Overflows(s, b)
  {
    hide HistoryOk, Lossy, TrimStart, Completions, Common, Remember, Clean;
    if s.esc == Normal && b == 0x09 && s.autocomplete { TabLength(s); }
  }

  lemma TabLength(s: Editor)
    ensures |Tab(s).next.line| == |s.line| + TabAdds(s)
  {
    hide Lossy, TrimStart, Completions, Common;
    var typed := TrimStart(Lossy(s.line));
    var all := Completions(typed);
    if |all| == 1 {
      assert typed <= all[0];
    } else if |all| > 1 {
      assert PrefixOfAll(typed, all) && typed <= Common(all);
    }
  }

  /** The line is within the limit after every part of the input. */
  predicate AlwaysWithin(input: seq<byte>) {
    FreshOk();
    && |Run(FRESH, input).line| <= MAX_LINE_LENGTH
    && (input == [] || AlwaysWithin(input[..|input| - 1]))
  }

  /** No byte of the input comes where it overflows. */
  predicate NeverOverflows(input: seq<byte>) {
    input == [] ||
    (var n := |input| - 1;
     FreshOk();
     NeverOverflows(input[..n]) && !Overflows(Run(FRESH, input[..n]), input[n]))
  }

  /** Over every input: the limit holds throughout exactly when no byte comes where it overflows. */
  lemma {:induction false} LimitHoldsIff(input: seq<byte>)
    ensures AlwaysWithin(input) <==> NeverOverflows(input)
  {
    hide Inv, Step, Overflows;
    FreshOk();
    if input != [] {
      var n := |input| - 1;
      LimitHoldsIff(input[..n]);
      if AlwaysWithin(input[..n]) { PastLimitIff(Run(FRESH, input[..n]), input[n]); }
    }
  }

  predicate AllWithin(h: seq<seq<byte>>) { forall i :: 0 <= i < |h| ==> |h[i]| <= MAX_LINE_LENGTH }

  /** A history entry past the limit is made exactly by entering a line whose repaired text is past
      it and not blank. */
  lemma LongEntryIff(s: Editor)
    requires Inv(s) && AllWithin(s.history)
    ensures !AllWithin(Enter(s).next.history) <==> |Lossy(s.line)| > MAX_LINE_LENGTH && !Blank(Lossy(s.line))
  {
    hide HistoryOk, Lossy, Blank;
    var h, entry := Enter(s).next.history, Lossy(s.line);
    if |entry| > MAX_LINE_LENGTH && !Blank(entry) {
      assert h[|h| - 1] == entry;
    }
  }

  const ALIAS_LINE: Word := "alias "

  /** A full line that a tab completes: blanks and a command with one subcommand. */
  function NearLimit(n: nat): seq<byte> { seq(n, _ => SPACE) + Bytes(ALIAS_LINE) }

  lemma {:induction false} NearLimitTrims(n: nat)
    ensures TrimStart(NearLimit(n)) == Bytes(ALIAS_LINE)
  {
    var s := NearLimit(n);
    if n == 0 {
      assert s == Bytes(ALIAS_LINE);
      assert s[0] == 97;
    } else {
      NearLimitTrims(n - 1);
      assert s[0] == SPACE && s[1..] == NearLimit(n - 1);
    }
  }

  lemma AliasCompletes()
    ensures |Completions(Bytes(ALIAS_LINE))| == 1 && |Completions(Bytes(ALIAS_LINE))[0]| == 12
  {
    var a := Bytes(ALIAS_LINE);
    assert a[0] == 97 && Bytes("show ")[0] == 115 && Bytes("bookmark ")[0] == 98;
    assert a[6..] == [];
    assert ALIAS[1..] == [];
    assert Matching(a, ALIAS, []) == [a + Bytes("remove")];
  }

  /** A tab goes past the limit too: 4090 blanks and "alias " grow by seven bytes. */
  lemma TabExceedsLimit()
    ensures |Run(FRESH, NearLimit(MAX_LINE_LENGTH - 6) + [0x09]).line| == MAX_LINE_LENGTH + 7
  {
    hide Lossy, HistoryOk, Run, TrimStart, Completions;
    FreshOk();
    var line := NearLimit(MAX_LINE_LENGTH - 6);
    Typed(FRESH, line);
    assert FRESH.line + line == line;
    RunConcat(FRESH, line, [0x09]);
    var s := Run(FRESH, line);
    One(s, 0x09);
    AsciiUnchanged(line);
    NearLimitTrims(MAX_LINE_LENGTH - 6);
    AliasCompletes();
    TabLength(s);
  }

  /** Without escape sequences and tabs the limit holds throughout. */
  lemma {:induction false} TypingRespectsLimit(input: seq<byte>)
    requires ESC !in input && 0x09 !in input
    ensures |Run(FRESH, input).line| <= MAX_LINE_LENGTH && Run(FRESH, input).esc == Normal
  {
    hide HistoryOk, Tab, Lossy, Remember;
    FreshOk();
    if input != [] {
      TypingRespectsLimit(input[..|input| - 1]);
    }
  }

  predicate Short(s: seq<byte>) { Ascii(s) && |s| <= MAX_LINE_LENGTH }

  /** Everything the editor could show is ASCII and within the limit. */
  predicate AllShort(s: Editor) {
    Short(s.line) && Short(s.saved) && forall i :: 0 <= i < |s.history| ==> Short(s.history[i])
  }

  lemma EnterShort(s: Editor)
    requires AllShort(s)
    ensures AllShort(Enter(s).next)
  {
    hide Lossy, Blank, Short;
    LineAscii(s);
    AsciiUnchanged(s.line);
    NothingShort();
  }

  lemma LineAscii(s: Editor)
    requires AllShort(s)
    ensures Ascii(s.line)
  {
  }

  lemma NothingShort()
    ensures Short([])
  {
  }

  lemma EscapeShort(s: Editor, b: byte)
    requires Inv(s) && AllShort(s)
    ensures AllShort(Escape(s, b).next)
  {
    hide HistoryOk, Short;
    NothingShort();
  }

  lemma StepShort(s: Editor, b: byte)
    requires Inv(s) && AllShort(s) && b < 0x80 && b != 0x09
    ensures AllShort(Step(s, b).next)
  {
    hide HistoryOk, Tab, Enter, Escape;
    EnterShort(s);
    if s.esc == GotCsi { EscapeShort(s.(esc := Normal), b); }
  }

  /** ASCII input without tabs stays within the limit too, history included. */
  lemma {:induction false} AsciiRespectsLimit(input: seq<byte>)
    requires Ascii(input) && 0x09 !in input
    ensures AllShort(Run(FRESH, input))
  {
    hide Inv, Step, AllShort;
    FreshOk();
    if input == [] {
      FreshShort();
    } else {
      var n := |input| - 1;
      AsciiRespectsLimit(input[..n]);
      StepShort(Run(FRESH, input[..n]), input[n]);
    }
  }

  lemma FreshShort()
    ensures AllShort(FRESH)
  {
  }

  function Junk(n: nat): seq<byte> { seq(n, _ => 0x80) }

  lemma {:induction false} JunkTriples(n: nat)
    ensures |Lossy(Junk(n))| == 3 * n
    ensures n > 0 ==> Lossy(Junk(n))[0] == 0xEF && Lossy(Junk(n))[1] == 0xBF
  {
    if n > 0 {
      JunkTriples(n - 1);
      assert Junk(n)[1..] == Junk(n - 1);
    }
  }

  const UP: seq<byte> := [ESC, 0x5b, 0x41]
  const DOWN: seq<byte> := [ESC, 0x5b, 0x42]

  /** Recalling a repaired line goes past the limit: a full line of stray continuation bytes comes
      back three times as long. */
  lemma RecallExceedsLimit()
    ensures |Run(FRESH, Junk(MAX_LINE_LENGTH) + [0x0d] + UP).line| == 3 * MAX_LINE_LENGTH
  {
    hide Lossy, HistoryOk, Run;
    FreshOk();
    var junk := Junk(MAX_LINE_LENGTH);
    TypedIsEntered(FRESH, junk);
    JunkTriples(MAX_LINE_LENGTH);
    RunConcat(FRESH, junk + [0x0d], UP);
    var s := Run(FRESH, junk + [0x0d]);
    assert SpaceWidth(Lossy(junk)) == 0;
    assert s.history == [Lossy(junk)];
    UpIsPrev(s);
  }

  // ---------------------------------------------------------------------------
  // History navigation

  lemma Three(s: Editor, a: byte, b: byte, c: byte)
    requires Inv(s)
    ensures
      var s1 := Run(s, [a]);
      var s2 := Run(s1, [b]);
      Run(s, [a, b, c]) == Run(s2, [c])
  {
    hide Run, Inv;
    RunConcat(s, [a], [b]);
    RunConcat(s, [a, b], [c]);
    assert [a] + [b] == [a, b] && [a, b] + [c] == [a, b, c];
  }

  lemma One(s: Editor, b: byte)
    requires Inv(s)
    ensures Run(s, [b]) == Step(s, b).next
  {
    assert [b][..0] == [];
  }

  lemma Arrow(s: Editor, b: byte)
    requires Inv(s) && s.esc == Normal
    ensures Run(s, [ESC, 0x5b, b]) == Escape(s, b).next
  {
    hide Run, HistoryOk, Escape;
    Three(s, ESC, 0x5b, b);
    One(s, ESC);
    One(s.(esc := GotEsc), 0x5b);
    One(s.(esc := GotCsi), b);
    assert s.(esc := GotCsi).(esc := Normal) == s;
  }

  lemma UpIsPrev(s: Editor)
    requires Inv(s) && s.esc == Normal
    ensures Run(s, UP) == Prev(s).next
  {
    Arrow(s, 0x41);
  }

  lemma DownIsNext(s: Editor)
    requires Inv(s) && s.esc == Normal
    ensures Run(s, DOWN) == Next(s).next
  {
    Arrow(s, 0x42);
  }

  /** `s` showing entry `i` of its history, its own line saved. */
  function At(s: Editor, i: nat): Editor
    requires i < |s.history|
  {
    s.(line := s.history[i], cursor := |s.history[i]|, index := Some(i), saved := s.line)
  }

  predicate Idle(s: Editor) { s.esc == Normal && s.index.None? }

  lemma {:induction false} Ups(s: Editor, k: nat)
    requires Inv(s) && Idle(s) && s.history != []
    ensures k > 0 ==> Run(s, Repeat(UP, k)) == At(s, if k < |s.history| then |s.history| - k else 0)
    ensures k == 0 ==> Run(s, Repeat(UP, k)) == s
  {
    hide Run, HistoryOk;
    if k == 0 {
      RunNothing(s);
    } else {
      Ups(s, k - 1);
      RunConcat(s, Repeat(UP, k - 1), UP);
      UpIsPrev(Run(s, Repeat(UP, k - 1)));
    }
  }

  lemma RunNothing(s: Editor)
    requires Inv(s)
    ensures Run(s, []) == s
  {
  }

  lemma {:induction false} Downs(s: Editor, i: nat, k: nat)
    requires Inv(s) && Idle(s) && i < |s.history| && Inv(At(s, i))
    ensures Run(At(s, i), Repeat(DOWN, k))
         == if i + k < |s.history| then At(s, i + k) else s.(cursor := |s.line|)
  {
    hide Run, HistoryOk;
    var t := At(s, i);
    if k == 0 {
      RunNothing(t);
    } else {
      Downs(s, i, k - 1);
      RunConcat(t, Repeat(DOWN, k - 1), DOWN);
      DownIsNext(Run(t, Repeat(DOWN, k - 1)));
    }
  }

  /** Going up `k` entries and down `k` again gives back the line being edited, for every `k`: only
      the cursor moves, to the end of the line. */
  lemma UpDownRestores(s: Editor, k: nat)
    requires Inv(s) && Idle(s)
    ensures Run(s, Repeat(UP, k) + Repeat(DOWN, k))
         == if k == 0 || s.history == [] then s else s.(cursor := |s.line|)
  {
    hide Run, Inv;
    RunConcat(s, Repeat(UP, k), Repeat(DOWN, k));
    if s.history == [] {
      NoHistory(s, k);
    } else {
      Ups(s, k);
      if k == 0 {
        RunNothing(s);
      } else {
        Downs(s, if k < |s.history| then |s.history| - k else 0, k);
      }
    }
  }

  lemma {:induction false} NoHistory(s: Editor, k: nat)
    requires Inv(s) && Idle(s) && s.history == []
    ensures Run(s, Repeat(UP, k)) == s == Run(s, Repeat(DOWN, k))
  {
    hide Run;
    if k == 0 {
      RunNothing(s);
    } else {
      NoHistory(s, k - 1);
      RunConcat(s, Repeat(UP, k - 1), UP);
      RunConcat(s, Repeat(DOWN, k - 1), DOWN);
      UpIsPrev(s);
      DownIsNext(s);
    }
  }

  // ---------------------------------------------------------------------------
  // Moving the cursor

  const RIGHT: seq<byte> := [ESC, 0x5b, 0x43]
  const LEFT: seq<byte> := [ESC, 0x5b, 0x44]

  /** Right and left move one byte, up to the ends of the line, and change nothing else. */
  lemma ArrowsMove(s: Editor)
    requires Inv(s) && s.esc == Normal
    ensures Run(s, RIGHT) == s.(cursor := if s.cursor < |s.line| then s.cursor + 1 else |s.line|)
    ensures Run(s, LEFT) == s.(cursor := if s.cursor > 0 then s.cursor - 1 else 0)
  {
    hide Run, HistoryOk;
    Arrow(s, 0x43);
    Arrow(s, 0x44);
  }

  lemma {:induction false} Lefts(s: Editor, k: nat)
    requires Inv(s) && s.esc == Normal && k <= s.cursor
    ensures Run(s, Repeat(LEFT, k)) == s.(cursor := s.cursor - k)
  {
    hide Run, HistoryOk;
    if k == 0 {
      RunNothing(s);
    } else {
      Lefts(s, k - 1);
      RunConcat(s, Repeat(LEFT, k - 1), LEFT);
      ArrowsMove(Run(s, Repeat(LEFT, k - 1)));
    }
  }

  lemma {:induction false} Rights(s: Editor, k: nat)
    requires Inv(s) && s.esc == Normal && s.cursor + k <= |s.line|
    ensures Run(s, Repeat(RIGHT, k)) == s.(cursor := s.cursor + k)
  {
    hide Run, HistoryOk;
    if k == 0 {
      RunNothing(s);
    } else {
      Rights(s, k - 1);
      RunConcat(s, Repeat(RIGHT, k - 1), RIGHT);
      ArrowsMove(Run(s, Repeat(RIGHT, k - 1)));
    }
  }

  /** Left `k` times and right `k` times comes back. */
  lemma LeftRightRestores(s: Editor, k: nat)
    requires Inv(s) && s.esc == Normal && k <= s.cursor
    ensures Run(s, Repeat(LEFT, k) + Repeat(RIGHT, k)) == s
  {
    hide Run, HistoryOk;
    Lefts(s, k);
    RunConcat(s, Repeat(LEFT, k), Repeat(RIGHT, k));
    Rights(s.(cursor := s.cursor - k), k);
  }

  /** A byte typed `k` places before the end of a typed line goes there. */
  lemma TypedInside(s: Editor, k: nat, b: byte)
    requires Inv(s) && s.esc == Normal && s.cursor == |s.line| && k <= |s.line| < MAX_LINE_LENGTH && Printable(b)
    ensures var n := |s.line| - k;
      Run(s, Repeat(LEFT, k) + [b]) == s.(line := s.line[..n] + [b] + s.line[n..], cursor := n + 1)
  {
    hide Run, HistoryOk, Tab, Enter;
    Lefts(s, k);
    RunConcat(s, Repeat(LEFT, k), [b]);
    One(s.(cursor := s.cursor - k), b);
  }

  // ---------------------------------------------------------------------------
  // The control keys

  /** Ctrl+C gives up the line and completes an empty one, Ctrl+D completes "exit" on an empty line
      only, Ctrl+U empties the line, Ctrl+L shows it again on a clear screen; backspace at the start
      and other control bytes do nothing; and a full line only rings the bell. */
  lemma ControlKeys(s: Editor, b: byte)
    requires Inv(s) && s.esc == Normal
    ensures Step(s, 3) == Move(s.(line := [], cursor := 0, index := None, saved := []), [94, 67, 13, 10], Some([]))
    ensures Step(s, 4) == Move(s, [], if s.line == [] then Some([101, 120, 105, 116]) else None)
    ensures Step(s, 21).next == s.(line := [], cursor := 0) && Step(s, 21).done == None
    ensures Step(s, 12) == Move(s, [27, 91, 50, 74, 27, 91, 72] + s.line, None)
    ensures s.cursor == 0 ==> Step(s, 8) == Step(s, 127) == Move(s, [], None)
    ensures b < 32 && b !in {3, 4, 8, 9, 10, 12, 13, 21, 27} ==> Step(s, b) == Move(s, [], None)
    ensures !s.autocomplete ==> Step(s, 9) == Move(s, [], None)
    ensures |s.line| >= 4096 && b >= 32 && b != 127 ==> Step(s, b) == Move(s, [7], None)
    ensures Step(s, 10) == Step(s, 13) && Step(s, 13).echo == [13, 10]
  {
    hide Inv, Tab, Lossy, Remember, Repeat;
    ExitBytes();
  }

  /** Where the cursor moves its escape sequence is echoed, and nothing at the ends of the line. */
  lemma ArrowEcho(s: Editor)
    requires Inv(s) && s.esc == GotCsi
    ensures Step(s, 67).echo == if s.cursor < |s.line| then [27, 91, 67] else []
    ensures Step(s, 68).echo == if s.cursor > 0 then [27, 91, 68] else []
    ensures Step(s, 67).done == Step(s, 68).done == None
  {
    hide HistoryOk, Prev, Next;
  }

  /** An escape with anything but an arrow behind it does nothing. */
  lemma OtherEscapes(s: Editor, b: byte)
    requires Inv(s) && s.esc == Normal
    ensures b != 91 ==> Run(s, [27, b]) == s
    ensures b !in {65, 66, 67, 68} ==> Run(s, [27, 91, b]) == s
  {
    hide Run, HistoryOk, Prev, Next;
    Arrow(s, b);
    assert [ESC] + [b] == [27, b];
    RunConcat(s, [ESC], [b]);
    One(s, ESC);
    One(s.(esc := GotEsc), b);
  }

  lemma ExitBytes()
    ensures Bytes("exit") == [101, 120, 105, 116]
  {
  }

  // ---------------------------------------------------------------------------
  // The history that lines leave

  function Typescript(lines: seq<seq<byte>>): seq<byte> {
    if lines == [] then [] else Typescript(lines[..|lines| - 1]) + (lines[|lines| - 1] + [0x0d])
  }

  /** The last hundred. */
  function LastHundred(lines: seq<seq<byte>>): seq<seq<byte>> {
    if |lines| <= 100 then lines else lines[|lines| - 100..]
  }

  /** Text that fits on a line and is not blank. */
  predicate Typable(text: seq<byte>) { Clean(text) && ValidUtf8(text) && !Blank(text) && |text| <= 4096 }

  /** Lines entered one after the other, none equal to the one before it, are the history, in order
      and up to the last hundred. */
  lemma {:induction false} LinesRemembered(lines: seq<seq<byte>>)
    requires forall i :: 0 <= i < |lines| ==> Typable(lines[i])
    requires forall i :: 0 < i < |lines| ==> lines[i - 1] != lines[i]
    ensures Run(FRESH, Typescript(lines)) == FRESH.(history := LastHundred(lines))
  {
    hide Run, Inv, ValidUtf8, Blank, Clean, Lossy;
    FreshOk();
    if lines == [] {
      RunNothing(FRESH);
    } else {
      var n := |lines| - 1;
      var rest, text := lines[..n], lines[n];
      LinesRemembered(rest);
      var s := Run(FRESH, Typescript(rest));
      RunConcat(FRESH, Typescript(rest), text + [0x0d]);
      TypedIsEntered(s, text);
      LossyFixesOnlyInvalid(text);
      RememberMore(rest, text);
      assert rest + [text] == lines;
    }
  }

  lemma RememberMore(lines: seq<seq<byte>>, text: seq<byte>)
    requires !Blank(text) && (lines != [] ==> lines[|lines| - 1] != text)
    ensures Remember(LastHundred(lines), text) == LastHundred(lines + [text])
  {
    hide Blank;
  }

  /** A blank line, or one like the last, leaves the history as it was. */
  lemma LineNotRemembered(s: Editor, text: seq<byte>)
    requires Inv(s) && s.esc == Normal && s.line == [] && Clean(text) && ValidUtf8(text) && |text| <= MAX_LINE_LENGTH
    requires Blank(text) || (s.history != [] && s.history[|s.history| - 1] == text)
    ensures Run(s, text + [0x0d]).history == s.history
  {
    hide Run, Inv, ValidUtf8, Blank, Clean, Lossy;
    TypedIsEntered(s, text);
    LossyFixesOnlyInvalid(text);
  }

  /** And `k` ups from there show the `k`-th line from the end. */
  lemma LineRecalled(lines: seq<seq<byte>>, k: nat)
    requires forall i :: 0 <= i < |lines| ==> Typable(lines[i])
    requires forall i :: 0 < i < |lines| ==> lines[i - 1] != lines[i]
    requires 0 < k <= |lines| && k <= 100
    ensures Run(FRESH, Typescript(lines) + Repeat(UP, k)).line == lines[|lines| - k]
  {
    hide Run, HistoryOk, Repeat, Typable, Typescript;
    FreshOk();
    LinesRemembered(lines);
    RunConcat(FRESH, Typescript(lines), Repeat(UP, k));
    Ups(Run(FRESH, Typescript(lines)), k);
  }

  // ---------------------------------------------------------------------------
  // White space

  lemma {:induction false} BlankAscii(s: seq<byte>)
    requires Ascii(s)
    ensures Blank(s) <==> forall i :: 0 <= i < |s| ==> s[i] == 32 || 9 <= s[i] <= 13
  {
    if s != [] {
      BlankAscii(s[1..]);
      assert forall i :: 1 <= i < |s| ==> s[i] == s[1..][i - 1];
    }
  }

  /** Beyond ASCII, the characters that count as white space, by their code points. */
  lemma UnicodeSpaces(cp: nat, rest: seq<byte>)
    ensures 0x80 <= cp < 0x800 ==>
      (SpaceWidth([0xC0 + cp / 64, 0x80 + cp % 64] + rest) == 2 <==> cp == 0x85 || cp == 0xA0)
    ensures 0x800 <= cp < 0x10000 ==>
      (SpaceWidth([0xE0 + cp / 4096, 0x80 + cp / 64 % 64, 0x80 + cp % 64] + rest) == 3 <==>
         cp == 0x1680 || 0x2000 <= cp <= 0x200A || 0x2028 <= cp <= 0x2029 || cp == 0x202F || cp == 0x205F || cp == 0x3000)
  {
    if 0x80 <= cp < 0x800 {
      assert cp == 64 * (cp / 64) + cp % 64;
      var s: seq<byte> := [0xC0 + cp / 64, 0x80 + cp % 64] + rest;
      assert s[0] == 0xC0 + cp / 64 && s[1] == 0x80 + cp % 64;
    }
    if 0x800 <= cp < 0x10000 {
      assert cp == 4096 * (cp / 4096) + 64 * (cp / 64 % 64) + cp % 64;
      var s: seq<byte> := [0xE0 + cp / 4096, 0x80 + cp / 64 % 64, 0x80 + cp % 64] + rest;
      assert s[0] == 0xE0 + cp / 4096 && s[1] == 0x80 + cp / 64 % 64 && s[2] == 0x80 + cp % 64;
    }
  }

  // ---------------------------------------------------------------------------
  // Tab completion

  lemma {:induction false} MatchingAre(head: seq<byte>, names: seq<Word>, typed: seq<byte>, c: seq<byte>)
    ensures c in Matching(head, names, typed)
            <==> exists i :: 0 <= i < |names| && typed <= Bytes(names[i]) && c == head + Bytes(names[i])
    decreases |names|
  {
    hide Bytes;
    if names != [] {
      MatchingAre(head, names[1..], typed, c);
      assert forall i :: 0 <= i < |names[1..]| ==> names[1..][i] == names[i + 1];
      if i :| 0 <= i < |names| && typed <= Bytes(names[i]) && c == head + Bytes(names[i]) {
        if i > 0 { assert names[1..][i - 1] == names[i]; }
      }
    }
  }

  /** `c` is `head` and one of the names. */
  predicate OneOf(head: seq<byte>, names: seq<Word>, c: seq<byte>) {
    exists i :: 0 <= i < |names| && c == head + Bytes(names[i])
  }

  lemma MatchingIff(head: seq<byte>, names: seq<Word>, typed: seq<byte>, c: seq<byte>)
    ensures c in Matching(head, names, typed) <==> OneOf(head, names, c) && head + typed <= c
  {
    hide Bytes, Matching;
    MatchingAre(head, names, typed, c);
    forall i | 0 <= i < |names| ensures head + typed <= head + Bytes(names[i]) <==> typed <= Bytes(names[i]) {
      HeadPrefix(head, typed, Bytes(names[i]));
    }
  }

  lemma HeadPrefix(head: seq<byte>, a: seq<byte>, b: seq<byte>)
    ensures head + a <= head + b <==> a <= b
  {
    if head + a <= head + b {
      assert |a| <= |b|;
      assert forall i :: 0 <= i < |a| ==> a[i] == (head + a)[|head| + i] == (head + b)[|head| + i] == b[i];
    }
  }

  /** The completions are exactly the commands that the text starts, or behind one of the three
      commands with subcommands, those of that command. */
  lemma CompletionsIff(line: seq<byte>, c: seq<byte>)
    ensures c in Completions(line) <==>
      && line <= c
      && if Bytes("show ") <= line then OneOf(Bytes("show "), SHOW, c)
         else if Bytes("bookmark ") <= line then OneOf(Bytes("bookmark "), BOOKMARK, c)
         else if Bytes("alias ") <= line then OneOf(Bytes("alias "), ALIAS, c)
         else SPACE !in line && OneOf([], COMMANDS, c)
  {
    hide Bytes, Matching, OneOf;
    if Bytes("show ") <= line {
      assert Bytes("show ") + line[5..] == line;
      MatchingIff(Bytes("show "), SHOW, line[5..], c);
    } else if Bytes("bookmark ") <= line {
      assert Bytes("bookmark ") + line[9..] == line;
      MatchingIff(Bytes("bookmark "), BOOKMARK, line[9..], c);
    } else if Bytes("alias ") <= line {
      assert Bytes("alias ") + line[6..] == line;
      MatchingIff(Bytes("alias "), ALIAS, line[6..], c);
    } else if SPACE !in line {
      assert [] + line == line;
      MatchingIff([], COMMANDS, line, c);
    }
  }

  /** The first bytes of a concatenation. */
  lemma HeadConcat(a: seq<byte>, b: seq<byte>)
    requires a != [] && b != []
    ensures var s := a + b;
      && s[0] == a[0] && s[|a|] == b[0]
      && (|a| > 1 ==> s[1] == a[1]) && (|a| > 2 ==> s[2] == a[2]) && (|a| > 3 ==> s[3] == a[3])
  {
  }

  lemma PieceConcat(a: seq<byte>, b: seq<byte>)
    requires a != [] && b != [] && b[0] < 0x80
    ensures Fitting(a + b) == Fitting(a) && Piece(a + b) == Piece(a)
  {
    HeadConcat(a, b);
    assert Fitting(a + b) == Fitting(a);
    assert (a + b)[..Fitting(a)] == a[..Fitting(a)];
  }

  /** Text that starts with ASCII is converted on its own. */
  lemma {:induction false} LossyConcat(a: seq<byte>, b: seq<byte>)
    requires b != [] && b[0] < 0x80
    ensures Lossy(a + b) == Lossy(a) + Lossy(b)
    decreases |a|
  {
    hide Fitting, Piece;
    if a == [] {
      assert a + b == b;
    } else {
      var rest := a[Fitting(a)..];
      PieceConcat(a, b);
      assert (a + b)[Fitting(a)..] == rest + b;
      LossyConcat(rest, b);
      assert Piece(a) + (Lossy(rest) + Lossy(b)) == Piece(a) + Lossy(rest) + Lossy(b);
    }
  }

  lemma SpaceConcat(a: seq<byte>, b: seq<byte>)
    requires a != [] && b != [] && b[0] < 0x80
    ensures SpaceWidth(a + b) == SpaceWidth(a)
  {
    HeadConcat(a, b);
  }

  lemma {:induction false} TrimConcat(a: seq<byte>, b: seq<byte>)
    requires !Blank(a) && b != [] && b[0] < 0x80
    ensures TrimStart(a + b) == TrimStart(a) + b
    decreases |a|
  {
    hide SpaceWidth;
    assert a != [] by { EmptyBlank(); }
    SpaceConcat(a, b);
    if SpaceWidth(a) > 0 {
      assert (a + b)[SpaceWidth(a)..] == a[SpaceWidth(a)..] + b;
      TrimConcat(a[SpaceWidth(a)..], b);
    }
  }

  lemma EmptyBlank()
    ensures Blank([])
  {
  }

  lemma AsciiUnchanged(s: seq<byte>)
    requires Ascii(s)
    ensures Lossy(s) == s
  {
    AsciiIsValid(s);
    LossyFixesOnlyInvalid(s);
  }

  /** The text of the line, leading white space aside. */
  function Command(s: Editor): seq<byte> { TrimStart(Lossy(s.line)) }

  lemma ExtendCommand(s: Editor, suffix: seq<byte>)
    requires Command(s) != [] && suffix != [] && Ascii(suffix)
    ensures Command(Extend(s, suffix).next) == Command(s) + suffix
  {
    hide Lossy, TrimStart;
    LossyConcat(s.line, suffix);
    AsciiUnchanged(suffix);
    assert !Blank(Lossy(s.line));
    TrimConcat(Lossy(s.line), suffix);
  }

  lemma MatchingFirstTwo(names: seq<Word>)
    requires |names| > 1
    ensures |Matching([], names, [])| > 1
    ensures Matching([], names, [])[0] == Bytes(names[0]) && Matching([], names, [])[1] == Bytes(names[1])
  {
    hide Bytes;
    var a, b: seq<byte> := Bytes(names[0]), Bytes(names[1]);
    assert [] + a == a && [] + b == b;
    assert names[1..][0] == names[1];
  }

  lemma FirstCommands()
    ensures |COMMANDS| > 1 && Bytes(COMMANDS[0])[..1] == [97] && Bytes(COMMANDS[1])[..1] == [98]
  {
    assert COMMANDS[0] == "alias" && COMMANDS[1] == "bookmark";
  }

  lemma NothingTyped()
    ensures |Completions([])| > 1 && Common(Completions([])) == []
  {
    hide Common, Matching, Bytes;
    var cs := Completions([]);
    assert |Bytes("show ")| == 5 && |Bytes("bookmark ")| == 9 && |Bytes("alias ")| == 6;
    assert cs == Matching([], COMMANDS, []);
    MatchingFirstTwo(COMMANDS);
    FirstCommands();
    var c := Common(cs);
    assert c <= cs[0] && c <= cs[1];
    assert cs[0][0] == cs[0][..1][0] && cs[1][0] == cs[1][..1][0];
  }

  /** The completions are listed in order, two spaces behind each. */
  lemma {:induction false} ListingReads(names: seq<seq<byte>>, more: seq<seq<byte>>)
    ensures Listing(names + more) == Listing(names) + Listing(more)
    ensures |names| == 1 ==> Listing(names) == names[0] + [32, 32]
    decreases |more|
  {
    if more == [] {
      assert names + more == names;
    } else {
      var n := |more| - 1;
      ListingReads(names, more[..n]);
      assert (names + more)[..|names| + n] == names + more[..n];
    }
    if |names| == 1 { assert names[..0] == [] && Listing([]) == []; }
  }

  /** Tab makes the line read the one completion and a space, or what all the completions share. */
  lemma TabCompletes(s: Editor)
    ensures
      var all := Completions(Command(s));
      && Tab(s).done == None
      && (all == [] ==> Tab(s).next == s && Tab(s).echo == [7])
      && (|all| > 1 && Common(all) == Command(s) ==>
            Tab(s).next == s && Tab(s).echo == [13, 10] + Listing(all) + [13, 10] + s.line)
      && (|all| == 1 ==> Command(Tab(s).next) == all[0] + [SPACE])
      && (|all| > 1 ==> Command(Tab(s).next) == Common(all))
  {
    hide Completions, Common, Lossy, TrimStart;
    var typed := Command(s);
    var all := Completions(typed);
    CompletionsClean(typed);
    if typed == [] {
      NothingTyped();
    } else if |all| == 1 {
      ExtendCommand(s, all[0][|typed|..] + [SPACE]);
      assert typed + (all[0][|typed|..] + [SPACE]) == all[0] + [SPACE];
    } else if |all| > 1 {
      var common := Common(all);
      assert PrefixOfAll(typed, all) && typed <= common && common <= all[0];
      if |common| > |typed| {
        ExtendCommand(s, common[|typed|..]);
        assert typed + common[|typed|..] == common;
      }
    }
  }
}
