/** The line editor of the shell: editing, escape sequences, history and tab completion. Strings are
    their UTF-8 bytes. */
module Terminal {
  import opened Text
  import opened Utf8

  const MAX_LINE_LENGTH: nat := 4096
  const MAX_HISTORY: nat := 100

  const BELL: byte := 0x07
  const BACKSPACE: byte := 0x08
  const ESC: byte := 0x1b
  const SPACE: byte := 0x20
  const RUBOUT: seq<byte> := [BACKSPACE, SPACE, BACKSPACE]

  /** Printable ASCII text. */
  type Word = s: string | forall i :: 0 <= i < |s| ==> ' ' <= s[i] <= '~'

  function Bytes(s: Word): (r: seq<byte>)
    ensures |r| == |s| && Clean(r) && Ascii(r)
  {
    seq(|s|, i requires 0 <= i < |s| => s[i] as int)
  }

  predicate Ascii(s: seq<byte>) { forall i :: 0 <= i < |s| ==> s[i] < 0x80 }

  /** No ASCII control characters. */
  predicate Clean(s: seq<byte>) { forall i :: 0 <= i < |s| ==> s[i] >= SPACE && s[i] != 0x7f }

  function Repeat(unit: seq<byte>, n: nat): seq<byte> {
    if n == 0 then [] else Repeat(unit, n - 1) + unit
  }

  // ---------------------------------------------------------------------------
  // White space

  /** How many bytes of white space character `s` starts with. */
  function SpaceWidth(s: seq<byte>): (w: nat)
    ensures w <= |s|
  {
    if s == [] then 0
    else if s[0] == SPACE || Within(0x09, s[0], 0x0D) then 1
    else if |s| < 2 then 0
    else if s[0] == 0xC2 && (s[1] == 0x85 || s[1] == 0xA0) then 2
    else if |s| < 3 then 0
    else if s[0] == 0xE1 && s[1] == 0x9A && s[2] == 0x80 then 3
    else if s[0] == 0xE2 && s[1] == 0x80
            && (Within(0x80, s[2], 0x8A) || Within(0xA8, s[2], 0xA9) || s[2] == 0xAF) then 3
    else if s[0] == 0xE2 && s[1] == 0x81 && s[2] == 0x9F then 3
    else if s[0] == 0xE3 && s[1] == 0x80 && s[2] == 0x80 then 3
    else 0
  }

  function TrimStart(s: seq<byte>): seq<byte> {
    if SpaceWidth(s) == 0 then s else TrimStart(s[SpaceWidth(s)..])
  }

  predicate Blank(s: seq<byte>) { TrimStart(s) == [] }

  // ---------------------------------------------------------------------------
  // Completion

  const COMMANDS_A_TO_E: seq<Word> := ["alias", "bookmark", "cat", "cd", "clear", "echo", "env", "exit"]
  const COMMANDS_H_TO_P: seq<Word> := ["help", "hostname", "id", "logout", "ls", "ping", "printenv", "pwd"]
  const COMMANDS_R_TO_W: seq<Word> := ["resolve", "show", "test", "uname", "whoami"]
  const COMMANDS: seq<Word> := COMMANDS_A_TO_E + COMMANDS_H_TO_P + COMMANDS_R_TO_W
  const SHOW: seq<Word> := [
    "acl", "bandwidth", "connections", "fingerprint", "history", "quota", "status"]
  const BOOKMARK: seq<Word> := ["add", "list", "remove"]
  const ALIAS: seq<Word> := ["remove"]

  /** `head` followed by each name that starts with `typed`. */
  function Matching(head: seq<byte>, names: seq<Word>, typed: seq<byte>): (r: seq<seq<byte>>)
    ensures forall i :: 0 <= i < |r| ==> head + typed <= r[i]
  {
    if names == [] then []
    else
      var rest := Matching(head, names[1..], typed);
      if typed <= Bytes(names[0]) then [head + Bytes(names[0])] + rest else rest
  }

  function Subcommands(command: Word, names: seq<Word>, line: seq<byte>): (r: seq<seq<byte>>)
    requires Bytes(command) <= line
    ensures forall i :: 0 <= i < |r| ==> line <= r[i]
  {
    assert Bytes(command) + line[|command|..] == line;
    Matching(Bytes(command), names, line[|command|..])
  }

  /** Every completion extends the line. */
  function Completions(line: seq<byte>): (r: seq<seq<byte>>)
    ensures forall i :: 0 <= i < |r| ==> line <= r[i]
  {
    if Bytes("show ") <= line then Subcommands("show ", SHOW, line)
    else if Bytes("bookmark ") <= line then Subcommands("bookmark ", BOOKMARK, line)
    else if Bytes("alias ") <= line then Subcommands("alias ", ALIAS, line)
    else if SPACE !in line then assert [] + line == line; Matching([], COMMANDS, line)
    else []
  }

  predicate PrefixOfAll(p: seq<byte>, strings: seq<seq<byte>>) {
    forall i :: 0 <= i < |strings| ==> p <= strings[i]
  }

  /** `r` is the longest prefix common to all the strings. */
  ghost predicate LongestCommon(r: seq<byte>, strings: seq<seq<byte>>) {
    PrefixOfAll(r, strings) && forall p :: PrefixOfAll(p, strings) ==> p <= r
  }

  /** The longest start that two strings share. */
  function Shared(a: seq<byte>, b: seq<byte>): (r: seq<byte>)
    ensures r <= a && r <= b
    ensures |r| < |a| && |r| < |b| ==> a[|r|] != b[|r|]
  {
    if a == [] || b == [] || a[0] != b[0] then [] else [a[0]] + Shared(a[1..], b[1..])
  }

  lemma {:induction false} SharedIsLongest(a: seq<byte>, b: seq<byte>, p: seq<byte>)
    requires p <= a && p <= b
    ensures p <= Shared(a, b)
    decreases |p|
  {
    if p != [] { SharedIsLongest(a[1..], b[1..], p[1..]); }
  }

  lemma {:induction false} SharedIs(a: seq<byte>, b: seq<byte>, r: seq<byte>)
    requires r <= a && r <= b
    requires |r| == |a| || |r| == |b| || a[|r|] != b[|r|]
    ensures r == Shared(a, b)
    decreases |r|
  {
    if r != [] {
      SharedIs(a[1..], b[1..], r[1..]);
      assert r == [r[0]] + r[1..];
    }
  }

  function Common(strings: seq<seq<byte>>): (r: seq<byte>)
    requires strings != []
    ensures LongestCommon(r, strings)
  {
    var n := |strings| - 1;
    if n == 0 then strings[0]
    else
      var r := Shared(Common(strings[..n]), strings[n]);
      LongestExtends(Common(strings[..n]), strings);
      r
  }

  lemma LongestExtends(before: seq<byte>, strings: seq<seq<byte>>)
    requires strings != [] && LongestCommon(before, strings[..|strings| - 1])
    ensures LongestCommon(Shared(before, strings[|strings| - 1]), strings)
  {
    hide Shared;
    var last := strings[|strings| - 1];
    var r := Shared(before, last);
    forall i | 0 <= i < |strings| ensures r <= strings[i] {
      if i < |strings| - 1 { assert before <= strings[..|strings| - 1][i]; }
    }
    forall p | PrefixOfAll(p, strings) ensures p <= r {
      assert PrefixOfAll(p, strings[..|strings| - 1]);
      SharedIsLongest(before, last, p);
    }
  }

  method CommonPrefix(strings: seq<seq<byte>>) returns (r: seq<byte>)
    ensures r == if strings == [] then [] else Common(strings)
  {
    hide Shared;
    if strings == [] { return []; }
    var first := strings[0];
    var len: nat := |first|;
    for k := 1 to |strings|
      invariant len <= |first|
      invariant first[..len] == Common(strings[..k])
    {
      var s := strings[k];
      ghost var before := first[..len];
      assert strings[..k + 1][..k] == strings[..k];
      len := if |s| < len then |s| else len;
      var i := 0;
      while i < |first| && i < |s| && first[i] == s[i]
        invariant 0 <= i <= |first| && i <= |s|
        invariant first[..i] == s[..i]
      {
        i := i + 1;
      }
      if i < |first| && i < |s| && i < len { len := i; }
      assert first[..len] <= before && first[..len] == s[..len];
      SharedIs(before, s, first[..len]);
    }
    r := first[..len];
    assert strings[..|strings|] == strings;
  }

  // ---------------------------------------------------------------------------
  // The editor as a state machine

  datatype EscapeState = Normal | GotEsc | GotCsi

  datatype Editor = Editor(
    line: seq<byte>,
    cursor: nat,
    history: seq<seq<byte>>,
    index: Option<nat>,
    saved: seq<byte>,
    esc: EscapeState,
    autocomplete: bool)

  const FRESH: Editor := Editor([], 0, [], None, [], Normal, true)

  /** The next state, the bytes echoed and the line completed if any. */
  datatype Move = Move(next: Editor, echo: seq<byte>, done: Option<seq<byte>>)

  predicate EntryOk(s: seq<byte>) { ValidUtf8(s) && !Blank(s) && Clean(s) }

  predicate HistoryOk(h: seq<seq<byte>>) {
    && |h| <= MAX_HISTORY
    && (forall i :: 0 <= i < |h| ==> EntryOk(h[i]))
    && (forall i :: 0 < i < |h| ==> h[i - 1] != h[i])
  }

  predicate Inv(s: Editor) {
    && s.cursor <= |s.line|
    && Clean(s.line) && Clean(s.saved)
    && HistoryOk(s.history)
    && (s.index.Some? ==> s.index.value < |s.history|)
    && (s.index.None? ==> s.saved == [])
  }

  function Still(s: Editor): Move { Move(s, [], None) }

  function ReplaceEcho(cursor: nat, oldLength: nat, content: seq<byte>): seq<byte> {
    Repeat([BACKSPACE], cursor) + Repeat([SPACE], oldLength) + Repeat([BACKSPACE], oldLength) + content
  }

  function ReplaceLine(s: Editor, content: seq<byte>): Move {
    Move(s.(line := content, cursor := |content|), ReplaceEcho(s.cursor, |s.line|, content), None)
  }

  /** Up arrow. */
  function Prev(s: Editor): Move
    requires Inv(s)
  {
    if s.history == [] || s.index == Some(0) then Still(s)
    else
      var i := if s.index.None? then |s.history| - 1 else s.index.value - 1;
      var saved := if s.index.None? then s.line else s.saved;
      ReplaceLine(s.(index := Some(i), saved := saved), s.history[i])
  }

  /** Down arrow. */
  function Next(s: Editor): Move
    requires Inv(s)
  {
    if s.index.None? then Still(s)
    else if s.index.value + 1 >= |s.history| then ReplaceLine(s.(index := None, saved := []), s.saved)
    else ReplaceLine(s.(index := Some(s.index.value + 1)), s.history[s.index.value + 1])
  }

  function Escape(s: Editor, b: byte): Move
    requires Inv(s)
  {
    if b == 0x41 then Prev(s)
    else if b == 0x42 then Next(s)
    else if b == 0x43 && s.cursor < |s.line| then Move(s.(cursor := s.cursor + 1), [ESC, 0x5b, 0x43], None)
    else if b == 0x44 && s.cursor > 0 then Move(s.(cursor := s.cursor - 1), [ESC, 0x5b, 0x44], None)
    else Still(s)
  }

  /** The history after a line is entered. */
  function Remember(h: seq<seq<byte>>, entry: seq<byte>): seq<seq<byte>> {
    if Blank(entry) || (h != [] && h[|h| - 1] == entry) then h
    else if |h| + 1 > MAX_HISTORY then h[1..] + [entry]
    else h + [entry]
  }

  function Cleared(s: Editor): Editor { s.(line := [], cursor := 0, index := None, saved := []) }

  function Enter(s: Editor): Move {
    var entry := Lossy(s.line);
    Move(Cleared(s).(history := Remember(s.history, entry)), [0x0d, 0x0a], Some(entry))
  }

  function Erase(s: Editor): Move
    requires Inv(s)
  {
    if s.cursor == 0 then Still(s)
    else
      Move(s.(line := s.line[..s.cursor - 1] + s.line[s.cursor..], cursor := s.cursor - 1), RUBOUT, None)
  }

  function Insert(s: Editor, b: byte): Move
    requires Inv(s)
  {
    if |s.line| >= MAX_LINE_LENGTH then Move(s, [BELL], None)
    else Move(s.(line := s.line[..s.cursor] + [b] + s.line[s.cursor..], cursor := s.cursor + 1), [b], None)
  }

  function Listing(names: seq<seq<byte>>): seq<byte> {
    if names == [] then [] else Listing(names[..|names| - 1]) + names[|names| - 1] + [SPACE, SPACE]
  }

  function Extend(s: Editor, suffix: seq<byte>): Move {
    Move(s.(line := s.line + suffix, cursor := |s.line + suffix|), suffix, None)
  }

  function Tab(s: Editor): Move {
    var typed := TrimStart(Lossy(s.line));
    var completions := Completions(typed);
    if completions == [] then Move(s, [BELL], None)
    else if |completions| == 1 then Extend(s, completions[0][|typed|..] + [SPACE])
    else
      var common := Common(completions);
      if |common| > |typed| then Extend(s, common[|typed|..])
      else Move(s, [0x0d, 0x0a] + Listing(completions) + [0x0d, 0x0a] + s.line, None)
  }

  /** A byte outside an escape sequence. */
  function Key(s: Editor, b: byte): Move
    requires Inv(s)
  {
    if b == 0x0d || b == 0x0a then Enter(s)
    else if b == 0x7f || b == BACKSPACE then Erase(s)
    else if b == 0x03 then Move(Cleared(s), [0x5e, 0x43, 0x0d, 0x0a], Some([]))
    else if b == 0x04 then Move(s, [], if s.line == [] then Some(Bytes("exit")) else None)
    else if b == 0x15 then Move(s.(line := [], cursor := 0), Repeat(RUBOUT, s.cursor), None)
    else if b == 0x0c then Move(s, [ESC, 0x5b, 0x32, 0x4a, ESC, 0x5b, 0x48] + s.line, None)
    else if b == 0x09 then (if s.autocomplete then Tab(s) else Still(s))
    else if b == ESC then Still(s.(esc := GotEsc))
    else if b >= SPACE then Insert(s, b)
    else Still(s)
  }

  function Step(s: Editor, b: byte): Move
    requires Inv(s)
  {
    match s.esc
    case GotEsc => Still(s.(esc := if b == 0x5b then GotCsi else Normal))
    case GotCsi => Escape(s.(esc := Normal), b)
    case Normal => Key(s, b)
  }

  // ---------------------------------------------------------------------------
  // What every byte keeps

  lemma {:induction false} LossyClean(s: seq<byte>)
    requires Clean(s)
    ensures Clean(Lossy(s))
    decreases |s|
  {
    if s != [] {
      LossyClean(s[Fitting(s)..]);
    }
  }

  lemma {:induction false} MatchingClean(head: seq<byte>, names: seq<Word>, typed: seq<byte>)
    requires Clean(head) && Ascii(head)
    ensures forall i :: 0 <= i < |Matching(head, names, typed)| ==>
              Clean(Matching(head, names, typed)[i]) && Ascii(Matching(head, names, typed)[i])
    decreases |names|
  {
    if names != [] { MatchingClean(head, names[1..], typed); }
  }

  lemma CompletionsClean(line: seq<byte>)
    ensures forall i :: 0 <= i < |Completions(line)| ==> Clean(Completions(line)[i]) && Ascii(Completions(line)[i])
  {
    hide Matching, Clean, Ascii;
    if Bytes("show ") <= line {
      MatchingClean(Bytes("show "), SHOW, line[5..]);
    } else if Bytes("bookmark ") <= line {
      MatchingClean(Bytes("bookmark "), BOOKMARK, line[9..]);
    } else if Bytes("alias ") <= line {
      MatchingClean(Bytes("alias "), ALIAS, line[6..]);
    } else if SPACE !in line {
      NothingClean();
      MatchingClean([], COMMANDS, line);
    }
  }

  lemma NothingClean()
    ensures Clean([]) && Ascii([])
  {
  }

  predicate DoneOk(m: Move) { m.done.Some? ==> ValidUtf8(m.done.value) && Clean(m.done.value) }

  lemma EnterKeeps(s: Editor)
    requires Inv(s)
    ensures Inv(Enter(s).next) && DoneOk(Enter(s))
  {
    hide ValidUtf8, Blank;
    LossyClean(s.line);
    LossyIsValid(s.line);
  }

  lemma TabKeeps(s: Editor)
    requires Inv(s)
    ensures Inv(Tab(s).next) && Tab(s).done.None?
  {
    hide ValidUtf8, Blank, Completions, HistoryOk, Lossy, TrimStart, Common;
    var typed := TrimStart(Lossy(s.line));
    CompletionsClean(typed);
    var completions := Completions(typed);
    if |completions| > 1 {
      assert Common(completions) <= completions[0];
    }
  }

  lemma EscapeKeeps(s: Editor, b: byte)
    requires Inv(s)
    ensures Inv(Escape(s, b).next) && Escape(s, b).done.None?
  {
    hide ValidUtf8, Blank;
  }

  lemma EditKeeps(s: Editor, b: byte)
    requires Inv(s)
    ensures Inv(Erase(s).next) && Erase(s).done.None?
    ensures b >= SPACE && b != 0x7f ==> Inv(Insert(s, b).next) && Insert(s, b).done.None?
  {
    hide HistoryOk;
  }

  /** Every byte keeps the editor's invariant, and a line it completes is UTF-8 text without
      ASCII control characters. */
  lemma StepKeeps(s: Editor, b: byte)
    requires Inv(s)
    ensures Inv(Step(s, b).next)
    ensures DoneOk(Step(s, b))
  {
    hide ValidUtf8, Blank, Tab, Enter, HistoryOk, Escape, Erase, Insert;
    if s.esc == Normal {
      EditKeeps(s, b);
      EnterKeeps(s);
      TabKeeps(s);
    } else if s.esc == GotCsi {
      EscapeKeeps(s.(esc := Normal), b);
    }
    AsciiIsValid(Bytes("exit"));
    AsciiIsValid([]);
  }
}
