/** The editor as the program keeps it: fields updated in place, byte by byte. */
module TerminalStates {
  import opened Text
  import opened Utf8
  import opened Terminal

  class TerminalState {
    var lineBuffer: seq<byte>
    var cursorPos: nat
    var autocomplete: bool
    var history: seq<seq<byte>>
    var historyIndex: Option<nat>
    var savedLine: seq<byte>
    var escState: EscapeState

    ghost function State(): Editor
      reads this
    {
      Editor(lineBuffer, cursorPos, history, historyIndex, savedLine, escState, autocomplete)
    }

    ghost predicate Valid()
      reads this
    {
      Inv(State())
    }

    constructor ()
      ensures Valid() && State() == FRESH
    {
      lineBuffer, cursorPos, autocomplete := [], 0, true;
      history, historyIndex, savedLine, escState := [], None, [], Normal;
    }

    /** One byte of input: the bytes to echo and the line completed, as the state machine says. */
    method ProcessByte(b: byte) returns (echo: seq<byte>, done: Option<seq<byte>>)
      requires Valid()
      modifies this
      ensures Valid() && Move(State(), echo, done) == Step(old(State()), b)
    {
      hide Inv, Key, Escape;
      StepKeeps(State(), b);
      if escState == GotEsc {
        escState := if b == 0x5b then GotCsi else Normal;
        return [], None;
      }
      if escState == GotCsi {
        escState := Normal;
        IgnoresEscape(old(State()));
        echo := FinishEscape(b);
        return echo, None;
      }
      echo, done := ProcessKey(b);
    }

    method ProcessKey(b: byte) returns (echo: seq<byte>, done: Option<seq<byte>>)
      requires Valid()
      modifies this
      ensures Move(State(), echo, done) == Key(old(State()), b)
    {
      hide Inv, Tab, Enter, Erase, Insert, Repeat;
      echo, done := [], None;
      if b == 0x0d || b == 0x0a {
        echo, done := EnterLine();
      } else if b == 0x7f || b == BACKSPACE {
        echo := EraseByte();
      } else if b == 0x03 {
        historyIndex, savedLine, lineBuffer, cursorPos := None, [], [], 0;
        echo, done := [0x5e, 0x43, 0x0d, 0x0a], Some([]);
      } else if b == 0x04 {
        if lineBuffer == [] { done := Some(Bytes("exit")); }
      } else if b == 0x15 {
        echo := Repeated(RUBOUT, cursorPos);
        lineBuffer, cursorPos := [], 0;
      } else if b == 0x0c {
        echo := [ESC, 0x5b, 0x32, 0x4a, ESC, 0x5b, 0x48] + lineBuffer;
      } else if b == 0x09 {
        if autocomplete { echo := HandleTabCompletion(); }
      } else if b == ESC {
        escState := GotEsc;
      } else if b >= SPACE {
        echo := InsertByte(b);
      }
    }

    method FinishEscape(b: byte) returns (echo: seq<byte>)
      requires Valid()
      modifies this
      ensures Move(State(), echo, None) == Escape(old(State()), b)
    {
      hide HistoryOk, Prev, Next;
      ArrowsCompleteNothing(State());
      echo := [];
      if b == 0x41 {
        echo := HistoryPrev();
      } else if b == 0x42 {
        echo := HistoryNext();
      } else if b == 0x43 {
        if cursorPos < |lineBuffer| {
          cursorPos := cursorPos + 1;
          echo := [ESC, 0x5b, 0x43];
        }
      } else if b == 0x44 {
        if cursorPos > 0 {
          cursorPos := cursorPos - 1;
          echo := [ESC, 0x5b, 0x44];
        }
      }
    }

    method EnterLine() returns (echo: seq<byte>, done: Option<seq<byte>>)
      modifies this
      ensures Move(State(), echo, done) == Enter(old(State()))
    {
      hide Lossy, Blank;
      var entry := Lossy(lineBuffer);
      if !Blank(entry) && (history == [] || history[|history| - 1] != entry) {
        history := history + [entry];
        if |history| > MAX_HISTORY {
          assert history[1..] == old(history)[1..] + [entry];
          history := history[1..];
        }
      }
      historyIndex, savedLine, lineBuffer, cursorPos := None, [], [], 0;
      echo, done := [0x0d, 0x0a], Some(entry);
    }

    method EraseByte() returns (echo: seq<byte>)
      requires Valid()
      modifies `lineBuffer, `cursorPos
      ensures Move(State(), echo, None) == Erase(old(State()))
    {
      hide HistoryOk;
      if cursorPos == 0 { return []; }
      lineBuffer := lineBuffer[..cursorPos - 1] + lineBuffer[cursorPos..];
      cursorPos := cursorPos - 1;
      echo := RUBOUT;
    }

    method InsertByte(b: byte) returns (echo: seq<byte>)
      requires Valid()
      modifies `lineBuffer, `cursorPos
      ensures Move(State(), echo, None) == Insert(old(State()), b)
    {
      hide HistoryOk;
      if |lineBuffer| >= MAX_LINE_LENGTH { return [BELL]; }
      lineBuffer := lineBuffer[..cursorPos] + [b] + lineBuffer[cursorPos..];
      cursorPos := cursorPos + 1;
      echo := [b];
    }

    method Replace(content: seq<byte>) returns (echo: seq<byte>)
      modifies `lineBuffer, `cursorPos
      ensures Move(State(), echo, None) == ReplaceLine(old(State()), content)
    {
      hide Repeat;
      var back := Repeated([BACKSPACE], cursorPos);
      var blanks := Repeated([SPACE], |lineBuffer|);
      var backAll := Repeated([BACKSPACE], |lineBuffer|);
      echo := back + blanks + backAll + content;
      lineBuffer, cursorPos := content, |content|;
    }

    method HistoryPrev() returns (echo: seq<byte>)
      requires Valid()
      modifies this
      ensures Move(State(), echo, None) == Prev(old(State()))
    {
      hide HistoryOk, ReplaceEcho;
      if history == [] || historyIndex == Some(0) { return []; }
      var i: nat;
      if historyIndex.None? {
        savedLine := lineBuffer;
        i := |history| - 1;
      } else {
        i := historyIndex.value - 1;
      }
      historyIndex := Some(i);
      echo := Replace(history[i]);
    }

    method HistoryNext() returns (echo: seq<byte>)
      requires Valid()
      modifies this
      ensures Move(State(), echo, None) == Next(old(State()))
    {
      hide HistoryOk, ReplaceEcho;
      if historyIndex.None? { return []; }
      var i := historyIndex.value + 1;
      if i >= |history| {
        var saved := savedLine;
        historyIndex, savedLine := None, [];
        echo := Replace(saved);
      } else {
        historyIndex := Some(i);
        echo := Replace(history[i]);
      }
    }

    method HandleTabCompletion() returns (echo: seq<byte>)
      modifies `lineBuffer, `cursorPos
      ensures Move(State(), echo, None) == Tab(old(State()))
    {
      hide Lossy, TrimStart, Completions, Common;
      var typed := TrimStart(Lossy(lineBuffer));
      var completions := Completions(typed);
      if completions == [] { return [BELL]; }
      if |completions| == 1 {
        echo := completions[0][|typed|..] + [SPACE];
        lineBuffer := lineBuffer + echo;
        cursorPos := |lineBuffer|;
        return;
      }
      var common := CommonPrefix(completions);
      if |common| > |typed| {
        echo := common[|typed|..];
        lineBuffer := lineBuffer + echo;
        cursorPos := |lineBuffer|;
        return;
      }
      var names := [];
      for i := 0 to |completions|
        invariant names == Listing(completions[..i])
        invariant lineBuffer == old(lineBuffer) && cursorPos == old(cursorPos)
      {
        assert completions[..i + 1][..i] == completions[..i];
        names := names + completions[i] + [SPACE, SPACE];
      }
      assert completions[..|completions|] == completions;
      echo := [0x0d, 0x0a] + names + [0x0d, 0x0a] + lineBuffer;
    }
  }

  method Repeated(unit: seq<byte>, n: nat) returns (r: seq<byte>)
    ensures r == Repeat(unit, n)
  {
    r := [];
    for i := 0 to n
      invariant r == Repeat(unit, i)
    {
      r := r + unit;
    }
  }

  lemma IgnoresEscape(s: Editor)
    requires Inv(s)
    ensures Inv(s.(esc := Normal))
  {
  }

  lemma ArrowsCompleteNothing(s: Editor)
    requires Inv(s)
    ensures Prev(s).done.None? && Next(s).done.None?
  {
  }
}
