/** What the editor's echo does to the screen.  Every character takes one cell; the continuation
    bytes of a UTF-8 character join the cell of its first byte. */
module TerminalScreen {
  import opened Utf8
  import opened Terminal

  // ---------------------------------------------------------------------------
  // Text as cells

  type Cell = seq<byte>

  const BLANK: Cell := [SPACE]

  /** One more byte; a continuation byte with nothing before it is not shown. */
  function Add(g: seq<Cell>, b: byte): seq<Cell> {
    if !IsContinuation(b) then g + [[b]]
    else if g == [] then []
    else g[|g| - 1 := g[|g| - 1] + [b]]
  }

  function Glyphs(s: seq<byte>): seq<Cell> {
    if s == [] then [] else Add(Glyphs(s[..|s| - 1]), s[|s| - 1])
  }

  predicate AllConts(s: seq<byte>) { forall i :: 0 <= i < |s| ==> IsContinuation(s[i]) }

  predicate NoConts(s: seq<byte>) { forall i :: 0 <= i < |s| ==> !IsContinuation(s[i]) }

  predicate StartsPlain(s: seq<byte>) { s == [] || !IsContinuation(s[0]) }

  predicate AllSpaces(s: seq<byte>) { forall i :: 0 <= i < |s| ==> s[i] == SPACE }

  lemma {:induction false} GlyphsCount(a: seq<byte>, b: seq<byte>)
    ensures |Glyphs(a + b)| == |Glyphs(a)| + |Glyphs(b)|
    decreases |b|
  {
    if b == [] {
      assert a + b == a;
    } else {
      GlyphsCount(a, b[..|b| - 1]);
      assert (a + b)[..|a + b| - 1] == a + b[..|b| - 1];
    }
  }

  /** There are as many cells as bytes exactly when no byte is a continuation. */
  lemma {:induction false} OneCellEach(s: seq<byte>)
    ensures |Glyphs(s)| <= |s|
    ensures |Glyphs(s)| == |s| <==> NoConts(s)
    ensures |Glyphs(s)| == 0 <==> AllConts(s)
  {
    if s != [] { OneCellEach(s[..|s| - 1]); }
  }

  lemma AddBehind(g: seq<Cell>, h: seq<Cell>, b: byte)
    requires h != [] || !IsContinuation(b)
    ensures Add(g + h, b) == g + Add(h, b) && Add(h, b) != []
  {
  }

  /** Text that starts with a whole character has its own cells. */
  lemma {:induction false} GlyphsJoin(a: seq<byte>, b: seq<byte>)
    requires StartsPlain(b)
    ensures Glyphs(a + b) == Glyphs(a) + Glyphs(b)
    ensures b != [] ==> Glyphs(b) != []
    decreases |b|
  {
    hide Add;
    if b == [] {
      assert a + b == a;
    } else {
      var n := |b| - 1;
      GlyphsJoin(a, b[..n]);
      assert (a + b)[..|a + b| - 1] == a + b[..n];
      AddBehind(Glyphs(a), Glyphs(b[..n]), b[n]);
    }
  }

  /** The cells with `cs` joined to the last one. */
  function Joined(g: seq<Cell>, cs: seq<byte>): seq<Cell>
    requires g != []
  {
    g[|g| - 1 := g[|g| - 1] + cs]
  }

  lemma {:induction false} GlyphsConts(a: seq<byte>, cs: seq<byte>)
    requires Glyphs(a) != [] && AllConts(cs)
    ensures Glyphs(a + cs) == Joined(Glyphs(a), cs)
    decreases |cs|
  {
    if cs == [] {
      var g := Glyphs(a);
      assert a + cs == a && g[|g| - 1] + cs == g[|g| - 1];
    } else {
      var n := |cs| - 1;
      GlyphsConts(a, cs[..n]);
      assert (a + cs)[..|a + cs| - 1] == a + cs[..n];
      var g := Glyphs(a);
      assert g[|g| - 1] + cs[..n] + [cs[n]] == g[|g| - 1] + cs;
    }
  }

  /** How many continuation bytes `s` starts with. */
  function Conts(s: seq<byte>): (k: nat)
    ensures k <= |s| && AllConts(s[..k]) && StartsPlain(s[k..])
  {
    if StartsPlain(s) then 0 else 1 + Conts(s[1..])
  }

  /** The cells of `a` and what follows it: leading continuation bytes join the last cell of `a`. */
  lemma GlyphsSplit(a: seq<byte>, rest: seq<byte>)
    requires Glyphs(a) != []
    ensures Glyphs(a + rest) == Joined(Glyphs(a), rest[..Conts(rest)]) + Glyphs(rest[Conts(rest)..])
    ensures |Glyphs(a + rest)| == |Glyphs(a)| + |Glyphs(rest[Conts(rest)..])|
  {
    hide Glyphs;
    var k := Conts(rest);
    GlyphsConts(a, rest[..k]);
    GlyphsJoin(a + rest[..k], rest[k..]);
    assert a + rest[..k] + rest[k..] == a + rest;
  }

  lemma {:induction false} BlankGlyphs(s: seq<byte>)
    requires StartsPlain(s)
    ensures (forall i :: 0 <= i < |Glyphs(s)| ==> Glyphs(s)[i] == BLANK) <==> AllSpaces(s)
    ensures s != [] ==> Glyphs(s) != []
  {
    if s != [] {
      var n := |s| - 1;
      var g, h := Glyphs(s[..n]), Glyphs(s);
      BlankGlyphs(s[..n]);
      if IsContinuation(s[n]) {
        assert |h[|h| - 1]| == |g[|g| - 1]| + 1;
        Nonempty(s[..n]);
      } else {
        assert h == g + [[s[n]]];
        assert forall i :: 0 <= i < |g| ==> g[i] == h[i];
        assert h[|g|] == [s[n]];
      }
    }
  }

  lemma {:induction false} Nonempty(s: seq<byte>)
    ensures forall i :: 0 <= i < |Glyphs(s)| ==> Glyphs(s)[i] != []
  {
    if s != [] { Nonempty(s[..|s| - 1]); }
  }

  // ---------------------------------------------------------------------------
  // The screen

  /** One row of the screen; cells never written are blank. */
  datatype Screen = Screen(cells: seq<Cell>, pos: nat)

  function At(cells: seq<Cell>, i: nat): Cell { if i < |cells| then cells[i] else BLANK }

  function Set(cells: seq<Cell>, i: nat, c: Cell): seq<Cell> {
    if i < |cells| then cells[i := c] else cells + seq(i - |cells|, _ => BLANK) + [c]
  }

  lemma SetAt(cells: seq<Cell>, i: nat, c: Cell, j: nat)
    ensures At(Set(cells, i, c), j) == if j == i then c else At(cells, j)
  {
  }

  function Minus(a: nat, b: nat): nat { if a >= b then a - b else 0 }

  /** Backspace moves left; a continuation byte joins the cell before; anything else is written. */
  function Put(s: Screen, b: byte): Screen {
    if b == BACKSPACE then s.(pos := Minus(s.pos, 1))
    else if !IsContinuation(b) then Screen(Set(s.cells, s.pos, [b]), s.pos + 1)
    else if s.pos == 0 then s
    else s.(cells := Set(s.cells, s.pos - 1, At(s.cells, s.pos - 1) + [b]))
  }

  function Paint(s: Screen, bytes: seq<byte>): Screen {
    if bytes == [] then s
    else Put(Paint(s, bytes[..|bytes| - 1]), bytes[|bytes| - 1])
  }

  lemma {:induction false} PaintConcat(s: Screen, a: seq<byte>, b: seq<byte>)
    ensures Paint(s, a + b) == Paint(Paint(s, a), b)
    decreases |b|
  {
    hide Put;
    if b == [] {
      assert a + b == a;
    } else {
      PaintConcat(s, a, b[..|b| - 1]);
      assert (a + b)[..|a + b| - 1] == a + b[..|b| - 1];
    }
  }

  lemma PaintOne(s: Screen, b: byte)
    ensures Paint(s, [b]) == Put(s, b)
  {
    assert [b][..0] == [];
  }

  lemma {:induction false} PaintBack(s: Screen, n: nat)
    ensures Paint(s, Repeat([BACKSPACE], n)) == s.(pos := Minus(s.pos, n))
  {
    if n > 0 {
      PaintBack(s, n - 1);
      assert Repeat([BACKSPACE], n)[..|Repeat([BACKSPACE], n)| - 1] == Repeat([BACKSPACE], n - 1);
    }
  }

  /** The cells from `lo` up to `hi` are blank, the others as before. */
  ghost predicate Blanked(before: seq<Cell>, after: seq<Cell>, lo: nat, hi: nat) {
    forall i: nat :: At(after, i) == if lo <= i < hi then BLANK else At(before, i)
  }

  lemma BlankOneMore(before: seq<Cell>, cells: seq<Cell>, lo: nat, hi: nat, i: nat)
    requires Blanked(before, cells, lo, hi) && lo <= hi && (i == hi || i + 1 == lo)
    ensures Blanked(before, Set(cells, i, BLANK), if i < lo then i else lo, if i < lo then hi else hi + 1)
  {
    hide Set;
    forall j: nat
      ensures At(Set(cells, i, BLANK), j)
           == if (if i < lo then i else lo) <= j < (if i < lo then hi else hi + 1) then BLANK else At(before, j)
    {
      SetAt(cells, i, BLANK, j);
    }
  }

  lemma {:induction false} PaintBlanks(s: Screen, n: nat)
    ensures Paint(s, Repeat([SPACE], n)).pos == s.pos + n
    ensures Blanked(s.cells, Paint(s, Repeat([SPACE], n)).cells, s.pos, s.pos + n)
  {
    hide Set;
    if n > 0 {
      PaintBlanks(s, n - 1);
      var r := Repeat([SPACE], n);
      assert r[..|r| - 1] == Repeat([SPACE], n - 1);
      BlankOneMore(s.cells, Paint(s, r[..|r| - 1]).cells, s.pos, s.pos + n - 1, s.pos + n - 1);
    }
  }

  lemma PaintRubout(s: Screen)
    ensures Paint(s, RUBOUT).pos == Minus(s.pos, 1)
    ensures Paint(s, RUBOUT).cells == Set(s.cells, Minus(s.pos, 1), BLANK)
  {
    PaintOne(s, BACKSPACE);
    var s1 := Put(s, BACKSPACE);
    PaintOne(s1, SPACE);
    var s2 := Put(s1, SPACE);
    PaintOne(s2, BACKSPACE);
    PaintConcat(s, [BACKSPACE], [SPACE]);
    PaintConcat(s, [BACKSPACE, SPACE], [BACKSPACE]);
    assert [BACKSPACE] + [SPACE] == [BACKSPACE, SPACE];
    assert [BACKSPACE, SPACE] + [BACKSPACE] == RUBOUT;
  }

  lemma {:induction false} PaintRubouts(s: Screen, n: nat)
    ensures Paint(s, Repeat(RUBOUT, n)).pos == Minus(s.pos, n)
    ensures n <= s.pos ==> Blanked(s.cells, Paint(s, Repeat(RUBOUT, n)).cells, s.pos - n, s.pos)
  {
    hide Set, Paint;
    if n == 0 {
      PaintNothing(s);
    } else {
      PaintRubouts(s, n - 1);
      var m := Paint(s, Repeat(RUBOUT, n - 1));
      PaintConcat(s, Repeat(RUBOUT, n - 1), RUBOUT);
      PaintRubout(m);
      if n <= s.pos { BlankOneMore(s.cells, m.cells, s.pos - (n - 1), s.pos, s.pos - n); }
    }
  }

  lemma PaintNothing(s: Screen)
    ensures Paint(s, []) == s
  {
  }

  /** The row up to the position reads `t`. */
  ghost predicate Reads(s: Screen, t: seq<byte>) {
    s.pos == |Glyphs(t)| && forall i: nat :: i < s.pos ==> At(s.cells, i) == Glyphs(t)[i]
  }

  lemma PutReads(s: Screen, t: seq<byte>, b: byte)
    requires Reads(s, t) && b != BACKSPACE
    ensures Reads(Put(s, b), t + [b]) && s.pos <= Put(s, b).pos
    ensures forall i: nat :: i >= Put(s, b).pos ==> At(Put(s, b).cells, i) == At(s.cells, i)
  {
    hide Set;
    assert (t + [b])[..|t|] == t;
    var r := Put(s, b);
    if !IsContinuation(b) {
      forall i: nat ensures At(r.cells, i) == if i == s.pos then [b] else At(s.cells, i) { SetAt(s.cells, s.pos, [b], i); }
    } else if s.pos > 0 {
      var c := At(s.cells, s.pos - 1) + [b];
      forall i: nat ensures At(r.cells, i) == if i == s.pos - 1 then c else At(s.cells, i) { SetAt(s.cells, s.pos - 1, c, i); }
    }
  }

  /** Writing text behind what the row reads; nothing behind the new position changes. */
  lemma {:induction false} PaintText(s: Screen, t: seq<byte>, text: seq<byte>)
    requires Reads(s, t) && Clean(text)
    ensures Reads(Paint(s, text), t + text) && s.pos <= Paint(s, text).pos
    ensures forall i: nat :: i >= Paint(s, text).pos ==> At(Paint(s, text).cells, i) == At(s.cells, i)
    decreases |text|
  {
    hide Put, Glyphs;
    if text == [] {
      assert t + text == t;
    } else {
      var n := |text| - 1;
      PaintText(s, t, text[..n]);
      PutReads(Paint(s, text[..n]), t + text[..n], text[n]);
      assert t + text[..n] + [text[n]] == t + text;
    }
  }

  lemma {:induction false} PaintMoves(s: Screen, text: seq<byte>)
    requires Clean(text)
    ensures Paint(s, text).pos == s.pos + |Glyphs(text)|
    decreases |text|
  {
    if text != [] { PaintMoves(s, text[..|text| - 1]); }
  }

  // ---------------------------------------------------------------------------
  // When the echo keeps the screen right

  ghost predicate SameRow(a: seq<Cell>, b: seq<Cell>) { forall i: nat :: At(a, i) == At(b, i) }

  /** The screen reads `a` up to the cursor and `rest` after it, and is blank after that. */
  ghost predicate Shows(s: Screen, a: seq<byte>, rest: seq<byte>) {
    s.pos == |Glyphs(a)| && SameRow(s.cells, Glyphs(a + rest))
  }

  /** The row around the cursor: `g` up to it, then `cs` in the cell before it, then `t`. */
  ghost predicate Around(s: Screen, g: seq<Cell>, cs: seq<byte>, t: seq<Cell>) {
    g != [] && s.pos == |g| && SameRow(s.cells, Joined(g, cs) + t)
  }

  lemma AroundCursor(s: Screen, a: seq<byte>, rest: seq<byte>)
    requires Shows(s, a, rest) && Glyphs(a) != []
    ensures Around(s, Glyphs(a), rest[..Conts(rest)], Glyphs(rest[Conts(rest)..]))
  {
    hide Glyphs, Conts;
    GlyphsSplit(a, rest);
  }

  /** A row of cells that is the same one cell further on is blank. */
  lemma {:induction false} SameAsNextIsBlank(t: seq<Cell>)
    requires forall j: nat :: At(t, j) == At(t, j + 1)
    ensures forall i :: 0 <= i < |t| ==> t[i] == BLANK
  {
    var j := |t|;
    while j > 0
      invariant 0 <= j <= |t|
      invariant forall i :: j <= i < |t| ==> t[i] == BLANK
    {
      j := j - 1;
      assert At(t, j) == At(t, j + 1);
    }
  }

  predicate AllBlank(t: seq<Cell>) { forall i :: 0 <= i < |t| ==> t[i] == BLANK }

  // Typing

  lemma WrittenCell(s: Screen, g: seq<Cell>, cs: seq<byte>, t: seq<Cell>, b: byte, i: nat)
    requires Around(s, g, cs, t) && !IsContinuation(b) && b != BACKSPACE
    ensures At(Put(s, b).cells, i) == if i == |g| then [b] else At(Joined(g, cs) + t, i)
  {
    hide Set;
    SetAt(s.cells, |g|, [b], i);
  }

  /** A first byte is written over the cell at the cursor. */
  lemma WriteShown(s: Screen, g: seq<Cell>, cs: seq<byte>, t: seq<Cell>, b: byte)
    requires Around(s, g, cs, t) && !IsContinuation(b) && b != BACKSPACE
    ensures Put(s, b).pos == |g| + 1
    ensures SameRow(Put(s, b).cells, g + [[b] + cs] + t) <==> cs == [] && AllBlank(t)
  {
    hide Set, SameRow, AllBlank;
    if SameRow(Put(s, b).cells, g + [[b] + cs] + t) { WrittenIsBlank(s, g, cs, t, b); }
    if cs == [] && AllBlank(t) { BlankIsWritten(s, g, t, b); }
  }

  lemma WrittenIsBlank(s: Screen, g: seq<Cell>, cs: seq<byte>, t: seq<Cell>, b: byte)
    requires Around(s, g, cs, t) && !IsContinuation(b) && b != BACKSPACE
    requires SameRow(Put(s, b).cells, g + [[b] + cs] + t)
    ensures cs == [] && AllBlank(t)
  {
    hide Put, At, Joined;
    var m := |g|;
    WrittenCell(s, g, cs, t, b, m - 1);
    CellBefore(g, cs, t, b);
    forall j: nat ensures At(t, j) == At(t, j + 1) {
      WrittenCell(s, g, cs, t, b, m + 1 + j);
      CellsBehind(g, cs, t, b, j);
    }
    SameAsNextIsBlank(t);
  }

  lemma CellBefore(g: seq<Cell>, cs: seq<byte>, t: seq<Cell>, b: byte)
    requires g != []
    ensures At(g + [[b] + cs] + t, |g| - 1) == At(Joined(g, cs) + t, |g| - 1) <==> cs == []
  {
    var m := |g|;
    assert At(g + [[b] + cs] + t, m - 1) == g[m - 1] && At(Joined(g, cs) + t, m - 1) == g[m - 1] + cs;
    assert |g[m - 1] + cs| == |g[m - 1]| + |cs|;
    if cs == [] { assert g[m - 1] + cs == g[m - 1]; }
  }

  lemma CellsBehind(g: seq<Cell>, cs: seq<byte>, t: seq<Cell>, b: byte, j: nat)
    requires g != []
    ensures At(g + [[b] + cs] + t, |g| + 1 + j) == At(t, j)
    ensures At(Joined(g, cs) + t, |g| + 1 + j) == At(t, j + 1)
  {
  }

  lemma BlankIsWritten(s: Screen, g: seq<Cell>, t: seq<Cell>, b: byte)
    requires Around(s, g, [], t) && !IsContinuation(b) && b != BACKSPACE && AllBlank(t)
    ensures SameRow(Put(s, b).cells, g + [[b] + []] + t)
  {
    hide Put;
    assert [b] + [] == [b] && g[|g| - 1] + [] == g[|g| - 1];
    forall i: nat ensures At(Put(s, b).cells, i) == At(g + [[b] + []] + t, i) { WrittenCell(s, g, [], t, b, i); }
  }

  predicate Same(cs: seq<byte>, b: byte) { forall i :: 0 <= i < |cs| ==> cs[i] == b }

  /** A continuation byte joins the cell before the cursor, behind what is there. */
  lemma JoinShown(s: Screen, g: seq<Cell>, cs: seq<byte>, t: seq<Cell>, b: byte)
    requires Around(s, g, cs, t) && IsContinuation(b)
    ensures Put(s, b).pos == |g|
    ensures SameRow(Put(s, b).cells, Joined(g, [b] + cs) + t) <==> Same(cs, b)
  {
    hide Set;
    var m := |g|;
    var r, want := Put(s, b).cells, Joined(g, [b] + cs) + t;
    var last := g[m - 1];
    assert At(s.cells, m - 1) == At(Joined(g, cs) + t, m - 1) == last + cs;
    forall i: nat
      ensures At(r, i) == if i == m - 1 then last + cs + [b] else At(Joined(g, cs) + t, i)
    {
      SetAt(s.cells, m - 1, last + cs + [b], i);
    }
    Commutes(cs, b);
    assert last + cs + [b] == last + (cs + [b]);
    assert At(want, m - 1) == last + ([b] + cs);
    if SameRow(r, want) {
      assert (last + (cs + [b]))[|last|..] == cs + [b] && (last + ([b] + cs))[|last|..] == [b] + cs;
      assert At(r, m - 1) == At(want, m - 1);
    }
    if cs + [b] == [b] + cs {
      assert forall i: nat :: At(r, i) == At(want, i);
    }
  }

  lemma {:induction false} Commutes(cs: seq<byte>, b: byte)
    ensures cs + [b] == [b] + cs <==> Same(cs, b)
  {
    if cs + [b] == [b] + cs {
      var i := 0;
      while i < |cs|
        invariant 0 <= i <= |cs| && forall j :: 0 <= j < i ==> cs[j] == b
      {
        assert (cs + [b])[i] == cs[i] && ([b] + cs)[i] == if i == 0 then b else cs[i - 1];
        i := i + 1;
      }
    }
  }

  lemma GlyphsSnoc(a: seq<byte>, b: byte)
    ensures Glyphs(a + [b]) == Add(Glyphs(a), b)
  {
    assert (a + [b])[..|a|] == a;
  }

  /** The cells wanted after typing. */
  lemma TypedGlyphs(a: seq<byte>, rest: seq<byte>, b: byte)
    requires Glyphs(a) != []
    ensures var g, k := Glyphs(a), Conts(rest);
      && |Glyphs(a + [b])| == |g| + (if IsContinuation(b) then 0 else 1)
      && Glyphs(a + [b] + rest)
         == (if IsContinuation(b) then Joined(g, [b] + rest[..k]) else g + [[b] + rest[..k]]) + Glyphs(rest[k..])
  {
    hide Glyphs, Conts;
    var g, k := Glyphs(a), Conts(rest);
    GlyphsSnoc(a, b);
    GlyphsSplit(a + [b], rest);
    if IsContinuation(b) {
      assert g[|g| - 1] + [b] + rest[..k] == g[|g| - 1] + ([b] + rest[..k]);
      assert Joined(Add(g, b), rest[..k]) == Joined(g, [b] + rest[..k]);
    } else {
      assert Joined(Add(g, b), rest[..k]) == g + [[b] + rest[..k]];
    }
  }

  /** When a byte typed in front of `rest` is shown right. */
  predicate TypesWell(rest: seq<byte>, b: byte) {
    if IsContinuation(b) then Same(rest[..Conts(rest)], b) else AllSpaces(rest)
  }

  lemma TypedShown(s: Screen, a: seq<byte>, rest: seq<byte>, b: byte)
    requires Shows(s, a, rest) && Glyphs(a) != [] && b != BACKSPACE
    ensures Shows(Put(s, b), a + [b], rest) <==> TypesWell(rest, b)
  {
    hide Glyphs, Put, Conts, SameRow, Joined, Around, AllSpaces, AllBlank, Same;
    var g, k := Glyphs(a), Conts(rest);
    AroundCursor(s, a, rest);
    TypedGlyphs(a, rest, b);
    if IsContinuation(b) {
      JoinShown(s, g, rest[..k], Glyphs(rest[k..]), b);
    } else {
      WriteShown(s, g, rest[..k], Glyphs(rest[k..]), b);
      BlankRest(rest);
    }
  }

  lemma BlankRest(rest: seq<byte>)
    ensures AllSpaces(rest) <==> rest[..Conts(rest)] == [] && AllBlank(Glyphs(rest[Conts(rest)..]))
  {
    hide Glyphs, Conts;
    BlankGlyphs(rest[Conts(rest)..]);
    SpacesSplit(rest);
  }

  lemma SpacesSplit(rest: seq<byte>)
    ensures AllSpaces(rest) <==> rest[..Conts(rest)] == [] && AllSpaces(rest[Conts(rest)..])
  {
    hide Conts;
    if Conts(rest) > 0 { assert IsContinuation(rest[..Conts(rest)][0]); }
    if Conts(rest) == 0 { assert rest[0..] == rest; }
  }

  // Erasing

  lemma ErasedGlyphs(p: seq<byte>, x: byte, rest: seq<byte>)
    requires Glyphs(p) != []
    ensures Glyphs(p + rest) == Joined(Glyphs(p), rest[..Conts(rest)]) + Glyphs(rest[Conts(rest)..])
    ensures Glyphs(p + [x]) == Add(Glyphs(p), x)
  {
    hide Glyphs, Conts;
    GlyphsSplit(p, rest);
    GlyphsSnoc(p, x);
  }

  predicate LikeBefore(t: seq<Cell>, j: nat)
    requires j < |t|
  {
    t[j] == if j == 0 then BLANK else t[j - 1]
  }

  lemma {:induction false} ShiftedIsBlank(t: seq<Cell>)
    requires forall j :: 0 <= j < |t| ==> LikeBefore(t, j)
    ensures AllBlank(t)
  {
    var j := 0;
    while j < |t|
      invariant 0 <= j <= |t| && forall i :: 0 <= i < j ==> t[i] == BLANK
    {
      assert LikeBefore(t, j);
      j := j + 1;
    }
  }

  /** The row with cell `m` blanked, cell by cell. */
  lemma BlankedCell(s: Screen, g: seq<Cell>, x: Cell, cs: seq<byte>, t: seq<Cell>, i: nat)
    requires Around(s, g + [x], cs, t) && g != []
    ensures Paint(s, RUBOUT).pos == |g|
    ensures At(Paint(s, RUBOUT).cells, i)
         == if i < |g| then g[i] else if i == |g| then BLANK else At(t, i - |g| - 1)
  {
    hide Set, Paint;
    PaintRubout(s);
    SetAt(s.cells, |g|, BLANK, i);
    assert At(s.cells, i) == At(Joined(g + [x], cs) + t, i);
  }

  lemma BlankShown(s: Screen, g: seq<Cell>, x: Cell, cs: seq<byte>, t: seq<Cell>)
    requires Around(s, g + [x], cs, t) && g != []
    ensures Paint(s, RUBOUT).pos == |g|
    ensures SameRow(Paint(s, RUBOUT).cells, Joined(g, cs) + t) <==> cs == [] && AllBlank(t)
  {
    hide Paint, Around, AllBlank, SameRow;
    BlankedCell(s, g, x, cs, t, |g| - 1);
    if SameRow(Paint(s, RUBOUT).cells, Joined(g, cs) + t) { ShownIsBlank(s, g, x, cs, t); }
    if cs == [] && AllBlank(t) { BlankIsShown(s, g, x, t); }
  }

  lemma ShownIsBlank(s: Screen, g: seq<Cell>, x: Cell, cs: seq<byte>, t: seq<Cell>)
    requires Around(s, g + [x], cs, t) && g != []
    requires SameRow(Paint(s, RUBOUT).cells, Joined(g, cs) + t)
    ensures cs == [] && AllBlank(t)
  {
    hide Paint, Around;
    var m, want := |g|, Joined(g, cs) + t;
    BlankedCell(s, g, x, cs, t, m - 1);
    assert At(want, m - 1) == g[m - 1] + cs;
    assert |g[m - 1] + cs| == |g[m - 1]| + |cs|;
    forall j | 0 <= j < |t| ensures LikeBefore(t, j) {
      BlankedCell(s, g, x, cs, t, m + j);
      assert At(want, m + j) == t[j];
    }
    ShiftedIsBlank(t);
  }

  lemma BlankIsShown(s: Screen, g: seq<Cell>, x: Cell, t: seq<Cell>)
    requires Around(s, g + [x], [], t) && g != [] && AllBlank(t)
    ensures SameRow(Paint(s, RUBOUT).cells, Joined(g, []) + t)
  {
    hide Paint, Around, AllBlank, Joined, At;
    forall i: nat ensures At(Paint(s, RUBOUT).cells, i) == At(Joined(g, []) + t, i) {
      BlankedCell(s, g, x, [], t, i);
      BlankBehind(g, t, i);
      if i > |g| { BlankBehind(g, t, i - |g| - 1); }
    }
  }

  lemma BlankBehind(g: seq<Cell>, t: seq<Cell>, i: nat)
    requires g != [] && AllBlank(t)
    ensures At(Joined(g, []) + t, i) == if i < |g| then g[i] else BLANK
    ensures At(t, i) == BLANK
  {
    assert g[|g| - 1] + [] == g[|g| - 1];
  }

  lemma ErasedShown(s: Screen, p: seq<byte>, x: byte, rest: seq<byte>)
    requires Shows(s, p + [x], rest) && Glyphs(p) != []
    ensures Shows(Paint(s, RUBOUT), p, rest) <==> !IsContinuation(x) && AllSpaces(rest)
  {
    hide Glyphs, Paint, Conts, SameRow, Joined, Around, AllSpaces, AllBlank;
    ErasedGlyphs(p, x, rest);
    if IsContinuation(x) {
      PaintRubout(s);
    } else {
      var k := Conts(rest);
      AroundCursor(s, p + [x], rest);
      BlankShown(s, Glyphs(p), [x], rest[..k], Glyphs(rest[k..]));
      BlankRest(rest);
    }
  }

  // Erasing the line

  /** When erasing `before` byte by byte leaves nothing of the line on the screen. */
  predicate KillsWell(before: seq<byte>, rest: seq<byte>) {
    NoConts(before) && AllSpaces(if before == [] then rest else rest[Conts(rest)..])
  }

  lemma TailBlank(g: seq<Cell>, cs: seq<byte>, t: seq<Cell>)
    requires g != []
    ensures SameRow(Joined(g, cs) + t, g) <==> cs == [] && AllBlank(t)
  {
    var m, row := |g|, Joined(g, cs) + t;
    if SameRow(row, g) {
      assert At(row, m - 1) == g[m - 1] + cs && At(g, m - 1) == g[m - 1];
      assert |g[m - 1] + cs| == |g[m - 1]| + |cs|;
      forall j | 0 <= j < |t| ensures t[j] == BLANK { assert At(row, m + j) == t[j] && At(g, m + j) == BLANK; }
    }
    if cs == [] { assert g[m - 1] + cs == g[m - 1]; }
  }

  /** The cells of `g` kept, those of `h` blanked, `t` behind them. */
  lemma MiddleBlank(s: Screen, r: seq<Cell>, g: seq<Cell>, h: seq<Cell>, cs: seq<byte>, t: seq<Cell>)
    requires h != [] && Around(s, g + h, cs, t) && Blanked(s.cells, r, |g|, |g| + |h|)
    ensures SameRow(r, g) <==> AllBlank(t)
  {
    var m, row := |g| + |h|, Joined(g + h, cs) + t;
    assert forall i: nat :: i < |g| ==> At(row, i) == g[i];
    assert forall i: nat :: i >= m ==> At(row, i) == At(t, i - m);
    if SameRow(r, g) {
      forall j | 0 <= j < |t| ensures t[j] == BLANK { assert At(r, m + j) == At(row, m + j) && At(g, m + j) == BLANK; }
    }
  }

  lemma KilledShown(s: Screen, prompt: seq<byte>, before: seq<byte>, rest: seq<byte>)
    requires Shows(s, prompt + before, rest) && Glyphs(prompt) != []
    ensures Shows(Paint(s, Repeat(RUBOUT, |before|)), prompt, []) <==> KillsWell(before, rest)
  {
    hide Glyphs, Paint, Conts, SameRow, Joined, Around, AllSpaces, AllBlank, Blanked;
    var k, r := |before|, Paint(s, Repeat(RUBOUT, |before|));
    GlyphsCount(prompt, before);
    OneCellEach(before);
    PaintRubouts(s, k);
    assert prompt + [] == prompt;
    if NoConts(before) {
      AroundCursor(s, prompt + before, rest);
      GlyphsJoin(prompt, before);
      var c := Conts(rest);
      BlankGlyphs(rest[c..]);
      if before == [] {
        PaintNothing(s);
        assert prompt + before == prompt;
        GlyphsSplit(prompt, rest);
        TailBlank(Glyphs(prompt), rest[..c], Glyphs(rest[c..]));
        BlankRest(rest);
        SameRows(s.cells, Glyphs(prompt + rest), Glyphs(prompt));
      } else {
        MiddleBlank(s, r.cells, Glyphs(prompt), Glyphs(before), rest[..c], Glyphs(rest[c..]));
        AllBlankSpaces(rest[c..]);
      }
    }
  }

  lemma AllBlankSpaces(t: seq<byte>)
    requires StartsPlain(t)
    ensures AllBlank(Glyphs(t)) <==> AllSpaces(t)
  {
    BlankGlyphs(t);
  }

  lemma SameRows(a: seq<Cell>, b: seq<Cell>, c: seq<Cell>)
    requires SameRow(a, b)
    ensures SameRow(a, c) <==> SameRow(b, c)
  {
  }

  // Replacing the line

  /** The row reads `t` and nothing else, with the position behind it. */
  ghost predicate ReadsOnly(s: Screen, t: seq<byte>) {
    Reads(s, t) && forall i: nat :: i >= s.pos ==> At(s.cells, i) == BLANK
  }

  lemma PaintFresh(s: Screen, t: seq<byte>, content: seq<byte>)
    requires ReadsOnly(s, t) && Clean(content)
    ensures Shows(Paint(s, content), t + content, [])
  {
    hide Glyphs, Paint;
    PaintText(s, t, content);
    assert t + content + [] == t + content;
  }

  /** The screen just before the new content is written. */
  lemma BeforeContent(s: Screen, back: nat, n: nat, content: seq<byte>) returns (r: Screen)
    ensures Paint(s, Repeat([BACKSPACE], back) + Repeat([SPACE], n) + Repeat([BACKSPACE], n) + content) == Paint(r, content)
    ensures r.pos == Minus(s.pos, back) && Blanked(s.cells, r.cells, r.pos, r.pos + n)
  {
    hide Paint, Repeat, Blanked;
    var a, b, c := Repeat([BACKSPACE], back), Repeat([SPACE], n), Repeat([BACKSPACE], n);
    PaintConcat(s, a + b + c, content);
    PaintConcat(s, a + b, c);
    PaintConcat(s, a, b);
    PaintBack(s, back);
    PaintBlanks(s.(pos := Minus(s.pos, back)), n);
    PaintBack(Paint(s, a + b), n);
    r := Paint(s, a + b + c);
  }

  /** When replacing a line with the cursor between `before` and `rest` repaints it right. */
  predicate ReplacesWell(before: seq<byte>, rest: seq<byte>) { NoConts(before) && StartsPlain(before + rest) }

  /** From the end of the prompt on everything is blank; before it stands the prompt, with the
      stray continuation bytes the line started with. */
  lemma PromptLeft(s: Screen, r: Screen, prompt: seq<byte>, line: seq<byte>)
    requires Glyphs(prompt) != [] && SameRow(s.cells, Glyphs(prompt + line))
    requires r.pos == |Glyphs(prompt)| && Blanked(s.cells, r.cells, r.pos, r.pos + |line|)
    ensures ReadsOnly(r, prompt + line[..Conts(line)])
  {
    hide Glyphs, Conts;
    var k, g := Conts(line), Glyphs(prompt);
    GlyphsSplit(prompt, line);
    GlyphsConts(prompt, line[..k]);
    OneCellEach(line[k..]);
    var row := Glyphs(prompt + line);
    assert forall i: nat :: i < |g| ==> At(row, i) == Joined(g, line[..k])[i];
    assert forall i: nat :: i >= r.pos + |line| ==> At(row, i) == BLANK;
  }

  lemma StrayDiffers(prompt: seq<byte>, cs: seq<byte>, content: seq<byte>)
    requires Glyphs(prompt) != [] && AllConts(cs)
    ensures SameRow(Glyphs(prompt + cs + content), Glyphs(prompt + content)) <==> cs == []
  {
    hide Glyphs, Conts;
    var g, k := Glyphs(prompt), Conts(content);
    GlyphsSplit(prompt, content);
    GlyphsConts(prompt, cs);
    GlyphsSplit(prompt + cs, content);
    var m := |g| - 1;
    var a, b := Glyphs(prompt + cs + content), Glyphs(prompt + content);
    assert At(a, m) == g[m] + cs + content[..k] && At(b, m) == g[m] + content[..k];
    if cs == [] {
      assert prompt + cs == prompt;
    } else {
      assert |At(a, m)| != |At(b, m)|;
    }
  }

  lemma ReplacedShown(s: Screen, prompt: seq<byte>, before: seq<byte>, rest: seq<byte>, content: seq<byte>)
    requires Shows(s, prompt + before, rest) && Glyphs(prompt) != [] && Clean(content)
    ensures Shows(Paint(s, ReplaceEcho(|before|, |before + rest|, content)), prompt + content, [])
            <==> ReplacesWell(before, rest)
  {
    hide Glyphs, Paint, Conts, SameRow, Blanked, ReadsOnly, StartsPlain;
    var line := before + rest;
    var r := BeforeContent(s, |before|, |line|, content);
    GlyphsCount(prompt, before);
    OneCellEach(before);
    PaintMoves(r, content);
    GlyphsCount(prompt, content);
    if NoConts(before) {
      assert prompt + before + rest == prompt + line;
      PromptLeft(s, r, prompt, line);
      var cs := line[..Conts(line)];
      PaintFresh(r, prompt + cs, content);
      StrayDiffers(prompt, cs, content);
      assert prompt + cs + content + [] == prompt + cs + content && prompt + content + [] == prompt + content;
      SameRows(Paint(r, content).cells, Glyphs(prompt + cs + content), Glyphs(prompt + content));
      PlainIffNone(line);
    }
  }

  lemma PlainIffNone(line: seq<byte>)
    ensures StartsPlain(line) <==> line[..Conts(line)] == []
  {
  }

  /** A line of one two-byte character, cursor behind it: the backspaces reach into the prompt, and
      the new content stands where its last character was. */
  lemma PromptEaten(s: Screen, p: seq<byte>, y: byte, content: seq<byte>)
    requires Shows(s, p + [y] + [0xC3, 0xA9], []) && !IsContinuation(y) && Clean(content)
    ensures Shows(Paint(s, ReplaceEcho(2, 2, content)), p + content, [])
  {
    hide Paint, Repeat;
    var r := BeforeContent(s, 2, 2, content);
    var g := Glyphs(p);
    GlyphsSnoc(p, y);
    GlyphsSnoc(p + [y], 0xC3);
    GlyphsSnoc(p + [y] + [0xC3], 0xA9);
    assert p + [y] + [0xC3] + [0xA9] == p + [y] + [0xC3, 0xA9] == p + [y] + [0xC3, 0xA9] + [];
    assert Glyphs(p + [y] + [0xC3]) == g + [[y]] + [[0xC3]];
    var lead: Cell := [0xC3];
    assert lead + [0xA9] == [0xC3, 0xA9];
    assert Glyphs(p + [y] + [0xC3, 0xA9]) == g + [[y], [0xC3, 0xA9]];
    assert forall i: nat :: i < |g| ==> At(g + [[y], [0xC3, 0xA9]], i) == g[i];
    PaintFresh(r, p, content);
  }

  // Completing

  lemma ExtendedShown(s: Screen, a: seq<byte>, rest: seq<byte>, suffix: seq<byte>)
    requires Shows(s, a, rest) && Clean(suffix)
    ensures Shows(Paint(s, suffix), a + rest + suffix, []) <==> AllConts(rest)
  {
    hide Glyphs, Paint, AllConts;
    PaintMoves(s, suffix);
    GlyphsCount(a, rest);
    GlyphsCount(a + rest, suffix);
    OneCellEach(rest);
    if AllConts(rest) {
      assert forall i: nat :: i < s.pos ==> At(s.cells, i) == At(Glyphs(a + rest), i);
      PaintFresh(s, a + rest, suffix);
    }
  }

  // ---------------------------------------------------------------------------
  // The editor's own keys

  /** The screen shows the editor's line behind the prompt. */
  ghost predicate InSync(s: Screen, prompt: seq<byte>, e: Editor) {
    e.cursor <= |e.line| && Shows(s, prompt + e.line[..e.cursor], e.line[e.cursor..])
  }

  /** Whether an echo keeps the screen in step with the editor. */
  ghost predicate ShownRight(s: Screen, prompt: seq<byte>, m: Move) { InSync(Paint(s, m.echo), prompt, m.next) }

  /** A prompt takes up at least one cell; the shell's ends in a dollar sign and a space. */
  predicate IsPrompt(prompt: seq<byte>) { Glyphs(prompt) != [] }

  lemma AtEnd(s: Screen, prompt: seq<byte>, e: Editor)
    requires e.cursor == |e.line|
    ensures InSync(s, prompt, e) <==> Shows(s, prompt + e.line, [])
  {
    assert e.line[..e.cursor] == e.line && e.line[e.cursor..] == [];
  }

  /** The echo of a typed byte keeps the screen right exactly when nothing but spaces follows the
      cursor; for a continuation byte, when it equals those it is put in front of. */
  lemma InsertShownIff(s: Screen, prompt: seq<byte>, e: Editor, b: byte)
    requires Inv(e) && InSync(s, prompt, e) && IsPrompt(prompt) && Clean([b]) && |e.line| < MAX_LINE_LENGTH
    ensures ShownRight(s, prompt, Insert(e, b)) <==> TypesWell(e.line[e.cursor..], b)
  {
    hide Glyphs, Paint, Put, TypesWell, Shows, HistoryOk;
    var before, rest, m := e.line[..e.cursor], e.line[e.cursor..], Insert(e, b);
    assert [b][0] == b;
    GlyphsCount(prompt, before);
    TypedShown(s, prompt + before, rest, b);
    PaintOne(s, b);
    assert m.next.line[..m.next.cursor] == before + [b] && m.next.line[m.next.cursor..] == rest;
    assert prompt + (before + [b]) == prompt + before + [b];
  }

  /** Backspace: exactly when it takes a whole character and nothing but spaces follows. */
  lemma EraseShownIff(s: Screen, prompt: seq<byte>, e: Editor)
    requires Inv(e) && InSync(s, prompt, e) && IsPrompt(prompt) && e.cursor > 0
    ensures ShownRight(s, prompt, Erase(e))
            <==> !IsContinuation(e.line[e.cursor - 1]) && AllSpaces(e.line[e.cursor..])
  {
    hide Glyphs, Paint, Shows, HistoryOk, AllSpaces;
    var before, x, rest, m := e.line[..e.cursor - 1], e.line[e.cursor - 1], e.line[e.cursor..], Erase(e);
    GlyphsCount(prompt, before);
    assert prompt + e.line[..e.cursor] == prompt + before + [x];
    ErasedShown(s, prompt + before, x, rest);
    assert m.next.line[..m.next.cursor] == before && m.next.line[m.next.cursor..] == rest;
  }

  /** Ctrl+U: exactly when every byte before the cursor is a character of its own and only spaces
      stand after the cursor. */
  lemma KillShownIff(s: Screen, prompt: seq<byte>, e: Editor)
    requires Inv(e) && e.esc == Normal && InSync(s, prompt, e) && IsPrompt(prompt)
    ensures ShownRight(s, prompt, Key(e, 0x15)) <==> KillsWell(e.line[..e.cursor], e.line[e.cursor..])
  {
    hide Glyphs, Paint, Shows, HistoryOk, KillsWell, Repeat;
    KilledShown(s, prompt, e.line[..e.cursor], e.line[e.cursor..]);
    var next := Key(e, 0x15).next;
    AtEnd(Paint(s, Repeat(RUBOUT, e.cursor)), prompt, next);
    assert prompt + next.line == prompt;
  }

  /** History keys: the old line is cleared and the new one shown exactly when every byte before the
      cursor is a character of its own and the line does not start with a stray continuation. */
  lemma ReplaceShownIff(s: Screen, prompt: seq<byte>, e: Editor, content: seq<byte>)
    requires Inv(e) && InSync(s, prompt, e) && IsPrompt(prompt) && Clean(content)
    ensures ShownRight(s, prompt, ReplaceLine(e, content)) <==> ReplacesWell(e.line[..e.cursor], e.line[e.cursor..])
  {
    hide Glyphs, Paint, Shows, HistoryOk, ReplacesWell, ReplaceEcho;
    var before, rest, m := e.line[..e.cursor], e.line[e.cursor..], ReplaceLine(e, content);
    assert before + rest == e.line;
    ReplacedShown(s, prompt, before, rest, content);
    AtEnd(Paint(s, m.echo), prompt, m.next);
  }

  /** Tab, when it completes: exactly when no further character follows the cursor. */
  lemma ExtendShownIff(s: Screen, prompt: seq<byte>, e: Editor, suffix: seq<byte>)
    requires Inv(e) && InSync(s, prompt, e) && Clean(suffix)
    ensures ShownRight(s, prompt, Extend(e, suffix)) <==> AllConts(e.line[e.cursor..])
  {
    hide Glyphs, Paint, Shows, HistoryOk, AllConts;
    var before, rest, m := e.line[..e.cursor], e.line[e.cursor..], Extend(e, suffix);
    ExtendedShown(s, prompt + before, rest, suffix);
    AtEnd(Paint(s, suffix), prompt, m.next);
    assert prompt + before + rest + suffix == prompt + m.next.line;
  }
}
