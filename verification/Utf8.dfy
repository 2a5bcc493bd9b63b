/** Bytes, and UTF-8 well-formedness with the lossy conversion of ill-formed input. */
module Utf8 {

  type byte = x: int | 0 <= x < 256

  predicate Within(lo: byte, b: byte, hi: byte) { lo <= b <= hi }

  predicate IsContinuation(b: byte) { 0x80 <= b <= 0xBF }

  /** How many bytes a character with this first byte has; 0 if none starts with it. */
  function Width(b: byte): nat {
    if b < 0x80 then 1
    else if Within(0xC2, b, 0xDF) then 2
    else if Within(0xE0, b, 0xEF) then 3
    else if Within(0xF0, b, 0xF4) then 4
    else 0
  }

  /** The second byte allowed after this first byte. */
  predicate SecondFits(first: byte, second: byte) {
    if first == 0xE0 then Within(0xA0, second, 0xBF)
    else if first == 0xED then Within(0x80, second, 0x9F)
    else if first == 0xF0 then Within(0x90, second, 0xBF)
    else if first == 0xF4 then Within(0x80, second, 0x8F)
    else IsContinuation(second)
  }

  /** The length of the longest start of `s` that is, or could become, one character. */
  function Fitting(s: seq<byte>): (n: nat)
    requires s != []
    ensures 1 <= n <= |s|
  {
    var w := Width(s[0]);
    if w < 2 || |s| < 2 || !SecondFits(s[0], s[1]) then 1
    else if w < 3 || |s| < 3 || !IsContinuation(s[2]) then 2
    else if w < 4 || |s| < 4 || !IsContinuation(s[3]) then 3
    else 4
  }

  /** `s` starts with a complete character, `Fitting(s)` bytes long. */
  predicate StartsWithChar(s: seq<byte>) { s != [] && Fitting(s) == Width(s[0]) }

  predicate ValidUtf8(s: seq<byte>) {
    s == [] || (StartsWithChar(s) && ValidUtf8(s[Fitting(s)..]))
  }

  const REPLACEMENT: seq<byte> := [0xEF, 0xBF, 0xBD]

  /** What the first `Fitting(s)` bytes become. */
  function Piece(s: seq<byte>): seq<byte>
    requires s != []
  {
    if StartsWithChar(s) then s[..Fitting(s)] else REPLACEMENT
  }

  /** Each maximal ill-formed piece becomes one replacement character. */
  function Lossy(s: seq<byte>): seq<byte> {
    if s == [] then [] else Piece(s) + Lossy(s[Fitting(s)..])
  }

  lemma CharThenValid(c: seq<byte>, rest: seq<byte>)
    requires StartsWithChar(c) && Fitting(c) == |c| && ValidUtf8(rest)
    ensures ValidUtf8(c + rest)
  {
    assert StartsWithChar(c + rest) && Fitting(c + rest) == |c|;
    assert (c + rest)[|c|..] == rest;
  }

  lemma {:induction false} LossyIsValid(s: seq<byte>)
    ensures ValidUtf8(Lossy(s))
    decreases |s|
  {
    if s != [] {
      LossyIsValid(s[Fitting(s)..]);
      CharThenValid(Piece(s), Lossy(s[Fitting(s)..]));
    }
  }

  /** The conversion changes exactly the ill-formed inputs. */
  lemma {:induction false} LossyFixesOnlyInvalid(s: seq<byte>)
    ensures Lossy(s) == s <==> ValidUtf8(s)
    decreases |s|
  {
    LossyIsValid(s);
    if s != [] && ValidUtf8(s) {
      LossyFixesOnlyInvalid(s[Fitting(s)..]);
      assert s == s[..Fitting(s)] + s[Fitting(s)..];
    }
  }

  lemma {:induction false} AsciiIsValid(s: seq<byte>)
    requires forall i :: 0 <= i < |s| ==> s[i] < 0x80
    ensures ValidUtf8(s)
    decreases |s|
  {
    if s != [] { AsciiIsValid(s[1..]); }
  }

  // ---------------------------------------------------------------------------
  // Code points

  /** A Unicode scalar value: no surrogate. */
  predicate IsScalar(cp: nat) { cp < 0xD800 || 0xE000 <= cp < 0x110000 }

  function Low(n: nat): byte { 0x80 + n % 64 }

  function Encode(cp: nat): seq<byte>
    requires IsScalar(cp)
  {
    if cp < 0x80 then [cp]
    else if cp < 0x800 then [0xC0 + cp / 64, Low(cp)]
    else if cp < 0x10000 then [0xE0 + cp / 4096, Low(cp / 64), Low(cp)]
    else [0xF0 + cp / 262144, Low(cp / 4096), Low(cp / 64), Low(cp)]
  }

  /** The encoding of a scalar value is one character. */
  lemma EncodedIsChar(cp: nat)
    requires IsScalar(cp)
    ensures StartsWithChar(Encode(cp)) && Fitting(Encode(cp)) == |Encode(cp)|
  {
    Digits64(cp);
  }

  lemma Digits64(cp: nat)
    ensures cp == 64 * (cp / 64) + cp % 64
    ensures cp / 64 == 64 * (cp / 4096) + cp / 64 % 64
    ensures cp / 4096 == 64 * (cp / 262144) + cp / 4096 % 64
  {
  }

  /** One more group of six bits. */
  function Join6(high: nat, b: byte): nat
    requires IsContinuation(b)
  {
    high * 64 + (b as int - 0x80)
  }

  lemma Join6Parts(high: nat, b: byte)
    requires IsContinuation(b)
    ensures Join6(high, b) / 64 == high && Low(Join6(high, b)) == b
    ensures Join6(high, b) == high * 64 + (b as int - 0x80) && high * 64 <= Join6(high, b) < high * 64 + 64
  {
  }

  /** The code point of the character `s` starts with. */
  function CodePoint(s: seq<byte>): nat
    requires StartsWithChar(s)
  {
    var w, first: nat := Width(s[0]), s[0];
    if w == 1 then first
    else if w == 2 then Join6(first - 0xC0, s[1])
    else if w == 3 then Join6(Join6(first - 0xE0, s[1]), s[2])
    else Join6(Join6(Join6(first - 0xF0, s[1]), s[2]), s[3])
  }

  lemma DivTwice(cp: nat)
    ensures cp / 4096 == cp / 64 / 64 && cp / 262144 == cp / 64 / 64 / 64
  {
  }

  /** And every character is the encoding of a scalar value. */
  lemma CharIsEncoded(s: seq<byte>)
    requires StartsWithChar(s)
    ensures IsScalar(CodePoint(s)) && s[..Fitting(s)] == Encode(CodePoint(s))
  {
    hide Join6, Low;
    var cp, w, first: nat := CodePoint(s), Width(s[0]), s[0];
    DivTwice(cp);
    if w == 2 {
      Join6Parts(first - 0xC0, s[1]);
      assert s[..2] == [s[0], s[1]];
    } else if w == 3 {
      var h := Join6(first - 0xE0, s[1]);
      Join6Parts(first - 0xE0, s[1]);
      Join6Parts(h, s[2]);
      ThreeByteRange(first, s[1], h, cp);
      assert s[..3] == [s[0], s[1], s[2]];
    } else if w == 4 {
      var h := Join6(first - 0xF0, s[1]);
      var g := Join6(h, s[2]);
      Join6Parts(first - 0xF0, s[1]);
      Join6Parts(h, s[2]);
      Join6Parts(g, s[3]);
      FourByteRange(first, s[1], h, g, cp);
      assert s[..4] == [s[0], s[1], s[2], s[3]];
    }
  }

  lemma ThreeByteRange(first: byte, second: byte, h: nat, cp: nat)
    requires Within(0xE0, first, 0xEF) && SecondFits(first, second)
    requires h == (first as int - 0xE0) * 64 + (second as int - 0x80) && h * 64 <= cp < h * 64 + 64
    ensures 0x800 <= cp < 0x10000 && IsScalar(cp)
  {
  }

  lemma FourByteRange(first: byte, second: byte, h: nat, g: nat, cp: nat)
    requires Within(0xF0, first, 0xF4) && SecondFits(first, second)
    requires h == (first as int - 0xF0) * 64 + (second as int - 0x80)
    requires h * 64 <= g < h * 64 + 64 && g * 64 <= cp < g * 64 + 64
    ensures 0x10000 <= cp < 0x110000
  {
  }

  /** A character cut short becomes one replacement character. */
  lemma CutCharOnce(cp: nat, k: nat)
    requires IsScalar(cp) && 0 < k < |Encode(cp)|
    ensures Lossy(Encode(cp)[..k]) == REPLACEMENT
  {
    EncodedIsChar(cp);
    var s, p := Encode(cp), Encode(cp)[..k];
    CutFits(s, k);
    assert p[|p|..] == [] && Lossy([]) == [];
    assert REPLACEMENT + [] == REPLACEMENT;
  }

  lemma CutFits(s: seq<byte>, k: nat)
    requires StartsWithChar(s) && 0 < k < Fitting(s)
    ensures Fitting(s[..k]) == k && !StartsWithChar(s[..k])
  {
    var p := s[..k];
    assert p[0] == s[0];
    assert k > 1 ==> p[1] == s[1];
    assert k > 2 ==> p[2] == s[2];
  }

  /** No byte of UTF-8 text is above 0xF4. */
  lemma {:induction false} TextBounded(s: seq<byte>)
    requires ValidUtf8(s)
    ensures forall i :: 0 <= i < |s| ==> s[i] <= 0xF4
    decreases |s|
  {
    if s != [] {
      var n := Fitting(s);
      TextBounded(s[n..]);
      assert forall i :: n <= i < |s| ==> s[i] == s[n..][i - n];
    }
  }
}
