/** Splitting a sequence at a separator, and putting parts together again. */
module Splitting {

  function Split<T(==)>(s: seq<T>, sep: T): (parts: seq<seq<T>>)
    ensures parts != []
    ensures forall i :: 0 <= i < |parts| ==> sep !in parts[i]
  {
    if s == [] then [[]]
    else Cons(s[0], sep, Split(s[1..], sep))
  }

  function Join<T>(parts: seq<seq<T>>, sep: T): seq<T> {
    if parts == [] then []
    else if |parts| == 1 then parts[0]
    else parts[0] + [sep] + Join(parts[1..], sep)
  }

  /** The parts one after the other. */
  function Concat<T>(parts: seq<seq<T>>): seq<T> {
    if parts == [] then [] else parts[0] + Concat(parts[1..])
  }

  /** One more element in front of a split sequence. */
  function Cons<T(==)>(x: T, sep: T, parts: seq<seq<T>>): seq<seq<T>>
    requires parts != []
  {
    if x == sep then [[]] + parts else [[x] + parts[0]] + parts[1..]
  }

  lemma ConsConcat<T>(x: T, sep: T, a: seq<seq<T>>, b: seq<seq<T>>)
    requires a != []
    ensures Cons(x, sep, a + b) == Cons(x, sep, a) + b
  {
    assert (a + b)[1..] == a[1..] + b;
  }

  lemma {:induction false} SplitPlain<T>(s: seq<T>, sep: T)
    requires sep !in s
    ensures Split(s, sep) == [s]
  {
    if s != [] {
      SplitPlain(s[1..], sep);
      assert [s[0]] + s[1..] == s;
    }
  }

  lemma {:induction false} SplitConcat<T>(a: seq<T>, sep: T, b: seq<T>)
    ensures Split(a + [sep] + b, sep) == Split(a, sep) + Split(b, sep)
    decreases |a|
  {
    var s := a + [sep] + b;
    if a == [] {
      assert s[1..] == b;
    } else {
      SplitConcat(a[1..], sep, b);
      assert s[1..] == a[1..] + [sep] + b && s[0] == a[0];
      ConsConcat(a[0], sep, Split(a[1..], sep), Split(b, sep));
    }
  }

  lemma {:induction false} SplitJoin<T>(parts: seq<seq<T>>, sep: T)
    requires parts != [] && forall i :: 0 <= i < |parts| ==> sep !in parts[i]
    ensures Split(Join(parts, sep), sep) == parts
    decreases |parts|
  {
    SplitPlain(parts[0], sep);
    if |parts| == 1 {
      assert parts == [parts[0]];
    } else {
      SplitJoin(parts[1..], sep);
      SplitConcat(parts[0], sep, Join(parts[1..], sep));
      assert [parts[0]] + parts[1..] == parts;
    }
  }

  lemma {:induction false} JoinSplit<T>(s: seq<T>, sep: T)
    ensures Join(Split(s, sep), sep) == s
    decreases |s|
  {
    if s != [] {
      JoinSplit(s[1..], sep);
      JoinCons(s[0], sep, Split(s[1..], sep));
      assert [s[0]] + s[1..] == s;
    }
  }

  lemma JoinCons<T>(x: T, sep: T, parts: seq<seq<T>>)
    requires parts != []
    ensures Join(Cons(x, sep, parts), sep) == [x] + Join(parts, sep)
  {
    var all := Cons(x, sep, parts);
    if x == sep {
      assert all[1..] == parts;
    } else {
      assert all[1..] == parts[1..];
    }
  }

  predicate AllIn<T(!new)>(parts: seq<seq<T>>, p: T -> bool) {
    forall k, i :: 0 <= k < |parts| && 0 <= i < |parts[k]| ==> p(parts[k][i])
  }

  /** What holds throughout the parts holds throughout the sequence, separators aside. */
  lemma {:induction false} SplitCovers<T(!new)>(s: seq<T>, sep: T, p: T -> bool)
    requires AllIn(Split(s, sep), p)
    ensures forall i :: 0 <= i < |s| ==> s[i] == sep || p(s[i])
    decreases |s|
  {
    if s != [] {
      var parts, rest := Split(s, sep), Split(s[1..], sep);
      if s[0] == sep {
        assert forall k :: 0 <= k < |rest| ==> rest[k] == parts[k + 1];
      } else {
        assert parts[0] == [s[0]] + rest[0];
        assert parts[0][0] == s[0];
        assert forall i :: 0 <= i < |rest[0]| ==> rest[0][i] == parts[0][i + 1];
        assert forall k :: 1 <= k < |rest| ==> rest[k] == parts[k];
      }
      SplitCovers(s[1..], sep, p);
    }
  }
}
