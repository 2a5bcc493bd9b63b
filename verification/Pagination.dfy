/** The order of strings used for cursor keys. */
module StringOrder {

  /** Lexicographic, by character. */
  predicate Less(a: string, b: string) {
    if b == "" then false
    else if a == "" then true
    else if a[0] != b[0] then a[0] < b[0]
    else Less(a[1..], b[1..])
  }

  predicate AtMost(a: string, b: string) { !Less(b, a) }

  /** `a` and `b` agree up to `k`, where `a` ends or has the smaller character. */
  predicate LessAt(a: string, b: string, k: nat) {
    && k <= |a| && k < |b| && a[..k] == b[..k]
    && (k == |a| || a[k] < b[k])
  }

  lemma LessAtHead(a: string, b: string, k: nat)
    requires LessAt(a, b, k)
    ensures k == 0 || (a != "" && b != "" && a[0] == b[0])
  {
    assert k > 0 ==> a[..k][0] == b[..k][0];
  }

  lemma {:induction false} LessIff(a: string, b: string)
    ensures Less(a, b) <==> exists k :: LessAt(a, b, k)
  {
    if a == "" || b == "" || a[0] != b[0] {
      if Less(a, b) { assert LessAt(a, b, 0); }
      if k: nat :| LessAt(a, b, k) { LessAtHead(a, b, k); }
    } else {
      LessIff(a[1..], b[1..]);
      if k: nat :| LessAt(a[1..], b[1..], k) {
        assert a[..k + 1] == [a[0]] + a[1..][..k] && b[..k + 1] == [b[0]] + b[1..][..k];
        assert LessAt(a, b, k + 1);
      }
      if k: nat :| LessAt(a, b, k) {
        assert k > 0;
        assert a[1..][..k - 1] == a[..k][1..] && b[1..][..k - 1] == b[..k][1..];
        assert LessAt(a[1..], b[1..], k - 1);
      }
    }
  }

  lemma LessIrreflexive(a: string)
    ensures !Less(a, a)
  {
  }

  lemma {:induction false} LessTransitive(a: string, b: string, c: string)
    requires Less(a, b) && Less(b, c)
    ensures Less(a, c)
  {
    if a != "" && b != "" && c != "" && a[0] == b[0] == c[0] {
      LessTransitive(a[1..], b[1..], c[1..]);
    }
  }

  lemma {:induction false} LessTotal(a: string, b: string)
    requires !Less(a, b) && !Less(b, a)
    ensures a == b
  {
    if a != "" && b != "" {
      LessTotal(a[1..], b[1..]);
      assert a == [a[0]] + a[1..] && b == [b[0]] + b[1..];
    }
  }

  /** a <= b < c gives a < c, and likewise on the other side. */
  lemma MixedTransitive(a: string, b: string, c: string)
    ensures AtMost(a, b) && Less(b, c) ==> Less(a, c)
    ensures Less(a, b) && AtMost(b, c) ==> Less(a, c)
    ensures AtMost(a, b) && AtMost(b, c) ==> AtMost(a, c)
  {
    if !Less(a, b) && !Less(b, a) { LessTotal(a, b); }
    if !Less(b, c) && !Less(c, b) { LessTotal(b, c); }
    if Less(a, b) && Less(b, c) { LessTransitive(a, b, c); }
    LessIrreflexive(a);
    if Less(c, a) && Less(a, b) { LessTransitive(c, a, b); }
    if Less(b, c) && Less(c, a) { LessTransitive(b, c, a); }
  }
}

/** Cursor pagination over a list sorted by key. */
module Pagination {
  import opened Text
  import opened StringOrder
  import opened Splitting

  const DEFAULT_LIMIT: nat := 50
  const MAX_LIMIT: nat := 200

  function EffectiveLimit(limit: Option<nat>): (r: nat)
    ensures r <= MAX_LIMIT
    ensures limit.None? ==> r == 50
    ensures limit.Some? && limit.value <= 200 ==> r == limit.value
    ensures limit.Some? && limit.value > 200 ==> r == 200
  {
    var n := if limit.Some? then limit.value else DEFAULT_LIMIT;
    if n <= MAX_LIMIT then n else MAX_LIMIT
  }

  /** The text form of cursors (URL-safe base64 of the key). */
  datatype Codec = Codec(encode: string -> string, decode: string -> Option<string>)

  ghost predicate Lawful(codec: Codec) { forall k :: codec.decode(codec.encode(k)) == Some(k) }

  function DecodeCursor(codec: Codec, cursor: Option<string>): Option<string> {
    if cursor.Some? then codec.decode(cursor.value) else None
  }

  datatype Page<T> = Page(data: seq<T>, nextCursor: Option<string>, hasMore: bool)

  /** How many items a cursor skips. */
  function Cut<T>(items: seq<T>, key: T -> string, cursor: string): (n: nat)
    ensures n <= |items|
    ensures n < |items| ==> Less(cursor, key(items[n]))
    ensures forall i :: 0 <= i < n ==> AtMost(key(items[i]), cursor)
  {
    if items == [] || Less(cursor, key(items[0])) then 0 else 1 + Cut(items[1..], key, cursor)
  }

  function Start<T>(items: seq<T>, key: T -> string, cursor: Option<string>): (n: nat)
    ensures n <= |items|
  {
    if cursor.Some? then Cut(items, key, cursor.value) else 0
  }

  function Filtered<T>(items: seq<T>, key: T -> string, cursor: Option<string>): seq<T> {
    items[Start(items, key, cursor)..]
  }

  function FromSorted<T>(codec: Codec, items: seq<T>, key: T -> string, cursor: Option<string>, limit: nat): Page<T> {
    var rest := Filtered(items, key, cursor);
    var hasMore := |rest| > limit;
    var data := if hasMore then rest[..limit] else rest;
    Page(data, if hasMore && data != [] then Some(codec.encode(key(data[|data| - 1]))) else None, hasMore)
  }

  // ---------------------------------------------------------------------------
  // Sorted lists

  predicate Sorted<T>(items: seq<T>, key: T -> string) {
    forall i, j :: 0 <= i < j < |items| ==> AtMost(key(items[i]), key(items[j]))
  }

  predicate StrictlySorted<T>(items: seq<T>, key: T -> string) {
    forall i, j :: 0 <= i < j < |items| ==> Less(key(items[i]), key(items[j]))
  }

  /** The key of `x` comes after the cursor. */
  predicate Beyond<T>(x: T, key: T -> string, cursor: Option<string>) {
    cursor.None? || Less(cursor.value, key(x))
  }

  /** The filter keeps exactly the items beyond the cursor. */
  lemma FilteredMeaning<T>(items: seq<T>, key: T -> string, cursor: Option<string>, i: nat)
    requires StrictlySorted(items, key) && i < |items|
    ensures Beyond(items[i], key, cursor) <==> i >= Start(items, key, cursor)
  {
    hide Cut, Less;
    var cut := Start(items, key, cursor);
    if cursor.Some? && i > cut { LessTransitive(cursor.value, key(items[cut]), key(items[i])); }
  }

  lemma AppearsOnce<T>(s: seq<T>, key: T -> string, x: T)
    requires StrictlySorted(s, key) && x in s
    ensures multiset(s)[x] == 1
  {
    var i :| 0 <= i < |s| && s[i] == x;
    LessIrreflexive(key(x));
    assert s == s[..i] + [x] + s[i + 1..];
    assert x !in s[..i] && x !in s[i + 1..];
    assert multiset(s) == multiset(s[..i]) + multiset{x} + multiset(s[i + 1..]);
  }

  // ---------------------------------------------------------------------------
  // Following the cursors while the list may change

  /** `pages` are what a client collects by following next_cursor to its end, when the list is
      `snapshots[i]` at the time of the i-th request. */
  ghost predicate Traverses<T>(codec: Codec, snapshots: seq<seq<T>>, key: T -> string, cursor: Option<string>,
                               limit: nat, pages: seq<seq<T>>)
    decreases |pages|
  {
    && |snapshots| == |pages| > 0
    && var page := FromSorted(codec, snapshots[0], key, cursor, limit);
       && pages[0] == page.data
       && if page.nextCursor.None? then |pages| == 1
          else Traverses(codec, snapshots[1..], key, DecodeCursor(codec, page.nextCursor), limit, pages[1..])
  }

  /** A slice from `cut` on; it has a successor exactly when something is left, and the decoded
      cursor is the key of its last item. */
  ghost predicate PageFrom<T>(codec: Codec, items: seq<T>, key: T -> string, cut: nat, limit: nat, page: Page<T>) {
    var end := cut + |page.data|;
    && |page.data| <= limit && end <= |items| && page.data == items[cut..end]
    && (page.nextCursor.Some? <==> page.hasMore) && (page.hasMore <==> end < |items|)
    && (page.hasMore ==> |page.data| == limit > 0 && DecodeCursor(codec, page.nextCursor) == Some(key(items[end - 1])))
  }

  lemma PageShape<T>(codec: Codec, items: seq<T>, key: T -> string, cursor: Option<string>, limit: nat)
    requires Lawful(codec) && limit > 0
    ensures PageFrom(codec, items, key, Start(items, key, cursor), limit, FromSorted(codec, items, key, cursor, limit))
  {
    hide Start;
  }

  lemma PositionByKey<T>(items: seq<T>, key: T -> string, i: nat, j: nat)
    requires StrictlySorted(items, key) && i < |items| && j < |items|
    ensures Less(key(items[j]), key(items[i])) <==> j < i
  {
    LessIrreflexive(key(items[i]));
    if i < j && Less(key(items[j]), key(items[i])) {
      LessTransitive(key(items[j]), key(items[i]), key(items[j]));
      LessIrreflexive(key(items[j]));
    }
  }

  lemma SliceCount<T>(items: seq<T>, key: T -> string, i: nat, lo: nat, hi: nat)
    requires StrictlySorted(items, key) && i < |items| && lo <= hi <= |items|
    ensures multiset(items[lo..hi])[items[i]] == if lo <= i < hi then 1 else 0
  {
    var x, slice := items[i], items[lo..hi];
    if lo <= i < hi {
      assert slice[i - lo] == x;
      AppearsOnce(slice, key, x);
    } else {
      LessIrreflexive(key(x));
      assert x !in slice;
    }
  }

  /** What one page does with an item: it shows it once, or leaves it for later pages, or it was
      not due any more. */
  lemma PageDisposes<T>(codec: Codec, items: seq<T>, key: T -> string, cursor: Option<string>, limit: nat, x: T)
    requires Lawful(codec) && StrictlySorted(items, key) && limit > 0 && x in items
    ensures var page := FromSorted(codec, items, key, cursor, limit);
      var next := DecodeCursor(codec, page.nextCursor);
      && (page.nextCursor.Some? ==> next.Some?)
      && multiset(page.data)[x] + (if page.nextCursor.Some? && Beyond(x, key, next) then 1 else 0)
         == (if Beyond(x, key, cursor) then 1 else 0)
  {
    hide FromSorted, Start, StrictlySorted, Less, DecodeCursor;
    PageShape(codec, items, key, cursor, limit);
    var page := FromSorted(codec, items, key, cursor, limit);
    var cut, m := Start(items, key, cursor), |page.data|;
    var i :| 0 <= i < |items| && items[i] == x;
    FilteredMeaning(items, key, cursor, i);
    SliceCount(items, key, i, cut, cut + m);
    if page.hasMore { PositionByKey(items, key, i, cut + m - 1); }
  }

  /** Every item that is in all snapshots of a finished traversal is shown exactly once. */
  lemma {:induction false} ExactlyOnce<T>(codec: Codec, snapshots: seq<seq<T>>, key: T -> string,
                                          cursor: Option<string>, limit: nat, pages: seq<seq<T>>, x: T)
    requires Lawful(codec) && limit > 0 && Traverses(codec, snapshots, key, cursor, limit, pages)
    requires forall s :: s in snapshots ==> StrictlySorted(s, key) && x in s
    ensures multiset(Concat(pages))[x] == if Beyond(x, key, cursor) then 1 else 0
    decreases |pages|
  {
    var page := FromSorted(codec, snapshots[0], key, cursor, limit);
    var next := DecodeCursor(codec, page.nextCursor);
    PageDisposes(codec, snapshots[0], key, cursor, limit, x);
    assert snapshots[0] in snapshots;
    if page.nextCursor.Some? {
      assert forall s :: s in snapshots[1..] ==> s in snapshots;
      ExactlyOnce(codec, snapshots[1..], key, next, limit, pages[1..], x);
    } else {
      assert pages[1..] == [];
    }
  }

  predicate AllBeyond<T>(s: seq<T>, key: T -> string, cursor: Option<string>) {
    forall i :: 0 <= i < |s| ==> Beyond(s[i], key, cursor)
  }

  lemma SliceBeyond<T>(items: seq<T>, key: T -> string, cursor: Option<string>, hi: nat)
    requires StrictlySorted(items, key)
    requires var cut := Start(items, key, cursor); cut <= hi <= |items|
    ensures var cut := Start(items, key, cursor);
      StrictlySorted(items[cut..hi], key) && AllBeyond(items[cut..hi], key, cursor)
  {
    hide Start, Less;
    var cut := Start(items, key, cursor);
    forall i | cut <= i < hi ensures Beyond(items[i], key, cursor) { FilteredMeaning(items, key, cursor, i); }
    assert forall i :: 0 <= i < hi - cut ==> items[cut..hi][i] == items[cut + i];
  }

  /** Pages in order: what is shown first ends where what is shown later begins. */
  lemma JoinBeyond<T>(a: seq<T>, b: seq<T>, key: T -> string, cursor: Option<string>)
    requires StrictlySorted(a, key) && AllBeyond(a, key, cursor) && a != []
    requires StrictlySorted(b, key) && AllBeyond(b, key, Some(key(a[|a| - 1])))
    ensures StrictlySorted(a + b, key) && AllBeyond(a + b, key, cursor)
  {
    hide Less;
    var c, n := a + b, |a|;
    var last := key(a[n - 1]);
    forall i, j | 0 <= i < j < |c| ensures Less(key(c[i]), key(c[j])) {
      if i < n <= j {
        assert Beyond(b[j - n], key, Some(last));
        if i < n - 1 { LessTransitive(key(c[i]), last, key(c[j])); }
      }
    }
    forall j | n <= j < |c| ensures Beyond(c[j], key, cursor) {
      assert Beyond(b[j - n], key, Some(last)) && Beyond(a[n - 1], key, cursor);
      if cursor.Some? { LessTransitive(cursor.value, last, key(c[j])); }
    }
  }

  /** However the list changes between requests, the items shown have strictly increasing keys: no
      item is ever shown twice. */
  lemma {:induction false} ShownInOrder<T>(codec: Codec, snapshots: seq<seq<T>>, key: T -> string,
                                           cursor: Option<string>, limit: nat, pages: seq<seq<T>>)
    requires Lawful(codec) && limit > 0 && Traverses(codec, snapshots, key, cursor, limit, pages)
    requires forall s :: s in snapshots ==> StrictlySorted(s, key)
    ensures StrictlySorted(Concat(pages), key) && AllBeyond(Concat(pages), key, cursor)
    decreases |pages|
  {
    hide StrictlySorted, AllBeyond, FromSorted, Start;
    var items := snapshots[0];
    var page := FromSorted(codec, items, key, cursor, limit);
    PageShape(codec, items, key, cursor, limit);
    SliceBeyond(items, key, cursor, Start(items, key, cursor) + |page.data|);
    if page.nextCursor.Some? {
      assert forall s :: s in snapshots[1..] ==> s in snapshots;
      ShownInOrder(codec, snapshots[1..], key, DecodeCursor(codec, page.nextCursor), limit, pages[1..]);
      JoinBeyond(page.data, Concat(pages[1..]), key, cursor);
    } else {
      assert pages[1..] == [];
      assert Concat(pages) == page.data;
    }
  }

  // ---------------------------------------------------------------------------
  // A list that does not change

  /** On a sorted list the cursor of an item skips at least up to that item, exactly that far if
      keys are distinct, and further if the next item has the same key. */
  lemma CutPastItem<T>(items: seq<T>, key: T -> string, i: nat)
    requires Sorted(items, key) && i < |items|
    ensures Cut(items, key, key(items[i])) > i
    ensures StrictlySorted(items, key) ==> Cut(items, key, key(items[i])) == i + 1
    ensures i + 1 < |items| && key(items[i]) == key(items[i + 1]) ==> Cut(items, key, key(items[i])) > i + 1
  {
    hide Cut, Less;
    var c := Cut(items, key, key(items[i]));
    LessIrreflexive(key(items[i]));
    assert i + 1 < c ==> AtMost(key(items[i + 1]), key(items[i]));
  }

  /** All pages of an unchanging sorted list, from a cursor on. */
  ghost function Pages<T>(codec: Codec, items: seq<T>, key: T -> string, cursor: Option<string>, limit: nat): seq<seq<T>>
    requires Lawful(codec) && Sorted(items, key) && limit > 0
    decreases |items| - Start(items, key, cursor)
  {
    PageShape(codec, items, key, cursor, limit);
    var page := FromSorted(codec, items, key, cursor, limit);
    if page.nextCursor.None? then [page.data]
    else
      CutPastItem(items, key, Start(items, key, cursor) + limit - 1);
      [page.data] + Pages(codec, items, key, DecodeCursor(codec, page.nextCursor), limit)
  }

  lemma PagesUnfold<T>(codec: Codec, items: seq<T>, key: T -> string, cursor: Option<string>, limit: nat)
    requires Lawful(codec) && Sorted(items, key) && limit > 0
    ensures var rest := Filtered(items, key, cursor);
      if |rest| <= limit then Pages(codec, items, key, cursor, limit) == [rest]
      else
        var next := Some(key(rest[limit - 1]));
        && |Filtered(items, key, next)| <= |rest| - limit
        && (StrictlySorted(items, key) ==> Filtered(items, key, next) == rest[limit..])
        && Pages(codec, items, key, cursor, limit) == [rest[..limit]] + Pages(codec, items, key, next, limit)
  {
    hide Cut, Sorted, StrictlySorted, FromSorted, Less;
    var rest, start := Filtered(items, key, cursor), Start(items, key, cursor);
    PageShape(codec, items, key, cursor, limit);
    var page := FromSorted(codec, items, key, cursor, limit);
    if |rest| > limit {
      CutPastItem(items, key, start + limit - 1);
      assert page.data == rest[..limit];
      assert rest[limit..] == items[start + limit..];
    } else {
      assert page.data == rest;
    }
  }

  /** The pages of an unchanging list are what following its cursors collects. */
  lemma {:induction false} PagesTraverse<T>(codec: Codec, items: seq<T>, key: T -> string, cursor: Option<string>, limit: nat)
    requires Lawful(codec) && Sorted(items, key) && limit > 0
    ensures var pages := Pages(codec, items, key, cursor, limit);
      Traverses(codec, seq(|pages|, _ => items), key, cursor, limit, pages)
    decreases |items| - Start(items, key, cursor)
  {
    hide FromSorted, Sorted, Cut;
    var pages := Pages(codec, items, key, cursor, limit);
    var snapshots := seq(|pages|, _ => items);
    var page := FromSorted(codec, items, key, cursor, limit);
    PageShape(codec, items, key, cursor, limit);
    if page.nextCursor.Some? {
      CutPastItem(items, key, Start(items, key, cursor) + limit - 1);
      var next := DecodeCursor(codec, page.nextCursor);
      PagesTraverse(codec, items, key, next, limit);
      assert pages[1..] == Pages(codec, items, key, next, limit);
      assert snapshots[1..] == seq(|pages| - 1, _ => items);
    }
  }

  /** Following the cursors ends and shows exactly the items beyond the first cursor, in order. */
  lemma {:induction false} PagesCover<T>(codec: Codec, items: seq<T>, key: T -> string, cursor: Option<string>, limit: nat)
    requires Lawful(codec) && Sorted(items, key) && StrictlySorted(items, key) && limit > 0
    ensures Concat(Pages(codec, items, key, cursor, limit)) == Filtered(items, key, cursor)
    decreases |items| - Start(items, key, cursor)
  {
    hide Pages, Start, Sorted, StrictlySorted;
    PagesUnfold(codec, items, key, cursor, limit);
    var rest := Filtered(items, key, cursor);
    if |rest| > limit {
      var next := Some(key(rest[limit - 1]));
      PagesCover(codec, items, key, next, limit);
      ConcatCons(rest[..limit], Pages(codec, items, key, next, limit));
      assert rest == rest[..limit] + rest[limit..];
    } else {
      ConcatCons(rest, []);
      assert [rest] + [] == [rest];
    }
  }

  lemma ConcatCons<T>(page: seq<T>, pages: seq<seq<T>>)
    ensures Concat([page] + pages) == page + Concat(pages)
  {
    assert ([page] + pages)[1..] == pages;
  }

  /** Pages never show more than the rest of the list. */
  lemma {:induction false} PagesAtMost<T>(codec: Codec, items: seq<T>, key: T -> string, cursor: Option<string>, limit: nat)
    requires Lawful(codec) && Sorted(items, key) && limit > 0
    ensures |Concat(Pages(codec, items, key, cursor, limit))| <= |Filtered(items, key, cursor)|
    decreases |items| - Start(items, key, cursor)
  {
    hide Pages, Start, Sorted;
    PagesUnfold(codec, items, key, cursor, limit);
    var rest := Filtered(items, key, cursor);
    if |rest| > limit {
      var next := Some(key(rest[limit - 1]));
      PagesAtMost(codec, items, key, next, limit);
      ConcatCons(rest[..limit], Pages(codec, items, key, next, limit));
    } else {
      ConcatCons(rest, []);
      assert [rest] + [] == [rest];
    }
  }

  /** Two neighbours with the same key: a page boundary between them loses the second. */
  lemma DuplicateKeyLost<T>(codec: Codec, items: seq<T>, key: T -> string, i: nat)
    requires Lawful(codec) && Sorted(items, key) && i + 1 < |items| && key(items[i]) == key(items[i + 1])
    ensures |Concat(Pages(codec, items, key, None, i + 1))| < |items|
  {
    hide Pages, Sorted;
    var limit, next := i + 1, Some(key(items[i]));
    PagesUnfold(codec, items, key, None, limit);
    CutPastItem(items, key, i);
    PagesAtMost(codec, items, key, next, limit);
    ConcatCons(items[..limit], Pages(codec, items, key, next, limit));
  }

  /** No page that starts at `start` ends between two items with the same key, nor does any after it. */
  predicate NoSplit<T>(items: seq<T>, key: T -> string, limit: nat, start: nat)
    requires limit > 0
    decreases |items| - start
  {
    start + limit >= |items| ||
    (key(items[start + limit - 1]) != key(items[start + limit]) && NoSplit(items, key, limit, start + limit))
  }

  /** Between different keys the cursor skips exactly to the boundary. */
  lemma CutAtBoundary<T>(items: seq<T>, key: T -> string, i: nat)
    requires Sorted(items, key) && i + 1 < |items| && key(items[i]) != key(items[i + 1])
    ensures Cut(items, key, key(items[i])) == i + 1
  {
    hide Cut, Less;
    CutPastItem(items, key, i);
    if !Less(key(items[i]), key(items[i + 1])) { LessTotal(key(items[i]), key(items[i + 1])); }
  }

  /** For each page size: the pages from `start` on are the rest of the list exactly when no page
      boundary falls between two items with the same key. */
  lemma {:induction false} CompleteFromIff<T>(codec: Codec, items: seq<T>, key: T -> string, cursor: Option<string>, limit: nat)
    requires Lawful(codec) && Sorted(items, key) && limit > 0
    ensures Concat(Pages(codec, items, key, cursor, limit)) == Filtered(items, key, cursor)
            <==> NoSplit(items, key, limit, Start(items, key, cursor))
    decreases |items| - Start(items, key, cursor)
  {
    hide Pages, Start, Sorted, Concat, PageFrom;
    var start, rest := Start(items, key, cursor), Filtered(items, key, cursor);
    PagesUnfold(codec, items, key, cursor, limit);
    if |rest| <= limit {
      ConcatOne(rest);
    } else {
      var i := start + limit - 1;
      var next := Some(key(items[i]));
      assert rest[limit - 1] == items[i];
      var tail := Concat(Pages(codec, items, key, next, limit));
      ConcatCons(rest[..limit], Pages(codec, items, key, next, limit));
      NextStart(items, key, i);
      SamePrefix(rest[..limit], tail, items[i + 1..]);
      assert rest == rest[..limit] + items[i + 1..];
      if key(items[i]) == key(items[i + 1]) {
        PagesAtMost(codec, items, key, next, limit);
      } else {
        CompleteFromIff(codec, items, key, next, limit);
      }
    }
  }

  lemma ConcatOne<T>(page: seq<T>)
    ensures Concat([page]) == page
  {
    assert [page][1..] == [];
  }

  /** Where the cursor of item `i` leads. */
  lemma NextStart<T>(items: seq<T>, key: T -> string, i: nat)
    requires Sorted(items, key) && i + 1 < |items|
    ensures var n := Start(items, key, Some(key(items[i])));
      if key(items[i]) == key(items[i + 1]) then n > i + 1 else n == i + 1
  {
    hide Cut, Sorted;
    CutPastItem(items, key, i);
    if key(items[i]) != key(items[i + 1]) { CutAtBoundary(items, key, i); }
  }

  lemma SamePrefix<T>(a: seq<T>, b: seq<T>, c: seq<T>)
    ensures a + b == a + c <==> b == c
  {
    assert (a + b)[|a|..] == b && (a + c)[|a|..] == c;
  }

  /** The whole list, for one page size. */
  lemma CompleteAtIff<T>(codec: Codec, items: seq<T>, key: T -> string, limit: nat)
    requires Lawful(codec) && Sorted(items, key) && limit > 0
    ensures Concat(Pages(codec, items, key, None, limit)) == items <==> NoSplit(items, key, limit, 0)
  {
    CompleteFromIff(codec, items, key, None, limit);
  }

  /** For a sorted list, every page size shows the whole list in order if and only if no two items
      share a key. */
  lemma CompleteIffDistinctKeys<T>(codec: Codec, items: seq<T>, key: T -> string)
    requires Lawful(codec) && Sorted(items, key)
    ensures (forall limit: nat :: limit > 0 ==> Concat(Pages(codec, items, key, None, limit)) == items)
            <==> StrictlySorted(items, key)
  {
    if StrictlySorted(items, key) {
      forall limit: nat | limit > 0 ensures Concat(Pages(codec, items, key, None, limit)) == items {
        PagesCover(codec, items, key, None, limit);
      }
    } else {
      var i := NeighboursWithSameKey(items, key);
      DuplicateKeyLost(codec, items, key, i);
      assert Concat(Pages(codec, items, key, None, i + 1)) != items;
    }
  }

  lemma NeighboursWithSameKey<T>(items: seq<T>, key: T -> string) returns (i: nat)
    requires Sorted(items, key) && !StrictlySorted(items, key)
    ensures i + 1 < |items| && key(items[i]) == key(items[i + 1])
  {
    var a, b :| 0 <= a < b < |items| && !Less(key(items[a]), key(items[b]));
    i := a;
    LessTotal(key(items[a]), key(items[b]));
    MixedTransitive(key(items[b]), key(items[a + 1]), key(items[a]));
    if a + 1 < b {
      assert AtMost(key(items[a]), key(items[a + 1])) && AtMost(key(items[a + 1]), key(items[b]));
    }
    LessTotal(key(items[a]), key(items[a + 1]));
  }

  /** A limit of zero is accepted and ends the traversal at once, whatever is left. */
  lemma ZeroLimitEndsEarly<T>(codec: Codec, items: seq<T>, key: T -> string)
    requires items != []
    ensures FromSorted(codec, items, key, None, EffectiveLimit(Some(0))) == Page([], None, true)
  {
  }
}
