/** The per-space part of `analyze_space` (lines 245-257 and 268-276): which
    aggregated attachments belong to the space, their order by size, which of
    them are unreferenced, and the totals. */
module SpaceReport {
  import opened Wrappers
  import opened Records
  import opened Aggregator
  import opened Sequences

  /** `f"{BASE_URL}/spaces/{space_key}"`. */
  function SpacePrefix(key: string): string
  {
    BaseUrl + "/spaces/" + key
  }

  /** The membership test of line 246: the owning page's URL starts with the
      space prefix. It is a plain prefix test, with no separator after the key. */
  predicate InSpace(a: Attachment, key: string)
  {
    SpacePrefix(key) <= a.originalPage.url
  }

  /** The stored records in dictionary order (`all_attachments_global.values()`). */
  function Values(s: Store): (r: seq<Attachment>)
    requires WellFormed(s)
    ensures |r| == |s.order|
    ensures forall i :: 0 <= i < |r| ==> r[i] == s.records[s.order[i]]
  {
    seq(|s.order|, i requires 0 <= i < |s.order| => s.records[s.order[i]])
  }

  /** `space_files` before sorting: the records whose owning page is in the space. */
  function SpaceFiles(s: Store, key: string): (r: seq<Attachment>)
    requires WellFormed(s)
  {
    Filter(Values(s), a => InSpace(a, key))
  }

  function IdOf(a: Attachment): string
  {
    a.id
  }

  /** The space's files are exactly the stored records whose owning page URL
      starts with the space prefix, each of them once, in insertion order. */
  lemma SpaceFilesAreTheSpacesRecords(s: Store, key: string)
    requires WellFormed(s)
    ensures forall a :: a in SpaceFiles(s, key) <==> a in s.records.Values && InSpace(a, key)
    ensures Subsequence(SpaceFiles(s, key), Values(s))
    ensures forall i, j :: 0 <= i < j < |SpaceFiles(s, key)| ==> SpaceFiles(s, key)[i].id != SpaceFiles(s, key)[j].id
  {
    var vs := Values(s);
    forall a | a in s.records.Values
      ensures a in vs
    {
      var id :| id in s.records && s.records[id] == a;
      var i :| 0 <= i < |s.order| && s.order[i] == id;
      assert vs[i] == a;
    }
    forall i, j | 0 <= i < j < |vs|
      ensures IdOf(vs[i]) != IdOf(vs[j])
    {
      assert vs[i].id == s.order[i] && vs[j].id == s.order[j];
    }
    SubsequenceKeepsDistinct(SpaceFiles(s, key), vs, IdOf);
  }

  /** A key that is a prefix of another key picks up the other space's files:
      the test at line 246 counts a page of space `ABC` as a page of space `AB`. */
  lemma PrefixKeyMatchesLongerKey(a: Attachment, key: string, more: string)
    requires InSpace(a, key + more)
    ensures InSpace(a, key)
  {
    assert SpacePrefix(key + more) == SpacePrefix(key) + more;
  }

  lemma PrefixKeyExample(a: Attachment)
    requires a.originalPage.url == BaseUrl + "/spaces/ABC/pages/7/Budget"
    ensures InSpace(a, "ABC") && InSpace(a, "AB")
  {
    assert a.originalPage.url == SpacePrefix("ABC") + "/pages/7/Budget";
    assert SpacePrefix("ABC") == SpacePrefix("AB") + "C";
  }

  // ---------------------------------------------------------------------
  // `space_files.sort(key=lambda x: x.get("size", 0), reverse=True)`

  predicate SortedBySizeDesc(xs: seq<Attachment>)
  {
    forall i, j :: 0 <= i < j < |xs| ==> xs[i].size >= xs[j].size
  }

  /** The files of `xs` that have exactly size `n`, in their order: the
      sub-list a stable sort must leave untouched. */
  function WithSize(xs: seq<Attachment>, n: int): seq<Attachment>
  {
    if xs == [] then []
    else (if xs[0].size == n then [xs[0]] else []) + WithSize(xs[1..], n)
  }

  lemma {:induction false} WithSizeAppend(a: seq<Attachment>, b: seq<Attachment>, n: int)
    ensures WithSize(a + b, n) == WithSize(a, n) + WithSize(b, n)
  {
    if a == [] {
      assert a + b == b;
    } else {
      assert (a + b)[0] == a[0] && (a + b)[1..] == a[1..] + b;
      WithSizeAppend(a[1..], b, n);
    }
  }

  lemma {:induction false} WithSizeOfSmaller(t: seq<Attachment>, n: int)
    requires forall i :: 0 <= i < |t| ==> t[i].size < n
    ensures WithSize(t, n) == []
  {
    if t != [] {
      WithSizeOfSmaller(t[1..], n);
    }
  }

  /** Insert `x` into a list sorted by size, descending, after every file at
      least as large as `x` (so that equal sizes keep their order). */
  function Insert(t: seq<Attachment>, x: Attachment): (r: seq<Attachment>)
    ensures multiset(r) == multiset(t) + multiset{x}
  {
    if t == [] then [x]
    else if t[0].size >= x.size then
      assert t == [t[0]] + t[1..];
      [t[0]] + Insert(t[1..], x)
    else [x] + t
  }

  lemma {:induction false} InsertSorted(t: seq<Attachment>, x: Attachment)
    requires SortedBySizeDesc(t)
    ensures SortedBySizeDesc(Insert(t, x))
  {
    if t != [] && t[0].size >= x.size {
      InsertSorted(t[1..], x);
      var r := Insert(t, x);
      forall j | 0 < j < |r|
        ensures r[0].size >= r[j].size
      {
        assert r[j] in multiset(Insert(t[1..], x));
        assert r[j] in multiset(t[1..]) || r[j] == x;
      }
    }
  }

  /** A file larger than the head goes in front; nothing else has its size. */
  lemma InsertInFront(t: seq<Attachment>, x: Attachment, n: int)
    requires SortedBySizeDesc(t) && t != [] && t[0].size < x.size
    ensures WithSize(Insert(t, x), n) == WithSize(t, n) + (if x.size == n then [x] else [])
  {
    assert Insert(t, x) == [x] + t;
    WithSizeAppend([x], t, n);
    if x.size == n {
      WithSizeOfSmaller(t, n);
    }
  }

  lemma WithSizeCons(h: Attachment, rest: seq<Attachment>, n: int)
    ensures WithSize([h] + rest, n) == (if h.size == n then [h] else []) + WithSize(rest, n)
  {
    assert ([h] + rest)[1..] == rest;
  }

  /** A file no larger than the head goes behind it: the head's entry comes
      first in both lists. */
  lemma InsertBehindHead(t: seq<Attachment>, rest: seq<Attachment>, tail: seq<Attachment>, n: int)
    requires t != []
    requires WithSize(rest, n) == WithSize(t[1..], n) + tail
    ensures WithSize([t[0]] + rest, n) == WithSize(t, n) + tail
  {
    WithSizeCons(t[0], rest, n);
  }

  /** Insertion keeps the files of each size in order and puts `x` after
      those of its own size. */
  lemma {:induction false} InsertStable(t: seq<Attachment>, x: Attachment, n: int)
    requires SortedBySizeDesc(t)
    ensures WithSize(Insert(t, x), n) == WithSize(t, n) + (if x.size == n then [x] else [])
  {
    if t == [] {
    } else if t[0].size >= x.size {
      var rest := Insert(t[1..], x);
      assert Insert(t, x) == [t[0]] + rest;
      InsertStable(t[1..], x, n);
      InsertBehindHead(t, rest, if x.size == n then [x] else [], n);
    } else {
      InsertInFront(t, x, n);
    }
  }

  lemma {:induction false} SumSizesInsert(t: seq<Attachment>, x: Attachment)
    ensures SumSizes(Insert(t, x)) == SumSizes(t) + x.size
  {
    if t != [] && t[0].size >= x.size {
      SumSizesInsert(t[1..], x);
    }
  }

  /** Inserting the last file into the sorted prefix gives a sorted,
      size-stable ordering of the whole list. */
  lemma InsertLast(xs: seq<Attachment>, sorted: seq<Attachment>)
    requires xs != []
    requires SortedBySizeDesc(sorted)
    requires multiset(sorted) == multiset(xs[..|xs| - 1])
    requires forall n :: WithSize(sorted, n) == WithSize(xs[..|xs| - 1], n)
    ensures SortedBySizeDesc(Insert(sorted, xs[|xs| - 1]))
    ensures multiset(Insert(sorted, xs[|xs| - 1])) == multiset(xs)
    ensures forall n :: WithSize(Insert(sorted, xs[|xs| - 1]), n) == WithSize(xs, n)
  {
    var k := |xs| - 1;
    InsertSorted(sorted, xs[k]);
    assert xs == xs[..k] + [xs[k]];
    forall n
      ensures WithSize(Insert(sorted, xs[k]), n) == WithSize(xs, n)
    {
      InsertStable(sorted, xs[k], n);
      WithSizeAppend(xs[..k], [xs[k]], n);
    }
  }

  /** Python's stable sort by size, largest first (`reverse=True` keeps equal
      keys in their original order): the result is ordered by non-increasing
      size, is a permutation of the input, and keeps the files of each size in
      their input order. */
  function SortBySize(xs: seq<Attachment>): (r: seq<Attachment>)
    ensures SortedBySizeDesc(r)
    ensures multiset(r) == multiset(xs)
    ensures forall n :: WithSize(r, n) == WithSize(xs, n)
  {
    if xs == [] then []
    else
      var sorted := SortBySize(xs[..|xs| - 1]);
      InsertLast(xs, sorted);
      Insert(sorted, xs[|xs| - 1])
  }

  // ---------------------------------------------------------------------
  // Totals (lines 271-275)

  /** `sum(a.get("size", 0) for a in xs)`. */
  function SumSizes(xs: seq<Attachment>): int
  {
    if xs == [] then 0 else xs[0].size + SumSizes(xs[1..])
  }

  lemma {:induction false} SumSizesAppend(a: seq<Attachment>, b: seq<Attachment>)
    ensures SumSizes(a + b) == SumSizes(a) + SumSizes(b)
  {
    if a == [] {
      assert a + b == b;
    } else {
      assert (a + b)[1..] == a[1..] + b;
      SumSizesAppend(a[1..], b);
    }
  }

  /** Sorting does not change the space's total size. */
  lemma {:induction false} SortKeepsTotal(xs: seq<Attachment>)
    ensures SumSizes(SortBySize(xs)) == SumSizes(xs)
  {
    if xs != [] {
      var init, last := xs[..|xs| - 1], xs[|xs| - 1];
      var sorted := SortBySize(init);
      calc {
        SumSizes(SortBySize(xs));
        SumSizes(Insert(sorted, last));
        { SumSizesInsert(sorted, last); }
        SumSizes(sorted) + last.size;
        { SortKeepsTotal(init); }
        SumSizes(init) + last.size;
        { SumSizesAppend(init, [last]); assert xs == init + [last]; }
        SumSizes(xs);
      }
    }
  }

  // ---------------------------------------------------------------------
  // Unreferenced files (lines 250-257)

  /** `[p for p in a["linked_pages"] if p["id"] != a["original_page"]["id"]]`. */
  function LinkedElsewhere(a: Attachment): seq<PageRef>
  {
    Filter(a.linkedPages, (p: PageRef) => p.id != a.originalPage.id)
  }

  /** Neither linked on its owning page nor attached to a page with another id. */
  predicate Unreferenced(a: Attachment)
  {
    !a.isLinkedOnPage && |LinkedElsewhere(a)| == 0
  }

  /** An attachment is unreferenced exactly when its owning-page check failed
      and every entry of `linked_pages` carries the owning page's id. */
  lemma UnreferencedMeans(a: Attachment)
    ensures Unreferenced(a) <==>
      !a.isLinkedOnPage && forall i :: 0 <= i < |a.linkedPages| ==> a.linkedPages[i].id == a.originalPage.id
  {
    var le := LinkedElsewhere(a);
    if |le| != 0 {
      assert le[0] in a.linkedPages;
    }
  }

  /** The loop of lines 251-257. */
  method CollectUnreferenced(spaceFiles: seq<Attachment>) returns (unreferenced: seq<Attachment>)
    ensures unreferenced == Filter(spaceFiles, Unreferenced)
  {
    unreferenced := [];
    for i := 0 to |spaceFiles|
      invariant unreferenced == Filter(spaceFiles[..i], Unreferenced)
    {
      var a := spaceFiles[i];
      var linkedElsewhere := LinkedElsewhere(a);
      var anyLinked := a.isLinkedOnPage || |linkedElsewhere| > 0;
      if !anyLinked {
        unreferenced := unreferenced + [a];
      }
      FilterSnoc(spaceFiles, i, Unreferenced);
    }
    assert spaceFiles[..|spaceFiles|] == spaceFiles;
  }

  /** What `analyze_space` returns about a space besides the report paths. */
  datatype SpaceSummary = SpaceSummary(
    spaceKey: string, spaceName: string, totalSize: int, fileCount: nat, unreferencedCount: nat)

  /** Lines 245-257 and 268-276 on the aggregated map: the space's files in
      report order, its unreferenced files, and the totals. */
  method BuildReport(s: Store, key: string, name: string)
    returns (spaceFiles: seq<Attachment>, unreferenced: seq<Attachment>, summary: SpaceSummary)
    requires WellFormed(s)
    ensures spaceFiles == SortBySize(SpaceFiles(s, key))
    ensures multiset(spaceFiles) == multiset(SpaceFiles(s, key))
    ensures SortedBySizeDesc(spaceFiles)
    ensures forall n :: WithSize(spaceFiles, n) == WithSize(SpaceFiles(s, key), n)
    ensures unreferenced == Filter(spaceFiles, Unreferenced)
    ensures summary.spaceKey == key && summary.spaceName == name
    ensures summary.totalSize == SumSizes(SpaceFiles(s, key))
    ensures summary.fileCount == |SpaceFiles(s, key)|
    ensures summary.unreferencedCount == |unreferenced| <= summary.fileCount
  {
    spaceFiles := SortBySize(SpaceFiles(s, key));
    unreferenced := CollectUnreferenced(spaceFiles);
    SortKeepsTotal(SpaceFiles(s, key));
    assert |spaceFiles| == |multiset(spaceFiles)|;
    summary := SpaceSummary(key, name, SumSizes(spaceFiles), |spaceFiles|, |unreferenced|);
  }
}
