/** The global attachment map `all_attachments_global` and the merge made for
    every (attachment, page) sighting. */
module Aggregator {
  import opened Wrappers
  import opened Records

  /** The map's value: `records` keyed by attachment id, and `order`, the ids
      in insertion order (the order in which a Python dict yields its values). */
  datatype Store = Store(order: seq<string>, records: map<string, Attachment>)

  /** Every id is listed once, the listed ids are exactly the keys, and each
      record is stored under its own id. */
  ghost predicate WellFormed(s: Store)
  {
    && (forall i, j :: 0 <= i < j < |s.order| ==> s.order[i] != s.order[j])
    && (forall id :: id in s.records <==> id in s.order)
    && (forall id :: id in s.records ==> s.records[id].id == id)
  }

  /** `versions.extend(v for v in new if v not in versions)`. `list.extend`
      appends each item as soon as the generator yields it, so the membership
      test also sees the items appended earlier in the same call. */
  function ExtendNew(cur: seq<Version>, vs: seq<Version>): (r: seq<Version>)
    ensures |cur| <= |r| <= |cur| + |vs|
    decreases |vs|
  {
    if vs == [] then cur
    else ExtendNew(if vs[0] in cur then cur else cur + [vs[0]], vs[1..])
  }

  /** The old list is kept as it was, at the front. */
  lemma {:induction false} ExtendNewKeepsPrefix(cur: seq<Version>, vs: seq<Version>)
    ensures cur <= ExtendNew(cur, vs)
    decreases |vs|
  {
    if vs != [] {
      var next := if vs[0] in cur then cur else cur + [vs[0]];
      ExtendNewKeepsPrefix(next, vs[1..]);
    }
  }

  /** Every version of the new sighting ends up in the list, and nothing else
      is added. */
  lemma {:induction false} ExtendNewContents(cur: seq<Version>, vs: seq<Version>)
    ensures forall v :: v in vs ==> v in ExtendNew(cur, vs)
    ensures forall v :: v in ExtendNew(cur, vs) <==> v in cur || v in vs
    decreases |vs|
  {
    if vs != [] {
      var next := if vs[0] in cur then cur else cur + [vs[0]];
      ExtendNewContents(next, vs[1..]);
      assert forall v :: v in vs ==> v == vs[0] || v in vs[1..];
    }
  }

  /** No appended version was already in the list when it was appended. */
  lemma {:induction false} ExtendNewAppendsFresh(cur: seq<Version>, vs: seq<Version>)
    ensures var r := ExtendNew(cur, vs);
      forall j :: |cur| <= j < |r| ==> r[j] !in r[..j]
    decreases |vs|
  {
    if vs != [] {
      var next := if vs[0] in cur then cur else cur + [vs[0]];
      ExtendNewAppendsFresh(next, vs[1..]);
      ExtendNewKeepsPrefix(next, vs[1..]);
      var r := ExtendNew(cur, vs);
      if vs[0] !in cur {
        assert r[|cur|] == vs[0] && r[..|cur|] == cur;
      }
    }
  }

  /** Extending with versions that are all present already changes nothing. */
  lemma {:induction false} ExtendNewWithPresent(cur: seq<Version>, vs: seq<Version>)
    requires forall v :: v in vs ==> v in cur
    ensures ExtendNew(cur, vs) == cur
    decreases |vs|
  {
    if vs != [] {
      ExtendNewWithPresent(cur, vs[1..]);
    }
  }

  /** Merging the same versions twice is merging them once. */
  lemma ExtendNewIdempotent(cur: seq<Version>, vs: seq<Version>)
    ensures ExtendNew(ExtendNew(cur, vs), vs) == ExtendNew(cur, vs)
  {
    ExtendNewContents(cur, vs);
    ExtendNewWithPresent(ExtendNew(cur, vs), vs);
  }

  /** The merge of lines 234-243: a first sighting inserts its record; a later
      one appends its page to `linked_pages` (with no duplicate check) and its
      new versions to `versions`, and leaves every other field alone. */
  function Merge(s: Store, info: Attachment): (r: Store)
  {
    if info.id !in s.records then
      Store(s.order + [info.id], s.records[info.id := info])
    else
      var rec := s.records[info.id];
      Store(s.order, s.records[info.id := rec.(linkedPages := rec.linkedPages + [info.originalPage],
                                              versions := ExtendNew(rec.versions, info.versions))])
  }

  /** The merge keeps the map well formed and touches no other id. */
  lemma MergeWellFormed(s: Store, info: Attachment)
    requires WellFormed(s)
    ensures WellFormed(Merge(s, info))
    ensures Merge(s, info).records.Keys == s.records.Keys + {info.id}
    ensures forall id :: id in s.records && id != info.id ==> Merge(s, info).records[id] == s.records[id]
  {
    var r := Merge(s, info);
    if info.id !in s.records {
      forall i, j | 0 <= i < j < |r.order|
        ensures r.order[i] != r.order[j]
      {
        if j == |s.order| {
          assert r.order[i] == s.order[i];
        }
      }
    }
  }

  /** A first sighting inserts the record as built, at the end of the order. */
  lemma MergeFirstSighting(s: Store, info: Attachment)
    requires info.id !in s.records
    ensures Merge(s, info).records[info.id] == info
    ensures Merge(s, info).order == s.order + [info.id]
  {
  }

  /** A repeated sighting: name, size, URLs, owning page and the owning-page
      flag are kept; `linked_pages` grows by exactly the sighting's page; the
      old versions stay at the front; every version of the sighting is present
      afterwards and no appended version was present before it. */
  lemma MergeRepeatedSighting(s: Store, info: Attachment)
    requires info.id in s.records
    ensures var old_ := s.records[info.id];
      var new_ := Merge(s, info).records[info.id];
      && new_.id == old_.id && new_.name == old_.name && new_.size == old_.size
      && new_.downloadUrl == old_.downloadUrl && new_.deleteUrlFree == old_.deleteUrlFree
      && new_.deleteUrlApi == old_.deleteUrlApi && new_.originalPage == old_.originalPage
      && new_.isLinkedOnPage == old_.isLinkedOnPage
      && new_.linkedPages == old_.linkedPages + [info.originalPage]
      && old_.versions <= new_.versions
      && (forall v :: v in info.versions ==> v in new_.versions)
      && (forall j :: |old_.versions| <= j < |new_.versions| ==> new_.versions[j] !in new_.versions[..j])
    ensures Merge(s, info).order == s.order
  {
    var rec := s.records[info.id];
    ExtendNewKeepsPrefix(rec.versions, info.versions);
    ExtendNewContents(rec.versions, info.versions);
    ExtendNewAppendsFresh(rec.versions, info.versions);
  }

  /** The global attachment map as the analyzer holds it: a dictionary that the
      merge updates in place. */
  class AttachmentIndex {
    var order: seq<string>
    var records: map<string, Attachment>

    function Model(): Store
      reads this
    {
      Store(order, records)
    }

    ghost predicate Valid()
      reads this
    {
      WellFormed(Model())
    }

    /** `all_attachments_global = {}`. */
    constructor ()
      ensures Valid() && Model() == Store([], map[])
    {
      order := [];
      records := map[];
    }

    /** Records one sighting of an attachment on a page (lines 234-243). */
    method RecordSighting(info: Attachment)
      requires Valid()
      modifies this
      ensures Valid()
      ensures Model() == Merge(old(Model()), info)
    {
      MergeWellFormed(Model(), info);
      if info.id !in records {
        records := records[info.id := info];
        order := order + [info.id];
      } else {
        var rec := records[info.id];
        var linked := rec.linkedPages + [info.originalPage];
        var versions := rec.versions;
        for i := 0 to |info.versions|
          invariant ExtendNew(versions, info.versions[i..]) == ExtendNew(rec.versions, info.versions)
        {
          if info.versions[i] !in versions {
            versions := versions + [info.versions[i]];
          }
        }
        records := records[info.id := rec.(linkedPages := linked, versions := versions)];
      }
    }
  }
}
