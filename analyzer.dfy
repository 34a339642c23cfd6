/** `analyze_space`: every page of a space, every attachment of a page, each
    sighting checked against its page's markup and merged into the global
    attachment map, then the space's report built from the map. The HTTP
    lookups are inputs: the page list, each page's attachment list, and for
    each attachment the outcome of the version lookup and of the page-body
    fetch made for it. */
module Analyzer {
  import opened Wrappers
  import opened Text
  import opened HtmlEscape
  import opened PercentEncoding
  import opened Records
  import opened TitleVariants
  import opened ReferenceDetector
  import opened Aggregator
  import opened Sequences
  import opened SpaceReport

  /** A space as listed: its key and, when present, its name. */
  datatype Space = Space(key: string, name: Option<string>)

  /** One attachment listed under a page, with the outcomes of the lookups
      made for it: the version lookup (`None` when both endpoints gave
      nothing) and the fetch of the owning page's body for its check (`None`
      when the fetch failed, the markup otherwise). */
  datatype AttachmentInput = AttachmentInput(
    id: string,
    title: Option<string>,
    fileSize: int,
    download: string,
    versionNumber: Option<nat>,
    versionLookup: Option<seq<Version>>,
    pageBody: Option<string>)

  /** One page of the space with its attachment list. */
  datatype PageInput = PageInput(id: string, title: Option<string>, webui: string, attachments: seq<AttachmentInput>)

  /** The attachment object itself, used as its only version when the lookup
      gives nothing. */
  function CurrentVersion(att: AttachmentInput): Version
  {
    Version(att.id, att.title, att.versionNumber)
  }

  /** Lines 213-216: the looked-up versions, or the current attachment alone
      when the lookup gave none. The list is never empty. */
  function ResolveVersions(att: AttachmentInput): (vs: seq<Version>)
    ensures |vs| >= 1
    ensures att.versionLookup.Some? && att.versionLookup.value != [] ==> vs == att.versionLookup.value
    ensures att.versionLookup.None? || att.versionLookup.value == [] ==> vs == [CurrentVersion(att)]
  {
    if att.versionLookup.Some? && att.versionLookup.value != [] then att.versionLookup.value
    else [CurrentVersion(att)]
  }

  /** `{"id": page_id, "title": page_title, "url": page_url}`. */
  function PageRefOf(page: PageInput): PageRef
  {
    PageRef(page.id, page.title, BaseUrl + page.webui)
  }

  /** The `att_info` record built for one sighting (lines 205-232). */
  function Sighting(page: PageInput, att: AttachmentInput, unescape: string -> string): Attachment
  {
    var versions := ResolveVersions(att);
    Attachment(
      att.id, att.title, att.fileSize,
      BaseUrl + att.download,
      BaseUrl + "/pages/viewpageattachments.action?pageId=" + page.id,
      BaseUrl + "/rest/api/content/" + att.id,
      PageRefOf(page), [], Linked(att.pageBody, versions, unescape), versions)
  }

  /** The map after merging the sightings of `atts` on `page`, in order. */
  function AfterAttachments(s: Store, page: PageInput, atts: seq<AttachmentInput>, unescape: string -> string): Store
    decreases |atts|
  {
    if atts == [] then s
    else AfterAttachments(Merge(s, Sighting(page, atts[0], unescape)), page, atts[1..], unescape)
  }

  /** The map after all pages of a space, in order. */
  function AfterPages(s: Store, pages: seq<PageInput>, unescape: string -> string): Store
    decreases |pages|
  {
    if pages == [] then s
    else AfterPages(AfterAttachments(s, pages[0], pages[0].attachments, unescape), pages[1..], unescape)
  }

  /** The body of the inner loop for one attachment (lines 205-232): its
      versions, its check against the page markup, and its record. */
  method CheckAttachment(page: PageInput, att: AttachmentInput, unescape: string -> string)
    returns (info: Attachment)
    ensures info == Sighting(page, att, unescape)
  {
    var pageUrl := BaseUrl + page.webui;
    var versions := if att.versionLookup.Some? then att.versionLookup.value else [];
    if versions == [] {
      versions := [CurrentVersion(att)];
    }
    var isLinkedOnPage := IsAttachmentLinkedOnPageVersions(att.pageBody, versions, unescape);
    info := Attachment(
      att.id, att.title, att.fileSize,
      BaseUrl + att.download,
      BaseUrl + "/pages/viewpageattachments.action?pageId=" + page.id,
      BaseUrl + "/rest/api/content/" + att.id,
      PageRef(page.id, page.title, pageUrl), [], isLinkedOnPage, versions);
  }

  /** The inner loop over one page's attachments: each sighting is merged into
      the map in list order. */
  method AnalyzePage(page: PageInput, index: AttachmentIndex, unescape: string -> string)
    requires index.Valid()
    modifies index
    ensures index.Valid()
    ensures index.Model() == AfterAttachments(old(index.Model()), page, page.attachments, unescape)
  {
    ghost var target := AfterAttachments(index.Model(), page, page.attachments, unescape);
    var attachments := page.attachments;
    for a := 0 to |attachments|
      invariant index.Valid()
      invariant AfterAttachments(index.Model(), page, attachments[a..], unescape) == target
    {
      var info := CheckAttachment(page, attachments[a], unescape);
      assert attachments[a..][1..] == attachments[a + 1..];
      index.RecordSighting(info);
    }
  }

  /** `analyze_space(space, all_attachments_global)` with the report files left
      out: the map is updated in place, and the space's files, its unreferenced
      files and its summary are returned. */
  method AnalyzeSpace(space: Space, pages: seq<PageInput>, index: AttachmentIndex, unescape: string -> string)
    returns (spaceFiles: seq<Attachment>, unreferenced: seq<Attachment>, summary: SpaceSummary)
    requires index.Valid()
    modifies index
    ensures index.Valid()
    ensures index.Model() == AfterPages(old(index.Model()), pages, unescape)
    ensures spaceFiles == SortBySize(SpaceFiles(index.Model(), space.key))
    ensures unreferenced == Filter(spaceFiles, Unreferenced)
    ensures summary.spaceKey == space.key && summary.spaceName == space.name.GetOr(space.key)
    ensures summary.totalSize == SumSizes(SpaceFiles(index.Model(), space.key))
    ensures summary.fileCount == |SpaceFiles(index.Model(), space.key)|
    ensures summary.unreferencedCount == |unreferenced|
  {
    ghost var target := AfterPages(index.Model(), pages, unescape);
    for p := 0 to |pages|
      invariant index.Valid()
      invariant AfterPages(index.Model(), pages[p..], unescape) == target
    {
      assert pages[p..][1..] == pages[p + 1..];
      AnalyzePage(pages[p], index, unescape);
    }
    var name := space.name.GetOr(space.key);
    spaceFiles, unreferenced, summary := BuildReport(index.Model(), space.key, name);
  }

  // ---------------------------------------------------------------------
  // What a run keeps

  /** The ids of a list of attachments. */
  function AttIds(atts: seq<AttachmentInput>): set<string>
    decreases |atts|
  {
    if atts == [] then {} else {atts[0].id} + AttIds(atts[1..])
  }

  /** The ids of every attachment of every page. */
  function PageAttIds(pages: seq<PageInput>): set<string>
    decreases |pages|
  {
    if pages == [] then {} else AttIds(pages[0].attachments) + PageAttIds(pages[1..])
  }

  /** What a later sighting never changes about a stored record: the fields
      of its first sighting, and the fronts of its two lists. */
  predicate Keeps(a: Attachment, b: Attachment)
  {
    && b.id == a.id && b.name == a.name && b.size == a.size
    && b.downloadUrl == a.downloadUrl && b.deleteUrlFree == a.deleteUrlFree
    && b.deleteUrlApi == a.deleteUrlApi
    && b.originalPage == a.originalPage && b.isLinkedOnPage == a.isLinkedOnPage
    && a.linkedPages <= b.linkedPages && a.versions <= b.versions
  }

  /** `r` is `s` after further sightings: the order only grows at the end,
      and every stored record is kept. */
  predicate Extends(s: Store, r: Store)
  {
    && s.order <= r.order
    && forall id :: id in s.records ==> id in r.records && Keeps(s.records[id], r.records[id])
  }

  /** Every stored record has at least one version. */
  predicate VersionsNonEmpty(s: Store)
  {
    forall id :: id in s.records ==> |s.records[id].versions| >= 1
  }

  /** `r` follows `s` by sightings of the ids `ids`: it is well formed,
      extends `s`, holds exactly the old ids and `ids`, and keeps every
      record's versions non-empty. */
  ghost predicate Step(s: Store, r: Store, ids: set<string>)
  {
    && WellFormed(r) && Extends(s, r)
    && r.records.Keys == s.records.Keys + ids
    && (VersionsNonEmpty(s) ==> VersionsNonEmpty(r))
  }

  lemma KeepsTransitive(a: Attachment, b: Attachment, c: Attachment)
    requires Keeps(a, b) && Keeps(b, c)
    ensures Keeps(a, c)
  {
  }

  lemma ExtendsTransitive(s: Store, m: Store, r: Store)
    requires Extends(s, m) && Extends(m, r)
    ensures Extends(s, r)
  {
    forall id | id in s.records
      ensures id in r.records && Keeps(s.records[id], r.records[id])
    {
      KeepsTransitive(s.records[id], m.records[id], r.records[id]);
    }
  }

  lemma StepCompose(s: Store, m: Store, r: Store, ids1: set<string>, ids2: set<string>)
    requires Step(s, m, ids1) && Step(m, r, ids2)
    ensures Step(s, r, ids1 + ids2)
  {
    ExtendsTransitive(s, m, r);
  }

  lemma MergeExtends(s: Store, info: Attachment)
    requires WellFormed(s)
    ensures Extends(s, Merge(s, info))
  {
    MergeWellFormed(s, info);
    if info.id in s.records {
      MergeRepeatedSighting(s, info);
    }
  }

  lemma MergeKeepsVersions(s: Store, info: Attachment)
    requires WellFormed(s) && VersionsNonEmpty(s) && |info.versions| >= 1
    ensures VersionsNonEmpty(Merge(s, info))
  {
    MergeWellFormed(s, info);
    if info.id in s.records {
      MergeRepeatedSighting(s, info);
    }
  }

  /** One sighting with at least one version is a step by its own id. */
  lemma MergeStep(s: Store, info: Attachment)
    requires WellFormed(s) && |info.versions| >= 1
    ensures Step(s, Merge(s, info), {info.id})
  {
    MergeWellFormed(s, info);
    MergeExtends(s, info);
    if VersionsNonEmpty(s) {
      MergeKeepsVersions(s, info);
    }
  }

  /** The sightings of one page, in order, are a step by their ids. */
  lemma {:induction false} AfterAttachmentsStep(s: Store, page: PageInput, atts: seq<AttachmentInput>, unescape: string -> string)
    requires WellFormed(s)
    ensures Step(s, AfterAttachments(s, page, atts, unescape), AttIds(atts))
    decreases |atts|
  {
    if atts == [] {
      assert AfterAttachments(s, page, atts, unescape) == s;
    } else {
      var info := Sighting(page, atts[0], unescape);
      var m := Merge(s, info);
      MergeStep(s, info);
      AfterAttachmentsStep(m, page, atts[1..], unescape);
      StepCompose(s, m, AfterAttachments(m, page, atts[1..], unescape), {atts[0].id}, AttIds(atts[1..]));
    }
  }

  /** A whole space run: the map stays well formed, ends up holding exactly
      the ids it held plus every attachment id listed, keeps every stored
      record's first-sighting fields and list fronts, and never leaves a
      record without versions. */
  lemma {:induction false} AfterPagesStep(s: Store, pages: seq<PageInput>, unescape: string -> string)
    requires WellFormed(s)
    ensures Step(s, AfterPages(s, pages, unescape), PageAttIds(pages))
    decreases |pages|
  {
    if pages == [] {
      assert AfterPages(s, pages, unescape) == s;
    } else {
      var m := AfterAttachments(s, pages[0], pages[0].attachments, unescape);
      AfterAttachmentsStep(s, pages[0], pages[0].attachments, unescape);
      AfterPagesStep(m, pages[1..], unescape);
      StepCompose(s, m, AfterPages(m, pages[1..], unescape), AttIds(pages[0].attachments), PageAttIds(pages[1..]));
    }
  }

  /** A record that is referenced stays referenced under any later sighting:
      its owning-page flag is kept and its other pages only grow. */
  lemma KeepsReference(a: Attachment, b: Attachment)
    requires Keeps(a, b) && !Unreferenced(a)
    ensures !Unreferenced(b)
  {
    UnreferencedMeans(a);
    UnreferencedMeans(b);
    if !a.isLinkedOnPage {
      var i :| 0 <= i < |a.linkedPages| && a.linkedPages[i].id != a.originalPage.id;
      assert b.linkedPages[i] == a.linkedPages[i];
    }
  }

  /** Later spaces never turn a referenced attachment into an unreferenced one. */
  lemma RunNeverUnreferences(s: Store, pages: seq<PageInput>, unescape: string -> string, id: string)
    requires WellFormed(s) && id in s.records && !Unreferenced(s.records[id])
    ensures id in AfterPages(s, pages, unescape).records
    ensures !Unreferenced(AfterPages(s, pages, unescape).records[id])
  {
    AfterPagesStep(s, pages, unescape);
    KeepsReference(s.records[id], AfterPages(s, pages, unescape).records[id]);
  }

  /** A sighting on a page with another id marks the stored attachment as
      referenced, whatever its owning-page check said. */
  lemma SightingOnOtherPageReferences(s: Store, info: Attachment)
    requires info.id in s.records && info.originalPage.id != s.records[info.id].originalPage.id
    ensures !Unreferenced(Merge(s, info).records[info.id])
  {
    MergeRepeatedSighting(s, info);
    var b := Merge(s, info).records[info.id];
    UnreferencedMeans(b);
    assert b.linkedPages[|b.linkedPages| - 1] == info.originalPage;
  }

  /** A sighting on a page with the owning page's id is appended to
      `linked_pages` but changes nothing in the verdict. */
  lemma SightingOnSamePageKeepsVerdict(s: Store, info: Attachment)
    requires info.id in s.records && info.originalPage.id == s.records[info.id].originalPage.id
    ensures Merge(s, info).records[info.id].linkedPages == s.records[info.id].linkedPages + [info.originalPage]
    ensures Unreferenced(Merge(s, info).records[info.id]) <==> Unreferenced(s.records[info.id])
  {
    MergeRepeatedSighting(s, info);
    var a := s.records[info.id];
    var b := Merge(s, info).records[info.id];
    UnreferencedMeans(a);
    UnreferencedMeans(b);
    if !Unreferenced(a) {
      KeepsReference(a, b);
    }
    if Unreferenced(b) {
      forall i | 0 <= i < |a.linkedPages|
        ensures a.linkedPages[i].id == a.originalPage.id
      {
        assert a.linkedPages[i] == b.linkedPages[i];
      }
    }
  }

  // ---------------------------------------------------------------------
  // Single-space scenarios

  /** A stored record of the space shows up in the sorted file list, and in
      the unreferenced list exactly when it is unreferenced. */
  lemma ReportedRecord(s: Store, key: string, id: string)
    requires WellFormed(s) && id in s.records && InSpace(s.records[id], key)
    ensures s.records[id] in SortBySize(SpaceFiles(s, key))
    ensures s.records[id] in Filter(SortBySize(SpaceFiles(s, key)), Unreferenced) <==> Unreferenced(s.records[id])
  {
    var rec := s.records[id];
    var sorted := SortBySize(SpaceFiles(s, key));
    SpaceFilesAreTheSpacesRecords(s, key);
    assert rec in SpaceFiles(s, key);
    assert rec in multiset(sorted);
    var i :| 0 <= i < |sorted| && sorted[i] == rec;
  }

  /** A page whose web path lies under `/spaces/<key>` makes its sightings
      files of that space. */
  lemma SightingInSpace(page: PageInput, att: AttachmentInput, unescape: string -> string, key: string, rest: string)
    requires page.webui == "/spaces/" + key + rest
    ensures InSpace(Sighting(page, att, unescape), key)
  {
    assert BaseUrl + page.webui == SpacePrefix(key) + rest;
  }

  /** The run of a space with one page and one attachment on it, seen for
      the first time, stores exactly that sighting. */
  lemma OnePageOneAttachment(s: Store, page: PageInput, att: AttachmentInput, unescape: string -> string)
    requires WellFormed(s) && att.id !in s.records && page.attachments == [att]
    ensures WellFormed(AfterPages(s, [page], unescape))
    ensures AfterPages(s, [page], unescape) == Merge(s, Sighting(page, att, unescape))
    ensures att.id in AfterPages(s, [page], unescape).records
    ensures AfterPages(s, [page], unescape).records[att.id] == Sighting(page, att, unescape)
  {
    var m := Merge(s, Sighting(page, att, unescape));
    assert [page][1..] == [] && [att][1..] == [];
    assert AfterAttachments(m, page, [], unescape) == m;
    assert AfterAttachments(s, page, [att], unescape) == m;
    assert AfterPages(m, [], unescape) == m;
    AfterPagesStep(s, [page], unescape);
  }

  /** A file whose title appears in its page's markup is listed for its space
      and is not unreferenced. */
  lemma TitleInMarkupIsReferenced(s: Store, key: string, rest: string, page: PageInput, att: AttachmentInput,
                                  html: string, unescape: string -> string)
    requires WellFormed(s) && att.id !in s.records && page.attachments == [att]
    requires page.webui == "/spaces/" + key + rest
    requires att.versionLookup.None? && Usable(att.title) && att.pageBody == Some(html)
    requires Occurs(att.title.value, html)
    ensures WellFormed(AfterPages(s, [page], unescape))
    ensures var r := AfterPages(s, [page], unescape);
      && att.id in r.records
      && r.records[att.id].isLinkedOnPage
      && r.records[att.id] in SortBySize(SpaceFiles(r, key))
      && r.records[att.id] !in Filter(SortBySize(SpaceFiles(r, key)), Unreferenced)
  {
    OnePageOneAttachment(s, page, att, unescape);
    LinkedIfTitleFormOccurs(html, ResolveVersions(att), unescape, 0);
    SightingInSpace(page, att, unescape, key, rest);
    ReportedRecord(AfterPages(s, [page], unescape), key, att.id);
  }

  /** A file whose page markup is shorter than every form of its title (no
      `/` in it, the unescaped title no shorter) is listed for its space and
      again as unreferenced. */
  lemma ShortMarkupFileIsUnreferenced(s: Store, key: string, rest: string, page: PageInput, att: AttachmentInput,
                                      html: string, unescape: string -> string)
    requires WellFormed(s) && att.id !in s.records && page.attachments == [att]
    requires page.webui == "/spaces/" + key + rest
    requires att.versionLookup.None? && att.title.Some? && att.pageBody == Some(html)
    requires var t := att.title.value;
      '/' !in t && |html| < |t| && |html| < |unescape(t)| && |html| < |DownloadPath|
    ensures WellFormed(AfterPages(s, [page], unescape))
    ensures var r := AfterPages(s, [page], unescape);
      && att.id in r.records
      && !r.records[att.id].isLinkedOnPage
      && Unreferenced(r.records[att.id])
      && r.records[att.id] in SortBySize(SpaceFiles(r, key))
      && r.records[att.id] in Filter(SortBySize(SpaceFiles(r, key)), Unreferenced)
  {
    OnePageOneAttachment(s, page, att, unescape);
    var versions := ResolveVersions(att);
    ShortMarkupNoTitleMatch(att.title.value, html, unescape);
    assert !VersionMatches(versions[0], html, unescape);
    SightingInSpace(page, att, unescape, key, rest);
    ReportedRecord(AfterPages(s, [page], unescape), key, att.id);
  }

  /** One attachment id listed on two pages with different ids: the first
      page owns it, the second is its only other page, and it is referenced
      whatever either page's markup says. */
  lemma SharedAttachmentIsReferenced(s: Store, pageA: PageInput, pageB: PageInput,
                                     x: AttachmentInput, y: AttachmentInput, unescape: string -> string)
    requires WellFormed(s) && x.id !in s.records && x.id == y.id
    requires pageA.attachments == [x] && pageB.attachments == [y] && pageA.id != pageB.id
    ensures var r := AfterPages(s, [pageA, pageB], unescape);
      && x.id in r.records
      && r.records[x.id].originalPage == PageRefOf(pageA)
      && r.records[x.id].linkedPages == [PageRefOf(pageB)]
      && !Unreferenced(r.records[x.id])
  {
    var m := Merge(s, Sighting(pageA, x, unescape));
    var r := Merge(m, Sighting(pageB, y, unescape));
    assert [x][1..] == [] && [y][1..] == [];
    assert [pageA, pageB][1..] == [pageB] && [pageB][1..] == [];
    assert AfterAttachments(m, pageA, [], unescape) == m;
    assert AfterAttachments(s, pageA, [x], unescape) == m;
    assert AfterAttachments(r, pageB, [], unescape) == r;
    assert AfterAttachments(m, pageB, [y], unescape) == r;
    assert AfterPages(r, [], unescape) == r;
    assert AfterPages(m, [pageB], unescape) == r;
    SightingOnOtherPageReferences(m, Sighting(pageB, y, unescape));
  }

  /** One attachment id listed twice on the same page: the page is recorded
      as its owner and once more in `linked_pages`, yet the verdict is the
      owning-page check alone. */
  lemma RepeatedOnOwnPage(s: Store, page: PageInput, x: AttachmentInput, y: AttachmentInput,
                          unescape: string -> string)
    requires WellFormed(s) && x.id !in s.records && x.id == y.id && page.attachments == [x, y]
    ensures var r := AfterPages(s, [page], unescape);
      && x.id in r.records
      && r.records[x.id].linkedPages == [PageRefOf(page)]
      && (Unreferenced(r.records[x.id]) <==> !Linked(x.pageBody, ResolveVersions(x), unescape))
  {
    var m := Merge(s, Sighting(page, x, unescape));
    var r := Merge(m, Sighting(page, y, unescape));
    assert [x, y][1..] == [y] && [y][1..] == [] && [page][1..] == [];
    assert AfterAttachments(r, page, [], unescape) == r;
    assert AfterAttachments(m, page, [y], unescape) == r;
    assert AfterAttachments(s, page, [x, y], unescape) == r;
    assert AfterPages(r, [], unescape) == r;
    SightingOnSamePageKeepsVerdict(m, Sighting(page, y, unescape));
    UnreferencedMeans(Sighting(page, x, unescape));
  }
}
