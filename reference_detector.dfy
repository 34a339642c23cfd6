/** The reference detector, `is_attachment_linked_on_page_versions`: does the
    owning page's storage markup mention any title the attachment has had?
    The page-body fetch is an input: `None` when the fetch failed, otherwise the
    markup (the empty string when the response had no body). */
module ReferenceDetector {
  import opened Wrappers
  import opened Text
  import opened HtmlEscape
  import opened PercentEncoding
  import opened TitleVariants
  import opened Records

  /** A version title that is looked at: present and non-empty. */
  predicate Usable(title: Option<string>)
  {
    title.Some? && title.value != ""
  }

  /** Some variant occurs in the markup, literally or after lower-casing both sides. */
  predicate VariantHit(variants: set<string>, html: string, low: string)
  {
    exists v | v in variants :: Occurs(v, html) || Occurs(Lower(v), low)
  }

  /** The tests made for one usable title: every variant, literally or after
      lower-casing both sides; the percent-encoded title against the markup and
      against the lower-cased markup; the part after the last `/`, literally
      only when it is non-empty, and lower-cased with no such guard. */
  predicate TitleMatches(t: string, html: string, unescape: string -> string)
  {
    var low := Lower(html);
    var base := AfterLastSlash(t);
    || VariantHit(Variants(Some(t), unescape), html, low)
    || Occurs(Quote(t), html) || Occurs(Quote(t), low)
    || (base != "" && Occurs(base, html))
    || Occurs(Lower(base), low)
  }

  /** The answer the detector gives: the markup was fetched and some usable
      version title matches it. */
  predicate Linked(markup: Option<string>, versions: seq<Version>, unescape: string -> string)
  {
    markup.Some? && exists k | 0 <= k < |versions| :: VersionMatches(versions[k], markup.value, unescape)
  }

  /** A version whose title is usable and matches the markup. */
  predicate VersionMatches(v: Version, html: string, unescape: string -> string)
  {
    Usable(v.title) && TitleMatches(v.title.value, html, unescape)
  }

  /** The inner loop over one title's variants (lines 168-172). */
  method SearchVariants(variants: set<string>, html: string, low: string) returns (hit: bool)
    ensures hit == VariantHit(variants, html, low)
  {
    var left := variants;
    while left != {}
      invariant left <= variants
      invariant forall v :: v in variants - left ==> !Occurs(v, html) && !Occurs(Lower(v), low)
      decreases left
    {
      var v :| v in left;
      if Occurs(v, html) || Occurs(Lower(v), low) {
        return true;
      }
      left := left - {v};
    }
    return false;
  }

  /** Everything tried for one usable title (lines 167-185). */
  method SearchTitle(t: string, html: string, low: string, unescape: string -> string) returns (hit: bool)
    requires low == Lower(html)
    ensures hit == TitleMatches(t, html, unescape)
  {
    hit := SearchVariants(Variants(Some(t), unescape), html, low);
    if hit {
      return;
    }
    var encoded := Quote(t);
    if Occurs(encoded, html) || Occurs(encoded, low) {
      return true;
    }
    var base := AfterLastSlash(t);
    if base != "" && Occurs(base, html) {
      return true;
    }
    hit := Occurs(Lower(base), low);
  }

  /** One version: skipped when its title is absent or empty (lines 164-166). */
  method SearchVersion(v: Version, html: string, low: string, unescape: string -> string) returns (hit: bool)
    requires low == Lower(html)
    ensures hit == VersionMatches(v, html, unescape)
  {
    var title := v.title;
    if title.None? || title.value == "" {
      return false;
    }
    hit := SearchTitle(title.value, html, low, unescape);
  }

  lemma NoMatchSoFar(versions: seq<Version>, i: nat, html: string, unescape: string -> string)
    requires i < |versions|
    requires forall k :: 0 <= k < i ==> !VersionMatches(versions[k], html, unescape)
    requires !VersionMatches(versions[i], html, unescape)
    ensures forall k :: 0 <= k < i + 1 ==> !VersionMatches(versions[k], html, unescape)
  {
    forall k | 0 <= k < i + 1
      ensures !VersionMatches(versions[k], html, unescape)
    {
      if k == i {
        assert versions[k] == versions[i];
      }
    }
  }

  /** The detector as the source runs it: a loop over the versions, the tests
      for each usable title, and an early `True` on the first hit. */
  method IsAttachmentLinkedOnPageVersions(markup: Option<string>, versions: seq<Version>, unescape: string -> string)
    returns (linked: bool)
    ensures linked == Linked(markup, versions, unescape)
  {
    if markup.None? {
      return false;
    }
    var html := markup.value;
    var low := Lower(html);
    for i := 0 to |versions|
      invariant forall k :: 0 <= k < i ==> !VersionMatches(versions[k], html, unescape)
    {
      var hit := SearchVersion(versions[i], html, low, unescape);
      if hit {
        return true;
      }
      NoMatchSoFar(versions, i, html, unescape);
    }
    return false;
  }

  // ---------------------------------------------------------------------
  // What the detector's answer depends on

  /** No fetched markup, or no usable title, means "not linked" (the failed
      fetch at line 156, the skip at line 165, the fall-through at line 186). */
  lemma NotLinkedWithoutMarkupOrTitle(markup: Option<string>, versions: seq<Version>, unescape: string -> string)
    ensures markup.None? ==> !Linked(markup, versions, unescape)
    ensures (forall k :: 0 <= k < |versions| ==> !Usable(versions[k].title)) ==> !Linked(markup, versions, unescape)
    ensures versions == [] ==> !Linked(markup, versions, unescape)
  {
  }

  /** Any one variant of any usable title found in the markup, literally or
      after lower-casing both sides, is enough. */
  lemma LinkedIfVariantOccurs(html: string, versions: seq<Version>, unescape: string -> string, k: nat, v: string)
    requires k < |versions| && Usable(versions[k].title)
    requires v in Variants(versions[k].title, unescape)
    requires Occurs(v, html) || Occurs(Lower(v), Lower(html))
    ensures Linked(Some(html), versions, unescape)
  {
    assert VariantHit(Variants(versions[k].title, unescape), html, Lower(html));
    assert VersionMatches(versions[k], html, unescape);
  }

  /** The title itself, its HTML-escaped form or its percent-encoded form
      found in the markup is enough. */
  lemma LinkedIfTitleFormOccurs(html: string, versions: seq<Version>, unescape: string -> string, k: nat)
    requires k < |versions| && Usable(versions[k].title)
    requires var t := versions[k].title.value;
      Occurs(t, html) || Occurs(Escape(t), html) || Occurs(Quote(t), html)
    ensures Linked(Some(html), versions, unescape)
  {
    var t := versions[k].title.value;
    if Occurs(t, html) {
      LinkedIfVariantOccurs(html, versions, unescape, k, t);
    } else if Occurs(Escape(t), html) {
      LinkedIfVariantOccurs(html, versions, unescape, k, Escape(t));
    } else {
      LinkedIfVariantOccurs(html, versions, unescape, k, Quote(t));
    }
  }

  /** The download-path literal is a variant of every title, so markup that
      contains it makes every attachment with a usable title count as linked. */
  lemma LinkedIfDownloadPathOccurs(html: string, versions: seq<Version>, unescape: string -> string, k: nat)
    requires k < |versions| && Usable(versions[k].title)
    requires Occurs(DownloadPath, html)
    ensures Linked(Some(html), versions, unescape)
  {
    LinkedIfVariantOccurs(html, versions, unescape, k, DownloadPath);
  }

  /** The part after the last `/`, lower-cased, found in the lower-cased markup
      is enough. */
  lemma LinkedIfBasenameOccurs(html: string, versions: seq<Version>, unescape: string -> string, k: nat)
    requires k < |versions| && Usable(versions[k].title)
    requires Occurs(Lower(AfterLastSlash(versions[k].title.value)), Lower(html))
    ensures Linked(Some(html), versions, unescape)
  {
    assert VersionMatches(versions[k], html, unescape);
  }

  /** The tests of one title, stated on the lower-cased markup alone: a
      lower-cased variant or the lower-cased basename occurs in it. */
  predicate LowMatches(t: string, low: string, unescape: string -> string)
  {
    || (exists v | v in Variants(Some(t), unescape) :: Occurs(Lower(v), low))
    || Occurs(Lower(AfterLastSlash(t)), low)
  }

  /** Every literal test is subsumed by its lower-cased twin, so the tests of
      one title come down to `LowMatches` on the lower-cased markup. */
  lemma TitleMatchesOnLowered(t: string, html: string, unescape: string -> string)
    ensures TitleMatches(t, html, unescape) <==> LowMatches(t, Lower(html), unescape)
  {
    var low := Lower(html);
    var vs := Variants(Some(t), unescape);
    var base := AfterLastSlash(t);
    if TitleMatches(t, html, unescape) {
      // the percent-encoded title is itself a variant
      if Occurs(Quote(t), html) {
        LowerOccurs(Quote(t), html);
      }
      if Occurs(Quote(t), low) {
        LowerOccurs(Quote(t), low);
        LowerIdempotent(html);
      }
      if VariantHit(vs, html, low) {
        var v :| v in vs && (Occurs(v, html) || Occurs(Lower(v), low));
        if Occurs(v, html) {
          LowerOccurs(v, html);
        }
      }
      if base != "" && Occurs(base, html) {
        LowerOccurs(base, html);
      }
    }
    if LowMatches(t, low, unescape) {
      if exists v | v in vs :: Occurs(Lower(v), low) {
        var v :| v in vs && Occurs(Lower(v), low);
        assert VariantHit(vs, html, low);
      }
    }
  }

  lemma VersionMatchesOnLowered(v: Version, h1: string, h2: string, unescape: string -> string)
    requires Lower(h1) == Lower(h2)
    ensures VersionMatches(v, h1, unescape) == VersionMatches(v, h2, unescape)
  {
    if Usable(v.title) {
      TitleMatchesOnLowered(v.title.value, h1, unescape);
      TitleMatchesOnLowered(v.title.value, h2, unescape);
    }
  }

  /** The detector is case-insensitive: two markups that agree after
      lower-casing get the same answer. */
  lemma LinkedIsCaseInsensitive(h1: string, h2: string, versions: seq<Version>, unescape: string -> string)
    requires Lower(h1) == Lower(h2)
    ensures Linked(Some(h1), versions, unescape) == Linked(Some(h2), versions, unescape)
  {
    forall k | 0 <= k < |versions|
      ensures VersionMatches(versions[k], h1, unescape) == VersionMatches(versions[k], h2, unescape)
    {
      VersionMatchesOnLowered(versions[k], h1, h2, unescape);
    }
  }

  lemma LowMatchesMonotone(t: string, low1: string, low2: string, unescape: string -> string)
    requires Occurs(low1, low2) && LowMatches(t, low1, unescape)
    ensures LowMatches(t, low2, unescape)
  {
    if exists v | v in Variants(Some(t), unescape) :: Occurs(Lower(v), low1) {
      var v :| v in Variants(Some(t), unescape) && Occurs(Lower(v), low1);
      OccursTransitive(Lower(v), low1, low2);
    } else {
      OccursTransitive(Lower(AfterLastSlash(t)), low1, low2);
    }
  }

  /** More markup never loses a reference: if the markup of one fetch occurs
      inside that of another, a linked attachment stays linked. */
  lemma LinkedMonotoneInMarkup(h1: string, h2: string, versions: seq<Version>, unescape: string -> string)
    requires Occurs(h1, h2) && Linked(Some(h1), versions, unescape)
    ensures Linked(Some(h2), versions, unescape)
  {
    var k :| 0 <= k < |versions| && VersionMatches(versions[k], h1, unescape);
    var t := versions[k].title.value;
    TitleMatchesOnLowered(t, h1, unescape);
    TitleMatchesOnLowered(t, h2, unescape);
    LowerOccurs(h1, h2);
    LowMatchesMonotone(t, Lower(h1), Lower(h2), unescape);
    assert VersionMatches(versions[k], h2, unescape);
  }

  /** The titles are tried independently: two version lists together are
      linked exactly when one of them is. */
  lemma LinkedOverConcat(markup: Option<string>, vs: seq<Version>, ws: seq<Version>, unescape: string -> string)
    ensures Linked(markup, vs + ws, unescape) <==> Linked(markup, vs, unescape) || Linked(markup, ws, unescape)
  {
    if markup.Some? {
      var html := markup.value;
      if Linked(markup, vs + ws, unescape) {
        var k :| 0 <= k < |vs + ws| && VersionMatches((vs + ws)[k], html, unescape);
        if k < |vs| {
          assert VersionMatches(vs[k], html, unescape);
        } else {
          assert VersionMatches(ws[k - |vs|], html, unescape);
        }
      }
      if Linked(markup, vs, unescape) {
        var k :| 0 <= k < |vs| && VersionMatches(vs[k], html, unescape);
        assert (vs + ws)[k] == vs[k];
      }
      if Linked(markup, ws, unescape) {
        var k :| 0 <= k < |ws| && VersionMatches(ws[k], html, unescape);
        assert (vs + ws)[|vs| + k] == ws[k];
      }
    }
  }

  // ---------------------------------------------------------------------
  // Empty markup, and the unguarded basename test

  lemma NoTitleMatchOnEmpty(t: string, unescape: string -> string)
    requires t != "" && AfterLastSlash(t) != "" && unescape(t) != ""
    ensures !TitleMatches(t, "", unescape)
  {
    assert Lower("") == "";
    forall v | v in Variants(Some(t), unescape)
      ensures !Occurs(v, "") && !Occurs(Lower(v), "")
    {
      if v != unescape(t) {
        VariantsNonEmpty(t, unescape, v);
      }
      OccursInEmpty(v);
      OccursInEmpty(Lower(v));
    }
    QuoteNonEmpty(t);
    OccursInEmpty(Quote(t));
    OccursInEmpty(AfterLastSlash(t));
    OccursInEmpty(Lower(AfterLastSlash(t)));
  }

  /** A sufficient condition: empty markup (a fetched page without a body)
      links no attachment whose usable titles are ordinary, with a non-empty
      basename and a non-empty unescaped form. */
  lemma NotLinkedOnEmptyMarkup(versions: seq<Version>, unescape: string -> string)
    requires forall k :: 0 <= k < |versions| && Usable(versions[k].title) ==>
      AfterLastSlash(versions[k].title.value) != "" && unescape(versions[k].title.value) != ""
    ensures !Linked(Some(""), versions, unescape)
  {
    forall k | 0 <= k < |versions|
      ensures !VersionMatches(versions[k], "", unescape)
    {
      if Usable(versions[k].title) {
        NoTitleMatchOnEmpty(versions[k].title.value, unescape);
      }
    }
  }

  /** A string longer than the markup occurs in it in neither case. */
  lemma TooLongToOccur(p: string, html: string)
    requires |html| < |p|
    ensures !Occurs(p, html) && !Occurs(Lower(p), Lower(html))
  {
    if Occurs(p, html) {
      OccursLength(p, html);
    }
    if Occurs(Lower(p), Lower(html)) {
      OccursLength(Lower(p), Lower(html));
    }
  }

  /** Every variant is at least as long as the title, except the unescaped
      form and the download path. */
  lemma VariantLength(t: string, unescape: string -> string, v: string)
    requires v in Variants(Some(t), unescape)
    ensures |v| >= |t| || v == unescape(t) || v == DownloadPath
  {
    if v == Quote(t) {
      QuoteIdentity(t);
    }
  }

  /** Markup shorter than every form of a title cannot reference it: a title
      without `/` is its own basename, and every other test looks for a
      string at least as long as the title, the unescaped form or the
      download path. */
  lemma ShortMarkupNoTitleMatch(t: string, html: string, unescape: string -> string)
    requires '/' !in t
    requires |html| < |t| && |html| < |unescape(t)| && |html| < |DownloadPath|
    ensures !TitleMatches(t, html, unescape)
  {
    forall v | v in Variants(Some(t), unescape)
      ensures !Occurs(v, html) && !Occurs(Lower(v), Lower(html))
    {
      VariantLength(t, unescape, v);
      TooLongToOccur(v, html);
    }
    var base := AfterLastSlash(t);
    assert base == t;
    QuoteIdentity(t);
    TooLongToOccur(Quote(t), html);
    assert !Occurs(Quote(t), Lower(html)) by {
      if Occurs(Quote(t), Lower(html)) {
        OccursLength(Quote(t), Lower(html));
      }
    }
    TooLongToOccur(base, html);
  }

  /** The basename is empty exactly when the title is empty or ends in `/`. */
  lemma EmptyBasename(t: string)
    ensures AfterLastSlash(t) == "" <==> t == "" || t[|t| - 1] == '/'
  {
  }

  /** The lower-cased basename test at line 184 has no emptiness guard, so a
      title ending in `/` matches any fetched markup, even the empty one. */
  lemma TrailingSlashAlwaysLinked(html: string, versions: seq<Version>, unescape: string -> string, k: nat)
    requires k < |versions| && Usable(versions[k].title)
    requires var t := versions[k].title.value; t[|t| - 1] == '/'
    ensures Linked(Some(html), versions, unescape)
  {
    EmptyBasename(versions[k].title.value);
    OccursAt("", Lower(html), 0);
    LinkedIfBasenameOccurs(html, versions, unescape, k);
  }

  /** The variant `unescape(t)` has no emptiness guard either: a title whose
      unescaped form is empty (as `html.unescape("&#1;")` is) matches any
      fetched markup, even the empty one. */
  lemma EmptyUnescapeAlwaysLinked(html: string, versions: seq<Version>, unescape: string -> string, k: nat)
    requires k < |versions| && Usable(versions[k].title)
    requires unescape(versions[k].title.value) == ""
    ensures Linked(Some(html), versions, unescape)
  {
    OccursAt("", html, 0);
    LinkedIfVariantOccurs(html, versions, unescape, k, "");
  }

  /** Empty markup links an attachment exactly when one of its usable titles
      has an empty basename (it ends in `/`) or an empty unescaped form. */
  lemma EmptyMarkupLinkedIff(versions: seq<Version>, unescape: string -> string)
    ensures Linked(Some(""), versions, unescape) <==>
      exists k :: 0 <= k < |versions| && Usable(versions[k].title) &&
        (AfterLastSlash(versions[k].title.value) == "" || unescape(versions[k].title.value) == "")
  {
    if exists k :: 0 <= k < |versions| && Usable(versions[k].title) &&
        (AfterLastSlash(versions[k].title.value) == "" || unescape(versions[k].title.value) == "") {
      var k :| 0 <= k < |versions| && Usable(versions[k].title) &&
        (AfterLastSlash(versions[k].title.value) == "" || unescape(versions[k].title.value) == "");
      if unescape(versions[k].title.value) == "" {
        EmptyUnescapeAlwaysLinked("", versions, unescape, k);
      } else {
        EmptyBasename(versions[k].title.value);
        TrailingSlashAlwaysLinked("", versions, unescape, k);
      }
    } else {
      NotLinkedOnEmptyMarkup(versions, unescape);
    }
  }

  // ---------------------------------------------------------------------
  // Examples

  lemma EscapedOccurrence(t: string, html: string)
    requires t == "A&B.pdf" && html == "<p>A&amp;B.pdf</p>"
    ensures Occurs(Escape(t), html)
  {
    var e := html[3..14];
    assert e == "A&amp;B.pdf";
    OccursAt(e, html, 3);
    EscapeAmpersandExample(t);
  }

  /** `A&B.pdf` is found in markup that holds `A&amp;B.pdf`. */
  lemma EscapedTitleExample(t: string, html: string, versions: seq<Version>, unescape: string -> string)
    requires t == "A&B.pdf" && html == "<p>A&amp;B.pdf</p>"
    requires |versions| == 1 && versions[0].title == Some(t)
    ensures Linked(Some(html), versions, unescape)
  {
    EscapedOccurrence(t, html);
    LinkedIfTitleFormOccurs(html, versions, unescape, 0);
  }

  lemma QuotedOccurrence(t: string, html: string)
    requires t == "my file.docx" && html == "<a href=\"/files/my%20file.docx\">x</a>"
    ensures Occurs(Quote(t), html)
  {
    var q := html[16..30];
    assert q == "my%20file.docx";
    OccursAt(q, html, 16);
    QuoteSpaceExample(t);
  }

  /** `my file.docx` is found in markup that links `my%20file.docx`. */
  lemma QuotedTitleExample(t: string, html: string, versions: seq<Version>, unescape: string -> string)
    requires t == "my file.docx" && html == "<a href=\"/files/my%20file.docx\">x</a>"
    requires |versions| == 1 && versions[0].title == Some(t)
    ensures Linked(Some(html), versions, unescape)
  {
    QuotedOccurrence(t, html);
    LinkedIfTitleFormOccurs(html, versions, unescape, 0);
  }
}
