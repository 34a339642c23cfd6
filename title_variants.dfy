/** The title-variant generator: the strings under which an attachment title
    may appear in a page's storage-format markup. */
module TitleVariants {
  import opened Wrappers
  import opened Text
  import opened HtmlEscape
  import opened PercentEncoding

  /** The download-path literal added for every title, whatever the title is. */
  const DownloadPath: string := "/download/attachments/"

  /** `ri:filename="…"`, the attribute of the storage format's attachment reference. */
  function RiFilename(x: string): string
  {
    "ri:filename=\"" + x + "\""
  }

  /** `ri:attachment ri:filename="…"`, the same attribute inside its tag. */
  function RiAttachment(x: string): string
  {
    "ri:attachment ri:filename=\"" + x + "\""
  }

  /** `normalize_title_variants(title)`. `unescape` stands for Python's
      `html.unescape`, which is not modelled. An absent title has no variants;
      any present title, even the empty one, has its own text, its escaped
      form, the four attachment-reference wrappers and the download path. */
  function Variants(title: Option<string>, unescape: string -> string): (r: set<string>)
    ensures title.None? <==> r == {}
    ensures title.Some? ==>
      var t := title.value;
      && t in r && Escape(t) in r && unescape(t) in r && Quote(t) in r && SpacesToPlus(t) in r
      && RiFilename(t) in r && RiFilename(Escape(t)) in r
      && RiAttachment(t) in r && RiAttachment(Escape(t)) in r
      && DownloadPath in r
    ensures |r| <= 10
  {
    match title
    case None => {}
    case Some(t) =>
      {t, Escape(t), unescape(t), Quote(t), SpacesToPlus(t),
       RiFilename(t), RiFilename(Escape(t)), RiAttachment(t), RiAttachment(Escape(t)),
       DownloadPath}
  }

  /** The four wrapper variants never decide a match on their own: markup that
      holds a wrapper also holds the raw or the escaped title inside it. */
  lemma WrapperHitHoldsTitle(t: string, markup: string)
    requires Occurs(RiFilename(t), markup) || Occurs(RiAttachment(t), markup)
          || Occurs(RiFilename(Escape(t)), markup) || Occurs(RiAttachment(Escape(t)), markup)
    ensures Occurs(t, markup) || Occurs(Escape(t), markup)
  {
    OccursInside(t, "ri:filename=\"", "\"");
    OccursInside(t, "ri:attachment ri:filename=\"", "\"");
    OccursInside(Escape(t), "ri:filename=\"", "\"");
    OccursInside(Escape(t), "ri:attachment ri:filename=\"", "\"");
    if Occurs(RiFilename(t), markup) {
      OccursTransitive(t, RiFilename(t), markup);
    } else if Occurs(RiAttachment(t), markup) {
      OccursTransitive(t, RiAttachment(t), markup);
    } else if Occurs(RiFilename(Escape(t)), markup) {
      OccursTransitive(Escape(t), RiFilename(Escape(t)), markup);
    } else {
      OccursTransitive(Escape(t), RiAttachment(Escape(t)), markup);
    }
  }

  /** Every variant but the unescaped one is non-empty when the title is, so
      only the unescaped form and the basename can match empty markup. */
  lemma VariantsNonEmpty(t: string, unescape: string -> string, v: string)
    requires t != [] && v in Variants(Some(t), unescape) && v != unescape(t)
    ensures v != []
  {
    if v == Quote(t) {
      QuoteNonEmpty(t);
    }
  }
}
