/** The records the analyzer builds and keeps: page references, version
    entries and the per-attachment record stored in the global attachment map. */
module Records {
  import opened Wrappers

  /** The configured Confluence base address every URL is built on. */
  const BaseUrl: string := "https://YOUR_DOMAIN.atlassian.net/wiki"

  /** One entry of an attachment's version list: the attachment's JSON object
      as a version lookup returned it, or the current attachment object itself.
      Only the fields the analyzer reads or that take part in the equality test
      of the version merge are kept. */
  datatype Version = Version(id: string, title: Option<string>, number: Option<nat>)

  /** `{"id": …, "title": …, "url": …}`: the owning page of an attachment, or
      another page the same attachment id was found under. */
  datatype PageRef = PageRef(id: string, title: Option<string>, url: string)

  /** The `att_info` dictionary kept per attachment id. */
  datatype Attachment = Attachment(
    id: string,
    name: Option<string>,
    size: int,
    downloadUrl: string,
    deleteUrlFree: string,
    deleteUrlApi: string,
    originalPage: PageRef,
    linkedPages: seq<PageRef>,
    isLinkedOnPage: bool,
    versions: seq<Version>)
}
