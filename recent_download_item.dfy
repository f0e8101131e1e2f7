/**
 * One recent-download row as a component of its own: the same display name
 * and subtitle as the panel's rows, a download button tied to a busy flag,
 * and a remove button that reports the record's id.
 */
module RecentDownloadItem {
  import opened Wrappers
  import opened RecentDownloads

  /** The buttons of the row; the third control is a plain link to the url. */
  datatype ItemButton = DownloadButton | RemoveButton

  /** The callbacks the row invokes, with the argument it passes. */
  datatype Callback = OnDownload(item: DownloadRecord) | OnRemove(id: string)

  datatype ItemView = ItemView(displayName: string, subtitle: string, link: string, downloadDisabled: bool, spinner: bool)

  /**
   * The row's render. It derives the name and subtitle by the same rules as
   * the panel's list, and its download button is disabled, with a spinner,
   * exactly while a download runs.
   */
  function View(item: DownloadRecord, isDownloading: bool): (view: ItemView)
    ensures view.displayName == EntryFor(item).displayName && view.subtitle == EntryFor(item).subtitle
    ensures view.link == item.url
    ensures view.downloadDisabled <==> isDownloading
    ensures view.spinner <==> isDownloading
  {
    ItemView(Rendered(DisplayName(item)), Subtitle(item.url), item.url, isDownloading, isDownloading)
  }

  /**
   * A click: a disabled download button does nothing, an enabled one passes
   * the record unchanged to `onDownload`; remove passes exactly its id to
   * `onRemove`.
   */
  function Click(item: DownloadRecord, isDownloading: bool, button: ItemButton): (call: Option<Callback>)
    ensures button == DownloadButton ==> (call.Some? <==> !isDownloading)
    ensures call.Some? && call.value.OnDownload? ==> call.value.item == item
    ensures button == RemoveButton ==> call == Some(OnRemove(item.id))
  {
    match button
    case DownloadButton => if isDownloading then None else Some(OnDownload(item))
    case RemoveButton => Some(OnRemove(item.id))
  }

  /**
   * Handing the remove click's id to the panel's filter drops the clicked
   * record and keeps every record with another id.
   */
  lemma RemoveClickDropsItem(records: seq<DownloadRecord>, item: DownloadRecord, isDownloading: bool)
    ensures var call := Click(item, isDownloading, RemoveButton);
            && call.Some? && call.value.OnRemove?
            && item !in WithoutId(records, call.value.id)
            && forall r :: r in records && r.id != item.id ==> r in WithoutId(records, call.value.id)
  {
  }
}
