/**
 * The directory listing: the in-place sort that puts directories first and
 * orders names within each group, and what the listing shows for a given
 * path, loading flag, set of folders being downloaded and screen size.
 */
module FileList {
  import opened Wrappers
  import opened GitHubApi

  /** `item.type === 'dir'`; files, symlinks and submodules are all "not a directory". */
  predicate IsDir(item: Content) {
    item.kind == "dir"
  }

  /**
   * `localeCompare` is not reproduced; the sort relies only on it ordering
   * names totally and transitively.
   */
  ghost predicate IsNameOrder(localeCompare: (string, string) -> int) {
    && (forall x, y :: localeCompare(x, y) <= 0 || localeCompare(y, x) <= 0)
    && (forall x, y, z :: localeCompare(x, y) <= 0 && localeCompare(y, z) <= 0 ==> localeCompare(x, z) <= 0)
  }

  /** The comparator handed to `contents.sort`. */
  function CompareEntries(a: Content, b: Content, localeCompare: (string, string) -> int): int {
    if IsDir(a) && !IsDir(b) then -1
    else if !IsDir(a) && IsDir(b) then 1
    else localeCompare(a.name, b.name)
  }

  /** `a` may stay before `b`: the comparator does not ask to swap them. */
  predicate InOrder(a: Content, b: Content, localeCompare: (string, string) -> int) {
    CompareEntries(a, b, localeCompare) <= 0
  }

  /** Every pair of entries is in the comparator's order. */
  predicate Sorted(s: seq<Content>, localeCompare: (string, string) -> int) {
    forall i, j :: 0 <= i < j < |s| ==> InOrder(s[i], s[j], localeCompare)
  }

  /** No directory comes after an entry that is not one. */
  predicate DirectoriesFirst(s: seq<Content>) {
    forall i, j :: 0 <= i < j < |s| && IsDir(s[j]) ==> IsDir(s[i])
  }

  /** Within the directories, and within the rest, names are in `localeCompare` order. */
  predicate NamesOrderedWithinGroups(s: seq<Content>, localeCompare: (string, string) -> int) {
    forall i, j :: 0 <= i < j < |s| && IsDir(s[i]) == IsDir(s[j]) ==> localeCompare(s[i].name, s[j].name) <= 0
  }

  /** The comparator's order is exactly "directories first, then by name". */
  lemma SortedMeans(s: seq<Content>, localeCompare: (string, string) -> int)
    ensures Sorted(s, localeCompare) <==> DirectoriesFirst(s) && NamesOrderedWithinGroups(s, localeCompare)
  {
    if Sorted(s, localeCompare) {
      forall i, j | 0 <= i < j < |s| && IsDir(s[j])
        ensures IsDir(s[i])
      {
        assert InOrder(s[i], s[j], localeCompare);
      }
      forall i, j | 0 <= i < j < |s| && IsDir(s[i]) == IsDir(s[j])
        ensures localeCompare(s[i].name, s[j].name) <= 0
      {
        assert InOrder(s[i], s[j], localeCompare);
      }
    }
  }

  /** Two entries can always be put in order one way or the other. */
  lemma InOrderTotal(a: Content, b: Content, localeCompare: (string, string) -> int)
    requires IsNameOrder(localeCompare)
    ensures InOrder(a, b, localeCompare) || InOrder(b, a, localeCompare)
  {
    var _ := localeCompare(a.name, b.name);
  }

  /** The comparator's order is transitive when `localeCompare` is. */
  lemma InOrderTransitive(a: Content, b: Content, c: Content, localeCompare: (string, string) -> int)
    requires IsNameOrder(localeCompare)
    requires InOrder(a, b, localeCompare) && InOrder(b, c, localeCompare)
    ensures InOrder(a, c, localeCompare)
  {
    if IsDir(a) == IsDir(c) {
      assert IsDir(b) == IsDir(a);
      assert localeCompare(a.name, b.name) <= 0 && localeCompare(b.name, c.name) <= 0;
    }
  }

  /**
   * `contents.sort(...)`: reorders the caller's array in place so that the
   * directories come first and names are ordered within each group; nothing
   * is added or dropped. Written as an insertion sort by adjacent swaps.
   */
  method SortContents(a: array<Content>, localeCompare: (string, string) -> int)
    requires IsNameOrder(localeCompare)
    modifies a
    ensures Sorted(a[..], localeCompare)
    ensures DirectoriesFirst(a[..]) && NamesOrderedWithinGroups(a[..], localeCompare)
    ensures multiset(a[..]) == multiset(old(a[..]))
  {
    var i := 0;
    while i < a.Length
      invariant 0 <= i <= a.Length
      invariant Sorted(a[..i], localeCompare)
      invariant multiset(a[..]) == multiset(old(a[..]))
    {
      InsertLast(a, i, localeCompare);
      i := i + 1;
    }
    assert a[..a.Length] == a[..];
    SortedMeans(a[..], localeCompare);
  }

  /** `s[..i + 1]` is sorted except that the entry at `j` may be out of place. */
  predicate SortedExcept(s: seq<Content>, i: nat, j: nat, localeCompare: (string, string) -> int)
    requires i < |s|
  {
    forall p, q :: 0 <= p < q <= i && p != j && q != j ==> InOrder(s[p], s[q], localeCompare)
  }

  /** The entry at `j` may stay before every entry after it up to `i`. */
  predicate BeforeRest(s: seq<Content>, i: nat, j: nat, localeCompare: (string, string) -> int)
    requires j <= i < |s|
  {
    forall q :: j < q <= i ==> InOrder(s[j], s[q], localeCompare)
  }

  /** Swapping the entry at `j` with its out-of-order left neighbour moves the gap one step left. */
  lemma SwapStep(s: seq<Content>, i: nat, j: nat, localeCompare: (string, string) -> int)
    requires IsNameOrder(localeCompare)
    requires 0 < j <= i < |s|
    requires SortedExcept(s, i, j, localeCompare) && BeforeRest(s, i, j, localeCompare)
    requires !InOrder(s[j - 1], s[j], localeCompare)
    ensures var t := s[j - 1 := s[j]][j := s[j - 1]];
            SortedExcept(t, i, j - 1, localeCompare) && BeforeRest(t, i, j - 1, localeCompare)
  {
    InOrderTotal(s[j - 1], s[j], localeCompare);
  }

  /** Swapping two neighbours at or before `i` keeps the entries and everything after `i`. */
  lemma SwapKeeps(s: seq<Content>, i: nat, j: nat)
    requires 0 < j <= i < |s|
    ensures var t := s[j - 1 := s[j]][j := s[j - 1]];
            multiset(t) == multiset(s) && t[i + 1..] == s[i + 1..]
  {
    var t := s[j - 1 := s[j]][j := s[j - 1]];
    assert t[i + 1..] == s[i + 1..];
  }

  /** Once the entry at `j` is in order with its left neighbour, the whole prefix is sorted. */
  lemma InsertionDone(s: seq<Content>, i: nat, j: nat, localeCompare: (string, string) -> int)
    requires IsNameOrder(localeCompare)
    requires j <= i < |s|
    requires SortedExcept(s, i, j, localeCompare) && BeforeRest(s, i, j, localeCompare)
    requires j == 0 || InOrder(s[j - 1], s[j], localeCompare)
    ensures Sorted(s[..i + 1], localeCompare)
  {
    forall p, q | 0 <= p < q <= i
      ensures InOrder(s[p], s[q], localeCompare)
    {
      if q == j && p < j - 1 {
        InOrderTransitive(s[p], s[j - 1], s[j], localeCompare);
      }
    }
  }

  /** Moves `a[i]` left into the sorted prefix `a[..i]`, leaving `a[..i + 1]` sorted. */
  method InsertLast(a: array<Content>, i: nat, localeCompare: (string, string) -> int)
    requires IsNameOrder(localeCompare)
    requires i < a.Length && Sorted(a[..i], localeCompare)
    modifies a
    ensures Sorted(a[..i + 1], localeCompare)
    ensures multiset(a[..]) == multiset(old(a[..]))
    ensures a[i + 1..] == old(a[i + 1..])
  {
    var j := i;
    assert SortedExcept(a[..], i, j, localeCompare);
    while j > 0 && !InOrder(a[j - 1], a[j], localeCompare)
      invariant 0 <= j <= i
      invariant SortedExcept(a[..], i, j, localeCompare) && BeforeRest(a[..], i, j, localeCompare)
      invariant multiset(a[..]) == multiset(old(a[..]))
      invariant a[i + 1..] == old(a[i + 1..])
    {
      ghost var s := a[..];
      SwapStep(s, i, j, localeCompare);
      SwapKeeps(s, i, j);
      a[j - 1], a[j] := a[j], a[j - 1];
      assert a[..] == s[j - 1 := s[j]][j := s[j - 1]];
      j := j - 1;
    }
    InsertionDone(a[..], i, j, localeCompare);
  }

  // ---------------------------------------------------------------------------
  // What the listing shows
  // ---------------------------------------------------------------------------

  /** The callbacks the listing can invoke, with the arguments it passes. */
  datatype Action =
    | NavigateToFolder(folderPath: string)
    | GoToParent
    | PreviewFile(file: Content)
    | DownloadFile(file: Content)
    | DownloadFolder(folderPath: string, folderName: string)
    | DownloadDirectory
    | DownloadRepository

  /** A button: what clicking it calls, and whether it is disabled. */
  datatype Button = Button(action: Action, disabled: bool)

  /**
   * One row: clicking the name, the folder's own download button (with its
   * spinner), the preview button and the primary button.
   */
  datatype Row = Row(
    item: Content,
    nameClick: Option<Action>,
    folderDownload: Option<Button>,
    spinner: bool,
    preview: Option<Button>,
    primary: Button)

  datatype Body = EmptyMessage | Rows(rows: seq<Row>)

  datatype Listing =
    | Spinner
    | Card(parentLink: Option<Button>, body: Body, footer: Button)

  /** `downloadingFolders[key]` read as a JavaScript condition: a missing key is falsy. */
  function Flag(flags: map<string, bool>, key: string): bool {
    key in flags && flags[key]
  }

  /** The row the listing renders for one entry. */
  function RowFor(item: Content, downloadingFolders: map<string, bool>, isMobile: bool): Row {
    var downloading := Flag(downloadingFolders, item.path);
    Row(
      item,
      if IsDir(item) then Some(NavigateToFolder(item.path)) else None,
      if IsDir(item) then Some(Button(DownloadFolder(item.path, item.name), downloading)) else None,
      IsDir(item) && downloading,
      if item.kind == "file" && !isMobile then Some(Button(PreviewFile(item), false)) else None,
      Button(if IsDir(item) then NavigateToFolder(item.path) else DownloadFile(item), false))
  }

  /**
   * Every row offers exactly one download: a directory through its folder
   * button, which is disabled while that folder is being downloaded, and
   * anything else through its primary button, which is never disabled. Only
   * plain files can be previewed, and never on a small screen; directories
   * open on their name and on the primary button, other entries do nothing
   * when their name is clicked.
   */
  lemma RowControls(item: Content, downloadingFolders: map<string, bool>, isMobile: bool)
    ensures var row := RowFor(item, downloadingFolders, isMobile);
            && row.item == item
            && (row.folderDownload.Some? <==> IsDir(item))
            && (row.primary.action.DownloadFile? <==> !IsDir(item))
            && (row.folderDownload.Some? ==>
                  && row.folderDownload.value.action == DownloadFolder(item.path, item.name)
                  && (row.folderDownload.value.disabled <==> item.path in downloadingFolders && downloadingFolders[item.path])
                  && row.spinner == row.folderDownload.value.disabled)
            && !row.primary.disabled
            && (row.preview.Some? <==> item.kind == "file" && !isMobile)
            && (row.nameClick.Some? <==> IsDir(item))
            && (row.nameClick.Some? ==> row.nameClick.value == row.primary.action == NavigateToFolder(item.path))
  {
  }

  /**
   * The listing, rendered from the (already sorted) contents: a spinner while
   * loading; otherwise a parent link when `path` is non-empty, the empty
   * message or one row per entry in order, and a footer button. The footer's
   * `isDownloading || !contents` is just `isDownloading`, because an array is
   * never falsy.
   */
  function View(contents: seq<Content>, path: string, isLoading: bool,
                downloadingFolders: map<string, bool>, isMobile: bool, isDownloading: bool): Listing
  {
    if isLoading then Spinner
    else
      Card(
        if path != "" then Some(Button(GoToParent, false)) else None,
        if |contents| == 0 then EmptyMessage
        else Rows(seq(|contents|, k requires 0 <= k < |contents| => RowFor(contents[k], downloadingFolders, isMobile))),
        Button(if path != "" then DownloadDirectory else DownloadRepository, isDownloading))
  }

  /**
   * The shape of the listing: the spinner exactly while loading; the parent
   * link and "download this directory" exactly when a path is open, and
   * "download entire repository" at the root; the empty message exactly for
   * no contents, and otherwise one row per entry, in order; the footer
   * disabled exactly while a download runs.
   */
  lemma ViewShape(contents: seq<Content>, path: string, isLoading: bool,
                  downloadingFolders: map<string, bool>, isMobile: bool, isDownloading: bool)
    ensures var v := View(contents, path, isLoading, downloadingFolders, isMobile, isDownloading);
            && (v.Spinner? <==> isLoading)
            && (v.Card? ==>
                  && (v.parentLink.Some? <==> path != "")
                  && (v.footer.action == DownloadDirectory <==> path != "")
                  && (v.footer.action == DownloadRepository <==> path == "")
                  && (v.footer.disabled <==> isDownloading)
                  && (v.body.EmptyMessage? <==> |contents| == 0)
                  && (v.body.Rows? ==>
                        && |v.body.rows| == |contents|
                        && forall k :: 0 <= k < |contents| ==> v.body.rows[k] == RowFor(contents[k], downloadingFolders, isMobile)))
  {
  }

  /**
   * The component's render: it sorts the caller's array in place, then
   * renders the listing from the sorted entries.
   */
  method Render(contents: array<Content>, path: string, isLoading: bool,
                downloadingFolders: map<string, bool>, isMobile: bool, isDownloading: bool,
                localeCompare: (string, string) -> int)
    returns (listing: Listing)
    requires IsNameOrder(localeCompare)
    modifies contents
    ensures isLoading ==> listing == Spinner && contents[..] == old(contents[..])
    ensures !isLoading ==>
              && Sorted(contents[..], localeCompare)
              && multiset(contents[..]) == multiset(old(contents[..]))
              && listing == View(contents[..], path, isLoading, downloadingFolders, isMobile, isDownloading)
  {
    if isLoading {
      return Spinner;
    }
    if contents.Length != 0 {
      SortContents(contents, localeCompare);
    }
    listing := View(contents[..], path, isLoading, downloadingFolders, isMobile, isDownloading);
  }
}
