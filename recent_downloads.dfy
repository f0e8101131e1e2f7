/**
 * The recent-downloads panel: the stored download records, clearing them,
 * removing one by id, the empty-state flag, the first five shown, and how
 * each record is named and described from its url.
 */
module RecentDownloads {
  import opened Wrappers
  import opened Text
  import opened GitHubUtils

  datatype RecordKind = RepositoryRecord | DirectoryRecord | FileRecord

  /** One stored download; `timestamp` is milliseconds since the epoch. */
  datatype DownloadRecord = DownloadRecord(id: string, url: string, timestamp: int, kind: RecordKind, name: string)

  /** How many records the panel shows at most. */
  const ShownLimit: nat := 5

  // ---------------------------------------------------------------------------
  // Removing by id
  // ---------------------------------------------------------------------------

  /** The records whose id differs from `id`, in their original order. */
  function WithoutId(records: seq<DownloadRecord>, id: string): (kept: seq<DownloadRecord>)
    ensures |kept| <= |records|
    ensures forall r :: r in kept <==> r in records && r.id != id
  {
    if |records| == 0 then []
    else
      var rest := WithoutId(records[1..], id);
      assert forall r :: r in records <==> r == records[0] || r in records[1..];
      if records[0].id == id then rest else [records[0]] + rest
  }

  /** Filtering a concatenation filters each part: the kept records stay in their original order. */
  lemma {:induction false} WithoutIdAppend(a: seq<DownloadRecord>, b: seq<DownloadRecord>, id: string)
    ensures WithoutId(a + b, id) == WithoutId(a, id) + WithoutId(b, id)
  {
    if |a| > 0 {
      assert (a + b)[0] == a[0];
      assert (a + b)[1..] == a[1..] + b;
      WithoutIdAppend(a[1..], b, id);
      if a[0].id != id {
        assert [a[0]] + (WithoutId(a[1..], id) + WithoutId(b, id))
            == [a[0]] + WithoutId(a[1..], id) + WithoutId(b, id);
      }
    } else {
      assert a + b == b;
    }
  }

  /** Each record with another id is kept as many times as it was stored; those with the id are gone. */
  lemma {:induction false} WithoutIdCounts(records: seq<DownloadRecord>, id: string, r: DownloadRecord)
    ensures multiset(WithoutId(records, id))[r] == if r.id == id then 0 else multiset(records)[r]
  {
    if |records| > 0 {
      WithoutIdCounts(records[1..], id, r);
      assert records == [records[0]] + records[1..];
    }
  }

  /** Removing an id no record has changes nothing. */
  lemma {:induction false} WithoutAbsentId(records: seq<DownloadRecord>, id: string)
    requires forall k :: 0 <= k < |records| ==> records[k].id != id
    ensures WithoutId(records, id) == records
  {
    if |records| > 0 {
      WithoutAbsentId(records[1..], id);
      assert records == [records[0]] + records[1..];
    }
  }

  /** Removing the same id twice is the same as once. */
  lemma WithoutIdIdempotent(records: seq<DownloadRecord>, id: string)
    ensures WithoutId(WithoutId(records, id), id) == WithoutId(records, id)
  {
    var kept := WithoutId(records, id);
    assert forall k :: 0 <= k < |kept| ==> kept[k] in kept;
    WithoutAbsentId(kept, id);
  }

  /** Removing two ids gives the same list in either order. */
  lemma {:induction false} WithoutIdCommutes(records: seq<DownloadRecord>, id1: string, id2: string)
    ensures WithoutId(WithoutId(records, id1), id2) == WithoutId(WithoutId(records, id2), id1)
  {
    if |records| > 0 {
      WithoutIdCommutes(records[1..], id1, id2);
    }
  }

  // ---------------------------------------------------------------------------
  // What is shown
  // ---------------------------------------------------------------------------

  /** The first five records, or all of them when there are fewer. */
  function Shown(records: seq<DownloadRecord>): (shown: seq<DownloadRecord>)
    ensures shown <= records
    ensures |shown| == if |records| < ShownLimit then |records| else ShownLimit
  {
    if |records| <= ShownLimit then records else records[..ShownLimit]
  }

  /** The last `/`-separated segment of a path: the final piece of splitting it at `/`. */
  function LastSegment(path: string): (segment: string)
    ensures '/' !in segment
    ensures EndsWith(path, segment)
    ensures |segment| < |path| ==> path[|path| - |segment| - 1] == '/'
  {
    var parts := Split(path, '/');
    var segment := parts[|parts| - 1];
    LastPieceIsSuffix(parts, '/');
    segment
  }

  /** The last piece is a suffix of the join, preceded by the separator when there are other pieces. */
  lemma {:induction false} LastPieceIsSuffix(parts: seq<string>, sep: char)
    requires |parts| >= 1
    ensures EndsWith(Join(parts, sep), parts[|parts| - 1])
    ensures |parts| >= 2 ==>
              var s := Join(parts, sep);
              |parts[|parts| - 1]| < |s| && s[|s| - |parts[|parts| - 1]| - 1] == sep
  {
    if |parts| >= 2 {
      LastPieceIsSuffix(parts[1..], sep);
      var rest := Join(parts[1..], sep);
      var s := Join(parts, sep);
      assert s == parts[0] + [sep] + rest;
      assert s[|s| - |rest|..] == rest;
      if |parts| == 2 {
        assert rest == parts[1];
        assert s[|s| - |rest| - 1] == sep;
      }
    }
  }

  /** The segment after the last `/` of `dir/name` is `name`. */
  lemma LastSegmentOfJoin(dir: string, name: string)
    requires '/' !in name
    ensures LastSegment(dir + "/" + name) == name
  {
    var path := dir + "/" + name;
    var segment := LastSegment(path);
    assert path[|dir|] == '/';
    assert forall k :: |dir| < k < |path| ==> path[k] == name[k - |dir| - 1];
    assert |segment| == |name|;
    assert segment == path[|path| - |name|..];
  }

  /**
   * The display name: the record's own name when non-empty; otherwise, for a
   * repository, the repo the url names (null when the url is invalid); for a
   * file, the last segment of the url's path (undefined when it has none);
   * for a directory, the path, or `Unknown` when it is null or empty.
   */
  function DisplayName(item: DownloadRecord): (name: Option<string>)
    ensures item.name != "" ==> name == Some(item.name)
    ensures name.None? <==>
              && item.name == ""
              && (|| (item.kind == RepositoryRecord && ParseGitHubUrl(item.url).repo.None?)
                  || (item.kind == FileRecord && ParseGitHubUrl(item.url).path.None?))
    ensures item.name == "" && item.kind == FileRecord && name.Some? ==>
              '/' !in name.value && EndsWith(ParseGitHubUrl(item.url).path.value, name.value)
    ensures item.name == "" && item.kind == RepositoryRecord ==> name == ParseGitHubUrl(item.url).repo
    ensures item.name == "" && item.kind == FileRecord && ParseGitHubUrl(item.url).path.Some? ==>
              name == Some(LastSegment(ParseGitHubUrl(item.url).path.value))
    ensures item.name == "" && item.kind == DirectoryRecord ==>
              if ParseGitHubUrl(item.url).path.Some? && ParseGitHubUrl(item.url).path.value != ""
              then name == ParseGitHubUrl(item.url).path
              else name == Some("Unknown")
  {
    if item.name != "" then Some(item.name)
    else
      var info := ParseGitHubUrl(item.url);
      match item.kind
      case RepositoryRecord => info.repo
      case FileRecord => if info.path.Some? then Some(LastSegment(info.path.value)) else None
      case DirectoryRecord =>
        if info.path.Some? && info.path.value != "" then info.path else Some("Unknown")
  }

  /** What JSX renders for a value that may be null or undefined. */
  function Rendered(text: Option<string>): string {
    text.GetOr("")
  }

  /**
   * The subtitle: owner and repo (empty when null) around a `/`, then `/`
   * and the path only when the path is non-empty.
   */
  function Subtitle(url: string): string {
    var info := ParseGitHubUrl(url);
    var tail := if info.path.Some? && info.path.value != "" then "/" + info.path.value else "";
    Rendered(info.owner) + "/" + Rendered(info.repo) + tail
  }

  /** One shown record: the name it is displayed under and its subtitle. */
  datatype Entry = Entry(record: DownloadRecord, displayName: string, subtitle: string)

  function EntryFor(item: DownloadRecord): Entry {
    Entry(item, Rendered(DisplayName(item)), Subtitle(item.url))
  }

  // ---------------------------------------------------------------------------
  // Names and subtitles of the urls the classifier understands
  // ---------------------------------------------------------------------------

  /**
   * An unnamed repository record for `github.com/owner/repo` is displayed
   * under the repo without `.git`, with subtitle `owner/repo`.
   */
  lemma RepositoryRecordEntry(item: DownloadRecord, scheme: Scheme, www: bool, owner: string, repo: string)
    requires '/' !in owner && '/' !in repo
    requires item.kind == RepositoryRecord && item.name == ""
    requires item.url == HostPrefix(scheme, www) + owner + "/" + repo
    ensures EntryFor(item) == Entry(item, TrimGitSuffix(repo), owner + "/" + TrimGitSuffix(repo))
  {
    ParseRepositoryUrl(scheme, www, owner, repo);
  }

  /**
   * An unnamed file record for `github.com/owner/repo/blob/branch/dir/name`
   * (or `raw` in place of `blob`) is displayed under `name`, with subtitle
   * `owner/repo/dir/name`.
   */
  lemma FileRecordEntry(item: DownloadRecord, scheme: Scheme, www: bool,
                        owner: string, repo: string, marker: string, branch: string, dir: string, name: string)
    requires '/' !in owner && '/' !in repo && '/' !in branch && '/' !in name
    requires marker == "blob" || marker == "raw"
    requires item.kind == FileRecord && item.name == ""
    requires item.url == HostPrefix(scheme, www) + owner + "/" + repo + "/" + marker + "/" + branch + "/" + (dir + "/" + name)
    ensures DisplayName(item) == Some(name)
    ensures Subtitle(item.url) == owner + "/" + TrimGitSuffix(repo) + "/" + (dir + "/" + name)
  {
    var path := dir + "/" + name;
    ParseContentUrl(scheme, www, owner, repo, marker, branch, path);
    ContentRecordEntry(item, owner, TrimGitSuffix(repo), path);
    LastSegmentOfJoin(dir, name);
  }

  /** A record whose url parses to a file path shows the path's last segment and the full path. */
  lemma ContentRecordEntry(item: DownloadRecord, owner: string, repo: string, path: string)
    requires item.kind == FileRecord && item.name == "" && path != ""
    ensures ParseGitHubUrl(item.url) == GitHubUrlInfo(Some(owner), Some(repo), Some(path), File) ==>
              && DisplayName(item) == Some(LastSegment(path))
              && Subtitle(item.url) == owner + "/" + repo + "/" + path
  {
    if ParseGitHubUrl(item.url) == GitHubUrlInfo(Some(owner), Some(repo), Some(path), File) {
      PathSubtitle(item.url, owner, repo, path);
    }
  }

  /**
   * An unnamed directory record whose url stops at the branch
   * (`github.com/owner/repo/tree/branch`) has the empty path, so it is
   * displayed as `Unknown` and its subtitle is just `owner/repo`.
   */
  lemma BranchRootRecordEntry(item: DownloadRecord, scheme: Scheme, www: bool,
                              owner: string, repo: string, branch: string)
    requires '/' !in owner && '/' !in repo && '/' !in branch
    requires item.kind == DirectoryRecord && item.name == ""
    requires item.url == HostPrefix(scheme, www) + owner + "/" + repo + "/" + "tree" + "/" + branch
    ensures EntryFor(item) == Entry(item, "Unknown", owner + "/" + TrimGitSuffix(repo))
  {
    ParseBranchOnlyUrl(scheme, www, owner, repo, "tree", branch);
  }

  /**
   * An unnamed directory record for `github.com/owner/repo/tree/branch/path`
   * with a non-empty path is displayed under the whole path, with subtitle
   * `owner/repo/path`.
   */
  lemma DirectoryRecordEntry(item: DownloadRecord, scheme: Scheme, www: bool,
                             owner: string, repo: string, branch: string, path: string)
    requires '/' !in owner && '/' !in repo && '/' !in branch && path != ""
    requires item.kind == DirectoryRecord && item.name == ""
    requires item.url == HostPrefix(scheme, www) + owner + "/" + repo + "/" + "tree" + "/" + branch + "/" + path
    ensures EntryFor(item) == Entry(item, path, owner + "/" + TrimGitSuffix(repo) + "/" + path)
  {
    ParseContentUrl(scheme, www, owner, repo, "tree", branch, path);
    DirectoryInfoEntry(item, owner, TrimGitSuffix(repo), path);
  }

  /** A record whose url parses to a non-empty directory path shows that path whole. */
  lemma DirectoryInfoEntry(item: DownloadRecord, owner: string, repo: string, path: string)
    requires item.kind == DirectoryRecord && item.name == "" && path != ""
    ensures ParseGitHubUrl(item.url) == GitHubUrlInfo(Some(owner), Some(repo), Some(path), Directory) ==>
              EntryFor(item) == Entry(item, path, owner + "/" + repo + "/" + path)
  {
    if ParseGitHubUrl(item.url) == GitHubUrlInfo(Some(owner), Some(repo), Some(path), Directory) {
      PathSubtitle(item.url, owner, repo, path);
    }
  }

  /** The subtitle of a url that parses to a non-empty path is `owner/repo/path`. */
  lemma PathSubtitle(url: string, owner: string, repo: string, path: string)
    requires ParseGitHubUrl(url).owner == Some(owner) && ParseGitHubUrl(url).repo == Some(repo)
    requires ParseGitHubUrl(url).path == Some(path)
    requires path != ""
    ensures Subtitle(url) == owner + "/" + repo + "/" + path
  {
    assert owner + "/" + repo + ("/" + path) == owner + "/" + repo + "/" + path;
  }

  /** A record whose url the classifier rejects outright shows the bare `/` as its subtitle. */
  lemma InvalidUrlSubtitle(url: string)
    requires !Contains(url, "github.com")
    ensures Subtitle(url) == "/"
  {
  }

  // ---------------------------------------------------------------------------
  // The panel
  // ---------------------------------------------------------------------------

  datatype PanelView = EmptyCard | ListCard(entries: seq<Entry>)

  /** The two buttons of a shown row. */
  datatype RowButton = RowDownload | RowRemove

  /** The panel's state: the stored `downloads` and the `isEmpty` flag its effect keeps. */
  class RecentDownloadsPanel {
    var downloads: seq<DownloadRecord>
    var isEmpty: bool

    /** The records come from storage; `isEmpty` starts out `true` whatever they are. */
    constructor(stored: seq<DownloadRecord>)
      ensures downloads == stored && isEmpty
    {
      downloads := stored;
      isEmpty := true;
    }

    /** The effect run after `downloads` changes: `isEmpty` becomes "there are no records". */
    method SyncEmptyFlag()
      modifies this
      ensures downloads == old(downloads)
      ensures isEmpty <==> |downloads| == 0
    {
      isEmpty := |downloads| == 0;
    }

    /** `handleClear`: no records are left. */
    method HandleClear()
      modifies this
      ensures downloads == [] && isEmpty == old(isEmpty)
    {
      downloads := [];
    }

    /**
     * `handleRemove(id)`: exactly the records with another id remain, in
     * their stored order and with their stored multiplicities.
     */
    method HandleRemove(id: string)
      modifies this
      ensures downloads == WithoutId(old(downloads), id) && isEmpty == old(isEmpty)
      ensures forall r :: r in downloads <==> r in old(downloads) && r.id != id
      ensures forall r :: multiset(downloads)[r] == if r.id == id then 0 else multiset(old(downloads))[r]
    {
      forall r | true
        ensures multiset(WithoutId(downloads, id))[r] == if r.id == id then 0 else multiset(downloads)[r]
      {
        WithoutIdCounts(downloads, id, r);
      }
      downloads := WithoutId(downloads, id);
    }

    /**
     * A click in a shown row: the row's download button has no handler, so
     * nothing changes; its remove button calls `handleRemove(item.id)`,
     * after which that record, and every other with its id, is gone.
     */
    method ClickRow(item: DownloadRecord, button: RowButton)
      modifies this
      ensures button == RowDownload ==> downloads == old(downloads) && isEmpty == old(isEmpty)
      ensures button == RowRemove ==>
                downloads == WithoutId(old(downloads), item.id) && isEmpty == old(isEmpty) && item !in downloads
    {
      if button == RowRemove {
        HandleRemove(item.id);
      }
    }

    /**
     * The render: the empty-state card while `isEmpty`; otherwise the first
     * five records, each with its display name and subtitle.
     */
    function View(): (view: PanelView)
      reads this
      ensures view.EmptyCard? <==> isEmpty
      ensures view.ListCard? ==>
                && |view.entries| == |Shown(downloads)| <= ShownLimit
                && forall k :: 0 <= k < |view.entries| ==> view.entries[k] == EntryFor(downloads[k])
    {
      if isEmpty then EmptyCard
      else
        var shown := Shown(downloads);
        ListCard(seq(|shown|, k requires 0 <= k < |shown| => EntryFor(shown[k])))
    }
  }

  /**
   * Once the effect has run, the list is shown exactly when there are
   * records, and after clearing only the empty-state card is.
   */
  method ClearThenSync(panel: RecentDownloadsPanel)
    modifies panel
    ensures panel.downloads == [] && panel.isEmpty && panel.View() == EmptyCard
  {
    panel.HandleClear();
    panel.SyncEmptyFlag();
  }
}
