# GitHub content browser: URL, listing, preview and history logic in Dafny

This project models the client-side logic of a browser application that
browses a GitHub repository and downloads files, folders or whole
repositories from it. It covers the parts of that application that make
decisions, not the network or rendering plumbing:

- **URL classifier** (`parseGitHubUrl` in `src/utils/gitHubUtils.ts`). It
  removes an optional `http(s)://`, `www.` and `github.com/` prefix, splits
  the rest at `/`, and classifies the input as a repository, a directory
  (`tree`), a file (`blob` or `raw`) or invalid. It returns the owner, the
  repo (with one `.git` removed) and a path. Module `GitHubUtils`.
- **File extensions and binary detection** (`getFileExtension`,
  `isBinaryFile`). The extension comes from a slice whose start is computed
  with JavaScript's unsigned shift `>>> 0`. The binary test is
  case-insensitive membership in a fixed list of 31 extensions. Also in
  `GitHubUtils`, together with the suffix choice of `formatNumber`.
- **Search-box parser** (the closure inside `src/components/RepoExplorer.tsx`).
  It searches the input for the unanchored pattern `github.com/owner/repo`,
  then tries the anchored `owner/repo`, and falls back to two empty strings.
  The repository search runs only when both names are non-empty. Module
  `RepoExplorer`. Lemmas there compare this parser with the URL classifier:
  they agree on plain repository URLs and disagree on a trailing slash and
  on a bare `owner/repo`.
- **Directory listing** (`src/components/FileList.tsx`). An in-place sort of
  the listing puts directories first and orders names within each group. It
  is modelled as a method on an `array` that is proved sorted and a
  permutation. The rows, buttons and footer the listing shows are modelled
  as a value. Module `FileList`.
- **File preview** (`src/components/FilePreview.tsx`). The `content`,
  `loading` and `error` state of the preview dialog is a class. Loading
  decides between no fetch, a binary placeholder, a fetch error and the
  fetched text, and `loading` is cleared on every path. Also modelled: the
  case-sensitive extension-to-language table and the kilobyte rounding.
  Modules `PreviewLanguages` and `FilePreview`.
- **Recent downloads** (`src/components/RecentDownloads.tsx`,
  `src/components/RecentDownloadItem.tsx`). The stored list and its
  `isEmpty` flag are a class with clear and remove-by-id operations. The
  panel shows the first five records. Each record's display name and
  subtitle are derived from the URL classifier. Modules `RecentDownloads`
  and `RecentDownloadItem`.

Supporting modules: `Wrappers` holds `Option`. `Text` models the JavaScript
string operations used above (`includes`, `endsWith`, `indexOf`,
`lastIndexOf`, `split`, `join`, ASCII `toLowerCase`, and integer
`toString`), each with its own contract. `GitHubApi` holds the directory
entry record the listing and preview receive.

The preview's binary test is applied to the extension that
`getFileExtension` returns, not to the whole file name.

## Model

| member | source | states |
|---|---|---|
| Text.Contains | src/utils/gitHubUtils.ts:12 | `includes` is true exactly when some index starts an occurrence of the searched text |
| Text.Split | src/utils/gitHubUtils.ts:20 | `split` gives one more piece than there are separators, no piece holds the separator, and joining the pieces rebuilds the input |
| Text.SplitCons | src/utils/gitHubUtils.ts:20 | splitting `a/b` with a slash-free `a` gives `a` followed by the pieces of `b` |
| Text.SplitJoin | src/utils/gitHubUtils.ts:43 | splitting the join of separator-free pieces gives back exactly those pieces |
| Text.SplitSingle | src/utils/gitHubUtils.ts:22 | the split has a single piece exactly when the input holds no separator |
| Text.LastIndexOf | src/utils/gitHubUtils.ts:86 | `lastIndexOf` is -1 or an index holding the character, with no occurrence after it |
| Text.ToLower | src/utils/gitHubUtils.ts:99 | lower-casing keeps the length and lowers each ASCII letter in place |
| Text.NatToDecimal | src/utils/gitHubUtils.ts:71 | the decimal text is non-empty digits without a leading zero |
| Text.DecimalRoundTrip | src/utils/gitHubUtils.ts:71 | the decimal text of any integer reads back as that integer |
| GitHubUtils.StripHostPrefixRemoves | src/utils/gitHubUtils.ts:17 | each of the six prefixes the host pattern accepts is removed exactly, leaving the rest |
| GitHubUtils.StripHostPrefixCases | src/utils/gitHubUtils.ts:17 | the strip either changes nothing or removes one of the six host prefixes |
| GitHubUtils.StripHostPrefixKeeps | src/utils/gitHubUtils.ts:17 | a url that starts with no host prefix is left unchanged |
| GitHubUtils.StripHostPrefix | src/utils/gitHubUtils.ts:17 | the anchored replace of an optional scheme, an optional `www.` and `github.com/`; what it removes is stated by StripHostPrefixRemoves, StripHostPrefixCases and StripHostPrefixKeeps |
| GitHubUtils.Segments | src/utils/gitHubUtils.ts:17-20 | the `/`-split of the stripped url; ParseGitHubUrl classifies by exactly these segments |
| GitHubUtils.TrimGitSuffix | src/utils/gitHubUtils.ts:29-31 | the result is a prefix of the repo; one trailing `.git` is removed when present, and otherwise the repo is unchanged |
| GitHubUtils.TrimGitSuffixOnce | src/utils/gitHubUtils.ts:29-31 | only one `.git` is removed: trimming `r.git` gives back `r`, even when `r` itself ends in `.git` |
| GitHubUtils.ClassifySegments | src/utils/gitHubUtils.ts:20-56 | from two segments on, the owner is the first segment and the repo the second without `.git`; fewer than two is the all-null invalid result; the kind is a repository exactly for two segments, a directory exactly for four or more with `tree` third, a file exactly for four or more with `blob` or `raw` third; a path exists exactly for files and directories and is the join of the fifth segment onwards |
| GitHubUtils.ParseGitHubUrl | src/utils/gitHubUtils.ts:9-61 | input without `github.com` is invalid with all fields null; otherwise, on the segments left after the host prefix, the owner, repo, kind and path follow the classification rule both ways (repository iff two segments, directory iff `tree` third of four or more, file iff `blob`/`raw` third of four or more); `owner/repo` starts the stripped url and the path ends it |
| GitHubUtils.HostPrefixMentionsGitHub | src/utils/gitHubUtils.ts:12-17 | a url under a host prefix passes the `github.com` test and loses exactly that prefix |
| GitHubUtils.ParseUnderHostPrefix | src/utils/gitHubUtils.ts:12-20 | a url under a host prefix is classified by the segments of what follows the prefix |
| GitHubUtils.ParseSingleSegment | src/utils/gitHubUtils.ts:20-24 | fewer than two segments (e.g. bare `github.com`, or `github.com/owner`) give invalid with all fields null |
| GitHubUtils.ParseRepositoryUrl | src/utils/gitHubUtils.ts:26-36 | `github.com/owner/repo` is a repository with the owner, the repo without `.git`, and a null path |
| GitHubUtils.ClassifyRepository | src/utils/gitHubUtils.ts:34-36 | exactly two segments give a repository with a null path |
| GitHubUtils.ParseTrailingSlash | src/utils/gitHubUtils.ts:34-56 | `github.com/owner/repo/` has three segments and is invalid, with owner and repo filled in and a null path |
| GitHubUtils.ParseThreeSegmentUrl | src/utils/gitHubUtils.ts:34-56 | `github.com/owner/repo/page` (three segments, such as an issues page) is invalid, with owner and trimmed repo filled in and a null path |
| GitHubUtils.ThreeSegments | src/utils/gitHubUtils.ts:20 | the segments of `owner/repo/page` are exactly those three names |
| GitHubUtils.ClassifyOtherShape | src/utils/gitHubUtils.ts:39-56 | three segments, or four or more whose third is not `blob`, `tree` or `raw`, give the invalid kind with owner and trimmed repo and a null path |
| GitHubUtils.ParseOtherShape | src/utils/gitHubUtils.ts:9-56 | the same rule for any url under a host prefix, in terms of the segments after the prefix |
| GitHubUtils.ParseFourSegmentOther | src/utils/gitHubUtils.ts:39-56 | `github.com/owner/repo/pull/1`-shaped urls, whose third segment is no content marker, are invalid with owner and repo kept |
| GitHubUtils.ParseContentUrl | src/utils/gitHubUtils.ts:39-52 | under `blob`, `tree` or `raw`, the branch is dropped, the path is the rest whole (slashes included), and `tree` gives a directory while the other two give a file |
| GitHubUtils.ClassifyContent | src/utils/gitHubUtils.ts:39-52 | with four or more segments and a marker third, the path is segments five onwards joined by `/` |
| GitHubUtils.ContentSegments | src/utils/gitHubUtils.ts:20 | the segments of `owner/repo/marker/branch/path` are the four names followed by the segments of the path |
| GitHubUtils.ParseBranchOnlyUrl | src/utils/gitHubUtils.ts:39-52 | with exactly four segments the path is the empty string, not null |
| GitHubUtils.UnsignedShiftZero | src/utils/gitHubUtils.ts:86 | `>>> 0` lies below 2^32, keeps values already in range, and adds 2^32 to negative ones down to -2^32 |
| GitHubUtils.GetFileExtension | src/utils/gitHubUtils.ts:85-87 | the extension is a suffix of the name and, for names up to 2^32 characters, holds no dot |
| GitHubUtils.DotFreeTailAfterLastDot | src/utils/gitHubUtils.ts:86 | the reference dot-free tail is the text after the last dot |
| GitHubUtils.ExtensionIsDotFreeTail | src/utils/gitHubUtils.ts:85-87 | the extension is the reference dot-free tail when a dot precedes it at index 1 or later, and empty otherwise: no dot, a dot-file like `.gitignore`, or a trailing dot |
| GitHubUtils.ExtensionOfName | src/utils/gitHubUtils.ts:85-87 | `stem.ext` with a non-empty stem and dot-free `ext` has extension `ext` |
| GitHubUtils.BinaryExtensionsAreLowerCase | src/utils/gitHubUtils.ts:91-97 | the list has 31 entries, all in lower case |
| GitHubUtils.ToLowerMatches | src/utils/gitHubUtils.ts:99 | lower-casing equals a lower-case entry exactly when the two are equal ignoring ASCII case |
| GitHubUtils.IsBinaryFile | src/utils/gitHubUtils.ts:90-100 | binary exactly when the extension equals one of the 31 entries ignoring ASCII case |
| GitHubUtils.BinaryExamples | src/utils/gitHubUtils.ts:90-100 | `PNG` and `png` are binary; the empty extension and `ts` are not |
| GitHubUtils.FormatNumberSuffix | src/utils/gitHubUtils.ts:64-72 | the text ends in `M` exactly from a million up, in `k` exactly from a thousand below a million, and below a thousand it reads back as the number |
| GitHubUtils.FormatNumber | src/utils/gitHubUtils.ts:64-72 | the three branches at one million and one thousand; stated by FormatNumberSuffix |
| RepoExplorer.RunEnd | src/components/RepoExplorer.tsx:37 | the greedy `[^/]` run from a position stops at the end or at the first `/` |
| RepoExplorer.RunEndUnique | src/components/RepoExplorer.tsx:37 | a slash-free run ending at the end or at a `/` is the greedy one |
| RepoExplorer.HostMatchAt | src/components/RepoExplorer.tsx:37 | both groups of a match are non-empty and slash-free |
| RepoExplorer.HostMatchAtMeans | src/components/RepoExplorer.tsx:37 | the pattern matches at `j` with groups `owner`, `repo` exactly when `github.com/owner/repo` sits there with `repo` running to the end or to a `/` |
| RepoExplorer.LeftmostHostMatch | src/components/RepoExplorer.tsx:37-42 | the search returns a position where the pattern matches, and there is no match before it; -1 only when there is no match at all |
| RepoExplorer.HostPattern | src/components/RepoExplorer.tsx:37 | the unanchored `github.com/owner/repo` pattern: the leftmost match, as stated by HostMatchAtMeans, LeftmostHostMatch and ParseLeftmostHostMatch |
| RepoExplorer.OwnerSlashRepoPattern | src/components/RepoExplorer.tsx:38 | the anchored `owner/repo` pattern; stated both ways by OwnerSlashRepoPatternMeans |
| RepoExplorer.OwnerSlashRepoPatternMeans | src/components/RepoExplorer.tsx:38 | the anchored pattern matches exactly `owner/repo` with non-empty, slash-free sides |
| RepoExplorer.ParseRepoInput | src/components/RepoExplorer.tsx:32-52 | both names are slash-free, and an empty username comes with an empty repo name |
| RepoExplorer.SearchEnabled | src/components/RepoExplorer.tsx:64 | the search runs exactly when a repo name was parsed |
| RepoExplorer.EmptyInputHasNoTarget | src/components/RepoExplorer.tsx:33 | empty input gives two empty names and no search |
| RepoExplorer.ParseLeftmostHostMatch | src/components/RepoExplorer.tsx:41-48 | the leftmost host match supplies the owner and the repo without `.git` |
| RepoExplorer.HostMatchNeedsTwoSlashes | src/components/RepoExplorer.tsx:37 | an input with a host match holds at least two slashes |
| RepoExplorer.ParseOwnerSlashRepo | src/components/RepoExplorer.tsx:38-48 | `owner/repo` without a host falls through to the second pattern and gives the two names |
| RepoExplorer.OwnerDotGitDisablesSearch | src/components/RepoExplorer.tsx:46 | `owner/.git` gives an empty repo name, so no search runs |
| RepoExplorer.ParseNoMatch | src/components/RepoExplorer.tsx:51 | an input matching neither pattern gives two empty names |
| RepoExplorer.ParseHostPrefixedUrl | src/components/RepoExplorer.tsx:37-48 | any of the six host prefixes followed by `owner/repo` and an optional `/...` tail gives owner and repo without `.git` |
| RepoExplorer.ParsersDisagree | src/components/RepoExplorer.tsx:37-46 | on `github.com/owner/repo/` the URL classifier says invalid while the search box finds the repository; on bare `owner/repo` only the search box finds it |
| RepoExplorer.ParsersAgreeOnRepositoryUrls | src/components/RepoExplorer.tsx:37-46 | on `github.com/owner/repo` both parsers give the same owner and repo |
| FileList.SortedMeans | src/components/FileList.tsx:73-77 | being in comparator order is exactly: directories first, and names ordered within each group |
| FileList.InOrderTotal | src/components/FileList.tsx:73-77 | for a total name order, any two entries are in order one way or the other |
| FileList.InOrderTransitive | src/components/FileList.tsx:73-77 | the comparator order is transitive when the name order is |
| FileList.CompareEntries | src/components/FileList.tsx:73-77 | the sort comparator: directories before everything else, then `localeCompare` on names; stated by SortedMeans, InOrderTotal and InOrderTransitive |
| FileList.SortContents | src/components/FileList.tsx:72-77 | the caller's array is reordered in place into comparator order (directories first, names ordered within groups) and holds the same entries |
| FileList.InsertLast | src/components/FileList.tsx:72-77 | one insertion step extends the sorted prefix by one entry, keeps the entries, and leaves the rest untouched |
| FileList.RowFor | src/components/FileList.tsx:79-139 | one rendered row; its controls are stated by RowControls |
| FileList.View | src/components/FileList.tsx:41-176 | the rendered listing; stated by ViewShape, including that each row is RowFor of its entry |
| FileList.RowControls | src/components/FileList.tsx:86-139 | a row offers its folder download exactly for directories, disabled and spinning exactly while that folder downloads; a preview exactly for type `file` on wide screens; a primary button that is never disabled and downloads exactly the non-directories |
| FileList.ViewShape | src/components/FileList.tsx:41-176 | a spinner exactly while loading; the parent link and the directory download exactly when the path is non-empty, the repository download otherwise; the footer is disabled exactly while downloading; the empty message exactly for no entries; otherwise one row per entry in order, each exactly the row RowFor gives that entry (so RowControls holds of every rendered row) |
| FileList.Render | src/components/FileList.tsx:41-77 | while loading, the spinner and the array is untouched; otherwise the array is sorted in place, keeps its entries, and the listing shows it |
| PreviewLanguages.LanguageOf | src/components/FilePreview.tsx:60-84 | only non-empty lower-case extensions have a language, and never `text` |
| PreviewLanguages.TableEntries | src/components/FilePreview.tsx:61-83 | `js`/`jsx` are javascript, `ts`/`tsx` typescript, `yml`/`yaml` yaml, `py` python, `md` markdown, `sh` bash, `cs` csharp, `rb` ruby, `rs` rust |
| FilePreview.Settle | src/components/FilePreview.tsx:44-52 | an OK response whose body was read loads exactly that text; a non-OK response fails with `Failed to fetch file content`; a rejected fetch or an unreadable body fails with the thrown Error's message, or `Failed to load file` for a non-Error; the text is loaded in no other case |
| FilePreview.HasDownloadUrl | src/components/FilePreview.tsx:24 | `file.download_url` as a condition: present and non-empty; guards BeginFetch and OnOpen |
| FilePreview.ErrorText | src/components/FilePreview.tsx:52 | an Error's own message, otherwise `Failed to load file`; used by Settle's failure cases |
| FilePreview.PreviewState.constructor | src/components/FilePreview.tsx:19-21 | empty content, not loading, no error |
| FilePreview.PreviewState.BeginFetch | src/components/FilePreview.tsx:30-44 | without a download url nothing changes; a binary file gets the placeholder, no error, is not loading and is not fetched; otherwise the url is fetched with `loading` set and the error cleared |
| FilePreview.PreviewState.FinishFetch | src/components/FilePreview.tsx:44-55 | a loaded text becomes the content; a failure sets the error and keeps the content; `loading` is cleared either way |
| FilePreview.PreviewState.FetchFileContent | src/components/FilePreview.tsx:29-56 | a fetch happens exactly for a non-binary file with a download url; `loading` is clear after every exit; a binary file shows the placeholder; otherwise the outcome sets the content or the error |
| FilePreview.PreviewState.OnOpen | src/components/FilePreview.tsx:23-27 | nothing happens unless the dialog is open and the file has a download url; then loading ends with a fetch exactly for non-binary files, a binary file gets the placeholder, and a fetched outcome sets the content or the error |
| FilePreview.LanguageFromExtension | src/components/FilePreview.tsx:58-87 | the label is `text` exactly when the extension is not in the table, and otherwise the table's language |
| FilePreview.UpperCaseExtensionIsText | src/components/FilePreview.tsx:86 | an extension with an upper-case letter is labelled `text` |
| FilePreview.TsxIsTypeScript | src/components/FilePreview.tsx:64 | `App.tsx` is labelled typescript |
| FilePreview.LanguageIsCaseSensitive | src/components/FilePreview.tsx:59-86 | `App.TSX` is labelled `text`, while the binary test ignores case for `logo.PNG` |
| FilePreview.PngIsBinary | src/components/FilePreview.tsx:36-38 | `logo.PNG` and `logo.png` are both classified binary |
| FilePreview.NoExtensionIsText | src/components/FilePreview.tsx:86 | names without a dot, dot-files and names ending in a dot are labelled `text` |
| FilePreview.SizeKb | src/components/FilePreview.tsx:98 | the shown kilobytes are the integer nearest to size/1024, halves rounded up |
| FilePreview.View | src/components/FilePreview.tsx:89-149 | nothing is shown exactly when the dialog is closed; the header shows the file name and the rounded size; the loading message shows exactly while loading; otherwise a non-empty error shows as the error pane with that message; otherwise the code pane shows the content with the file's language |
| FilePreview.PreviewAfterOpen | src/components/FilePreview.tsx:23-149 | starting from the initial state and opening the dialog: an OK response shows its text labelled with the language; a non-OK response shows `Failed to fetch file content`; a rejected fetch shows its message; a binary file shows the placeholder |
| RecentDownloads.WithoutId | src/components/RecentDownloads.tsx:30 | the kept records are exactly the stored ones with another id, and there are no more of them |
| RecentDownloads.WithoutIdAppend | src/components/RecentDownloads.tsx:30 | removing from a concatenation removes from each part, so the kept records keep their order |
| RecentDownloads.WithoutIdCounts | src/components/RecentDownloads.tsx:30 | each record with another id is kept as many times as it was stored, and those with the id are gone |
| RecentDownloads.WithoutAbsentId | src/components/RecentDownloads.tsx:30 | removing an id that no record has changes nothing |
| RecentDownloads.WithoutIdIdempotent | src/components/RecentDownloads.tsx:30 | removing the same id twice is the same as removing it once |
| RecentDownloads.WithoutIdCommutes | src/components/RecentDownloads.tsx:30 | removing two ids gives the same list in either order |
| RecentDownloads.Shown | src/components/RecentDownloads.tsx:68 | the panel shows a prefix of the stored list, five records or all of them when there are fewer |
| RecentDownloads.LastSegment | src/components/RecentDownloads.tsx:72 | the last segment is slash-free, ends the path, and is preceded by a `/` when shorter than the path |
| RecentDownloads.LastSegmentOfJoin | src/components/RecentDownloads.tsx:72 | the last segment of `dir/name` is `name` |
| RecentDownloads.DisplayName | src/components/RecentDownloads.tsx:69-73 | the record's own name wins when non-empty; otherwise a repository shows the parsed repo (missing when null), a file the last segment of the parsed path (missing when there is none), and a directory the parsed path when non-empty and `Unknown` when it is null or empty |
| RecentDownloads.Subtitle | src/components/RecentDownloads.tsx:94 | `owner/repo`, then `/path` only for a non-empty path; stated by the RecordEntry lemmas, PathSubtitle and InvalidUrlSubtitle |
| RecentDownloads.EntryFor | src/components/RecentDownloads.tsx:69-94 | the shown display name and subtitle of one record; the panel View renders exactly this for each shown record |
| RecentDownloads.RepositoryRecordEntry | src/components/RecentDownloads.tsx:69-94 | an unnamed repository record shows the repo without `.git` and the subtitle `owner/repo` |
| RecentDownloads.FileRecordEntry | src/components/RecentDownloads.tsx:69-94 | an unnamed file record under `blob` or `raw` shows the last path segment and the subtitle `owner/repo/path` |
| RecentDownloads.ContentRecordEntry | src/components/RecentDownloads.tsx:72-94 | a file record whose url has a non-empty path shows its last segment and the full path |
| RecentDownloads.DirectoryRecordEntry | src/components/RecentDownloads.tsx:69-94 | an unnamed directory record with a non-empty path shows the whole path and the subtitle `owner/repo/path` |
| RecentDownloads.DirectoryInfoEntry | src/components/RecentDownloads.tsx:73-94 | a directory record whose url has a non-empty path shows that path |
| RecentDownloads.BranchRootRecordEntry | src/components/RecentDownloads.tsx:73-94 | an unnamed directory record at a branch root shows `Unknown` and the subtitle `owner/repo` with no path |
| RecentDownloads.InvalidUrlSubtitle | src/components/RecentDownloads.tsx:94 | a record whose url lacks `github.com` has the subtitle `/` |
| RecentDownloads.RecentDownloadsPanel.constructor | src/components/RecentDownloads.tsx:18-19 | the stored list is loaded and `isEmpty` starts true |
| RecentDownloads.RecentDownloadsPanel.SyncEmptyFlag | src/components/RecentDownloads.tsx:21-23 | `isEmpty` becomes true exactly when the list is empty; the list is unchanged |
| RecentDownloads.RecentDownloadsPanel.HandleClear | src/components/RecentDownloads.tsx:25-27 | the list becomes empty |
| RecentDownloads.RecentDownloadsPanel.HandleRemove | src/components/RecentDownloads.tsx:29-31 | exactly the records with another id remain, in order and with their multiplicities |
| RecentDownloads.RecentDownloadsPanel.ClickRow | src/components/RecentDownloads.tsx:99-106 | the row's download button changes nothing; its remove button drops every record with that row's id |
| RecentDownloads.RecentDownloadsPanel.View | src/components/RecentDownloads.tsx:33-94 | the empty card exactly while `isEmpty`; otherwise at most five entries, the first stored records in order, each shown with the display name and subtitle EntryFor gives it |
| RecentDownloads.ClearThenSync | src/components/RecentDownloads.tsx:21-27 | clearing and then running the effect leaves an empty list, `isEmpty` set and the empty card shown |
| RecentDownloadItem.View | src/components/RecentDownloadItem.tsx:20-45 | the item shows the same display name and subtitle as the panel's row; the download button is disabled and spinning exactly while downloading |
| RecentDownloadItem.Click | src/components/RecentDownloadItem.tsx:44-67 | download passes the item unchanged, and only when not disabled; remove passes exactly the item's id |
| RecentDownloadItem.RemoveClickDropsItem | src/components/RecentDownloadItem.tsx:67 | the id passed by remove drops the item and keeps every record with another id |

## Left out

- GitHubUtils.GetFileExtension: the dot-free result is stated only for names of at most 2^32 characters. Beyond that, `>>> 0` can wrap the slice start back before the last dot; no JavaScript string is that long.
- GitHubUtils.FormatNumber: the one-decimal digits that `toFixed(1)` prints after a floating-point division are a parameter. Only the suffix and the exact branch below a thousand are stated.
- GitHubUtils.ParseGitHubUrl: the `catch` branch is not modelled as a path. None of the string operations it guards can throw on a string input.
- `formatDate` is not modelled: it depends on `Date` parsing and `Intl` locale output.
- Text.ToLower: lowers ASCII letters only. Unicode case mapping is not modelled.
- PreviewLanguages.LanguageOf: the table is a finite function. Keys inherited from `Object.prototype` (such as `constructor`), which a plain JavaScript object lookup would find, are not modelled.
- FileList.SortContents: `localeCompare` is a parameter that is only required to order names totally and transitively; collation rules are not modelled. Stability of the engine's sort (the order of entries that compare equal) is not stated.
- FileList.Render: the `isMobile` hook and the per-folder download flags are inputs. The callbacks are represented by the actions the buttons would invoke.
- FileList.RowFor: the per-folder flags are a finite map in which a missing key is falsy. A folder path such as `constructor` or `toString`, which a plain JavaScript object lookup finds on `Object.prototype` and reads as truthy, is not modelled.
- FilePreview.PreviewState.FetchFileContent: `fetch` and `response.text()` are an input outcome (a rejection, or a response with its `ok` flag and a body that reads or fails). The interleaving of several overlapping fetches is not modelled, only one begin/finish pair.
- FilePreview.View: the header buttons (download, external link, close) only forward callbacks and are not modelled.
- React state hooks, effects and re-rendering, the 500 ms debounce of the search box, react-query caching and the repository search request (`searchRepo`), and `useLocalStorage` persistence are not modelled. The effects that update state are methods called explicitly (`SyncEmptyFlag`, `OnOpen`).
- The network hooks in `src/hooks/useGitHubApi.tsx` are not modelled. Only the directory entry record they return is used, without its `url`, `html_url`, `git_url`, `content` and `encoding` fields, which none of the modelled logic reads.
- The recursive folder-to-zip download, the archive builder, the download coordinator and the history cap are not modelled: the source files modelled here contain no such code.
- Presentational components and configuration (navigation bar, footer, theme toggle, guide and about pages, FAQ, search box shell, breadcrumbs, repository card, SEO head, routing, `next.config.js`) are not modelled: they hold no decision logic.
