/**
 * The URL and file-name helpers shared by the components: the GitHub URL
 * classifier, file-extension extraction, the binary-extension test and the
 * star/fork count formatter.
 */
module GitHubUtils {
  import opened Wrappers
  import opened Text

  datatype UrlKind = Repository | Directory | File | Invalid

  /** The classifier's result; `None` stands for the source's `null`. */
  datatype GitHubUrlInfo = GitHubUrlInfo(owner: Option<string>, repo: Option<string>, path: Option<string>, kind: UrlKind)

  const InvalidUrl := GitHubUrlInfo(None, None, None, Invalid)

  // ---------------------------------------------------------------------------
  // URL classification
  // ---------------------------------------------------------------------------

  /** The optional `https?:\/\/` group of the host pattern. */
  datatype Scheme = NoScheme | Http | Https

  function SchemeText(scheme: Scheme): string {
    match scheme
    case NoScheme => ""
    case Http => "http://"
    case Https => "https://"
  }

  /** The optional `www\.` group of the host pattern. */
  function WwwText(www: bool): string {
    if www then "www." else ""
  }

  /** The six texts `^(https?:\/\/)?(www\.)?github\.com\/` can match. */
  function HostPrefix(scheme: Scheme, www: bool): string {
    SchemeText(scheme) + WwwText(www) + "github.com/"
  }

  function DropScheme(url: string): string {
    if "https://" <= url then url[8..]
    else if "http://" <= url then url[7..]
    else url
  }

  function DropWww(s: string): string {
    if "www." <= s then s[4..] else s
  }

  /**
   * Removing the anchored host prefix (scheme, `www.`, `github.com/`). The pattern is
   * anchored and its optional groups never need to backtrack (a url that starts
   * with a scheme cannot also start with `www.` or `github.com/`), so the match
   * is: drop a scheme, then `www.`, then require `github.com/`; when that last
   * step fails nothing is replaced at all.
   */
  function StripHostPrefix(url: string): string {
    var afterWww := DropWww(DropScheme(url));
    if "github.com/" <= afterWww then afterWww[11..] else url
  }

  lemma SchemeOf(url: string) returns (scheme: Scheme)
    ensures url == SchemeText(scheme) + DropScheme(url)
  {
    if "https://" <= url {
      scheme := Https;
      assert url == url[..8] + url[8..];
    } else if "http://" <= url {
      scheme := Http;
      assert url == url[..7] + url[7..];
    } else {
      scheme := NoScheme;
    }
  }

  lemma WwwOf(s: string) returns (www: bool)
    ensures s == WwwText(www) + DropWww(s)
  {
    www := "www." <= s;
    if www {
      assert s == s[..4] + s[4..];
    }
  }

  lemma DropSchemeOf(scheme: Scheme, rest: string)
    requires |rest| > 0 && (rest[0] == 'w' || rest[0] == 'g')
    ensures DropScheme(SchemeText(scheme) + rest) == rest
  {
    var url := SchemeText(scheme) + rest;
    match scheme
    case Https =>
      assert url[..8] == "https://";
    case Http =>
      assert !("https://" <= url) by { assert url[4] == ':'; }
      assert url[..7] == "http://";
    case NoScheme =>
      assert !("https://" <= url) && !("http://" <= url) by { assert url[0] == rest[0]; }
  }

  lemma DropWwwOf(www: bool, rest: string)
    requires |rest| > 0 && rest[0] == 'g'
    ensures DropWww(WwwText(www) + rest) == rest
  {
    var s := WwwText(www) + rest;
    if www {
      assert s[..4] == "www.";
    } else {
      assert !("www." <= s) by { assert s[0] == 'g'; }
    }
  }

  /** Whichever of the six host prefixes starts the url, exactly that prefix is removed. */
  lemma StripHostPrefixRemoves(scheme: Scheme, www: bool, rest: string)
    ensures StripHostPrefix(HostPrefix(scheme, www) + rest) == rest
  {
    var g := "github.com/" + rest;
    HostPrefixText(SchemeText(scheme), WwwText(www), rest);
    DropToGitHub(scheme, www, g);
    assert g[..11] == "github.com/";
    assert g[11..] == rest;
  }

  /** Dropping the scheme and then `www.` from a host prefix leaves the text from `github.com/` on. */
  lemma DropToGitHub(scheme: Scheme, www: bool, g: string)
    requires |g| > 0 && g[0] == 'g'
    ensures DropWww(DropScheme(SchemeText(scheme) + (WwwText(www) + g))) == g
  {
    var w := WwwText(www) + g;
    assert w[0] == 'w' || w[0] == 'g';
    DropSchemeOf(scheme, w);
    DropWwwOf(www, g);
  }

  /** Whatever the strip removes is one of the six host prefixes. */
  lemma StripHostPrefixCases(url: string) returns (scheme: Scheme, www: bool)
    ensures StripHostPrefix(url) == url || url == HostPrefix(scheme, www) + StripHostPrefix(url)
  {
    scheme := SchemeOf(url);
    www := WwwOf(DropScheme(url));
    if "github.com/" <= DropWww(DropScheme(url)) {
      StripOnGitHub(url);
      Reassemble(url, SchemeText(scheme), DropScheme(url), WwwText(www), DropWww(DropScheme(url)), StripHostPrefix(url));
    }
  }

  /** Once scheme and `www.` are dropped, a remaining `github.com/` is what the strip removes. */
  lemma StripOnGitHub(url: string)
    requires "github.com/" <= DropWww(DropScheme(url))
    ensures DropWww(DropScheme(url)) == "github.com/" + StripHostPrefix(url)
  {
    var rest := DropWww(DropScheme(url));
    assert rest == rest[..11] + rest[11..];
  }

  lemma Reassemble(url: string, scheme: string, afterScheme: string, www: string, afterWww: string, tail: string)
    requires url == scheme + afterScheme && afterScheme == www + afterWww && afterWww == "github.com/" + tail
    ensures url == scheme + www + "github.com/" + tail
  {
  }

  lemma HostPrefixText(scheme: string, www: string, tail: string)
    ensures scheme + (www + ("github.com/" + tail)) == scheme + www + "github.com/" + tail
  {
  }

  /** When no host prefix starts the url, the url is left as it is. */
  lemma StripHostPrefixKeeps(url: string)
    requires forall scheme, www :: !(HostPrefix(scheme, www) <= url)
    ensures StripHostPrefix(url) == url
  {
    var scheme, www := StripHostPrefixCases(url);
  }

  /**
   * One trailing `.git` is removed from the repository name; any other name is
   * kept as it is.
   */
  function TrimGitSuffix(repo: string): (r: string)
    ensures r <= repo
    ensures EndsWith(repo, ".git") ==> repo == r + ".git"
    ensures !EndsWith(repo, ".git") ==> r == repo
  {
    if EndsWith(repo, ".git") then repo[..|repo| - 4] else repo
  }

  /** Exactly one `.git` is removed: `x.git.git` becomes `x.git`. */
  lemma TrimGitSuffixOnce(r: string)
    ensures TrimGitSuffix(r + ".git") == r
  {
    assert (r + ".git")[|r|..] == ".git";
  }

  /** The `/`-separated segments left after the host prefix is removed. */
  function Segments(url: string): seq<string> {
    Split(StripHostPrefix(url), '/')
  }

  /**
   * The classification `parseGitHubUrl` applies once the url mentions
   * `github.com`: the first segment is the owner and the second the repo; two
   * segments name a repository; four or more whose third is `blob`, `tree` or
   * `raw` name a file or directory whose path is the fifth segment onwards (the
   * fourth, the branch, is dropped); every other shape is invalid with owner
   * and repo filled in, and fewer than two segments is invalid with nothing.
   */
  function ClassifySegments(parts: seq<string>): (info: GitHubUrlInfo)
    requires forall k :: 0 <= k < |parts| ==> '/' !in parts[k]
    ensures info.owner.None? <==> info.repo.None?
    ensures info.owner.None? ==> info == InvalidUrl
    ensures info.kind != Invalid ==> info.owner.Some?
    ensures info.path.Some? <==> info.kind == Directory || info.kind == File
    ensures info.owner.Some? ==>
              && '/' !in info.owner.value && '/' !in info.repo.value
              && info.owner.value + "/" + info.repo.value <= Join(parts, '/')
    ensures info.path.Some? ==> EndsWith(Join(parts, '/'), info.path.value)
    ensures |parts| >= 2 ==> info.owner == Some(parts[0]) && info.repo == Some(TrimGitSuffix(parts[1]))
    ensures info.kind == Repository <==> |parts| == 2
    ensures info.kind == Directory <==> |parts| >= 4 && parts[2] == "tree"
    ensures info.kind == File <==> |parts| >= 4 && (parts[2] == "blob" || parts[2] == "raw")
    ensures info.path.Some? ==> |parts| >= 4 && info.path.value == Join(parts[4..], '/')
  {
    if |parts| < 2 then InvalidUrl
    else
      var owner := parts[0];
      var repo := TrimGitSuffix(parts[1]);
      JoinHead(parts, '/');
      if |parts| == 2 then
        GitHubUrlInfo(Some(owner), Some(repo), None, Repository)
      else if |parts| >= 4 && (parts[2] == "blob" || parts[2] == "tree") then
        JoinTail(parts, 4, '/');
        GitHubUrlInfo(Some(owner), Some(repo), Some(Join(parts[4..], '/')),
                      if parts[2] == "blob" then File else Directory)
      else if |parts| >= 4 && parts[2] == "raw" then
        JoinTail(parts, 4, '/');
        GitHubUrlInfo(Some(owner), Some(repo), Some(Join(parts[4..], '/')), File)
      else
        GitHubUrlInfo(Some(owner), Some(repo), None, Invalid)
  }

  /**
   * `parseGitHubUrl`: a url without `github.com` is invalid with every field
   * null; otherwise its segments after the host prefix are classified. Owner
   * and repo are whole segments read left to right from the stripped url, and
   * the path is a tail of it. The `try`/`catch` has no path to its handler for
   * a string argument.
   */
  function ParseGitHubUrl(url: string): (info: GitHubUrlInfo)
    ensures !Contains(url, "github.com") ==> info == InvalidUrl
    ensures info.owner.None? <==> info.repo.None?
    ensures info.owner.None? ==> info == InvalidUrl
    ensures info.kind != Invalid ==> info.owner.Some?
    ensures info.path.Some? <==> info.kind == Directory || info.kind == File
    ensures info.owner.Some? ==>
              && '/' !in info.owner.value && '/' !in info.repo.value
              && info.owner.value + "/" + info.repo.value <= StripHostPrefix(url)
    ensures info.path.Some? ==> EndsWith(StripHostPrefix(url), info.path.value)
    ensures Contains(url, "github.com") && |Segments(url)| >= 2 ==>
              info.owner == Some(Segments(url)[0]) && info.repo == Some(TrimGitSuffix(Segments(url)[1]))
    ensures info.kind == Repository <==> Contains(url, "github.com") && |Segments(url)| == 2
    ensures info.kind == Directory <==>
              Contains(url, "github.com") && |Segments(url)| >= 4 && Segments(url)[2] == "tree"
    ensures info.kind == File <==>
              Contains(url, "github.com") && |Segments(url)| >= 4 && (Segments(url)[2] == "blob" || Segments(url)[2] == "raw")
    ensures info.path.Some? ==> |Segments(url)| >= 4 && info.path.value == Join(Segments(url)[4..], '/')
  {
    if !Contains(url, "github.com") then InvalidUrl
    else ClassifySegments(Segments(url))
  }

  /** The join of two or more pieces starts with the first two and a separator between them. */
  lemma JoinHead(parts: seq<string>, sep: char)
    requires |parts| >= 2
    ensures parts[0] + [sep] + parts[1] <= Join(parts, sep)
  {
    if |parts| > 2 {
      assert Join(parts[1..], sep) == parts[1] + [sep] + Join(parts[2..], sep);
    }
  }

  /** The join of a tail of the pieces is a suffix of the join of all of them. */
  lemma {:induction false} JoinTail(parts: seq<string>, k: nat, sep: char)
    requires 1 <= k <= |parts|
    ensures EndsWith(Join(parts, sep), Join(parts[k..], sep))
  {
    if k == |parts| {
      assert Join(parts[k..], sep) == "";
    } else if k > 1 {
      JoinTail(parts[1..], k - 1, sep);
      assert parts[1..][k - 1..] == parts[k..];
    }
  }

  /** A url under a host prefix mentions `github.com`, and stripping leaves what follows the prefix. */
  lemma HostPrefixMentionsGitHub(scheme: Scheme, www: bool, rest: string)
    ensures Contains(HostPrefix(scheme, www) + rest, "github.com")
    ensures StripHostPrefix(HostPrefix(scheme, www) + rest) == rest
  {
    var p := HostPrefix(scheme, www);
    var url := p + rest;
    assert url[|p| - 11..|p| - 1] == "github.com";
    assert OccursAt(url, "github.com", |p| - 11);
    StripHostPrefixRemoves(scheme, www, rest);
  }

  /** Fewer than two segments (no `/` after the host prefix) is invalid with every field null. */
  lemma ParseSingleSegment(url: string)
    requires '/' !in StripHostPrefix(url)
    ensures ParseGitHubUrl(url) == InvalidUrl
  {
    SplitSingle(StripHostPrefix(url), '/');
  }

  /** `github.com/owner/repo`, under any host prefix, is a repository with no path. */
  lemma ParseRepositoryUrl(scheme: Scheme, www: bool, owner: string, repo: string)
    requires '/' !in owner && '/' !in repo
    ensures ParseGitHubUrl(HostPrefix(scheme, www) + owner + "/" + repo)
              == GitHubUrlInfo(Some(owner), Some(TrimGitSuffix(repo)), None, Repository)
  {
    var rest := owner + ['/'] + repo;
    assert HostPrefix(scheme, www) + owner + "/" + repo == HostPrefix(scheme, www) + rest;
    ParseUnderHostPrefix(scheme, www, rest);
    TwoSegments(owner, repo);
    ClassifyRepository(Split(rest, '/'));
  }

  /** Exactly two segments name a repository: the owner as it is, the repo without `.git`. */
  lemma ClassifyRepository(parts: seq<string>)
    requires forall k :: 0 <= k < |parts| ==> '/' !in parts[k]
    requires |parts| == 2
    ensures ClassifySegments(parts) == GitHubUrlInfo(Some(parts[0]), Some(TrimGitSuffix(parts[1])), None, Repository)
  {
  }

  /** The segments of `owner/repo` are the two names. */
  lemma TwoSegments(owner: string, repo: string)
    requires '/' !in owner && '/' !in repo
    ensures var parts := Split(owner + ['/'] + repo, '/');
            |parts| == 2 && parts[0] == owner && parts[1] == repo
  {
    SplitCons(owner, repo, '/');
    SplitSingle(repo, '/');
  }

  /** A url under a host prefix is parsed by classifying the segments of what follows the prefix. */
  lemma ParseUnderHostPrefix(scheme: Scheme, www: bool, rest: string)
    ensures ParseGitHubUrl(HostPrefix(scheme, www) + rest) == ClassifySegments(Split(rest, '/'))
  {
    HostPrefixMentionsGitHub(scheme, www, rest);
  }

  /**
   * Three segments (`github.com/owner/repo/issues`, say) name nothing the
   * classifier knows: invalid, but owner and repo are kept.
   */
  lemma ParseThreeSegmentUrl(scheme: Scheme, www: bool, owner: string, repo: string, page: string)
    requires '/' !in owner && '/' !in repo && '/' !in page
    ensures ParseGitHubUrl(HostPrefix(scheme, www) + owner + "/" + repo + "/" + page)
              == GitHubUrlInfo(Some(owner), Some(TrimGitSuffix(repo)), None, Invalid)
  {
    var rest := owner + ['/'] + (repo + ['/'] + page);
    ThreeSegmentText(HostPrefix(scheme, www), owner, repo, page);
    ParseUnderHostPrefix(scheme, www, rest);
    ThreeSegments(owner, repo, page);
    ClassifyOtherShape([owner, repo, page]);
  }

  /** Regrouping the text of a three-segment url so that it splits segment by segment. */
  lemma ThreeSegmentText(h: string, a: string, b: string, c: string)
    ensures h + a + "/" + b + "/" + c == h + (a + ['/'] + (b + ['/'] + c))
  {
  }

  /** A trailing slash after the repo makes a third, empty segment: invalid, but owner and repo are kept. */
  lemma ParseTrailingSlash(scheme: Scheme, www: bool, owner: string, repo: string)
    requires '/' !in owner && '/' !in repo
    ensures ParseGitHubUrl(HostPrefix(scheme, www) + owner + "/" + repo + "/")
              == GitHubUrlInfo(Some(owner), Some(TrimGitSuffix(repo)), None, Invalid)
  {
    ParseThreeSegmentUrl(scheme, www, owner, repo, "");
    assert HostPrefix(scheme, www) + owner + "/" + repo + "/" + "" == HostPrefix(scheme, www) + owner + "/" + repo + "/";
  }

  /** The segments of `owner/repo/page` are exactly those three names. */
  lemma ThreeSegments(owner: string, repo: string, page: string)
    requires '/' !in owner && '/' !in repo && '/' !in page
    ensures Split(owner + ['/'] + (repo + ['/'] + page), '/') == [owner, repo, page]
  {
    var t1 := repo + ['/'] + page;
    SplitCons(repo, page, '/');
    SplitCons(owner, t1, '/');
    SplitSingle(page, '/');
    var parts := Split(owner + ['/'] + t1, '/');
    assert parts[1..] == Split(t1, '/');
  }

  /**
   * Any other shape of two or more segments — three segments, or four or
   * more whose third is not a content marker — is invalid with owner and
   * repo filled in and no path.
   */
  lemma ClassifyOtherShape(parts: seq<string>)
    requires forall k :: 0 <= k < |parts| ==> '/' !in parts[k]
    requires |parts| == 3 || (|parts| >= 4 && !IsContentMarker(parts[2]))
    ensures ClassifySegments(parts) == GitHubUrlInfo(Some(parts[0]), Some(TrimGitSuffix(parts[1])), None, Invalid)
  {
  }

  /** The same, for a url under any host prefix. */
  lemma ParseOtherShape(scheme: Scheme, www: bool, rest: string)
    requires |Split(rest, '/')| == 3 || (|Split(rest, '/')| >= 4 && !IsContentMarker(Split(rest, '/')[2]))
    ensures ParseGitHubUrl(HostPrefix(scheme, www) + rest)
              == GitHubUrlInfo(Some(Split(rest, '/')[0]), Some(TrimGitSuffix(Split(rest, '/')[1])), None, Invalid)
  {
    ParseUnderHostPrefix(scheme, www, rest);
    ClassifyOtherShape(Split(rest, '/'));
  }

  /**
   * Four segments whose third is not a content marker
   * (`github.com/owner/repo/pull/1`, say) are invalid with owner and repo kept.
   */
  lemma ParseFourSegmentOther(scheme: Scheme, www: bool, owner: string, repo: string, page: string, id: string)
    requires '/' !in owner && '/' !in repo && '/' !in page && '/' !in id
    requires !IsContentMarker(page)
    ensures ParseGitHubUrl(HostPrefix(scheme, www) + owner + "/" + repo + "/" + page + "/" + id)
              == GitHubUrlInfo(Some(owner), Some(TrimGitSuffix(repo)), None, Invalid)
  {
    var rest := owner + ['/'] + (repo + ['/'] + (page + ['/'] + id));
    FourSegmentText(HostPrefix(scheme, www), owner, repo, page, id);
    ParseUnderHostPrefix(scheme, www, rest);
    BranchOnlySegments(owner, repo, page, id);
    ClassifyOtherShape(Split(rest, '/'));
  }

  /** The segment that decides between file and directory. */
  predicate IsContentMarker(marker: string) {
    marker == "blob" || marker == "tree" || marker == "raw"
  }

  /**
   * `github.com/owner/repo/{blob,tree,raw}/branch/path`: the path comes back
   * whole (slashes included), the branch is dropped, and `tree` names a
   * directory while `blob` and `raw` name a file.
   */
  lemma ParseContentUrl(scheme: Scheme, www: bool, owner: string, repo: string, marker: string, branch: string, path: string)
    requires '/' !in owner && '/' !in repo && '/' !in branch
    requires IsContentMarker(marker)
    ensures ParseGitHubUrl(HostPrefix(scheme, www) + owner + "/" + repo + "/" + marker + "/" + branch + "/" + path)
              == GitHubUrlInfo(Some(owner), Some(TrimGitSuffix(repo)), Some(path),
                               if marker == "tree" then Directory else File)
  {
    var rest := owner + ['/'] + (repo + ['/'] + (marker + ['/'] + (branch + ['/'] + path)));
    FiveSegmentText(HostPrefix(scheme, www), owner, repo, marker, branch, path);
    ParseUnderHostPrefix(scheme, www, rest);
    ClassifyContentRest(owner, repo, marker, branch, path);
  }

  /** Regrouping the text of a five-segment url so that it splits segment by segment. */
  lemma FiveSegmentText(h: string, a: string, b: string, c: string, d: string, e: string)
    ensures h + a + "/" + b + "/" + c + "/" + d + "/" + e
         == h + (a + ['/'] + (b + ['/'] + (c + ['/'] + (d + ['/'] + e))))
  {
  }

  lemma ClassifyContentRest(owner: string, repo: string, marker: string, branch: string, path: string)
    requires '/' !in owner && '/' !in repo && '/' !in branch
    requires IsContentMarker(marker)
    ensures ClassifySegments(Split(owner + ['/'] + (repo + ['/'] + (marker + ['/'] + (branch + ['/'] + path))), '/'))
              == GitHubUrlInfo(Some(owner), Some(TrimGitSuffix(repo)), Some(path),
                               if marker == "tree" then Directory else File)
  {
    assert '/' !in marker;
    ContentSegments(owner, repo, marker, branch, path);
    ClassifyContent(Split(owner + ['/'] + (repo + ['/'] + (marker + ['/'] + (branch + ['/'] + path))), '/'));
  }

  /** Four or more segments with a content marker third: the path is the join from the fifth on. */
  lemma ClassifyContent(parts: seq<string>)
    requires forall k :: 0 <= k < |parts| ==> '/' !in parts[k]
    requires |parts| >= 4 && IsContentMarker(parts[2])
    ensures ClassifySegments(parts)
              == GitHubUrlInfo(Some(parts[0]), Some(TrimGitSuffix(parts[1])), Some(Join(parts[4..], '/')),
                               if parts[2] == "tree" then Directory else File)
  {
  }

  /** The segments of `owner/repo/marker/branch/path` are the four names and then those of the path. */
  lemma ContentSegments(owner: string, repo: string, marker: string, branch: string, path: string)
    requires '/' !in owner && '/' !in repo && '/' !in marker && '/' !in branch
    ensures var parts := Split(owner + ['/'] + (repo + ['/'] + (marker + ['/'] + (branch + ['/'] + path))), '/');
            && |parts| >= 4
            && parts[0] == owner && parts[1] == repo && parts[2] == marker && parts[3] == branch
            && parts[4..] == Split(path, '/')
  {
    var t3 := branch + ['/'] + path;
    var t2 := marker + ['/'] + t3;
    var t1 := repo + ['/'] + t2;
    SplitCons(branch, path, '/');
    SplitCons(marker, t3, '/');
    SplitCons(repo, t2, '/');
    SplitCons(owner, t1, '/');
    PeelSegments(Split(owner + ['/'] + t1, '/'), Split(t1, '/'), Split(t2, '/'), Split(t3, '/'), Split(path, '/'));
  }

  /** Four single-segment peels in a row leave the fifth segment onwards. */
  lemma PeelSegments(s0: seq<string>, s1: seq<string>, s2: seq<string>, s3: seq<string>, s4: seq<string>)
    requires |s0| > 0 && s0[1..] == s1 && |s1| > 0 && s1[1..] == s2 && |s2| > 0 && s2[1..] == s3 && |s3| > 0 && s3[1..] == s4
    ensures |s0| >= 4 && s0[1] == s1[0] && s0[2] == s2[0] && s0[3] == s3[0] && s0[4..] == s4
  {
  }

  /** With exactly four segments the path is the empty string, not null. */
  lemma ParseBranchOnlyUrl(scheme: Scheme, www: bool, owner: string, repo: string, marker: string, branch: string)
    requires '/' !in owner && '/' !in repo && '/' !in branch
    requires IsContentMarker(marker)
    ensures ParseGitHubUrl(HostPrefix(scheme, www) + owner + "/" + repo + "/" + marker + "/" + branch)
              == GitHubUrlInfo(Some(owner), Some(TrimGitSuffix(repo)), Some(""),
                               if marker == "tree" then Directory else File)
  {
    var rest := owner + ['/'] + (repo + ['/'] + (marker + ['/'] + branch));
    FourSegmentText(HostPrefix(scheme, www), owner, repo, marker, branch);
    ParseUnderHostPrefix(scheme, www, rest);
    ClassifyBranchOnlyRest(owner, repo, marker, branch);
  }

  lemma FourSegmentText(h: string, a: string, b: string, c: string, d: string)
    ensures h + a + "/" + b + "/" + c + "/" + d == h + (a + ['/'] + (b + ['/'] + (c + ['/'] + d)))
  {
  }

  lemma ClassifyBranchOnlyRest(owner: string, repo: string, marker: string, branch: string)
    requires '/' !in owner && '/' !in repo && '/' !in branch
    requires IsContentMarker(marker)
    ensures ClassifySegments(Split(owner + ['/'] + (repo + ['/'] + (marker + ['/'] + branch)), '/'))
              == GitHubUrlInfo(Some(owner), Some(TrimGitSuffix(repo)), Some(""),
                               if marker == "tree" then Directory else File)
  {
    assert '/' !in marker;
    var parts := Split(owner + ['/'] + (repo + ['/'] + (marker + ['/'] + branch)), '/');
    BranchOnlySegments(owner, repo, marker, branch);
    assert parts[4..] == [];
    ClassifyContent(parts);
  }

  /** The segments of `owner/repo/marker/branch` are exactly those four names. */
  lemma BranchOnlySegments(owner: string, repo: string, marker: string, branch: string)
    requires '/' !in owner && '/' !in repo && '/' !in marker && '/' !in branch
    ensures var parts := Split(owner + ['/'] + (repo + ['/'] + (marker + ['/'] + branch)), '/');
            && |parts| == 4
            && parts[0] == owner && parts[1] == repo && parts[2] == marker && parts[3] == branch
  {
    var t2 := marker + ['/'] + branch;
    var t1 := repo + ['/'] + t2;
    SplitCons(marker, branch, '/');
    SplitCons(repo, t2, '/');
    SplitCons(owner, t1, '/');
    SplitSingle(branch, '/');
    PeelSegments3(Split(owner + ['/'] + t1, '/'), Split(t1, '/'), Split(t2, '/'), Split(branch, '/'));
  }

  /** Three single-segment peels in a row leave the fourth segment onwards. */
  lemma PeelSegments3(s0: seq<string>, s1: seq<string>, s2: seq<string>, s3: seq<string>)
    requires |s0| > 0 && s0[1..] == s1 && |s1| > 0 && s1[1..] == s2 && |s2| > 0 && s2[1..] == s3
    ensures |s0| == |s3| + 3 && s0[1] == s1[0] && s0[2] == s2[0] && s0[3..] == s3
  {
  }

  // ---------------------------------------------------------------------------
  // File extensions
  // ---------------------------------------------------------------------------

  const TwoToThe32: int := 0x1_0000_0000

  /** `x >>> 0`: `x` read as an unsigned 32-bit integer. */
  function UnsignedShiftZero(x: int): (r: nat)
    ensures r < TwoToThe32
    ensures 0 <= x < TwoToThe32 ==> r == x
    ensures -TwoToThe32 <= x < 0 ==> r == x + TwoToThe32
  {
    var m: int := x % TwoToThe32;
    m
  }

  /** `s.slice(start)` for a non-negative start: empty once the start is past the end. */
  function SliceFrom(s: string, start: nat): string {
    if start >= |s| then "" else s[start..]
  }

  /**
   * `getFileExtension`: slice the name from the unsigned 32-bit value of
   * (last dot index - 1), plus 2.
   * With a dot at index 1 or later the start is just after the last dot; with
   * no dot (-1) or a dot only at index 0, the shift wraps to 2^32 - 2 or
   * 2^32 - 1 and the start lies past the end of any shorter name. Names
   * longer than 2^32 characters, which no JavaScript engine can hold, could
   * wrap the start back before the last dot.
   */
  function GetFileExtension(filename: string): (ext: string)
    ensures EndsWith(filename, ext)
    ensures |filename| <= TwoToThe32 ==> '.' !in ext
  {
    var last := LastIndexOf(filename, '.');
    var start := UnsignedShiftZero(last - 1) + 2;
    if start >= |filename| then ""
    else
      assert |filename| <= TwoToThe32 ==> start > last by {
        if last < 1 {
          assert UnsignedShiftZero(last - 1) == last - 1 + TwoToThe32;
        }
      }
      assert filename[start..] == filename[|filename| - |filename[start..]|..];
      SliceFrom(filename, start)
  }

  /** The longest dot-free suffix of `s`, read from the right: a reference for the extension. */
  function DotFreeTail(s: string): string {
    if |s| == 0 || s[|s| - 1] == '.' then "" else DotFreeTail(s[..|s| - 1]) + [s[|s| - 1]]
  }

  lemma {:induction false} DotFreeTailAfterLastDot(s: string)
    ensures DotFreeTail(s) == s[LastIndexOf(s, '.') + 1..]
  {
    if |s| > 0 && s[|s| - 1] != '.' {
      DotFreeTailAfterLastDot(s[..|s| - 1]);
      assert s[LastIndexOf(s, '.') + 1..] == s[..|s| - 1][LastIndexOf(s, '.') + 1..] + [s[|s| - 1]];
    }
  }

  /**
   * The extension is the dot-free tail of the name when a dot precedes that
   * tail at index 1 or later, and empty otherwise: for a name without a dot,
   * a dot-file such as `.gitignore`, or a name ending in a dot. Stated for
   * names up to 2^32 characters, where `>>> 0` cannot wrap back into the name.
   */
  lemma ExtensionIsDotFreeTail(filename: string)
    requires |filename| <= TwoToThe32
    ensures GetFileExtension(filename)
              == if |DotFreeTail(filename)| + 1 < |filename| then DotFreeTail(filename) else ""
  {
    var last := LastIndexOf(filename, '.');
    DotFreeTailAfterLastDot(filename);
    assert |DotFreeTail(filename)| == |filename| - last - 1;
    if last >= 1 {
      assert UnsignedShiftZero(last - 1) == last - 1;
    } else {
      assert UnsignedShiftZero(last - 1) == last - 1 + TwoToThe32;
      assert GetFileExtension(filename) == "";
    }
  }

  /** A name `stem.ext` with a non-empty stem and a dot-free `ext` has extension `ext`. */
  lemma ExtensionOfName(stem: string, ext: string)
    requires stem != "" && '.' !in ext && |stem| <= TwoToThe32
    ensures GetFileExtension(stem + "." + ext) == ext
  {
    var name := stem + "." + ext;
    assert name[|stem|] == '.';
    assert forall j :: |stem| < j < |name| ==> name[j] == ext[j - |stem| - 1];
    var last := LastIndexOf(name, '.');
    assert last == |stem|;
    assert UnsignedShiftZero(last - 1) == last - 1;
    assert name[|stem| + 1..] == ext;
  }

  /** The extensions `isBinaryFile` lists, 31 of them, all in lower case. */
  const BinaryExtensions: seq<string> := [
    "jpg", "jpeg", "png", "gif", "bmp", "ico", "webp",
    "mp3", "mp4", "avi", "mov", "wmv", "flv", "wav",
    "pdf", "doc", "docx", "xls", "xlsx", "ppt", "pptx",
    "zip", "rar", "tar", "gz", "7z",
    "exe", "dll", "so", "dmg", "bin"
  ]

  /** Equal once ASCII letters are folded to lower case. */
  predicate EqualsIgnoringCase(a: string, b: string) {
    |a| == |b| && forall i :: 0 <= i < |a| ==> LowerChar(a[i]) == LowerChar(b[i])
  }

  lemma BinaryExtensionsAreLowerCase()
    ensures |BinaryExtensions| == 31
    ensures forall k :: 0 <= k < |BinaryExtensions| ==> IsLowerCase(BinaryExtensions[k])
  {
  }

  /** Lower-casing `a` gives the lower-case `b` exactly when they are equal ignoring case. */
  lemma ToLowerMatches(a: string, b: string)
    requires IsLowerCase(b)
    ensures ToLower(a) == b <==> EqualsIgnoringCase(a, b)
  {
    if EqualsIgnoringCase(a, b) {
      assert forall i :: 0 <= i < |b| ==> LowerChar(b[i]) == b[i];
    }
  }

  /** `isBinaryFile`: the extension is one of the listed ones, ignoring case. */
  function IsBinaryFile(extension: string): (binary: bool)
    ensures binary <==> exists k :: 0 <= k < |BinaryExtensions| && EqualsIgnoringCase(extension, BinaryExtensions[k])
  {
    BinaryExtensionsAreLowerCase();
    forall k | 0 <= k < |BinaryExtensions|
      ensures ToLower(extension) == BinaryExtensions[k] <==> EqualsIgnoringCase(extension, BinaryExtensions[k])
    {
      ToLowerMatches(extension, BinaryExtensions[k]);
    }
    ToLower(extension) in BinaryExtensions
  }

  /** The empty extension and `ts` are not binary; `PNG` is, whatever its case. */
  lemma BinaryExamples()
    ensures !IsBinaryFile("") && !IsBinaryFile("ts")
    ensures IsBinaryFile("PNG") && IsBinaryFile("png")
  {
    assert EqualsIgnoringCase("PNG", BinaryExtensions[2]);
    forall k | 0 <= k < |BinaryExtensions|
      ensures !EqualsIgnoringCase("ts", BinaryExtensions[k])
    {
      assert |BinaryExtensions[k]| != 2 || BinaryExtensions[k][1] != 's';
      assert "ts"[1] == 's';
    }
  }

  // ---------------------------------------------------------------------------
  // Count formatting
  // ---------------------------------------------------------------------------

  /**
   * `formatNumber` on an integer count. `toFixed1(num, d)` stands for the
   * one-decimal text of num / d, floating-point digits the model does not
   * reproduce; below 1000 the result is the plain decimal text of the count.
   */
  function FormatNumber(num: int, toFixed1: (int, int) -> string): string {
    if num >= 1000000 then toFixed1(num, 1000000) + "M"
    else if num >= 1000 then toFixed1(num, 1000) + "k"
    else IntToDecimal(num)
  }

  /**
   * The last character tells the range: `M` from a million up, `k` from a
   * thousand below a million, and otherwise a digit of the exact value, which
   * reads back as `num`.
   */
  lemma FormatNumberSuffix(num: int, toFixed1: (int, int) -> string)
    ensures var text := FormatNumber(num, toFixed1);
            && |text| >= 1
            && (text[|text| - 1] == 'M' <==> num >= 1000000)
            && (text[|text| - 1] == 'k' <==> 1000 <= num < 1000000)
            && (num < 1000 ==> ParseDecimal(text) == Some(num))
  {
    if num < 1000 {
      DecimalRoundTrip(num);
      var digits := NatToDecimal(if num < 0 then -num else num);
      assert IsDigit(digits[|digits| - 1]);
    }
  }
}
