/**
 * The owner/repository parser of the search box. It is separate from
 * `GitHubUtils.ParseGitHubUrl` and behaves differently: it tries the
 * unanchored pattern `github\.com\/([^\/]+)\/([^\/]+)` at the leftmost place it
 * matches, then the anchored `^([^\/]+)\/([^\/]+)$`, and otherwise gives two
 * empty strings.
 */
module RepoExplorer {
  import opened Wrappers
  import opened Text
  import opened GitHubUtils

  /** The `{ username, repoName }` pair the search uses; never null. */
  datatype SearchTarget = SearchTarget(username: string, repoName: string)

  const NoTarget := SearchTarget("", "")

  /** End of the run of non-`/` characters that starts at `i`: what a greedy `[^\/]*` consumes. */
  function RunEnd(s: string, i: nat): (e: nat)
    requires i <= |s|
    ensures i <= e <= |s|
    ensures forall k :: i <= k < e ==> s[k] != '/'
    ensures e < |s| ==> s[e] == '/'
    decreases |s| - i
  {
    if i == |s| || s[i] == '/' then i else RunEnd(s, i + 1)
  }

  /** A run of non-`/` characters ending at the end or at a `/` is the one `RunEnd` finds. */
  lemma RunEndUnique(s: string, i: nat, e: nat)
    requires i <= e <= |s|
    requires forall k :: i <= k < e ==> s[k] != '/'
    requires e == |s| || s[e] == '/'
    ensures RunEnd(s, i) == e
  {
  }

  /**
   * The two groups of `github\.com\/([^\/]+)\/([^\/]+)` when the match starts
   * at index `j`. The first group must be followed by `/`, so it is the whole
   * run of non-`/` characters; the second is greedy and takes its whole run.
   */
  function HostMatchAt(s: string, j: nat): (m: Option<(string, string)>)
    requires j <= |s|
    ensures m.Some? ==> m.value.0 != "" && '/' !in m.value.0 && m.value.1 != "" && '/' !in m.value.1
  {
    if !OccursAt(s, "github.com/", j) then None
    else
      var e1 := RunEnd(s, j + 11);
      if e1 == j + 11 || e1 == |s| then None
      else
        var e2 := RunEnd(s, e1 + 1);
        if e2 == e1 + 1 then None
        else
          Some((s[j + 11..e1], s[e1 + 1..e2]))
  }

  /**
   * What it means for the pattern to match at `j` with groups `owner` and
   * `repo`: `github.com/`, then `owner`, a `/` and `repo`, both non-empty and
   * free of `/`, with `repo` running up to the end or to the next `/`.
   */
  predicate IsHostMatch(s: string, j: int, owner: string, repo: string) {
    var a := j + 11;
    var b := a + |owner|;
    var c := b + 1 + |repo|;
    && 0 <= j && c <= |s|
    && OccursAt(s, "github.com/", j)
    && owner != "" && '/' !in owner && s[a..b] == owner
    && s[b] == '/'
    && repo != "" && '/' !in repo && s[b + 1..c] == repo
    && (c == |s| || s[c] == '/')
  }

  /** `HostMatchAt` finds exactly the matches `IsHostMatch` describes. */
  lemma HostMatchAtMeans(s: string, j: nat, owner: string, repo: string)
    requires j <= |s|
    ensures HostMatchAt(s, j) == Some((owner, repo)) <==> IsHostMatch(s, j, owner, repo)
  {
    if IsHostMatch(s, j, owner, repo) {
      HostMatchFound(s, j, owner, repo);
    }
    if HostMatchAt(s, j) == Some((owner, repo)) {
      var e1 := RunEnd(s, j + 11);
      var e2 := RunEnd(s, e1 + 1);
      assert e1 == j + 11 + |owner| && e2 == e1 + 1 + |repo|;
    }
  }

  /** A match as `IsHostMatch` describes it is the one `HostMatchAt` returns. */
  lemma HostMatchFound(s: string, j: nat, owner: string, repo: string)
    requires j <= |s| && IsHostMatch(s, j, owner, repo)
    ensures HostMatchAt(s, j) == Some((owner, repo))
  {
    var a := j + 11;
    var b := a + |owner|;
    var c := b + 1 + |repo|;
    assert forall k :: a <= k < b ==> s[k] == owner[k - a];
    assert forall k :: b + 1 <= k < c ==> s[k] == repo[k - b - 1];
    RunEndUnique(s, a, b);
    RunEndUnique(s, b + 1, c);
  }

  /** The leftmost index from `i` on where the host pattern matches, or -1. */
  function LeftmostHostMatch(s: string, i: nat): (j: int)
    requires i <= |s|
    ensures j == -1 || (i <= j <= |s| && HostMatchAt(s, j).Some?)
    ensures forall k :: i <= k <= |s| && (j == -1 || k < j) ==> HostMatchAt(s, k).None?
    decreases |s| - i
  {
    if HostMatchAt(s, i).Some? then i
    else if i == |s| then -1
    else LeftmostHostMatch(s, i + 1)
  }

  /** The host pattern searched anywhere in the input: the groups of the leftmost match. */
  function HostPattern(s: string): Option<(string, string)> {
    var j := LeftmostHostMatch(s, 0);
    if j < 0 then None else HostMatchAt(s, j)
  }

  /** The anchored owner/repo pattern: the two sides of the one `/`, both non-empty. */
  function OwnerSlashRepoPattern(s: string): Option<(string, string)> {
    var parts := Split(s, '/');
    if |parts| == 2 && parts[0] != "" && parts[1] != "" then Some((parts[0], parts[1])) else None
  }

  /** The anchored pattern matches exactly the texts `owner/repo` with non-empty, slash-free sides. */
  lemma OwnerSlashRepoPatternMeans(s: string, owner: string, repo: string)
    ensures (OwnerSlashRepoPattern(s) == Some((owner, repo)))
            <==> (owner != "" && repo != "" && '/' !in owner && '/' !in repo && s == owner + "/" + repo)
  {
    var parts := Split(s, '/');
    if |parts| == 2 {
      assert Join(parts, '/') == parts[0] + ['/'] + parts[1];
    }
    if owner != "" && repo != "" && '/' !in owner && '/' !in repo && s == owner + "/" + repo {
      SplitCons(owner, repo, '/');
      SplitSingle(repo, '/');
    }
  }

  /**
   * The closure in the search component: an empty input gives two empty
   * strings; otherwise the host pattern, then the owner/repo pattern, supply
   * the owner and the repo with one trailing `.git` removed; failing both,
   * two empty strings.
   */
  function ParseRepoInput(url: string): (target: SearchTarget)
    ensures '/' !in target.username && '/' !in target.repoName
    ensures target.username == "" ==> target.repoName == ""
  {
    if url == "" then NoTarget
    else
      match HostPattern(url)
      case Some((owner, repo)) => SearchTarget(owner, TrimGitSuffix(repo))
      case None =>
        match OwnerSlashRepoPattern(url)
        case Some((owner, repo)) => SearchTarget(owner, TrimGitSuffix(repo))
        case None => NoTarget
  }

  /** `enabled: !!username && !!repoName`: the lookup runs exactly when a repo name was parsed. */
  function SearchEnabled(url: string): (enabled: bool)
    ensures enabled <==> ParseRepoInput(url).repoName != ""
  {
    var target := ParseRepoInput(url);
    target.username != "" && target.repoName != ""
  }

  /** An empty input names no repository, and the search stays disabled. */
  lemma EmptyInputHasNoTarget()
    ensures ParseRepoInput("") == NoTarget
    ensures !SearchEnabled("")
  {
  }

  /** The leftmost host match decides the result, whatever follows it. */
  lemma ParseLeftmostHostMatch(url: string, j: nat, owner: string, repo: string)
    requires IsHostMatch(url, j, owner, repo)
    requires forall k, o, r :: 0 <= k < j ==> !IsHostMatch(url, k, o, r)
    ensures ParseRepoInput(url) == SearchTarget(owner, TrimGitSuffix(repo))
  {
    HostMatchAtMeans(url, j, owner, repo);
    var first := LeftmostHostMatch(url, 0);
    if first != j {
      assert 0 <= first < j;
      var m := HostMatchAt(url, first).value;
      HostMatchAtMeans(url, first, m.0, m.1);
      assert false;
    }
  }

  /** A position holding `c` makes the count of `c` positive. */
  lemma CountPositive(s: string, p: nat, c: char)
    requires p < |s| && s[p] == c
    ensures Count(s, c) >= 1
  {
    assert s == s[..p] + s[p..];
    CountAppend(s[..p], s[p..], c);
  }

  /** A host match sees two slashes: the one in `github.com/` and the one after the owner. */
  lemma HostMatchNeedsTwoSlashes(s: string, j: nat)
    requires j <= |s| && HostMatchAt(s, j).Some?
    ensures Count(s, '/') >= 2
  {
    var e1 := RunEnd(s, j + 11);
    assert s[j..j + 11][10] == '/';
    CountTwo(s, j + 10, e1, '/');
  }

  /** Two positions holding `c` make the count of `c` at least two. */
  lemma CountTwo(s: string, p: nat, q: nat, c: char)
    requires p < q < |s| && s[p] == c && s[q] == c
    ensures Count(s, c) >= 2
  {
    assert s == s[..q] + s[q..];
    CountAppend(s[..q], s[q..], c);
    CountPositive(s[..q], p, c);
    CountPositive(s[q..], 0, c);
  }

  /** `owner/repo` with no host falls through to the second pattern. */
  lemma ParseOwnerSlashRepo(owner: string, repo: string)
    requires owner != "" && repo != "" && '/' !in owner && '/' !in repo
    ensures ParseRepoInput(owner + "/" + repo) == SearchTarget(owner, TrimGitSuffix(repo))
  {
    var url := owner + "/" + repo;
    OwnerSlashRepoPatternMeans(url, owner, repo);
    assert Count(url, '/') == 1 by {
      SplitCons(owner, repo, '/');
      SplitSingle(repo, '/');
    }
    var first := LeftmostHostMatch(url, 0);
    if first >= 0 {
      HostMatchNeedsTwoSlashes(url, first);
      assert false;
    }
  }

  /** `owner/.git` parses to an empty repo name, so no lookup is started. */
  lemma OwnerDotGitDisablesSearch(owner: string)
    requires owner != "" && '/' !in owner
    ensures ParseRepoInput(owner + "/.git") == SearchTarget(owner, "")
    ensures !SearchEnabled(owner + "/.git")
  {
    assert owner + "/.git" == owner + "/" + ".git";
    ParseOwnerSlashRepo(owner, ".git");
    TrimGitSuffixOnce("");
  }

  /** An input neither pattern matches gives two empty strings. */
  lemma ParseNoMatch(url: string)
    requires forall j, o, r :: !IsHostMatch(url, j, o, r)
    requires forall o, r :: !(o != "" && r != "" && '/' !in o && '/' !in r && url == o + "/" + r)
    ensures ParseRepoInput(url) == NoTarget
  {
    var first := LeftmostHostMatch(url, 0);
    if first >= 0 {
      var m := HostMatchAt(url, first).value;
      HostMatchAtMeans(url, first, m.0, m.1);
      assert false;
    }
    if OwnerSlashRepoPattern(url).Some? {
      var m := OwnerSlashRepoPattern(url).value;
      OwnerSlashRepoPatternMeans(url, m.0, m.1);
      assert false;
    }
  }

  /** Every host prefix ends in `github.com/`, and no `g` comes before that. */
  lemma HostPrefixShape(scheme: Scheme, www: bool)
    ensures |HostPrefix(scheme, www)| >= 11
    ensures HostPrefix(scheme, www)[|HostPrefix(scheme, www)| - 11..] == "github.com/"
    ensures forall k :: 0 <= k < |HostPrefix(scheme, www)| - 11 ==> HostPrefix(scheme, www)[k] != 'g'
  {
    var lead := SchemeText(scheme) + WwwText(www);
    assert HostPrefix(scheme, www) == lead + "github.com/";
    assert forall k :: 0 <= k < |lead| ==> lead[k] != 'g';
  }

  /** After a prefix ending in `github.com/`, the pattern matches `owner/repo` when a `/` or nothing follows. */
  lemma HostMatchAfterPrefix(h: string, owner: string, repo: string, tail: string)
    requires |h| >= 11 && h[|h| - 11..] == "github.com/"
    requires owner != "" && repo != "" && '/' !in owner && '/' !in repo
    requires tail == "" || tail[0] == '/'
    ensures IsHostMatch(h + (owner + ['/'] + (repo + tail)), |h| - 11, owner, repo)
  {
    var url := h + (owner + ['/'] + (repo + tail));
    var j := |h| - 11;
    var b := |h| + |owner|;
    var c := b + 1 + |repo|;
    assert url[j..j + 11] == h[j..];
    assert url[|h|..b] == owner;
    assert url[b] == '/';
    assert url[b + 1..c] == repo;
    if c < |url| {
      assert url[c] == tail[0];
    }
  }

  /** No match can start inside a prefix with no `g` before its `github.com/`. */
  lemma NoHostMatchBeforePrefix(h: string, rest: string)
    requires |h| >= 11 && forall k :: 0 <= k < |h| - 11 ==> h[k] != 'g'
    ensures forall k, o, r :: 0 <= k < |h| - 11 ==> !IsHostMatch(h + rest, k, o, r)
  {
    var url := h + rest;
    forall k, o, r | 0 <= k < |h| - 11
      ensures !IsHostMatch(url, k, o, r)
    {
      assert url[k] == h[k];
      if k + 11 <= |url| {
        assert url[k..k + 11][0] == url[k];
      }
    }
  }

  /**
   * On a url made of a host prefix, `owner/repo` and anything that starts with
   * `/`, the search box takes the same owner and repo as the classifier reads
   * from `github.com/owner/repo`.
   */
  lemma ParseHostPrefixedUrl(scheme: Scheme, www: bool, owner: string, repo: string, tail: string)
    requires owner != "" && repo != "" && '/' !in owner && '/' !in repo
    requires tail == "" || tail[0] == '/'
    ensures ParseRepoInput(HostPrefix(scheme, www) + owner + "/" + repo + tail)
              == SearchTarget(owner, TrimGitSuffix(repo))
  {
    var h := HostPrefix(scheme, www);
    OwnerRepoText(h, owner, repo, tail);
    HostPrefixShape(scheme, www);
    ParseAfterPrefix(h, owner, repo, tail);
  }

  lemma OwnerRepoText(h: string, owner: string, repo: string, tail: string)
    ensures h + owner + "/" + repo + tail == h + (owner + ['/'] + (repo + tail))
  {
  }

  lemma ParseAfterPrefix(h: string, owner: string, repo: string, tail: string)
    requires |h| >= 11 && h[|h| - 11..] == "github.com/"
    requires forall k :: 0 <= k < |h| - 11 ==> h[k] != 'g'
    requires owner != "" && repo != "" && '/' !in owner && '/' !in repo
    requires tail == "" || tail[0] == '/'
    ensures ParseRepoInput(h + (owner + ['/'] + (repo + tail))) == SearchTarget(owner, TrimGitSuffix(repo))
  {
    var rest := owner + ['/'] + (repo + tail);
    HostMatchAfterPrefix(h, owner, repo, tail);
    NoHostMatchBeforePrefix(h, rest);
    ParseLeftmostHostMatch(h + rest, |h| - 11, owner, repo);
  }

  /**
   * Where the two parsers part ways: a trailing slash is invalid to the
   * classifier but still a repository to the search box, and a bare
   * `owner/repo` without `github.com` is invalid to the classifier but found
   * by the search box's second pattern.
   */
  lemma ParsersDisagree(scheme: Scheme, www: bool, owner: string, repo: string)
    requires owner != "" && repo != "" && '/' !in owner && '/' !in repo
    ensures ParseGitHubUrl(HostPrefix(scheme, www) + owner + "/" + repo + "/").kind == Invalid
    ensures ParseRepoInput(HostPrefix(scheme, www) + owner + "/" + repo + "/")
              == SearchTarget(owner, TrimGitSuffix(repo))
    ensures !Contains(owner + "/" + repo, "github.com") ==>
              && ParseGitHubUrl(owner + "/" + repo) == InvalidUrl
              && ParseRepoInput(owner + "/" + repo) == SearchTarget(owner, TrimGitSuffix(repo))
  {
    ParseTrailingSlash(scheme, www, owner, repo);
    ParseHostPrefixedUrl(scheme, www, owner, repo, "/");
    ParseOwnerSlashRepo(owner, repo);
  }

  /** On a plain repository url the two parsers agree on owner and repo. */
  lemma ParsersAgreeOnRepositoryUrls(scheme: Scheme, www: bool, owner: string, repo: string)
    requires owner != "" && repo != "" && '/' !in owner && '/' !in repo
    ensures var info := ParseGitHubUrl(HostPrefix(scheme, www) + owner + "/" + repo);
            var target := ParseRepoInput(HostPrefix(scheme, www) + owner + "/" + repo);
            && info.owner == Some(target.username)
            && info.repo == Some(target.repoName)
  {
    ParseRepositoryUrl(scheme, www, owner, repo);
    assert HostPrefix(scheme, www) + owner + "/" + repo + "" == HostPrefix(scheme, www) + owner + "/" + repo;
    ParseHostPrefixedUrl(scheme, www, owner, repo, "");
  }
}
