/** `_extract_repo_info`: the (title, author) pair read off a source-code URL,
    as it is used for authors, repositories and games. */
module SourceUrl {
  import opened Tables

  datatype RepoInfo = RepoInfo(title: string, author: string)

  const Unknown: string := "unknown"

  /** The literal part of the pattern `github\.com/([^/]+)/([^/]+)`. */
  const GitHubHost: string := "github.com/"

  /** Python's `s.split(c)`: the pieces between the occurrences of `c`. */
  function Split(s: string, c: char): (parts: seq<string>)
    ensures |parts| >= 1
    ensures forall p :: p in parts ==> c !in p
    decreases |s|
  {
    if |s| == 0 then [""]
    else
      var rest := Split(s[1..], c);
      assert rest[0] in rest;
      if s[0] == c then [""] + rest
      else [[s[0]] + rest[0]] + rest[1..]
  }

  /** `c.join(parts)`, the inverse of `Split`. */
  function Join(parts: seq<string>, c: char): string
    requires |parts| >= 1
    decreases |parts|
  {
    if |parts| == 1 then parts[0] else parts[0] + [c] + Join(parts[1..], c)
  }

  lemma {:induction false} SplitJoin(s: string, c: char)
    ensures Join(Split(s, c), c) == s
    decreases |s|
  {
    if |s| > 0 {
      SplitJoin(s[1..], c);
      var rest := Split(s[1..], c);
      assert s == [s[0]] + s[1..];
      if s[0] == c {
        assert ([""] + rest)[1..] == rest;
      } else {
        var parts := [[s[0]] + rest[0]] + rest[1..];
        assert parts[1..] == rest[1..];
      }
    }
  }

  /** There are at least two pieces exactly when the separator occurs. */
  lemma {:induction false} SplitHasTwo(s: string, c: char)
    ensures |Split(s, c)| >= 2 <==> c in s
    decreases |s|
  {
    if |s| > 0 {
      SplitHasTwo(s[1..], c);
      assert s == [s[0]] + s[1..];
    }
  }

  lemma {:induction false} JoinSnoc(parts: seq<string>, c: char)
    requires |parts| >= 2
    ensures Join(parts, c) == Join(parts[..|parts| - 1], c) + [c] + parts[|parts| - 1]
    decreases |parts|
  {
    if |parts| > 2 {
      JoinSnoc(parts[1..], c);
      assert parts[1..][..|parts| - 2] == parts[..|parts| - 1][1..];
    }
  }

  /** One step of `Split`, stated on a prepended character. */
  lemma SplitCons(x: char, s: string, c: char)
    ensures var rest := Split(s, c);
      Split([x] + s, c) == if x == c then [""] + rest else [[x] + rest[0]] + rest[1..]
  {
    assert ([x] + s)[1..] == s;
  }

  /** The last piece of a split is the text after the last separator. */
  lemma {:induction false} SplitLastPiece(a: string, b: string, c: char)
    requires c !in b
    ensures var p := Split(a + [c] + b, c);
      |p| >= 2 && p[|p| - 1] == b
    decreases |a|
  {
    var u := a + [c] + b;
    if |a| == 0 {
      assert u == [c] + b;
      SplitCons(c, b, c);
      SplitNoSep(b, c);
    } else {
      var x := a[0];
      var a' := a[1..];
      assert u == [x] + (a' + [c] + b);
      SplitLastPiece(a', b, c);
      SplitCons(x, a' + [c] + b, c);
      var su := Split(a' + [c] + b, c);
      var p := Split(u, c);
      if x == c {
        assert p == [""] + su;
      } else {
        assert p == [[x] + su[0]] + su[1..];
        assert su[1..][|su| - 2] == su[|su| - 1];
      }
    }
  }

  /** Text without the separator is one piece. */
  lemma {:induction false} SplitNoSep(b: string, c: char)
    requires c !in b
    ensures Split(b, c) == [b]
    decreases |b|
  {
    if |b| > 0 {
      SplitNoSep(b[1..], c);
      assert b == [b[0]] + b[1..];
    }
  }

  /** The last two pieces of a split are the text after the last separator and
      the text between the last two. */
  lemma SplitLastTwo(s: string, c: char)
    requires c in s
    ensures |Split(s, c)| >= 2
    ensures var parts := Split(s, c);
      var n := |parts|;
      exists pre :: s == pre + parts[n - 2] + [c] + parts[n - 1] && (pre == [] || pre[|pre| - 1] == c)
  {
    var parts := Split(s, c);
    SplitHasTwo(s, c);
    SplitJoin(s, c);
    var n := |parts|;
    var init := parts[..n - 1];
    assert s == Join(init, c) + [c] + parts[n - 1] by {
      JoinSnoc(parts, c);
    }
    var pre := SplitPrefix(init, c);
    assert init[|init| - 1] == parts[n - 2];
    assert s == pre + parts[n - 2] + [c] + parts[n - 1];
  }

  /** The text before the last piece of `init`, separator included. */
  function SplitPrefix(init: seq<string>, c: char): (pre: string)
    requires |init| >= 1
    ensures Join(init, c) == pre + init[|init| - 1]
    ensures pre == [] || pre[|pre| - 1] == c
  {
    if |init| == 1 then []
    else
      var m := |init|;
      JoinSnoc(init, c);
      assert init[..m - 1][..m - 2] == init[..m - 2];
      Join(init[..m - 1], c) + [c]
  }

  /** Where `[^/]+` started at `a` stops (it consumes greedily): the first
      '/' from `a` on, or the end. */
  function RunEnd(s: string, a: nat): (b: nat)
    requires a <= |s|
    ensures a <= b <= |s| && '/' !in s[a..b]
    ensures b == |s| || s[b] == '/'
    decreases |s| - a
  {
    if a == |s| || s[a] == '/' then a
    else
      var b := RunEnd(s, a + 1);
      assert s[a..b] == [s[a]] + s[a + 1..b];
      b
  }

  /** A stretch without '/' that ends at a '/' or the end is exactly the run. */
  lemma {:induction false} RunEndAt(s: string, a: nat, b: nat)
    requires a <= b <= |s| && '/' !in s[a..b]
    requires b == |s| || s[b] == '/'
    ensures RunEnd(s, a) == b
    decreases b - a
  {
    if a < b {
      assert s[a] == s[a..b][0] && s[a..b][0] in s[a..b];
      assert s[a + 1..b] == s[a..b][1..];
      RunEndAt(s, a + 1, b);
    }
  }

  /** The two groups of the pattern when it matches starting at index `i`. */
  function MatchAt(s: string, i: nat): (m: Option<(string, string)>)
    requires i <= |s|
    ensures m.Some? ==> '/' !in m.value.0 && '/' !in m.value.1
  {
    var j := i + |GitHubHost|;
    if j > |s| || s[i..j] != GitHubHost then None
    else
      var k := RunEnd(s, j);
      if k == j || k == |s| then None
      else
        var e := RunEnd(s, k + 1);
        if e == k + 1 then None else Some((s[j..k], s[k + 1..e]))
  }

  /** `re.search`: the match at the leftmost index, from `i` on, where there
      is one. */
  function SearchFrom(s: string, i: nat): (m: Option<(string, string)>)
    requires i <= |s|
    ensures m.Some? ==> '/' !in m.value.0 && '/' !in m.value.1
    decreases |s| - i
  {
    if MatchAt(s, i).Some? then MatchAt(s, i)
    else if i == |s| then None
    else SearchFrom(s, i + 1)
  }

  function Search(s: string): Option<(string, string)>
  {
    SearchFrom(s, 0)
  }

  /** Declarative reading of the pattern: from index `i`, `s` holds
      `github.com/`, then `owner`, a '/', then `name`, both groups non-empty and
      free of '/', and `name` runs up to the next '/' or the end. */
  ghost predicate LinksRepo(s: string, i: int, owner: string, name: string)
  {
    var j := i + |GitHubHost|;
    var k := j + |owner|;
    var e := k + 1 + |name|;
    && 0 <= i && e <= |s|
    && s[i..j] == GitHubHost && s[j..k] == owner && s[k] == '/' && s[k + 1..e] == name
    && owner != [] && name != [] && '/' !in owner && '/' !in name
    && (e == |s| || s[e] == '/')
  }

  lemma MatchAtSound(s: string, i: nat)
    requires i <= |s| && MatchAt(s, i).Some?
    ensures LinksRepo(s, i, MatchAt(s, i).value.0, MatchAt(s, i).value.1)
  {
  }

  lemma MatchAtComplete(s: string, i: int, owner: string, name: string)
    requires LinksRepo(s, i, owner, name)
    ensures MatchAt(s, i) == Some((owner, name))
  {
    var j := i + |GitHubHost|;
    var k := j + |owner|;
    RunEndAt(s, j, k);
    RunEndAt(s, k + 1, k + 1 + |name|);
  }

  lemma {:induction false} SearchFromSkip(s: string, i: nat, j: nat)
    requires i <= j <= |s|
    requires forall k :: i <= k < j ==> MatchAt(s, k).None?
    requires MatchAt(s, j).Some?
    ensures SearchFrom(s, i) == MatchAt(s, j)
    decreases j - i
  {
    if i < j {
      SearchFromSkip(s, i + 1, j);
    }
  }

  lemma {:induction false} SearchFromNone(s: string, i: nat)
    requires i <= |s|
    ensures SearchFrom(s, i).None? <==> forall k :: i <= k <= |s| ==> MatchAt(s, k).None?
    decreases |s| - i
  {
    if MatchAt(s, i).Some? {
      assert SearchFrom(s, i).Some?;
    } else if i < |s| {
      SearchFromNone(s, i + 1);
      assert SearchFrom(s, i) == SearchFrom(s, i + 1);
      assert (forall k :: i <= k <= |s| ==> MatchAt(s, k).None?)
         <==> (forall k :: i + 1 <= k <= |s| ==> MatchAt(s, k).None?);
    }
  }

  /** The pattern cannot start at an index that does not hold 'g'. */
  lemma NoLinkBefore(s: string, i: int)
    requires 0 <= i <= |s|
    requires forall j :: 0 <= j < i ==> s[j] != 'g'
    ensures forall j, o, n :: 0 <= j < i ==> !LinksRepo(s, j, o, n)
  {
    forall j, o, n | 0 <= j < i ensures !LinksRepo(s, j, o, n) {
      var h := |GitHubHost|;
      if j + h <= |s| {
        assert s[j..j + h][0] == s[j];
      }
    }
  }

  /** The search finds the leftmost occurrence of the pattern. */
  lemma SearchFindsLeftmost(s: string, i: int, owner: string, name: string)
    requires LinksRepo(s, i, owner, name)
    requires forall j, o, n :: 0 <= j < i ==> !LinksRepo(s, j, o, n)
    ensures Search(s) == Some((owner, name))
  {
    MatchAtComplete(s, i, owner, name);
    forall k | 0 <= k < i ensures MatchAt(s, k).None? {
      if MatchAt(s, k).Some? {
        MatchAtSound(s, k);
      }
    }
    SearchFromSkip(s, 0, i);
  }

  /** The search fails exactly when the pattern occurs nowhere. */
  lemma SearchNoneIff(s: string)
    ensures Search(s).None? <==> forall i, o, n :: !LinksRepo(s, i, o, n)
  {
    SearchFromNone(s, 0);
    if Search(s).None? {
      forall i, o, n | LinksRepo(s, i, o, n) ensures false {
        MatchAtComplete(s, i, o, n);
      }
    } else {
      var k :| 0 <= k <= |s| && MatchAt(s, k).Some?;
      MatchAtSound(s, k);
    }
  }

  /** `rstrip('/')`. */
  function TrimTrailingSlashes(t: string): (r: string)
    ensures '/' !in t ==> r == t
    decreases |t|
  {
    if |t| > 0 && t[|t| - 1] == '/' then TrimTrailingSlashes(t[..|t| - 1]) else t
  }

  /** `re.sub(r'\.git$', '', t)`: `$` matches at the very end and also just
      before a final newline, and at most one of the two can follow ".git". */
  function StripGitSuffix(t: string): (r: string)
    ensures '/' !in t ==> '/' !in r
  {
    if |t| >= 4 && t[|t| - 4..] == ".git" then t[..|t| - 4]
    else if |t| >= 5 && t[|t| - 5..] == ".git\n" then t[..|t| - 5] + "\n"
    else t
  }

  /** Exactly one trailing ".git" is removed. */
  lemma StripGitSuffixOnce(name: string)
    ensures StripGitSuffix(name + ".git") == name
  {
    var t := name + ".git";
    assert t[|t| - 4..] == ".git";
    assert t[..|t| - 4] == name;
  }

  lemma StripGitSuffixKeeps(name: string)
    requires !(|name| >= 4 && name[|name| - 4..] == ".git")
    requires !(|name| >= 5 && name[|name| - 5..] == ".git\n")
    ensures StripGitSuffix(name) == name
  {
  }

  /** `_extract_repo_info(url)`, returning `(title, author)`. It is total:
      every input, a missing one included, gives a pair, and neither part
      contains a '/'. */
  function ExtractRepoInfo(url: Option<string>): (r: RepoInfo)
    ensures '/' !in r.title && '/' !in r.author
    ensures url.None? ==> r == RepoInfo(Unknown, Unknown)
  {
    match url
    case None => RepoInfo(Unknown, Unknown)
    case Some(s) =>
      match Search(s)
      case Some((owner, name)) => RepoInfo(StripGitSuffix(TrimTrailingSlashes(name)), owner)
      case None =>
        var parts := Split(s, '/');
        SplitHasTwo(s, '/');
        assert parts[|parts| - 1] in parts;
        if |parts| >= 2 then
          assert parts[|parts| - 2] in parts;
          RepoInfo(parts[|parts| - 1], parts[|parts| - 2])
        else RepoInfo(s, Unknown)
  }

  /** A URL holding `github.com/<owner>/<name>` (leftmost occurrence) gives
      `name` less one trailing ".git", and `owner`. */
  lemma ExtractFromGitHub(s: string, i: int, owner: string, name: string)
    requires LinksRepo(s, i, owner, name)
    requires forall j, o, n :: 0 <= j < i ==> !LinksRepo(s, j, o, n)
    ensures ExtractRepoInfo(Some(s)) == RepoInfo(StripGitSuffix(name), owner)
  {
    SearchFindsLeftmost(s, i, owner, name);
  }

  /** The usual form `https://github.com/<owner>/<name>[.git][/...]`. */
  lemma ExtractHttpsGitHub(owner: string, name: string, tail: string)
    requires owner != [] && name != [] && '/' !in owner && '/' !in name
    requires tail == [] || tail[0] == '/'
    ensures ExtractRepoInfo(Some("https://" + GitHubHost + owner + "/" + name + tail))
         == RepoInfo(StripGitSuffix(name), owner)
  {
    var scheme := "https://";
    var s := scheme + GitHubHost + owner + "/" + name + tail;
    var j := |scheme| + |GitHubHost|;
    var k := j + |owner|;
    var e := k + 1 + |name|;
    assert s == scheme + (GitHubHost + (owner + ("/" + (name + tail))));
    assert s[..8] == scheme;
    assert s[8..j] == GitHubHost;
    assert s[j..k] == owner;
    assert s[k] == '/';
    assert s[k + 1..e] == name;
    assert e == |s| || s[e] == tail[0];
    assert LinksRepo(s, 8, owner, name);
    assert forall j :: 0 <= j < 8 ==> s[j] == scheme[j];
    NoLinkBefore(s, 8);
    ExtractFromGitHub(s, 8, owner, name);
  }

  /** Without a match, a URL with a '/' gives its last segment as title and the
      one before as author: `s` is some prefix (empty or ending in '/'), then
      author, '/', title. */
  lemma ExtractFallback(s: string)
    requires forall i, o, n :: !LinksRepo(s, i, o, n)
    requires '/' in s
    ensures var r := ExtractRepoInfo(Some(s));
      exists pre :: s == pre + r.author + "/" + r.title && (pre == [] || pre[|pre| - 1] == '/')
  {
    SearchNoneIff(s);
    SplitLastTwo(s, '/');
    var parts := Split(s, '/');
    var n := |parts|;
    assert ExtractRepoInfo(Some(s)) == RepoInfo(parts[n - 1], parts[n - 2]);
    var pre :| s == pre + parts[n - 2] + ['/'] + parts[n - 1] && (pre == [] || pre[|pre| - 1] == '/');
    assert s == pre + parts[n - 2] + "/" + parts[n - 1];
  }

  /** Without any '/', the whole value is the title and the author is
      "unknown". */
  lemma ExtractNoSlash(s: string)
    requires '/' !in s
    ensures ExtractRepoInfo(Some(s)) == RepoInfo(s, Unknown)
  {
    forall i, o, n ensures !LinksRepo(s, i, o, n) {
      var k := i + |GitHubHost| + |o|;
      if 0 <= k < |s| {
        assert s[k] in s;
      }
    }
    SearchNoneIff(s);
    SplitHasTwo(s, '/');
  }

  lemma ExtractNotAUrl()
    ensures ExtractRepoInfo(Some("not-a-url")) == RepoInfo("not-a-url", "unknown")
  {
    ExtractNoSlash("not-a-url");
  }
}
