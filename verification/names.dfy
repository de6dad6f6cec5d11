/** Dependency-name canonicalisation: a Go module path under GitHub,
    `github.com/<org>/<repo>/<...>`, is reported under its repository name
    alone. Built on a model of `strings.Split` with a one-character
    separator. */
module Names {
  import opened Strings
  import opened Wrappers

  /** The prefix that marks a GitHub module path. */
  const GitHubHost: string := "github.com"

  /** Index of the first `c` in `s`, or `|s|` when there is none. */
  function IndexOf(s: string, c: char): (i: nat)
    ensures i <= |s|
    ensures i < |s| ==> s[i] == c
    ensures c !in s[..i]
  {
    if |s| == 0 then 0
    else if s[0] == c then 0
    else
      var j := IndexOf(s[1..], c);
      assert s[..1 + j] == [s[0]] + s[1..][..j];
      1 + j
  }

  /** `strings.Join` with a one-character separator. */
  function Join(parts: seq<string>, sep: char): string {
    if |parts| == 0 then ""
    else if |parts| == 1 then parts[0]
    else parts[0] + [sep] + Join(parts[1..], sep)
  }

  /** Joining a leading piece onto at least one more piece puts a
      separator between them. */
  lemma JoinCons(a: string, rest: seq<string>, sep: char)
    requires |rest| > 0
    ensures Join([a] + rest, sep) == a + [sep] + Join(rest, sep)
  {
    assert ([a] + rest)[1..] == rest;
  }

  /** `strings.Split` with a one-character separator: the pieces between
      separators, one more piece than there are separators, none of them
      holding the separator, and joining them back gives `s`. */
  function Split(s: string, sep: char): (parts: seq<string>)
    ensures |parts| == multiset(s)[sep] + 1
    ensures forall i :: 0 <= i < |parts| ==> sep !in parts[i]
    ensures Join(parts, sep) == s
    decreases |s|
  {
    var i := IndexOf(s, sep);
    if i == |s| then
      assert s[..i] == s;
      [s]
    else
      var rest := Split(s[i + 1..], sep);
      SplitStep(s, sep, i, rest);
      [s[..i]] + rest
  }

  /** One step of `Split`: the piece before the first separator, put in
      front of the pieces of what follows it, are the pieces of `s`. */
  lemma SplitStep(s: string, sep: char, i: nat, rest: seq<string>)
    requires i < |s| && s[i] == sep && sep !in s[..i]
    requires |rest| == multiset(s[i + 1..])[sep] + 1
    requires forall k :: 0 <= k < |rest| ==> sep !in rest[k]
    requires Join(rest, sep) == s[i + 1..]
    ensures |[s[..i]] + rest| == multiset(s)[sep] + 1
    ensures forall k :: 0 <= k < |[s[..i]] + rest| ==> sep !in ([s[..i]] + rest)[k]
    ensures Join([s[..i]] + rest, sep) == s
  {
    CountAroundSeparator(s, i);
    JoinCons(s[..i], rest, sep);
    assert s == s[..i] + [sep] + s[i + 1..];
  }

  /** Cutting `s` at its first separator removes exactly one separator. */
  lemma CountAroundSeparator(s: string, i: nat)
    requires i < |s| && s[i] !in s[..i]
    ensures multiset(s)[s[i]] == multiset(s[i + 1..])[s[i]] + 1
  {
    assert s == s[..i] + ([s[i]] + s[i + 1..]);
    assert multiset(s[..i])[s[i]] == 0;
  }

  /** The first separator of `a + [sep] + t` is the one after `a`. */
  lemma IndexOfAfterPiece(a: string, sep: char, t: string)
    requires sep !in a
    ensures IndexOf(a + [sep] + t, sep) == |a|
  {
    var s := a + [sep] + t;
    assert s[|a|] == sep;
    assert s[..|a|] == a;
  }

  /** Splitting peels off a leading piece that holds no separator. */
  lemma SplitAfterPiece(a: string, sep: char, t: string)
    requires sep !in a
    ensures Split(a + [sep] + t, sep) == [a] + Split(t, sep)
  {
    var s := a + [sep] + t;
    IndexOfAfterPiece(a, sep, t);
    assert s[..|a|] == a;
    assert s[|a| + 1..] == t;
  }

  /** A string without the separator is a single piece. */
  lemma SplitWhole(a: string, sep: char)
    requires sep !in a
    ensures Split(a, sep) == [a]
  {
    assert a[..IndexOf(a, sep)] == a;
  }

  /** Joining pieces without separators and splitting again gives the
      pieces back: `Split` and `Join` are inverse. */
  lemma {:induction false} SplitJoin(parts: seq<string>, sep: char)
    requires |parts| > 0
    requires forall i :: 0 <= i < |parts| ==> sep !in parts[i]
    ensures Split(Join(parts, sep), sep) == parts
  {
    if |parts| == 1 {
      SplitWhole(parts[0], sep);
    } else {
      SplitJoin(parts[1..], sep);
      SplitAfterPiece(parts[0], sep, Join(parts[1..], sep));
    }
  }

  /** The name a dependency is reported under. A GitHub path yields its
      third `/`-separated segment; a GitHub path with fewer than three
      segments makes the source index out of range, which is `None` here;
      any other name is kept. */
  function CanonicalName(name: string): (r: Option<string>)
    ensures !HasPrefix(name, GitHubHost) ==> r == Some(name)
    ensures r.None? <==> HasPrefix(name, GitHubHost) && multiset(name)['/'] < 2
    ensures HasPrefix(name, GitHubHost) && r.Some? ==> '/' !in r.value && |r.value| < |name|
  {
    if HasPrefix(name, GitHubHost) then
      var nameParts := Split(name, '/');
      if |nameParts| >= 3 then
        assert |nameParts[2]| < |name| by {
          assert Join(nameParts, '/') == nameParts[0] + ['/'] + Join(nameParts[1..], '/');
          assert Join(nameParts[1..], '/') == nameParts[1] + ['/'] + Join(nameParts[2..], '/');
          assert |Join(nameParts[2..], '/')| >= |nameParts[2]|;
        }
        Some(nameParts[2])
      else None
    else Some(name)
  }

  /** The first piece of `a + rest` is `a` when `rest` is empty or starts
      with the separator. */
  lemma SplitFirstPiece(a: string, sep: char, rest: string)
    requires sep !in a
    requires rest == "" || rest[0] == sep
    ensures Split(a + rest, sep)[0] == a
  {
    if rest == "" {
      assert a + rest == a;
      SplitWhole(a, sep);
    } else {
      assert a + rest == a + [sep] + rest[1..];
      SplitAfterPiece(a, sep, rest[1..]);
    }
  }

  /** A GitHub path `<host>/<org>/<repo>` followed by nothing or by a
      further `/...` is reported as `<repo>`. */
  lemma CanonicalNameOfRepoPath(host: string, org: string, repo: string, rest: string)
    requires HasPrefix(host, GitHubHost)
    requires '/' !in host && '/' !in org && '/' !in repo
    requires rest == "" || rest[0] == '/'
    ensures CanonicalName(host + "/" + org + "/" + repo + rest) == Some(repo)
  {
    var name := host + "/" + org + "/" + repo + rest;
    var tail := repo + rest;
    assert name == host + ['/'] + (org + ['/'] + tail);
    assert HasPrefix(name, GitHubHost) by {
      assert name[..|GitHubHost|] == host[..|GitHubHost|];
    }
    SplitAfterPiece(host, '/', org + ['/'] + tail);
    SplitAfterPiece(org, '/', tail);
    SplitFirstPiece(repo, '/', rest);
    var parts := Split(name, '/');
    assert parts == [host] + ([org] + Split(tail, '/'));
    assert parts[2] == repo;
  }

  /** `github.com/acme/widget/v2` is reported as `widget`. */
  lemma WidgetExample()
    ensures CanonicalName("github.com/acme/widget/v2") == Some("widget")
  {
    assert "github.com/acme/widget/v2" == "github.com" + "/" + "acme" + "/" + "widget" + "/v2";
    CanonicalNameOfRepoPath("github.com", "acme", "widget", "/v2");
  }

  /** Canonical names may collide: two repositories named alike under
      different organisations are both reported as that name. */
  lemma CanonicalNamesCollide()
    ensures CanonicalName("github.com/a/x") == CanonicalName("github.com/b/x") == Some("x")
  {
    assert "github.com/a/x" == "github.com" + "/" + "a" + "/" + "x" + "";
    assert "github.com/b/x" == "github.com" + "/" + "b" + "/" + "x" + "";
    CanonicalNameOfRepoPath("github.com", "a", "x", "");
    CanonicalNameOfRepoPath("github.com", "b", "x", "");
  }
}
