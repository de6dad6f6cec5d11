/** Properties of the whole of `getAllRepoModules`: the blacklist gate
    comes before every fetch, what a successful run returns, which calls
    it makes, and that the map's iteration order does not matter. */
module Pipeline {
  import opened Wrappers
  import opened Strings
  import opened Types
  import opened Blacklist
  import opened Names
  import opened Ordering
  import opened Licenses

  /** The precondition of `GetAllRepoModules`: `order` enumerates the
      merged names whenever there are any. */
  predicate ValidOrder(scan: Scan, order: seq<string>) {
    RepoModules(scan).Success? ==> IsEnumeration(order, RepoModules(scan).value.Keys)
  }

  /** A failure to scan is returned as it is, before anything is fetched. */
  lemma ScanFailurePropagates(env: Env, keys: seq<string>, scan: Scan, order: seq<string>)
    requires ValidOrder(scan, order)
    requires RepoModules(scan).Failure?
    ensures GetAllRepoModules(env, keys, scan, order) == Traced(Failure(RepoModules(scan).error), [])
  {
  }

  /** The gate: the run fails with "failed blacklist check" exactly when
      some merged dependency has a blacklisted license id, and then it
      makes no call at all, neither a URL rewrite nor a request. */
  lemma BlacklistGate(env: Env, keys: seq<string>, scan: Scan, order: seq<string>)
    requires ValidOrder(scan, order)
    ensures GetAllRepoModules(env, keys, scan, order).result == Failure(Blacklisted(BlacklistFailure)) <==>
              RepoModules(scan).Success? && Violators(keys, RepoModules(scan).value) != {}
    ensures RepoModules(scan).Success? && Violators(keys, RepoModules(scan).value) != {} ==>
              GetAllRepoModules(env, keys, scan, order).calls == []
  {
    if RepoModules(scan).Success? {
      CountViolationsIsViolatorCount(keys, RepoModules(scan).value, order);
    }
  }

  /** A run succeeds exactly when the scan succeeds, no merged dependency
      is blacklisted, and every merged dependency's license can be fetched
      and its name canonicalised. */
  lemma SuccessCharacterised(env: Env, keys: seq<string>, scan: Scan, order: seq<string>)
    requires ValidOrder(scan, order)
    ensures GetAllRepoModules(env, keys, scan, order).result.Success? <==>
              && RepoModules(scan).Success?
              && Violators(keys, RepoModules(scan).value) == {}
              && forall k :: k in RepoModules(scan).value ==> Resolvable(env, RepoModules(scan).value[k])
  {
    if RepoModules(scan).Success? {
      var m := RepoModules(scan).value;
      CountViolationsIsViolatorCount(keys, m, order);
      forall k | k in m
        ensures exists i :: 0 <= i < |order| && order[i] == k
      {
        assert k in order;
      }
    }
  }

  /** `l` is the resolved entry of some merged dependency. */
  ghost predicate ResolvedEntry(env: Env, m: map<string, Record>, l: License) {
    exists k :: k in m && Resolvable(env, m[k]) && l == Resolved(env, m[k])
  }

  /** The resolved entries of the dependencies listed in `order`, in that
      order. */
  function ResolvedInOrder(env: Env, m: map<string, Record>, order: seq<string>): seq<License>
    requires forall i :: 0 <= i < |order| ==> order[i] in m && Resolvable(env, m[order[i]])
  {
    seq(|order|, i requires 0 <= i < |order| => Resolved(env, m[order[i]]))
  }

  /** A successful run is the sorted result of resolving every merged
      dependency in `order`. */
  lemma SuccessUnfolds(env: Env, keys: seq<string>, scan: Scan, order: seq<string>)
    requires ValidOrder(scan, order)
    requires GetAllRepoModules(env, keys, scan, order).result.Success?
    ensures RepoModules(scan).Success?
    ensures ResolveAll(env, RepoModules(scan).value, order).result.Success?
    ensures GetAllRepoModules(env, keys, scan, order).result.value
            == SortByName(ResolveAll(env, RepoModules(scan).value, order).result.value)
  {
  }

  /** A permutation of the resolved entries of an enumeration of `m` holds
      one resolved entry per key and nothing else. */
  lemma PermutedResolved(env: Env, m: map<string, Record>, order: seq<string>, unsorted: seq<License>, licenses: seq<License>)
    requires IsEnumeration(order, m.Keys)
    requires forall i :: 0 <= i < |order| ==> Resolvable(env, m[order[i]])
    requires |unsorted| == |order| && forall i :: 0 <= i < |order| ==> unsorted[i] == Resolved(env, m[order[i]])
    requires multiset(licenses) == multiset(unsorted)
    ensures forall j :: 0 <= j < |licenses| ==> ResolvedEntry(env, m, licenses[j])
    ensures forall k :: k in m ==> Resolvable(env, m[k]) && Resolved(env, m[k]) in licenses
    ensures unsorted == ResolvedInOrder(env, m, order)
  {
    forall j | 0 <= j < |licenses|
      ensures ResolvedEntry(env, m, licenses[j])
    {
      assert licenses[j] in multiset(unsorted);
      var i :| 0 <= i < |unsorted| && unsorted[i] == licenses[j];
      var k := order[i];
      assert k in m && Resolvable(env, m[k]) && licenses[j] == Resolved(env, m[k]);
    }
    forall k | k in m
      ensures Resolvable(env, m[k]) && Resolved(env, m[k]) in licenses
    {
      var i :| 0 <= i < |order| && order[i] == k;
      assert unsorted[i] in multiset(licenses);
    }
  }

  /** On success the list holds exactly the resolved entries of the merged
      dependencies, one per dependency, sorted by name. */
  lemma SuccessContents(env: Env, keys: seq<string>, scan: Scan, order: seq<string>)
    requires ValidOrder(scan, order)
    requires GetAllRepoModules(env, keys, scan, order).result.Success?
    ensures var m := RepoModules(scan).value;
            var licenses := GetAllRepoModules(env, keys, scan, order).result.value;
            && SortedByName(licenses)
            && |licenses| == |m|
            && (forall j :: 0 <= j < |licenses| ==> ResolvedEntry(env, m, licenses[j]))
            && (forall k :: k in m ==> Resolvable(env, m[k]) && Resolved(env, m[k]) in licenses)
    ensures var m := RepoModules(scan).value;
            && (forall i :: 0 <= i < |order| ==> order[i] in m && Resolvable(env, m[order[i]]))
            && multiset(GetAllRepoModules(env, keys, scan, order).result.value) == multiset(ResolvedInOrder(env, m, order))
  {
    SuccessUnfolds(env, keys, scan, order);
    var m := RepoModules(scan).value;
    var unsorted := ResolveAll(env, m, order).result.value;
    var licenses := GetAllRepoModules(env, keys, scan, order).result.value;
    assert licenses == SortByName(unsorted);
    PermutedResolved(env, m, order, unsorted, licenses);
  }

  /** Every call a run makes belongs to a full visit of the merged map in
      `order`; the visit stops early only on a failure. */
  lemma CallsArePrefix(env: Env, keys: seq<string>, scan: Scan, order: seq<string>)
    requires ValidOrder(scan, order)
    requires RepoModules(scan).Success?
    ensures GetAllRepoModules(env, keys, scan, order).calls <= AllCalls(env, RepoModules(scan).value, order)
    ensures GetAllRepoModules(env, keys, scan, order).result.Success? ==>
              GetAllRepoModules(env, keys, scan, order).calls == AllCalls(env, RepoModules(scan).value, order)
  {
  }

  /** `getGitHubRawUrl` is called only for license URLs that start with
      "https://github.com"; on success it is called for each of them, and
      every dependency's license is requested. */
  lemma RewriteOnlyGitHub(env: Env, keys: seq<string>, scan: Scan, order: seq<string>, u: string)
    requires ValidOrder(scan, order)
    ensures RawUrlCall(u) in GetAllRepoModules(env, keys, scan, order).calls ==> HasPrefix(u, GitHubUrlPrefix)
    ensures GetAllRepoModules(env, keys, scan, order).result.Success? ==>
              var m := RepoModules(scan).value;
              (forall k :: k in m && m[k].licenseUrl == u && HasPrefix(u, GitHubUrlPrefix) ==>
                 RawUrlCall(u) in GetAllRepoModules(env, keys, scan, order).calls)
              && (forall k :: k in m ==> HttpGet(RequestUrl(env, m[k].licenseUrl)) in GetAllRepoModules(env, keys, scan, order).calls)
  {
    if RepoModules(scan).Success? {
      var m := RepoModules(scan).value;
      var r := GetAllRepoModules(env, keys, scan, order);
      CallsArePrefix(env, keys, scan, order);
      AllCallsContents(env, m, order, u);
      if RawUrlCall(u) in r.calls {
        var all := AllCalls(env, m, order);
        var n :| 0 <= n < |r.calls| && r.calls[n] == RawUrlCall(u);
        assert all[n] == RawUrlCall(u);
      }
      if r.result.Success? {
        forall k | k in m && m[k].licenseUrl == u && HasPrefix(u, GitHubUrlPrefix)
          ensures RawUrlCall(u) in r.calls
        {
          assert k in order;
          var i :| 0 <= i < |order| && order[i] == k;
        }
        forall k | k in m
          ensures HttpGet(RequestUrl(env, m[k].licenseUrl)) in r.calls
        {
          assert k in order;
          var i :| 0 <= i < |order| && order[i] == k;
        }
      }
    }
  }

  // ---------------------------------------------------------------------
  // Independence from the map's iteration order

  /** `s` without its `j`-th element. */
  function Without<T>(s: seq<T>, j: int): (r: seq<T>)
    requires 0 <= j < |s|
    ensures |r| == |s| - 1
    ensures forall i :: 0 <= i < |r| ==> r[i] == (if i < j then s[i] else s[i + 1])
    ensures multiset(s) == multiset(r) + multiset{s[j]}
  {
    assert s == s[..j] + [s[j]] + s[j + 1..];
    s[..j] + s[j + 1..]
  }

  /** Two listings of the same keys, mapped through the same function,
      give the same multiset. */
  lemma {:induction false} ImagesPermuted<K, V>(o1: seq<K>, o2: seq<K>, s1: seq<V>, s2: seq<V>, f: K -> V)
    requires multiset(o1) == multiset(o2)
    requires |s1| == |o1| && forall i :: 0 <= i < |o1| ==> s1[i] == f(o1[i])
    requires |s2| == |o2| && forall i :: 0 <= i < |o2| ==> s2[i] == f(o2[i])
    ensures multiset(s1) == multiset(s2)
    decreases |o1|
  {
    assert |o1| == |multiset(o1)| == |multiset(o2)| == |o2|;
    if |o1| > 0 {
      var k := o1[0];
      assert k in multiset(o2);
      var j :| 0 <= j < |o2| && o2[j] == k;
      var w1, w2 := Without(o1, 0), Without(o2, j);
      assert multiset(w1) == multiset(w2) by {
        forall x
          ensures multiset(w1)[x] == multiset(w2)[x]
        {
          assert (multiset(w1) + multiset{k})[x] == (multiset(w2) + multiset{k})[x];
        }
      }
      ImagesPermuted(w1, w2, Without(s1, 0), Without(s2, j), f);
    }
  }

  lemma OccursOnce<T>(s: seq<T>, i: int)
    requires 0 <= i < |s|
    requires forall p :: 0 <= p < |s| && p != i ==> s[p] != s[i]
    ensures multiset(s)[s[i]] == 1
  {
    assert s == s[..i] + [s[i]] + s[i + 1..];
    assert s[i] !in s[..i];
    assert s[i] !in s[i + 1..];
  }

  lemma OccursTwice<T>(s: seq<T>, a: int, b: int)
    requires 0 <= a < b < |s| && s[a] == s[b]
    ensures multiset(s)[s[a]] >= 2
  {
    assert s == s[..a] + [s[a]] + s[a + 1..];
    assert s[b] in s[a + 1..];
  }

  /** Two iteration orders of the same map are permutations of each other. */
  lemma EnumerationsPermuted(o1: seq<string>, o2: seq<string>, keys: set<string>)
    requires IsEnumeration(o1, keys) && IsEnumeration(o2, keys)
    ensures multiset(o1) == multiset(o2)
  {
    forall x
      ensures multiset(o1)[x] == multiset(o2)[x]
    {
      if x in keys {
        var i :| 0 <= i < |o1| && o1[i] == x;
        var j :| 0 <= j < |o2| && o2[j] == x;
        OccursOnce(o1, i);
        OccursOnce(o2, j);
      }
    }
  }

  /** Permuting entries keeps their names distinct. */
  lemma DistinctNamesPermuted(s: seq<License>, t: seq<License>)
    requires DistinctNames(s) && multiset(s) == multiset(t)
    ensures DistinctNames(t)
  {
    forall a, b | 0 <= a < b < |t| && t[a].name == t[b].name
      ensures false
    {
      assert t[a] in multiset(s);
      var i :| 0 <= i < |s| && s[i] == t[a];
      assert t[b] in multiset(s);
      var j :| 0 <= j < |s| && s[j] == t[b];
      assert i == j;
      OccursOnce(s, i);
      OccursTwice(t, a, b);
    }
  }

  /** Resolving in two iteration orders succeeds alike and gives the same
      entries. */
  lemma ResolveAllPermuted(env: Env, m: map<string, Record>, o1: seq<string>, o2: seq<string>)
    requires IsEnumeration(o1, m.Keys) && IsEnumeration(o2, m.Keys)
    requires ResolveAll(env, m, o1).result.Success?
    ensures ResolveAll(env, m, o2).result.Success?
    ensures multiset(ResolveAll(env, m, o1).result.value) == multiset(ResolveAll(env, m, o2).result.value)
  {
    forall i | 0 <= i < |o2|
      ensures Resolvable(env, m[o2[i]])
    {
      var p :| 0 <= p < |o1| && o1[p] == o2[i];
    }
    var f := (k: string) => if k in m && Resolvable(env, m[k]) then Resolved(env, m[k]) else License("", "", "", false);
    EnumerationsPermuted(o1, o2, m.Keys);
    ImagesPermuted(o1, o2, ResolveAll(env, m, o1).result.value, ResolveAll(env, m, o2).result.value, f);
  }

  /** When no two merged names canonicalise alike, the resolved entries
      carry distinct names. */
  lemma ResolvedNamesDistinct(env: Env, m: map<string, Record>, order: seq<string>)
    requires IsEnumeration(order, m.Keys)
    requires ResolveAll(env, m, order).result.Success?
    requires forall k :: k in m ==> m[k].name == k
    requires forall k1, k2 :: k1 in m && k2 in m && k1 != k2 ==> CanonicalName(k1) != CanonicalName(k2)
    ensures DistinctNames(ResolveAll(env, m, order).result.value)
  {
    var u := ResolveAll(env, m, order).result.value;
    forall i, j | 0 <= i < |u| && 0 <= j < |u| && i != j
      ensures u[i].name != u[j].name
    {
      assert Some(u[i].name) == CanonicalName(m[order[i]].name);
      assert Some(u[j].name) == CanonicalName(m[order[j]].name);
    }
  }

  /** Whatever the iteration order, a run succeeds or fails alike, and a
      successful run returns the same entries. When no two merged names
      canonicalise to the same name, it returns the very same list. */
  lemma OrderIrrelevant(env: Env, keys: seq<string>, scan: Scan, o1: seq<string>, o2: seq<string>)
    requires ValidOrder(scan, o1) && ValidOrder(scan, o2)
    ensures GetAllRepoModules(env, keys, scan, o1).result.Success? == GetAllRepoModules(env, keys, scan, o2).result.Success?
    ensures GetAllRepoModules(env, keys, scan, o1).result.Success? ==>
              multiset(GetAllRepoModules(env, keys, scan, o1).result.value)
              == multiset(GetAllRepoModules(env, keys, scan, o2).result.value)
    ensures GetAllRepoModules(env, keys, scan, o1).result.Success? &&
            (forall k1, k2 :: k1 in RepoModules(scan).value && k2 in RepoModules(scan).value && k1 != k2 ==>
               CanonicalName(k1) != CanonicalName(k2)) ==>
              GetAllRepoModules(env, keys, scan, o1).result == GetAllRepoModules(env, keys, scan, o2).result
  {
    SuccessCharacterised(env, keys, scan, o1);
    SuccessCharacterised(env, keys, scan, o2);
    if GetAllRepoModules(env, keys, scan, o1).result.Success? {
      SuccessUnfolds(env, keys, scan, o1);
      SuccessUnfolds(env, keys, scan, o2);
      var m := RepoModules(scan).value;
      var u1 := ResolveAll(env, m, o1).result.value;
      var u2 := ResolveAll(env, m, o2).result.value;
      ResolveAllPermuted(env, m, o1, o2);
      if forall k1, k2 :: k1 in m && k2 in m && k1 != k2 ==> CanonicalName(k1) != CanonicalName(k2) {
        ResolvedNamesDistinct(env, m, o1);
        DistinctNamesPermuted(u1, SortByName(u1));
        SortedPermutationUnique(SortByName(u1), SortByName(u2));
      }
    }
  }

  // ---------------------------------------------------------------------
  // The embedded policy

  /** As written, the policy comes from empty content, so the gate never
      fires: no dependency is ever rejected for its license. */
  lemma AsWrittenGateNeverFires(env: Env, lines: seq<string>, scan: Scan, order: seq<string>)
    requires forall i :: 0 <= i < |lines| ==> IsSubstring(lines[i], "")
    requires ValidOrder(scan, order)
    ensures GetAllRepoModules(env, ParseBlacklist(lines), scan, order).result != Failure(Blacklisted(BlacklistFailure))
  {
    EmbeddedPolicyIsEmpty(lines);
    BlacklistGate(env, ParseBlacklist(lines), scan, order);
    if RepoModules(scan).Success? {
      forall k | k in RepoModules(scan).value
        ensures !IsBlacklisted([], RepoModules(scan).value[k].licenseId)
      {
        EmptyBlacklistAllowsAll(RepoModules(scan).value[k].licenseId);
      }
    }
  }

  /** A scan holding one GitHub dependency under the AGPL. */
  const AgplName: string := "github.com/acme/widget"
  const AgplRecord: Record := Record(AgplName, "https://github.com/acme/widget/blob/master/LICENSE", "AGPL-3.0")
  const AgplScan: Scan := Csv([[AgplRecord.name, AgplRecord.licenseUrl, AgplRecord.licenseId]], false)

  lemma AgplScanMerges()
    ensures RepoModules(AgplScan) == Success(map[AgplName := AgplRecord])
    ensures IsEnumeration([AgplName], RepoModules(AgplScan).value.Keys)
  {
    var row := [AgplRecord.name, AgplRecord.licenseUrl, AgplRecord.licenseId];
    assert row[0][0] != OwnModulePrefix[0];
    assert !HasPrefix(row[0], OwnModulePrefix);
    var rows: seq<Row> := [row];
    assert |rows[1..]| == 0;
    var records := [AgplRecord];
    assert CollectRows(rows[1..], false) == Success([]);
    assert ToRecord(row) == AgplRecord;
    assert rows[0] == row && |row| == 3;
    assert [ToRecord(row)] + [] == records;
    assert CollectRows(rows, false) == Success(records);
    assert |records[..0]| == 0;
  }

  /** Once past the gate, the run requests the license of the first
      dependency it visits, whatever becomes of that request. */
  lemma PastGateRequests(env: Env, keys: seq<string>, scan: Scan, order: seq<string>)
    requires ValidOrder(scan, order)
    requires RepoModules(scan).Success? && |order| > 0
    requires Violators(keys, RepoModules(scan).value) == {}
    ensures HttpGet(RequestUrl(env, RepoModules(scan).value[order[0]].licenseUrl)) in GetAllRepoModules(env, keys, scan, order).calls
  {
    var m := RepoModules(scan).value;
    CountViolationsIsViolatorCount(keys, m, order);
    var one := ResolveOne(env, m[order[0]]);
    assert HttpGet(RequestUrl(env, m[order[0]].licenseUrl)) in one.calls;
    assert one.calls <= ResolveAll(env, m, order).calls;
  }

  /** The same dependency passes the gate as the program is written: its
      license is requested. */
  lemma AgplAdmittedAsWritten(env: Env, lines: seq<string>)
    requires forall i :: 0 <= i < |lines| ==> IsSubstring(lines[i], "")
    ensures && ValidOrder(AgplScan, [AgplName])
            && GetAllRepoModules(env, ParseBlacklist(lines), AgplScan, [AgplName]).result != Failure(Blacklisted(BlacklistFailure))
            && HttpGet(RequestUrl(env, AgplRecord.licenseUrl)) in GetAllRepoModules(env, ParseBlacklist(lines), AgplScan, [AgplName]).calls
  {
    AgplScanMerges();
    AsWrittenGateNeverFires(env, lines, AgplScan, [AgplName]);
    EmbeddedPolicyIsEmpty(lines);
    EmptyBlacklistAllowsAll(AgplRecord.licenseId);
    assert Violators([], map[AgplName := AgplRecord]) == {};
    PastGateRequests(env, [], AgplScan, [AgplName]);
  }

  /** With the policy file actually embedded, a policy line "GPL" rejects
      the AGPL dependency before anything is fetched. */
  lemma AgplRejectedByPolicy(env: Env)
    ensures && ValidOrder(AgplScan, [AgplName])
            && GetAllRepoModules(env, ParseBlacklist(["GPL"]), AgplScan, [AgplName]) == Traced(Failure(Blacklisted(BlacklistFailure)), [])
  {
    ParseOneLine("GPL");
    GplLineKept();
    GplPolicyMatches();
    AgplScanMerges();
    assert AgplName in Violators(["gpl"], map[AgplName := AgplRecord]);
    BlacklistGate(env, ["gpl"], AgplScan, [AgplName]);
  }
}
