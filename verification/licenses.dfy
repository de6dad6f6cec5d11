/** The license-resolution pipeline of licenses.go: scanner rows become
    dependency records (`getModuleLicenses`); records are merged by name,
    checked against the blacklist, resolved to license texts and sorted
    (`getAllRepoModules`). Go's map iteration order is an explicit
    parameter `order`, an enumeration of the merged names. */
module Licenses {
  import opened Wrappers
  import opened Strings
  import opened Types
  import opened Blacklist
  import opened Names
  import opened Ordering

  /** Packages of the project itself, which are not reported. */
  const OwnModulePrefix: string := "mosaicmfg.com"

  /** License URLs under this prefix are rewritten to raw-content URLs. */
  const GitHubUrlPrefix: string := "https://github.com"

  /** The error message of a failed blacklist check. */
  const BlacklistFailure: string := "failed blacklist check"

  // ---------------------------------------------------------------------
  // getModuleLicenses

  /** A row naming one of the project's own packages. */
  predicate IsOwnModule(row: Row) {
    |row| > 0 && HasPrefix(row[0], OwnModulePrefix)
  }

  /** The row can be handled without indexing past its end: it has a name,
      and unless it is skipped it also has a URL and an id. */
  predicate RowInRange(row: Row) {
    |row| > 0 && (HasPrefix(row[0], OwnModulePrefix) || |row| >= 3)
  }

  function ToRecord(row: Row): Record
    requires |row| >= 3
  {
    Record(row[0], row[1], row[2])
  }

  /** The reading loop of `getModuleLicenses` over the rows the CSV reader
      delivers, followed by the reader's end or error. A row is looked at
      before any later read error can surface. */
  function CollectRows(rows: seq<Row>, readError: bool): (r: Result<seq<Record>, Error>)
    ensures r.Success? <==> !readError && forall i :: 0 <= i < |rows| ==> RowInRange(rows[i])
    ensures r.Failure? ==> (r.error == IndexOutOfRange <==> exists i :: 0 <= i < |rows| && !RowInRange(rows[i]))
    ensures r.Failure? ==> r.error == IndexOutOfRange || r.error == CsvError
    ensures r.Success? ==> |r.value| <= |rows|
  {
    if |rows| == 0 then
      if readError then Failure(CsvError) else Success([])
    else
      var row := rows[0];
      assert forall i :: 0 < i < |rows| ==> rows[i] == rows[1..][i - 1];
      if |row| == 0 then
        Failure(IndexOutOfRange)
      else if HasPrefix(row[0], OwnModulePrefix) then
        CollectRows(rows[1..], readError)
      else if |row| < 3 then
        Failure(IndexOutOfRange)
      else
        match CollectRows(rows[1..], readError)
        case Failure(e) => Failure(e)
        case Success(rest) => Success([ToRecord(row)] + rest)
  }

  /** `getModuleLicenses`: a scanner that cannot be run or whose output
      cannot be read fails the call; otherwise the rows are collected. */
  function ModuleLicenses(scan: Scan): (r: Result<seq<Record>, Error>)
    ensures r.Success? <==> scan.Csv? && !scan.readError && forall i :: 0 <= i < |scan.rows| ==> RowInRange(scan.rows[i])
    ensures scan.CommandFailed? ==> r == Failure(CommandError)
    ensures r.Failure? ==> r.error in {CommandError, CsvError, IndexOutOfRange}
  {
    match scan
    case CommandFailed => Failure(CommandError)
    case Csv(rows, readError) => CollectRows(rows, readError)
  }

  /** Every collected record comes from a row that is not one of the
      project's own packages, and every such row yields its record. */
  lemma {:induction false} CollectRowsRecords(rows: seq<Row>, readError: bool, records: seq<Record>)
    requires CollectRows(rows, readError) == Success(records)
    ensures forall j :: 0 <= j < |records| ==>
              exists i :: 0 <= i < |rows| && |rows[i]| >= 3 && !IsOwnModule(rows[i]) && records[j] == ToRecord(rows[i])
    ensures forall i :: 0 <= i < |rows| && |rows[i]| >= 3 && !IsOwnModule(rows[i]) ==> ToRecord(rows[i]) in records
  {
    if |rows| > 0 {
      var tail := rows[1..];
      var rest := CollectRows(tail, readError).value;
      CollectRowsRecords(tail, readError, rest);
      assert forall i :: 0 < i < |rows| ==> rows[i] == tail[i - 1];
      forall j | 0 <= j < |records|
        ensures exists i :: 0 <= i < |rows| && |rows[i]| >= 3 && !IsOwnModule(rows[i]) && records[j] == ToRecord(rows[i])
      {
        var k := if IsOwnModule(rows[0]) then j else j - 1;
        if k >= 0 {
          assert records[j] == rest[k];
          var i :| 0 <= i < |tail| && |tail[i]| >= 3 && !IsOwnModule(tail[i]) && rest[k] == ToRecord(tail[i]);
          assert rows[i + 1] == tail[i];
          assert 0 <= i + 1 < |rows| && |rows[i + 1]| >= 3 && !IsOwnModule(rows[i + 1]) && records[j] == ToRecord(rows[i + 1]);
        } else {
          assert records[0] == ToRecord(rows[0]);
          assert 0 <= 0 < |rows| && |rows[0]| >= 3 && !IsOwnModule(rows[0]) && records[j] == ToRecord(rows[0]);
        }
      }
      assert forall j :: 0 <= j < |records| ==>
              exists i :: 0 <= i < |rows| && |rows[i]| >= 3 && !IsOwnModule(rows[i]) && records[j] == ToRecord(rows[i]);
      forall i | 0 <= i < |rows| && |rows[i]| >= 3 && !IsOwnModule(rows[i])
        ensures ToRecord(rows[i]) in records
      {
        if i > 0 {
          assert ToRecord(tail[i - 1]) in rest;
        }
      }
    } else {
      assert records == [];
    }
  }

  /** No collected record names one of the project's own packages. */
  lemma OwnModulesSkipped(rows: seq<Row>, readError: bool, records: seq<Record>)
    requires CollectRows(rows, readError) == Success(records)
    ensures forall j :: 0 <= j < |records| ==> !HasPrefix(records[j].name, OwnModulePrefix)
  {
    CollectRowsRecords(rows, readError, records);
  }

  /** Rows are collected in input order: the records of two successive
      batches of rows are the records of the first followed by those of
      the second. */
  lemma {:induction false} CollectRowsAppend(a: seq<Row>, b: seq<Row>, readError: bool)
    requires CollectRows(a, false).Success?
    ensures CollectRows(a + b, readError).Success? <==> CollectRows(b, readError).Success?
    ensures CollectRows(b, readError).Success? ==>
              CollectRows(a + b, readError).value == CollectRows(a, false).value + CollectRows(b, readError).value
    ensures CollectRows(b, readError).Failure? ==> CollectRows(a + b, readError) == CollectRows(b, readError)
  {
    if |a| == 0 {
      assert a + b == b;
    } else {
      var ab := a + b;
      assert ab[1..] == a[1..] + b;
      assert ab[0] == a[0];
      CollectRowsAppend(a[1..], b, readError);
      if !IsOwnModule(a[0]) && CollectRows(b, readError).Success? {
        var first := CollectRows(a[1..], false).value;
        var second := CollectRows(b, readError).value;
        assert [ToRecord(a[0])] + (first + second) == ([ToRecord(a[0])] + first) + second;
      }
    }
  }

  // ---------------------------------------------------------------------
  // getAllRepoModules: merging

  /** `i` is the first position at which its name appears. */
  predicate FirstWithName(records: seq<Record>, i: int) {
    0 <= i < |records| && forall j :: 0 <= j < i ==> records[j].name != records[i].name
  }

  /** The names the records carry. */
  function NameSet(records: seq<Record>): set<string> {
    set i | 0 <= i < |records| :: records[i].name
  }

  lemma NameSetSnoc(records: seq<Record>, last: Record)
    ensures NameSet(records + [last]) == NameSet(records) + {last.name}
  {
    var all := records + [last];
    assert forall i :: 0 <= i < |records| ==> all[i] == records[i];
    assert all[|records|] == last;
  }

  /** The merge into a map keyed by name, where the first record with a
      name wins and later ones are dropped. Its keys are exactly the names
      of the records, and each key maps to a record of that name. */
  function Dedup(records: seq<Record>): (m: map<string, Record>)
    ensures m.Keys == NameSet(records)
    ensures forall k :: k in m ==> m[k].name == k
    decreases |records|
  {
    if |records| == 0 then map[]
    else
      var n := |records| - 1;
      var m := Dedup(records[..n]);
      var last := records[n];
      assert records == records[..n] + [last];
      NameSetSnoc(records[..n], last);
      if last.name in m then m else m[last.name := last]
  }

  /** First occurrence wins: each name maps to the first record that
      carries it, so later duplicates change nothing. */
  lemma {:induction false} DedupFirstWins(records: seq<Record>, i: int)
    requires FirstWithName(records, i)
    ensures Dedup(records)[records[i].name] == records[i]
    decreases |records|
  {
    var n := |records| - 1;
    var prefix := records[..n];
    var last := records[n];
    if i < n {
      assert prefix[i] == records[i];
      assert FirstWithName(prefix, i) by {
        forall j | 0 <= j < i
          ensures prefix[j].name != prefix[i].name
        {
          assert prefix[j] == records[j];
        }
      }
      DedupFirstWins(prefix, i);
    } else {
      assert last.name !in NameSet(prefix) by {
        forall j | 0 <= j < n
          ensures prefix[j].name != last.name
        {
          assert prefix[j] == records[j];
        }
      }
    }
  }

  /** `order` lists every key of the map exactly once: one possible
      iteration order of a Go map with those keys. */
  predicate IsEnumeration(order: seq<string>, keys: set<string>) {
    && (forall i, j :: 0 <= i < j < |order| ==> order[i] != order[j])
    && (forall i :: 0 <= i < |order| ==> order[i] in keys)
    && (forall k :: k in keys ==> k in order)
  }

  /** `getModuleLicenses` followed by the merge. */
  function RepoModules(scan: Scan): (r: Result<map<string, Record>, Error>)
    ensures r.Success? <==> ModuleLicenses(scan).Success?
    ensures r.Success? ==> r.value.Keys == NameSet(ModuleLicenses(scan).value)
    ensures r.Success? ==> forall k :: k in r.value ==> r.value[k].name == k
    ensures r.Failure? ==> r.error in {CommandError, CsvError, IndexOutOfRange}
  {
    match ModuleLicenses(scan)
    case Failure(e) => Failure(e)
    case Success(records) => Success(Dedup(records))
  }

  // ---------------------------------------------------------------------
  // getAllRepoModules: the blacklist gate

  /** The counting loop of the blacklist check, visiting the map in
      `order`; it does not stop at the first violation. */
  function CountViolations(keys: seq<string>, m: map<string, Record>, order: seq<string>): (n: nat)
    requires forall i :: 0 <= i < |order| ==> order[i] in m
    ensures n <= |order|
    ensures n == 0 <==> forall i :: 0 <= i < |order| ==> !IsBlacklisted(keys, m[order[i]].licenseId)
  {
    if |order| == 0 then 0
    else
      assert forall i :: 0 < i < |order| ==> order[i] == order[1..][i - 1];
      (if IsBlacklisted(keys, m[order[0]].licenseId) then 1 else 0) + CountViolations(keys, m, order[1..])
  }

  /** The names in `m` whose license id is blacklisted. */
  function Violators(keys: seq<string>, m: map<string, Record>): set<string> {
    set k | k in m && IsBlacklisted(keys, m[k].licenseId)
  }

  /** The count does not depend on the iteration order: it is the number of
      merged dependencies whose license id is blacklisted. */
  lemma {:induction false} CountViolationsIsViolatorCount(keys: seq<string>, m: map<string, Record>, order: seq<string>)
    requires IsEnumeration(order, m.Keys)
    ensures CountViolations(keys, m, order) == |Violators(keys, m)|
  {
    CountAmongListed(keys, m, order);
    assert ListedViolators(keys, m, order) == Violators(keys, m);
  }

  /** The listed names whose license id is blacklisted. */
  function ListedViolators(keys: seq<string>, m: map<string, Record>, order: seq<string>): set<string> {
    set k | k in order && k in m && IsBlacklisted(keys, m[k].licenseId)
  }

  lemma ListedViolatorsCons(keys: seq<string>, m: map<string, Record>, order: seq<string>)
    requires |order| > 0
    ensures ListedViolators(keys, m, order)
            == ListedViolators(keys, m, order[1..])
               + (if order[0] in m && IsBlacklisted(keys, m[order[0]].licenseId) then {order[0]} else {})
  {
    forall x
      ensures x in order <==> x in order[1..] || x == order[0]
    {
      assert order == [order[0]] + order[1..];
    }
  }

  lemma {:induction false} CountAmongListed(keys: seq<string>, m: map<string, Record>, order: seq<string>)
    requires forall i :: 0 <= i < |order| ==> order[i] in m
    requires forall i, j :: 0 <= i < j < |order| ==> order[i] != order[j]
    ensures CountViolations(keys, m, order) == |ListedViolators(keys, m, order)|
  {
    if |order| > 0 {
      var tail := order[1..];
      CountAmongListed(keys, m, tail);
      ListedViolatorsCons(keys, m, order);
      assert order[0] !in ListedViolators(keys, m, tail) by {
        forall i | 0 <= i < |tail|
          ensures tail[i] != order[0]
        {
          assert tail[i] == order[i + 1];
        }
      }
    }
  }

  // ---------------------------------------------------------------------
  // getAllRepoModules: resolving one license

  /** The URL requested for a license URL: GitHub URLs go through
      `getGitHubRawUrl`, all others are fetched as they are. */
  function RequestUrl(env: Env, licenseUrl: string): (u: string)
    ensures HasPrefix(licenseUrl, GitHubUrlPrefix) ==> u == env.gitHubRawUrl(licenseUrl)
    ensures !HasPrefix(licenseUrl, GitHubUrlPrefix) ==> u == licenseUrl
  {
    if HasPrefix(licenseUrl, GitHubUrlPrefix) then env.gitHubRawUrl(licenseUrl) else licenseUrl
  }

  /** A record resolves when its license text can be fetched and its name
      can be canonicalised. */
  predicate Resolvable(env: Env, record: Record) {
    env.fetch(RequestUrl(env, record.licenseUrl)).Success? && CanonicalName(record.name).Some?
  }

  /** The entry a resolvable record produces: its canonical name, its
      license id unchanged, the normalised text, and `SPDX` left false. */
  function Resolved(env: Env, record: Record): (l: License)
    requires Resolvable(env, record)
    ensures Some(l.name) == CanonicalName(record.name)
    ensures l.licenseId == record.licenseId
    ensures l.licenseText == env.normalizeNewlines(env.fetch(RequestUrl(env, record.licenseUrl)).value)
    ensures !l.spdx
  {
    License(CanonicalName(record.name).value, record.licenseId,
            env.normalizeNewlines(env.fetch(RequestUrl(env, record.licenseUrl)).value), false)
  }

  /** The calls one record costs: the rewrite of a GitHub URL, if it is
      one, and then the request. */
  function CallsFor(env: Env, record: Record): seq<Call> {
    (if HasPrefix(record.licenseUrl, GitHubUrlPrefix) then [RawUrlCall(record.licenseUrl)] else [])
    + [HttpGet(RequestUrl(env, record.licenseUrl))]
  }

  /** One iteration of the resolving loop: rewrite a GitHub URL, fetch the
      text (an error of the request, of reading or of closing the body ends
      the call), normalise it, and canonicalise the name. */
  function ResolveOne(env: Env, record: Record): (r: Traced<License>)
    ensures r.calls == CallsFor(env, record)
    ensures r.result.Success? <==> Resolvable(env, record)
    ensures r.result.Success? ==> r.result.value == Resolved(env, record)
    ensures env.fetch(RequestUrl(env, record.licenseUrl)).Failure? ==>
              r.result == Failure(FetchFailed(env.fetch(RequestUrl(env, record.licenseUrl)).error))
    ensures env.fetch(RequestUrl(env, record.licenseUrl)).Success? && CanonicalName(record.name).None? ==>
              r.result == Failure(IndexOutOfRange)
    ensures r.result.Failure? ==> r.result.error.FetchFailed? || r.result.error == IndexOutOfRange
  {
    var licenseUrl := record.licenseUrl;
    var rewrite := if HasPrefix(licenseUrl, GitHubUrlPrefix) then [RawUrlCall(licenseUrl)] else [];
    var url := if HasPrefix(licenseUrl, GitHubUrlPrefix) then env.gitHubRawUrl(licenseUrl) else licenseUrl;
    var calls := rewrite + [HttpGet(url)];
    match env.fetch(url)
    case Failure(e) => Traced(Failure(FetchFailed(e)), calls)
    case Success(body) =>
      match CanonicalName(record.name)
      case None => Traced(Failure(IndexOutOfRange), calls)
      case Some(name) => Traced(Success(License(name, record.licenseId, env.normalizeNewlines(body), false)), calls)
  }

  /** The calls of visiting every record of `order`, in that order. */
  function AllCalls(env: Env, m: map<string, Record>, order: seq<string>): seq<Call>
    requires forall i :: 0 <= i < |order| ==> order[i] in m
  {
    if |order| == 0 then []
    else CallsFor(env, m[order[0]]) + AllCalls(env, m, order[1..])
  }

  /** The resolving loop over the merged map in `order`. The first failure
      ends the loop, no list is returned, and the calls made so far are a
      prefix of those of a full visit. */
  function ResolveAll(env: Env, m: map<string, Record>, order: seq<string>): (r: Traced<seq<License>>)
    requires forall i :: 0 <= i < |order| ==> order[i] in m
    ensures r.result.Success? <==> forall i :: 0 <= i < |order| ==> Resolvable(env, m[order[i]])
    ensures r.result.Success? ==> |r.result.value| == |order|
    ensures r.result.Success? ==> forall i :: 0 <= i < |order| ==> r.result.value[i] == Resolved(env, m[order[i]])
    ensures r.result.Failure? ==> r.result.error.FetchFailed? || r.result.error == IndexOutOfRange
    ensures r.calls <= AllCalls(env, m, order)
    ensures r.result.Success? ==> r.calls == AllCalls(env, m, order)
  {
    if |order| == 0 then Traced(Success([]), [])
    else
      assert forall i :: 0 < i < |order| ==> order[i] == order[1..][i - 1];
      var one := ResolveOne(env, m[order[0]]);
      match one.result
      case Failure(e) => Traced(Failure(e), one.calls)
      case Success(license) =>
        var rest := ResolveAll(env, m, order[1..]);
        var calls := one.calls + rest.calls;
        match rest.result
        case Failure(e) => Traced(Failure(e), calls)
        case Success(licenses) =>
          var all := [license] + licenses;
          assert forall i :: 0 < i < |all| ==> all[i] == licenses[i - 1];
          Traced(Success(all), calls)
  }

  /** The loop stops at the first record, in visiting order, that cannot
      be resolved: it returns that record's own error, and its last calls
      are that record's; nothing after it is rewritten or requested. */
  lemma {:induction false} StopsAtFirstFailure(env: Env, m: map<string, Record>, order: seq<string>, i: nat)
    requires forall j :: 0 <= j < |order| ==> order[j] in m
    requires i < |order| && !Resolvable(env, m[order[i]])
    requires forall j :: 0 <= j < i ==> Resolvable(env, m[order[j]])
    ensures ResolveAll(env, m, order).result == Failure(ResolveOne(env, m[order[i]]).result.error)
    ensures ResolveAll(env, m, order).calls == AllCalls(env, m, order[..i + 1])
    decreases i
  {
    var tail := order[1..];
    AllCallsPrefixStep(env, m, order, i);
    ResolveAllStep(env, m, order);
    if i > 0 {
      assert forall j :: 0 <= j < |tail| ==> tail[j] == order[j + 1];
      StopsAtFirstFailure(env, m, tail, i - 1);
    }
  }

  /** Unfolding `ResolveAll` once: the first record's failure ends the
      visit; otherwise a failure further on keeps the first record's calls
      in front of the rest. */
  lemma ResolveAllStep(env: Env, m: map<string, Record>, order: seq<string>)
    requires forall j :: 0 <= j < |order| ==> order[j] in m
    requires |order| > 0
    ensures var one := ResolveOne(env, m[order[0]]);
      one.result.Failure? ==> ResolveAll(env, m, order) == Traced(Failure(one.result.error), one.calls)
    ensures var one := ResolveOne(env, m[order[0]]);
      var rest := ResolveAll(env, m, order[1..]);
      one.result.Success? && rest.result.Failure? ==>
        ResolveAll(env, m, order) == Traced(Failure(rest.result.error), one.calls + rest.calls)
  {
  }

  /** The calls of the first `i + 1` records are the first record's calls
      followed by those of the next `i`. */
  lemma AllCallsPrefixStep(env: Env, m: map<string, Record>, order: seq<string>, i: nat)
    requires forall j :: 0 <= j < |order| ==> order[j] in m
    requires i < |order|
    ensures AllCalls(env, m, order[..i + 1]) == CallsFor(env, m[order[0]]) + AllCalls(env, m, order[1..][..i])
  {
    assert order[..i + 1][1..] == order[1..][..i];
  }

  /** A full visit rewrites exactly the GitHub license URLs of the records
      visited, and requests every record's license. */
  lemma {:induction false} AllCallsContents(env: Env, m: map<string, Record>, order: seq<string>, u: string)
    requires forall i :: 0 <= i < |order| ==> order[i] in m
    ensures RawUrlCall(u) in AllCalls(env, m, order) <==>
              HasPrefix(u, GitHubUrlPrefix) && exists i :: 0 <= i < |order| && m[order[i]].licenseUrl == u
    ensures forall i :: 0 <= i < |order| ==> HttpGet(RequestUrl(env, m[order[i]].licenseUrl)) in AllCalls(env, m, order)
  {
    if |order| > 0 {
      var tail := order[1..];
      AllCallsContents(env, m, tail, u);
      assert forall i :: 0 < i < |order| ==> order[i] == tail[i - 1];
      var all := AllCalls(env, m, order);
      var first := CallsFor(env, m[order[0]]);
      assert all == first + AllCalls(env, m, tail);
      assert HttpGet(RequestUrl(env, m[order[0]].licenseUrl)) in first;
      if exists i :: 0 <= i < |order| && m[order[i]].licenseUrl == u {
        var i :| 0 <= i < |order| && m[order[i]].licenseUrl == u;
        if i > 0 {
          assert m[tail[i - 1]].licenseUrl == u;
        }
      }
    }
  }

  // ---------------------------------------------------------------------
  // getAllRepoModules

  /** `getAllRepoModules` with the blacklist `keys`, the scanner's output,
      the outside world `env`, and the map's iteration order. The
      blacklist is checked for every merged record before anything is
      fetched; the resolved list is sorted by name. */
  function GetAllRepoModules(env: Env, keys: seq<string>, scan: Scan, order: seq<string>): (r: Traced<seq<License>>)
    requires RepoModules(scan).Success? ==> IsEnumeration(order, RepoModules(scan).value.Keys)
    ensures r.result.Failure? && r.result.error.Blacklisted? ==> r.calls == []
    ensures r.result.Success? ==> SortedByName(r.result.value)
    ensures r.result.Success? ==> RepoModules(scan).Success? && |r.result.value| == |RepoModules(scan).value|
  {
    match RepoModules(scan)
    case Failure(e) => Traced(Failure(e), [])
    case Success(m) =>
      if CountViolations(keys, m, order) > 0 then
        Traced(Failure(Blacklisted(BlacklistFailure)), [])
      else
        var resolved := ResolveAll(env, m, order);
        match resolved.result
        case Failure(e) => Traced(Failure(e), resolved.calls)
        case Success(licenses) =>
          EnumerationLength(order, m.Keys);
          Traced(Success(SortByName(licenses)), resolved.calls)
  }

  /** An enumeration of a set is as long as the set is large. */
  lemma {:induction false} EnumerationLength(order: seq<string>, keys: set<string>)
    requires IsEnumeration(order, keys)
    ensures |order| == |keys|
    decreases |order|
  {
    if |order| > 0 {
      var tail := order[1..];
      assert IsEnumeration(tail, keys - {order[0]}) by {
        forall i | 0 <= i < |tail|
          ensures tail[i] != order[0]
        {
          assert tail[i] == order[i + 1];
        }
        forall k | k in keys - {order[0]}
          ensures k in tail
        {
          var i :| 0 <= i < |order| && order[i] == k;
          assert i != 0;
          assert tail[i - 1] == k;
        }
      }
      EnumerationLength(tail, keys - {order[0]});
    } else {
      assert forall k :: k !in keys;
      assert keys == {};
    }
  }
}
