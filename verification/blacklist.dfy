/** The license blacklist: parsing the policy file into lower-case keys
    (the package `init` of blacklist.go) and testing a license id against
    them (`checkBlacklist`). The policy is passed in explicitly instead of
    living in a package-level variable. */
module Blacklist {
  import opened Strings
  import opened Wrappers

  /** A policy line is kept when, once trimmed, it is neither empty nor a
      `#` comment; indented comments are therefore comments too. */
  predicate Keeps(line: string) {
    var t := TrimSpace(line);
    |t| > 0 && t[0] != '#'
  }

  /** The key a kept line contributes. */
  function Key(line: string): string {
    ToLower(TrimSpace(line))
  }

  /** The keys of a policy given as its lines, in file order. */
  function ParseBlacklist(lines: seq<string>): (keys: seq<string>)
    ensures |keys| <= |lines|
    ensures forall i :: 0 <= i < |keys| ==> |keys[i]| > 0
    ensures forall i :: 0 <= i < |keys| ==> keys[i][0] != '#'
    ensures forall i :: 0 <= i < |keys| ==> ToLower(keys[i]) == keys[i]
  {
    if |lines| == 0 then []
    else
      var rest := ParseBlacklist(lines[1..]);
      if Keeps(lines[0]) then
        ToLowerIsLower(TrimSpace(lines[0]));
        LowerIsFixedPoint(Key(lines[0]));
        [Key(lines[0])] + rest
      else rest
  }

  /** Parsing is line by line: the keys of two concatenated policies are
      the keys of the first followed by those of the second. */
  lemma {:induction false} ParseBlacklistAppend(a: seq<string>, b: seq<string>)
    ensures ParseBlacklist(a + b) == ParseBlacklist(a) + ParseBlacklist(b)
  {
    if |a| > 0 {
      assert (a + b)[1..] == a[1..] + b;
      ParseBlacklistAppend(a[1..], b);
    } else {
      assert a + b == b;
    }
  }

  /** A key is in the parsed policy exactly when some kept line yields it. */
  lemma {:induction false} ParseBlacklistMembership(lines: seq<string>, k: string)
    ensures k in ParseBlacklist(lines) <==> exists j :: 0 <= j < |lines| && Keeps(lines[j]) && Key(lines[j]) == k
  {
    if |lines| > 0 {
      ParseBlacklistMembership(lines[1..], k);
      if exists j :: 0 <= j < |lines| && Keeps(lines[j]) && Key(lines[j]) == k {
        var j :| 0 <= j < |lines| && Keeps(lines[j]) && Key(lines[j]) == k;
        if j > 0 {
          assert lines[1..][j - 1] == lines[j];
        }
      }
    }
  }

  /** A license id is blacklisted when some key occurs in its lower-cased
      form. */
  predicate IsBlacklisted(keys: seq<string>, licenseId: string) {
    exists i :: 0 <= i < |keys| && Contains(ToLower(licenseId), keys[i])
  }

  /** The blacklist test in terms of the reference substring relation. */
  lemma IsBlacklistedMeansSubstring(keys: seq<string>, licenseId: string)
    ensures IsBlacklisted(keys, licenseId) <==> exists i :: 0 <= i < |keys| && IsSubstring(keys[i], ToLower(licenseId))
  {
  }

  /** `checkBlacklist`: the keys are tried in order and the first one found
      in the lower-cased id produces the error message. */
  method CheckBlacklist(keys: seq<string>, licenseId: string) returns (err: Option<string>)
    ensures err.Some? <==> exists i :: 0 <= i < |keys| && IsSubstring(keys[i], ToLower(licenseId))
    ensures err.Some? <==> IsBlacklisted(keys, licenseId)
    ensures err.Some? ==> err.value == "license " + licenseId + " is blacklisted"
  {
    IsBlacklistedMeansSubstring(keys, licenseId);
    var lowercased := ToLower(licenseId);
    for i := 0 to |keys|
      invariant forall j :: 0 <= j < i ==> !IsSubstring(keys[j], lowercased)
    {
      if Contains(lowercased, keys[i]) {
        return Some("license " + licenseId + " is blacklisted");
      }
    }
    return None;
  }

  /** An empty policy blacklists nothing. */
  lemma EmptyBlacklistAllowsAll(licenseId: string)
    ensures !IsBlacklisted([], licenseId)
  {
  }

  /** Matching ignores the case of the license id. */
  lemma BlacklistIgnoresCase(keys: seq<string>, licenseId: string)
    ensures IsBlacklisted(keys, licenseId) <==> IsBlacklisted(keys, ToLower(licenseId))
  {
    ToLowerIdempotent(licenseId);
  }

  /** A policy made of blank lines has no keys, whatever their number. */
  lemma {:induction false} BlankPolicyIsEmpty(lines: seq<string>)
    requires forall i :: 0 <= i < |lines| ==> AllSpace(lines[i])
    ensures ParseBlacklist(lines) == []
  {
    if |lines| > 0 {
      assert LeadingSpaces(lines[0]) == |lines[0]|;
      BlankPolicyIsEmpty(lines[1..]);
    }
  }

  /** The policy as the program is written: the directive before
      `blacklistFileContent` reads `// go:embed`, with a space, which Go
      treats as an ordinary comment, so the content stays empty. Whatever
      lines the splitter cuts it into are pieces of the empty string, and
      the policy has no keys. */
  lemma EmbeddedPolicyIsEmpty(lines: seq<string>)
    requires forall i :: 0 <= i < |lines| ==> IsSubstring(lines[i], "")
    ensures ParseBlacklist(lines) == []
  {
    forall i | 0 <= i < |lines|
      ensures AllSpace(lines[i])
    {
      var j :| OccursAt("", lines[i], j);
    }
    BlankPolicyIsEmpty(lines);
  }

  /** Parsing a policy of one line. */
  lemma ParseOneLine(line: string)
    ensures ParseBlacklist([line]) == if Keeps(line) then [Key(line)] else []
  {
    assert [line][1..] == [];
  }

  /** An indented comment is dropped: trimming comes before the `#` test. */
  lemma IndentedCommentDropped()
    ensures !Keeps("  # comment")
  {
    var comment := "  # comment";
    assert LeadingSpaces(comment[1..][1..]) == 0;
    assert LeadingSpaces(comment[1..]) == 1;
    assert LeadingSpaces(comment) == 2;
  }

  /** The line "GPL" contributes the key "gpl". */
  lemma GplLineKept()
    ensures Keeps("GPL") && Key("GPL") == "gpl"
  {
    assert LeadingSpaces("GPL") == 0;
    assert TrailingSpaces("GPL") == 0;
    assert TrimSpace("GPL") == "GPL";
    var lowered := ToLower("GPL");
    assert lowered[0] == 'g' && lowered[1] == 'p' && lowered[2] == 'l';
  }

  /** Parsing a policy of four lines, one line at a time. */
  lemma ParseFourLines(l0: string, l1: string, l2: string, l3: string)
    ensures ParseBlacklist([l0, l1, l2, l3])
         == ParseBlacklist([l0]) + ParseBlacklist([l1]) + ParseBlacklist([l2]) + ParseBlacklist([l3])
  {
    ParseBlacklistAppend([l0], [l1]);
    ParseBlacklistAppend([l0, l1], [l2]);
    ParseBlacklistAppend([l0, l1, l2], [l3]);
    assert [l0] + [l1] == [l0, l1];
    assert [l0, l1] + [l2] == [l0, l1, l2];
    assert [l0, l1, l2] + [l3] == [l0, l1, l2, l3];
  }

  /** The policy "  # comment", "", "GPL", "" keeps only "gpl": the
      indented comment and the blank lines are dropped. */
  lemma GplPolicyParses()
    ensures ParseBlacklist(["  # comment", "", "GPL", ""]) == ["gpl"]
  {
    IndentedCommentDropped();
    GplLineKept();
    ParseOneLine("  # comment");
    ParseOneLine("");
    ParseOneLine("GPL");
    ParseFourLines("  # comment", "", "GPL", "");
  }

  /** The key "gpl" flags "AGPL-3.0" and "gpl-2.0-only" but not "MIT". */
  lemma GplPolicyMatches()
    ensures IsBlacklisted(["gpl"], "AGPL-3.0")
    ensures IsBlacklisted(["gpl"], "gpl-2.0-only")
    ensures !IsBlacklisted(["gpl"], "MIT")
  {
    var keys := ["gpl"];
    var agpl := ToLower("AGPL-3.0");
    assert agpl[1..4] == "gpl";
    assert OccursAt(agpl, keys[0], 1);
    assert Contains(agpl, keys[0]);
    var gpl2 := ToLower("gpl-2.0-only");
    assert gpl2[0..3] == "gpl";
    assert OccursAt(gpl2, keys[0], 0);
    assert Contains(gpl2, keys[0]);
    var mit := ToLower("MIT");
    assert mit[0] == 'm';
    assert !OccursAt(mit, keys[0], 0);
    assert !IsSubstring(keys[0], mit);
  }
}
