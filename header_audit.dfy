/**
 * The security-header audit run on every response: the response's header keys
 * are lower-cased into a map, then a fixed checklist of five header names is
 * walked in order, and each name yields a "missing" finding, a value finding,
 * or (for Content-Security-Policy) the findings of the insecure-directive scan.
 * Both entry points of the scanner run this same audit; they differ only in how
 * the findings are printed, which is not modelled.
 */
module HeaderAudit {
  import opened Text

  const CspHeader: string := "Content-Security-Policy"

  /** The headers audited, in the order they are reported. */
  const Checklist: seq<string> :=
    ["X-Frame-Options", "Strict-Transport-Security", "X-Content-Type-Options", "X-XSS-Protection", CspHeader]

  /** The CSP source expressions reported as insecure, in the order they are tested. */
  const InsecureDirectives: seq<string> := ["unsafe-inline", "unsafe-eval", "unsafe-dynamic"]

  /** One reported line of the audit, without its colouring. */
  datatype Finding =
    | Missing(header: string)
      // the header is absent from the response
    | Present(header: string, value: string)
      // a present non-CSP header and its values joined with one space
    | InsecureCsp(directive: string, policy: string)
      // the joined CSP value contains the insecure directive; the line shows the policy

  /** The checklist header a finding is about. */
  function Subject(f: Finding): string
  {
    match f
    case Missing(h) => h
    case Present(h, _) => h
    case InsecureCsp(_, _) => CspHeader
  }

  // ---------------------------------------------------------------------------
  // checkMisconfigCSP

  /** One finding per directive of `directives` contained in `csp`, in list order. */
  function ScanDirectives(csp: string, directives: seq<string>): seq<Finding>
  {
    if directives == [] then []
    else
      var prefix, d := directives[..|directives| - 1], directives[|directives| - 1];
      ScanDirectives(csp, prefix) + (if Contains(csp, d) then [InsecureCsp(d, csp)] else [])
  }

  /** What `checkMisconfigCSP` reports for a CSP value. */
  function CspFindings(csp: string): seq<Finding>
  {
    ScanDirectives(csp, InsecureDirectives)
  }

  /** `checkMisconfigCSP`: a loop over the insecure directives, reporting each one the value contains. */
  method CheckMisconfigCsp(csp: string) returns (findings: seq<Finding>)
    ensures findings == CspFindings(csp)
  {
    findings := [];
    var k := 0;
    while k < |InsecureDirectives|
      invariant 0 <= k <= |InsecureDirectives|
      invariant findings == ScanDirectives(csp, InsecureDirectives[..k])
    {
      assert InsecureDirectives[..k + 1][..k] == InsecureDirectives[..k];
      var directive := InsecureDirectives[k];
      if Contains(csp, directive) {
        findings := findings + [InsecureCsp(directive, csp)];
      }
      k := k + 1;
    }
    assert InsecureDirectives[..k] == InsecureDirectives;
  }

  /** The finding for one directive, if the value contains it. */
  function Flag(csp: string, directive: string): seq<Finding>
  {
    if Contains(csp, directive) then [InsecureCsp(directive, csp)] else []
  }

  /** The CSP scan reports `unsafe-inline`, then `unsafe-eval`, then `unsafe-dynamic`, each at most once, each only if contained. */
  lemma CspFindingsInOrder(csp: string)
    ensures CspFindings(csp) == Flag(csp, "unsafe-inline") + Flag(csp, "unsafe-eval") + Flag(csp, "unsafe-dynamic")
    ensures |CspFindings(csp)| <= 3
  {
    var ds := InsecureDirectives;
    assert ds[..2] == ["unsafe-inline", "unsafe-eval"];
    assert ds[..2][..1] == ["unsafe-inline"];
    assert ds[..2][..1][..0] == [];
    assert ScanDirectives(csp, ds[..2][..1]) == Flag(csp, "unsafe-inline");
    assert ScanDirectives(csp, ds[..2]) == Flag(csp, "unsafe-inline") + Flag(csp, "unsafe-eval");
  }

  /** A CSP finding is exactly an insecure directive the value contains, reported with that value. */
  lemma CspFindingsMembers(csp: string, f: Finding)
    ensures f in CspFindings(csp) <==>
              f.InsecureCsp? && f.policy == csp && f.directive in InsecureDirectives && Contains(csp, f.directive)
  {
    CspFindingsInOrder(csp);
  }

  /** A CSP value that contains none of the directives produces no line at all. */
  lemma CspCleanIff(csp: string)
    ensures CspFindings(csp) == [] <==> forall k :: 0 <= k < |InsecureDirectives| ==> !Contains(csp, InsecureDirectives[k])
  {
    CspFindingsInOrder(csp);
    assert InsecureDirectives[0] == "unsafe-inline";
    assert InsecureDirectives[1] == "unsafe-eval";
    assert InsecureDirectives[2] == "unsafe-dynamic";
  }

  /**
   * The scan of a typical policy with one inline-script allowance,
   * `default-src 'self'; script-src 'unsafe-inline'`, reports exactly that one directive.
   */
  lemma CspExample(defaults: string, scripts: string, csp: string)
    requires defaults == "default-src 'self'; " && scripts == "script-src 'unsafe-inline'"
    requires csp == defaults + scripts
    ensures CspFindings(csp) == [InsecureCsp("unsafe-inline", csp)]
  {
    CspFindingsInOrder(csp);
    ExamplePolicyContents(defaults, scripts, csp);
  }

  lemma ExamplePolicyContents(defaults: string, scripts: string, csp: string)
    requires defaults == "default-src 'self'; " && scripts == "script-src 'unsafe-inline'"
    requires csp == defaults + scripts
    ensures Contains(csp, "unsafe-inline") && !Contains(csp, "unsafe-eval") && !Contains(csp, "unsafe-dynamic")
  {
    DefaultsLetters(defaults);
    ScriptsLetters(scripts);
    LacksBothInConcat(defaults, scripts);
    assert csp[32..45] == scripts[12..25];
    assert OccursAt(csp, "unsafe-inline", 32);
    LacksCharacter(csp, "unsafe-eval", 8);
    LacksCharacter(csp, "unsafe-dynamic", 8);
  }

  lemma DefaultsLetters(defaults: string)
    requires defaults == "default-src 'self'; "
    ensures forall i :: 0 <= i < |defaults| ==> defaults[i] != 'v' && defaults[i] != 'y'
  {
  }

  lemma ScriptsLetters(scripts: string)
    requires scripts == "script-src 'unsafe-inline'"
    ensures forall i :: 0 <= i < |scripts| ==> scripts[i] != 'v' && scripts[i] != 'y'
    ensures scripts[12..25] == "unsafe-inline"
  {
  }

  /** A character absent from both halves is absent from their concatenation. */
  lemma LacksBothInConcat(a: string, b: string)
    requires forall i :: 0 <= i < |a| ==> a[i] != 'v' && a[i] != 'y'
    requires forall i :: 0 <= i < |b| ==> b[i] != 'v' && b[i] != 'y'
    ensures forall i :: 0 <= i < |a + b| ==> (a + b)[i] != 'v' && (a + b)[i] != 'y'
  {
  }

  /** A string that lacks the character at position `k` of `sub` does not contain `sub`. */
  lemma LacksCharacter(s: string, sub: string, k: int)
    requires 0 <= k < |sub| && forall i :: 0 <= i < |s| ==> s[i] != sub[k]
    ensures !Contains(s, sub)
  {
    forall i | 0 <= i <= |s| - |sub| ensures !OccursAt(s, sub, i) {
      assert s[i..i + |sub|][k] == s[i + k];
    }
  }

  /** Joining the CSP values with no separator can create a directive that no single value contains. */
  lemma CspJoinSpansValues(values: seq<string>)
    requires values == ["script-src 'unsafe-", "inline'"]
    ensures forall k :: 0 <= k < |values| ==> !Contains(values[k], "unsafe-inline")
    ensures CspFindings(Join(values, "")) == [InsecureCsp("unsafe-inline", "script-src 'unsafe-inline'")]
  {
    SplitValuesContents(values);
    JoinSplitValues(values);
    var csp := "script-src 'unsafe-inline'";
    CspFindingsInOrder(csp);
    JoinedPolicyContents(csp);
  }

  lemma JoinSplitValues(values: seq<string>)
    requires values == ["script-src 'unsafe-", "inline'"]
    ensures Join(values, "") == "script-src 'unsafe-inline'"
  {
    assert |values| == 2;
    var rest := values[1..];
    assert |rest| == 1 && rest[0] == values[1];
    assert Join(rest, "") == values[1];
    assert Join(values, "") == values[0] + "" + Join(rest, "");
    assert values[0] + "" == values[0];
  }

  lemma SplitValuesContents(values: seq<string>)
    requires values == ["script-src 'unsafe-", "inline'"]
    ensures forall k :: 0 <= k < |values| ==> !Contains(values[k], "unsafe-inline")
  {
    assert forall i :: 0 <= i < |values[0]| ==> values[0][i] != 'l';
    LacksCharacter(values[0], "unsafe-inline", 9);
    assert forall i :: 0 <= i < |values[1]| ==> values[1][i] != 'u';
    LacksCharacter(values[1], "unsafe-inline", 0);
  }

  lemma JoinedPolicyContents(csp: string)
    requires csp == "script-src 'unsafe-inline'"
    ensures Contains(csp, "unsafe-inline") && !Contains(csp, "unsafe-eval") && !Contains(csp, "unsafe-dynamic")
  {
    ScriptsLetters(csp);
    assert OccursAt(csp, "unsafe-inline", 12);
    LacksCharacter(csp, "unsafe-eval", 8);
    LacksCharacter(csp, "unsafe-dynamic", 8);
  }

  // ---------------------------------------------------------------------------
  // The lower-cased header map

  /** A response's headers: each key with its list of values. */
  type HeaderTable = seq<(string, seq<string>)>

  /** The map from lower-cased key to values, filled in table order (a later key wins). */
  function LowerMap(h: HeaderTable): map<string, seq<string>>
  {
    if h == [] then map[]
    else LowerMap(h[..|h| - 1])[Lower(h[|h| - 1].0) := h[|h| - 1].1]
  }

  /** The loop that lower-cases every response key into a fresh map. */
  method LowercaseHeaders(h: HeaderTable) returns (lowercaseHeaders: map<string, seq<string>>)
    ensures lowercaseHeaders == LowerMap(h)
  {
    lowercaseHeaders := map[];
    var i := 0;
    while i < |h|
      invariant 0 <= i <= |h|
      invariant lowercaseHeaders == LowerMap(h[..i])
    {
      assert h[..i + 1][..i] == h[..i];
      var (key, value) := h[i];
      lowercaseHeaders := lowercaseHeaders[Lower(key) := value];
      i := i + 1;
    }
    assert h[..i] == h;
  }

  /** The response carries `name`, compared case-insensitively. */
  predicate HasHeader(h: HeaderTable, name: string)
  {
    exists i :: 0 <= i < |h| && Lower(h[i].0) == Lower(name)
  }

  /** No two keys of the response lower-case to the same string. */
  predicate DistinctLowerKeys(h: HeaderTable)
  {
    forall i, j :: 0 <= i < j < |h| ==> Lower(h[i].0) != Lower(h[j].0)
  }

  /** A string is a key of the map exactly when some response key lower-cases to it. */
  lemma {:induction false} LowerMapKeys(h: HeaderTable, key: string)
    ensures key in LowerMap(h) <==> exists i :: 0 <= i < |h| && Lower(h[i].0) == key
  {
    if h != [] {
      var prefix := h[..|h| - 1];
      LowerMapKeys(prefix, key);
      assert forall i :: 0 <= i < |prefix| ==> prefix[i] == h[i];
    }
  }

  /** With distinct lower-cased keys, the map holds each header's own values. */
  lemma {:induction false} LowerMapValue(h: HeaderTable, i: int)
    requires DistinctLowerKeys(h) && 0 <= i < |h|
    ensures Lower(h[i].0) in LowerMap(h) && LowerMap(h)[Lower(h[i].0)] == h[i].1
  {
    if i < |h| - 1 {
      var prefix := h[..|h| - 1];
      assert forall j :: 0 <= j < |prefix| ==> prefix[j] == h[j];
      LowerMapValue(prefix, i);
    }
  }

  /** Whatever the keys, every key of the map holds the values of some response key that lower-cases to it. */
  lemma {:induction false} LowerMapSome(h: HeaderTable, key: string)
    requires key in LowerMap(h)
    ensures exists i :: 0 <= i < |h| && Lower(h[i].0) == key && LowerMap(h)[key] == h[i].1
  {
    var prefix := h[..|h| - 1];
    if Lower(h[|h| - 1].0) != key {
      LowerMapSome(prefix, key);
      var i :| 0 <= i < |prefix| && Lower(prefix[i].0) == key && LowerMap(prefix)[key] == prefix[i].1;
      assert h[i] == prefix[i];
    }
  }

  /** Changing only the letter case of the keys leaves the map unchanged. */
  lemma {:induction false} LowerMapCaseInsensitive(h: HeaderTable, g: HeaderTable)
    requires |h| == |g|
    requires forall i :: 0 <= i < |h| ==> Lower(h[i].0) == Lower(g[i].0) && h[i].1 == g[i].1
    ensures LowerMap(h) == LowerMap(g)
  {
    if h != [] {
      LowerMapCaseInsensitive(h[..|h| - 1], g[..|g| - 1]);
    }
  }

  // ---------------------------------------------------------------------------
  // The checklist walk

  /** The findings for one checklist name, looked up by its lower-cased form. */
  function AuditHeader(lowercaseHeaders: map<string, seq<string>>, name: string): seq<Finding>
  {
    var key := Lower(name);
    if key !in lowercaseHeaders then [Missing(name)]
    else if name == CspHeader then CspFindings(Join(lowercaseHeaders[key], ""))
    else [Present(name, Join(lowercaseHeaders[key], " "))]
  }

  /** The findings for `names`, in order. */
  function AuditNames(lowercaseHeaders: map<string, seq<string>>, names: seq<string>): seq<Finding>
  {
    if names == [] then []
    else AuditNames(lowercaseHeaders, names[..|names| - 1]) + AuditHeader(lowercaseHeaders, names[|names| - 1])
  }

  /** What the audit reports for one response. */
  function Audit(h: HeaderTable): seq<Finding>
  {
    AuditNames(LowerMap(h), Checklist)
  }

  /** The per-response audit: build the lower-cased map, then walk the checklist. */
  method AuditResponse(h: HeaderTable) returns (findings: seq<Finding>)
    ensures findings == Audit(h)
  {
    var lowercaseHeaders := LowercaseHeaders(h);
    findings := [];
    var k := 0;
    while k < |Checklist|
      invariant 0 <= k <= |Checklist|
      invariant findings == AuditNames(lowercaseHeaders, Checklist[..k])
    {
      assert Checklist[..k + 1][..k] == Checklist[..k];
      var header := Checklist[k];
      if Lower(header) !in lowercaseHeaders {
        findings := findings + [Missing(header)];
      } else if header == CspHeader {
        var cspFindings := CheckMisconfigCsp(Join(lowercaseHeaders[Lower(header)], ""));
        findings := findings + cspFindings;
      } else {
        findings := findings + [Present(header, Join(lowercaseHeaders[Lower(header)], " "))];
      }
      k := k + 1;
    }
    assert Checklist[..k] == Checklist;
  }

  lemma {:induction false} AuditNamesMembers(m: map<string, seq<string>>, names: seq<string>, f: Finding)
    ensures f in AuditNames(m, names) <==> exists k :: 0 <= k < |names| && f in AuditHeader(m, names[k])
  {
    if names != [] {
      var prefix := names[..|names| - 1];
      AuditNamesMembers(m, prefix, f);
      assert forall k :: 0 <= k < |prefix| ==> prefix[k] == names[k];
    }
  }

  /** Every finding for `name` is about `name`; a missing header gives only the missing finding. */
  lemma AuditHeaderFacts(m: map<string, seq<string>>, name: string, f: Finding)
    requires f in AuditHeader(m, name)
    ensures Subject(f) == name
    ensures f.Missing? <==> Lower(name) !in m
    ensures f.Present? ==> name != CspHeader && f.value == Join(m[Lower(name)], " ")
    ensures f.InsecureCsp? ==>
              name == CspHeader && f.policy == Join(m[Lower(name)], "")
              && f.directive in InsecureDirectives && Contains(f.policy, f.directive)
  {
    if Lower(name) in m && name == CspHeader {
      CspFindingsMembers(Join(m[Lower(name)], ""), f);
    }
  }

  /** The audit reports a checklist header as missing exactly when no response key matches it case-insensitively. */
  lemma AuditMissing(h: HeaderTable, name: string)
    ensures Missing(name) in Audit(h) <==> name in Checklist && !HasHeader(h, name)
  {
    var m := LowerMap(h);
    AuditNamesMembers(m, Checklist, Missing(name));
    LowerMapKeys(h, Lower(name));
    forall k | 0 <= k < |Checklist| && Missing(name) in AuditHeader(m, Checklist[k])
      ensures Checklist[k] == name && Lower(name) !in m
    {
      AuditHeaderFacts(m, Checklist[k], Missing(name));
    }
    if name in Checklist && !HasHeader(h, name) {
      var k :| 0 <= k < |Checklist| && Checklist[k] == name;
      assert Missing(name) in AuditHeader(m, Checklist[k]);
    }
  }

  /**
   * A present non-CSP checklist header yields one value finding: its values joined
   * with a single space.  Nothing else yields a value finding; in particular the CSP
   * header never does.
   */
  lemma AuditPresent(h: HeaderTable, name: string, v: string)
    requires DistinctLowerKeys(h)
    ensures Present(name, v) in Audit(h) <==>
              name in Checklist && name != CspHeader
              && exists i :: 0 <= i < |h| && Lower(h[i].0) == Lower(name) && v == Join(h[i].1, " ")
  {
    var m := LowerMap(h);
    var f := Present(name, v);
    AuditNamesMembers(m, Checklist, f);
    AuditPresentSound(h, name, v);
    if name in Checklist && name != CspHeader
       && exists i :: 0 <= i < |h| && Lower(h[i].0) == Lower(name) && v == Join(h[i].1, " ") {
      var i :| 0 <= i < |h| && Lower(h[i].0) == Lower(name) && v == Join(h[i].1, " ");
      LowerMapValue(h, i);
      var k :| 0 <= k < |Checklist| && Checklist[k] == name;
      assert f in AuditHeader(m, Checklist[k]);
    }
  }

  /**
   * The audit reports insecure directive `d` with policy `p` exactly when the response
   * has a CSP header whose values, joined with no separator, are `p` and `p` contains `d`.
   */
  lemma AuditInsecureCsp(h: HeaderTable, d: string, p: string)
    requires DistinctLowerKeys(h)
    ensures InsecureCsp(d, p) in Audit(h) <==>
              d in InsecureDirectives && Contains(p, d)
              && exists i :: 0 <= i < |h| && Lower(h[i].0) == Lower(CspHeader) && p == Join(h[i].1, "")
  {
    var m := LowerMap(h);
    var f := InsecureCsp(d, p);
    AuditNamesMembers(m, Checklist, f);
    AuditInsecureCspSound(h, d, p);
    if d in InsecureDirectives && Contains(p, d)
       && exists i :: 0 <= i < |h| && Lower(h[i].0) == Lower(CspHeader) && p == Join(h[i].1, "") {
      var i :| 0 <= i < |h| && Lower(h[i].0) == Lower(CspHeader) && p == Join(h[i].1, "");
      LowerMapValue(h, i);
      CspFindingsMembers(p, f);
      assert f in AuditHeader(m, Checklist[4]);
    }
  }

  /**
   * Even when two response keys lower-case alike, every value finding is a non-CSP
   * checklist header with the values of one matching key joined with a single space.
   */
  lemma AuditPresentSound(h: HeaderTable, name: string, v: string)
    ensures Present(name, v) in Audit(h) ==>
              name in Checklist && name != CspHeader
              && exists i :: 0 <= i < |h| && Lower(h[i].0) == Lower(name) && v == Join(h[i].1, " ")
  {
    var m := LowerMap(h);
    var f := Present(name, v);
    AuditNamesMembers(m, Checklist, f);
    if f in Audit(h) {
      var k :| 0 <= k < |Checklist| && f in AuditHeader(m, Checklist[k]);
      AuditHeaderFacts(m, Checklist[k], f);
      LowerMapSome(h, Lower(name));
    }
  }

  /**
   * Even when two response keys lower-case alike, every CSP finding names an insecure
   * directive contained in the values of one CSP key joined with no separator.
   */
  lemma AuditInsecureCspSound(h: HeaderTable, d: string, p: string)
    ensures InsecureCsp(d, p) in Audit(h) ==>
              d in InsecureDirectives && Contains(p, d)
              && exists i :: 0 <= i < |h| && Lower(h[i].0) == Lower(CspHeader) && p == Join(h[i].1, "")
  {
    var m := LowerMap(h);
    var f := InsecureCsp(d, p);
    AuditNamesMembers(m, Checklist, f);
    if f in Audit(h) {
      var k :| 0 <= k < |Checklist| && f in AuditHeader(m, Checklist[k]);
      AuditHeaderFacts(m, Checklist[k], f);
      LowerMapSome(h, Lower(CspHeader));
    }
  }

  /** A header reported missing gets no value finding, and the CSP header never gets a value finding. */
  lemma AuditMissingHasNoValue(h: HeaderTable, name: string, v: string)
    ensures Missing(name) in Audit(h) ==> Present(name, v) !in Audit(h)
    ensures Present(CspHeader, v) !in Audit(h)
  {
    var m := LowerMap(h);
    AuditNamesMembers(m, Checklist, Missing(name));
    AuditNamesMembers(m, Checklist, Present(name, v));
    AuditNamesMembers(m, Checklist, Present(CspHeader, v));
    forall k | 0 <= k < |Checklist| && Present(name, v) in AuditHeader(m, Checklist[k])
      ensures Checklist[k] == name && Lower(name) in m
    {
      AuditHeaderFacts(m, Checklist[k], Present(name, v));
    }
    forall k | 0 <= k < |Checklist| && Missing(name) in AuditHeader(m, Checklist[k])
      ensures Checklist[k] == name && Lower(name) !in m
    {
      AuditHeaderFacts(m, Checklist[k], Missing(name));
    }
    forall k | 0 <= k < |Checklist| && Present(CspHeader, v) in AuditHeader(m, Checklist[k])
      ensures false
    {
      AuditHeaderFacts(m, Checklist[k], Present(CspHeader, v));
    }
  }

  /** A CSP value in which any single header value contains an insecure directive is reported. */
  lemma AuditDetectsDirectiveInAnyValue(h: HeaderTable, i: int, k: int, d: string)
    requires DistinctLowerKeys(h) && 0 <= i < |h| && Lower(h[i].0) == Lower(CspHeader)
    requires 0 <= k < |h[i].1| && d in InsecureDirectives && Contains(h[i].1[k], d)
    ensures InsecureCsp(d, Join(h[i].1, "")) in Audit(h)
  {
    JoinKeepsOccurrence(h[i].1, "", k, d);
    AuditInsecureCsp(h, d, Join(h[i].1, ""));
  }

  /** Whether a header is found depends only on the lower-case form of the response keys. */
  lemma AuditCaseInsensitive(h: HeaderTable, g: HeaderTable)
    requires |h| == |g|
    requires forall i :: 0 <= i < |h| ==> Lower(h[i].0) == Lower(g[i].0) && h[i].1 == g[i].1
    ensures Audit(h) == Audit(g)
  {
    LowerMapCaseInsensitive(h, g);
  }

  // ---------------------------------------------------------------------------
  // Each checklist name examined once, in order

  /** The position of a checklist name in the checklist. */
  function Rank(name: string): nat
  {
    if name == Checklist[0] then 0
    else if name == Checklist[1] then 1
    else if name == Checklist[2] then 2
    else if name == Checklist[3] then 3
    else 4
  }

  /** The number of findings about `name`. */
  function CountAbout(fs: seq<Finding>, name: string): nat
  {
    if fs == [] then 0
    else CountAbout(fs[..|fs| - 1], name) + (if Subject(fs[|fs| - 1]) == name then 1 else 0)
  }

  lemma {:induction false} CountAboutAppend(a: seq<Finding>, b: seq<Finding>, name: string)
    ensures CountAbout(a + b, name) == CountAbout(a, name) + CountAbout(b, name)
  {
    if b != [] {
      assert (a + b)[..|a + b| - 1] == a + b[..|b| - 1];
      CountAboutAppend(a, b[..|b| - 1], name);
    } else {
      assert a + b == a;
    }
  }

  lemma {:induction false} CountAboutNone(fs: seq<Finding>, name: string)
    requires forall f :: f in fs ==> Subject(f) != name
    ensures CountAbout(fs, name) == 0
  {
    if fs != [] {
      CountAboutNone(fs[..|fs| - 1], name);
    }
  }

  /** The rank of each checklist position is that position. */
  lemma RankOfChecklist(k: int)
    requires 0 <= k < |Checklist|
    ensures Rank(Checklist[k]) == k
  {
    if k == 0 {
    } else if k == 1 {
    } else if k == 2 {
    } else if k == 3 {
    }
  }

  lemma {:induction false} AuditPrefixOrder(m: map<string, seq<string>>, n: nat)
    requires n <= |Checklist|
    ensures forall f :: f in AuditNames(m, Checklist[..n]) ==> Rank(Subject(f)) < n
    ensures forall i, j :: 0 <= i < j < |AuditNames(m, Checklist[..n])| ==>
              Rank(Subject(AuditNames(m, Checklist[..n])[i])) <= Rank(Subject(AuditNames(m, Checklist[..n])[j]))
  {
    if n > 0 {
      var prefix := Checklist[..n - 1];
      assert Checklist[..n][..n - 1] == prefix;
      AuditPrefixOrder(m, n - 1);
      var before := AuditNames(m, prefix);
      var here := AuditHeader(m, Checklist[n - 1]);
      assert AuditNames(m, Checklist[..n]) == before + here;
      RankOfChecklist(n - 1);
      forall f | f in here ensures Rank(Subject(f)) == n - 1 {
        AuditHeaderFacts(m, Checklist[n - 1], f);
      }
    }
  }

  /** The number of times `name` occurs in `names`. */
  function Occurrences(names: seq<string>, name: string): nat
  {
    if names == [] then 0
    else Occurrences(names[..|names| - 1], name) + (if names[|names| - 1] == name then 1 else 0)
  }

  /** A non-CSP name gets one finding per time it is examined. */
  lemma {:induction false} CountAboutNames(m: map<string, seq<string>>, names: seq<string>, name: string)
    requires name != CspHeader
    ensures CountAbout(AuditNames(m, names), name) == Occurrences(names, name)
  {
    if names != [] {
      var prefix, last := names[..|names| - 1], names[|names| - 1];
      CountAboutNames(m, prefix, name);
      CountAboutAppend(AuditNames(m, prefix), AuditHeader(m, last), name);
      CountAboutHeader(m, last, name);
    }
  }

  lemma CountAboutHeader(m: map<string, seq<string>>, n: string, name: string)
    requires name != CspHeader
    ensures CountAbout(AuditHeader(m, n), name) == if n == name then 1 else 0
  {
    if n == name {
      CountAboutOwnHeader(m, name);
    } else {
      var here := AuditHeader(m, n);
      forall f | f in here ensures Subject(f) != name {
        AuditHeaderFacts(m, n, f);
      }
      CountAboutNone(here, name);
    }
  }

  /** A name that is not in the list does not occur in it. */
  lemma {:induction false} OccurrencesAbsent(names: seq<string>, name: string)
    requires forall i :: 0 <= i < |names| ==> names[i] != name
    ensures Occurrences(names, name) == 0
  {
    if names != [] {
      OccurrencesAbsent(names[..|names| - 1], name);
    }
  }

  /** In a list without repetitions, every element occurs exactly once. */
  lemma {:induction false} OccurrencesDistinct(names: seq<string>, k: int)
    requires forall i, j :: 0 <= i < j < |names| ==> names[i] != names[j]
    requires 0 <= k < |names|
    ensures Occurrences(names, names[k]) == 1
  {
    var prefix := names[..|names| - 1];
    if k == |names| - 1 {
      OccurrencesAbsent(prefix, names[k]);
    } else {
      assert prefix[k] == names[k];
      OccurrencesDistinct(prefix, k);
    }
  }

  /** Each checklist name is on the checklist once. */
  lemma ChecklistOccurrences(p: int)
    requires 0 <= p < |Checklist|
    ensures Occurrences(Checklist, Checklist[p]) == 1
  {
    forall i, j | 0 <= i < j < |Checklist| ensures Checklist[i] != Checklist[j] {
      RankOfChecklist(i);
      RankOfChecklist(j);
    }
    OccurrencesDistinct(Checklist, p);
  }

  /** A non-CSP checklist name yields one finding about itself. */
  lemma CountAboutOwnHeader(m: map<string, seq<string>>, name: string)
    requires name != CspHeader
    ensures CountAbout(AuditHeader(m, name), name) == 1
  {
    var here := AuditHeader(m, name);
    assert |here| == 1 && Subject(here[0]) == name;
    assert here[..0] == [];
  }

  lemma {:induction false} AuditPrefixLength(m: map<string, seq<string>>, n: nat)
    requires n <= 4
    ensures |AuditNames(m, Checklist[..n])| == n
  {
    if n > 0 {
      assert Checklist[..n][..n - 1] == Checklist[..n - 1];
      AuditPrefixLength(m, n - 1);
      RankOfChecklist(n - 1);
    }
  }

  /** Each checklist header other than CSP yields exactly one finding. */
  lemma AuditOncePerHeader(h: HeaderTable, p: int)
    requires 0 <= p < |Checklist| && Checklist[p] != CspHeader
    ensures CountAbout(Audit(h), Checklist[p]) == 1
  {
    CountAboutNames(LowerMap(h), Checklist, Checklist[p]);
    ChecklistOccurrences(p);
  }

  /** The findings follow the checklist order: nothing about a later header comes before one about an earlier header. */
  lemma AuditInChecklistOrder(h: HeaderTable)
    ensures forall i, j :: 0 <= i < j < |Audit(h)| ==> Rank(Subject(Audit(h)[i])) <= Rank(Subject(Audit(h)[j]))
  {
    AuditPrefixOrder(LowerMap(h), |Checklist|);
    assert Checklist[..|Checklist|] == Checklist;
  }

  /** Four lines for the four non-CSP headers, and between none and three lines for the CSP header. */
  lemma AuditLength(h: HeaderTable)
    ensures 4 <= |Audit(h)| <= 7
  {
    var m := LowerMap(h);
    AuditPrefixLength(m, 4);
    assert Checklist[..5][..4] == Checklist[..4];
    assert Checklist[..5] == Checklist;
    if Lower(CspHeader) in m {
      CspFindingsInOrder(Join(m[Lower(CspHeader)], ""));
    }
  }
}
