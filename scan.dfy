/**
 * The per-domain loop shared by both entry points: each domain is fetched once,
 * in input order; a fetch error is reported and the domain skipped, otherwise
 * the response's headers are audited.  The network is not modelled: the loop
 * receives, for each domain, the outcome its GET request produced.  Also the
 * URL preparation of the extended entry point: optional deduplication, then
 * removal of static assets.
 */
module Scan {
  import opened Wrappers
  import opened UrlFilter
  import opened HeaderAudit

  /** What the GET request for one domain produced. */
  datatype Outcome = Fetched(headers: HeaderTable) | FetchError(message: string)

  /** The block of output for one domain. */
  datatype DomainReport =
    | Audited(domain: string, findings: seq<Finding>)
    | Failed(domain: string, message: string)

  function ReportFor(domain: string, outcome: Outcome): DomainReport
  {
    match outcome
    case Fetched(h) => Audited(domain, Audit(h))
    case FetchError(e) => Failed(domain, e)
  }

  /** The reports for all domains, in input order. */
  function Reports(results: seq<(string, Outcome)>): seq<DomainReport>
  {
    if results == [] then []
    else
      var last := results[|results| - 1];
      Reports(results[..|results| - 1]) + [ReportFor(last.0, last.1)]
  }

  /** The loop over domains: an error is reported and the loop continues with the next domain. */
  method ScanDomains(results: seq<(string, Outcome)>) returns (reports: seq<DomainReport>)
    ensures reports == Reports(results)
  {
    reports := [];
    var i := 0;
    while i < |results|
      invariant 0 <= i <= |results|
      invariant reports == Reports(results[..i])
    {
      assert results[..i + 1][..i] == results[..i];
      var (domain, outcome) := results[i];
      if outcome.FetchError? {
        reports := reports + [Failed(domain, outcome.message)];
        i := i + 1;
        continue;
      }
      var findings := AuditResponse(outcome.headers);
      reports := reports + [Audited(domain, findings)];
      i := i + 1;
    }
    assert results[..i] == results;
  }

  /**
   * One report per domain, in order: a failed fetch gives a failure report and no
   * audit, a successful one gives the audit of its headers.
   */
  lemma {:induction false} ReportsPerDomain(results: seq<(string, Outcome)>)
    ensures |Reports(results)| == |results|
    ensures forall i :: 0 <= i < |results| ==>
              Reports(results)[i].domain == results[i].0
              && (Reports(results)[i].Failed? <==> results[i].1.FetchError?)
              && (results[i].1.FetchError? ==> Reports(results)[i].message == results[i].1.message)
              && (results[i].1.Fetched? ==> Reports(results)[i].findings == Audit(results[i].1.headers))
  {
    if results != [] {
      var prefix := results[..|results| - 1];
      ReportsPerDomain(prefix);
      assert forall i :: 0 <= i < |prefix| ==> prefix[i] == results[i];
    }
  }

  lemma {:induction false} ReportsAppend(a: seq<(string, Outcome)>, b: seq<(string, Outcome)>)
    ensures Reports(a + b) == Reports(a) + Reports(b)
  {
    if b != [] {
      assert (a + b)[..|a + b| - 1] == a + b[..|b| - 1];
      ReportsAppend(a, b[..|b| - 1]);
    } else {
      assert a + b == a;
    }
  }

  /** A fetch error affects only its own domain: the domains before and after are reported as without it. */
  lemma FetchErrorIsolated(a: seq<(string, Outcome)>, domain: string, error: string, b: seq<(string, Outcome)>)
    ensures Reports(a + [(domain, FetchError(error))] + b) == Reports(a) + [Failed(domain, error)] + Reports(b)
  {
    ReportsAppend(a + [(domain, FetchError(error))], b);
    ReportsAppend(a, [(domain, FetchError(error))]);
    assert Reports([(domain, FetchError(error))]) == [Failed(domain, error)];
  }

  // ---------------------------------------------------------------------------
  // URL preparation of the extended entry point

  /** The domains the extended entry point fetches: optionally deduplicated, then without static assets. */
  function Prepared(parse: UrlParser, dedupe: bool, lines: seq<string>): seq<string>
  {
    WithoutStatic(parse, if dedupe then Deduplicated(parse, lines) else lines)
  }

  method PrepareDomains(parse: UrlParser, dedupe: bool, lines: seq<string>) returns (domains: seq<string>)
    ensures domains == Prepared(parse, dedupe, lines)
  {
    domains := lines;
    if dedupe {
      domains := DeduplicateUrls(parse, domains);
    }
    domains := RemoveStatic(parse, domains);
  }

  /** Whatever the flag, the prepared list has no repeated entry and is no longer than the input. */
  lemma PreparedNoDuplicates(parse: UrlParser, dedupe: bool, lines: seq<string>)
    ensures NoDuplicates(Prepared(parse, dedupe, lines))
    ensures |Prepared(parse, dedupe, lines)| <= |lines|
  {
    var domains := if dedupe then Deduplicated(parse, lines) else lines;
    if dedupe {
      DeduplicatedNoDuplicates(parse, lines);
    }
    WithoutStaticNoDuplicates(parse, domains);
  }
}
