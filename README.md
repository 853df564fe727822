# reskill security-header scanner: a Dafny model

reskill reads URLs, fetches each one, and audits the security headers of the response.
A fixed checklist of five headers is used: X-Frame-Options, Strict-Transport-Security,
X-Content-Type-Options, X-XSS-Protection and Content-Security-Policy. Each of the four non-CSP
headers is reported as missing, or with its values joined by a space. The
Content-Security-Policy (CSP) header is reported as missing if absent. Otherwise its values,
joined with no separator, are scanned for the insecure directives `unsafe-inline`, `unsafe-eval`
and `unsafe-dynamic`, and the policy is reported once for each directive it contains. A present
CSP header never gets a value line of its own. The scanner has two
entry points. In the extended one (`cmd/main.go`), the URL list first goes through two filters:
`deduplicateUrls`, run only under `-dedupe`, and `removeStatic`, which drops static assets.

The project models:

- `UrlFilter` (url_filter.dfy): both URL filters as loop methods with a seen-set. They are proved
  against `Distinct`, a keep-first-occurrence function. Lemmas prove no duplicates, membership
  in both directions, first-seen order, that unparsable entries are skipped, and that static
  assets are dropped. `url.Parse` is the parameter `parse: string -> Option<ParsedUrl>`.
- `HeaderAudit` (header_audit.dfy): `checkMisconfigCSP` and the per-response audit loop. Both entry
  points share this model, because their audits differ only in how the lines are printed. Each
  printed line is a `Finding` value: `Missing`, `Present(header, value)` or
  `InsecureCsp(directive, policy)`. The printed CSP line shows only the policy, not the
  directive, so two CSP findings for one policy print as the same text. The response's headers are a table of
  `(key, values)` pairs.
- `Scan` (scan.dfy): the per-domain loop and the URL preparation of `cmd/main.go`. A fetch error
  for one domain is reported, and the loop goes on with the next domain.
- `Text` (text.dfy): the `strings` functions used: `ToLower` (ASCII), `Contains`, `HasSuffix`
  and `Join`.

For a CSP value with no insecure directive the audit prints nothing. For each directive the
value contains, it prints the policy once (cmd/main.go:27-32). Only the five checklist headers
are audited.

## Model

| member | source | states |
|---|---|---|
| UrlFilter.DeduplicateUrls | cmd/main.go:35-56 | the loop with its seen-set returns exactly `Deduplicated`: for each input that parses, its key `scheme://host+path`, keeping only the first occurrence of each key |
| UrlFilter.DeduplicatedNoDuplicates | cmd/main.go:49-52 | the deduplicated list never holds the same string twice and is no longer than the input |
| UrlFilter.DeduplicatedMembers | cmd/main.go:39-52 | a string is output iff it is `scheme://host+path` of some input that parsed, so no query string survives |
| UrlFilter.DeduplicatedFirstSeenOrder | cmd/main.go:39-52 | outputs are in the order their keys first appear among the parsed inputs |
| UrlFilter.DeduplicatedSkipsUnparsable | cmd/main.go:40-43 | inserting an entry that does not parse anywhere in the input leaves the output unchanged |
| UrlFilter.WithQuery | cmd/main.go:82-84 | the result starts with the base URL; it equals the base URL iff the query is empty, and otherwise continues with `?` and the raw query |
| UrlFilter.HasStaticExtension | cmd/main.go:70-76 | the inner loop with `break` reports true iff the base URL ends, case-sensitively, with one of the 12 extensions |
| UrlFilter.StaticExtensionExamples | cmd/main.go:61-76 | `.js` is static, but `.json` and an upper-case `.PNG` are not (a whole, case-sensitive suffix test) |
| UrlFilter.RemoveStatic | cmd/main.go:58-93 | the loop returns exactly `WithoutStatic`: for each parsed, non-static input, its URL with the query re-attached when non-empty, keeping only the first occurrence of each |
| UrlFilter.WithoutStaticNoDuplicates | cmd/main.go:86-89 | the output of `removeStatic` has no repeated string and is no longer than the input |
| UrlFilter.WithoutStaticMembers | cmd/main.go:61-89 | a string is output iff it is `WithQuery` of some input that parsed and whose base URL has no static extension |
| UrlFilter.WithoutStaticDropsStatic | cmd/main.go:69-80 | inserting an entry whose base URL ends with a static extension leaves the output unchanged |
| UrlFilter.WithoutStaticSkipsUnparsable | cmd/main.go:64-67 | inserting an entry that does not parse leaves the output unchanged |
| UrlFilter.WithoutStaticFirstSeenOrder | cmd/main.go:86-89 | outputs are in the order they first appear among the kept entries |
| UrlFilter.DistinctMembers | cmd/main.go:49-51 | keep-first filtering loses no element and adds none |
| UrlFilter.DistinctNoDuplicates | cmd/main.go:49-51 | keep-first filtering yields each element once and never lengthens the list |
| UrlFilter.DistinctFirstSeenOrder | cmd/main.go:49-51 | keep-first filtering orders elements by their first occurrence in the input |
| HeaderAudit.CheckMisconfigCsp | cmd/main.go:20-33 | the loop over the three directives returns exactly `CspFindings` of the value |
| HeaderAudit.CspFindingsInOrder | main.go:15-28 | the CSP scan reports `unsafe-inline`, `unsafe-eval`, `unsafe-dynamic` in that order, each once and only if contained; at most three findings |
| HeaderAudit.CspFindingsMembers | cmd/main.go:27-32 | a CSP finding is exactly an insecure directive that the value contains, reported with that value |
| HeaderAudit.CspCleanIff | cmd/main.go:27-32 | the scan reports nothing iff the value contains none of the three directives |
| HeaderAudit.CspExample | cmd/main.go:20-33 | `default-src 'self'; script-src 'unsafe-inline'` yields exactly one finding, for `unsafe-inline` |
| HeaderAudit.CspJoinSpansValues | cmd/main.go:157 | joining CSP values with `""` can form `unsafe-inline` from two values, neither of which contains it |
| HeaderAudit.LowercaseHeaders | main.go:62-65 | the loop builds exactly `LowerMap`: each key lower-cased, mapped to its values |
| HeaderAudit.LowerMapKeys | cmd/main.go:142-145 | a string is a key of the lower-cased map iff some response key lower-cases to it |
| HeaderAudit.LowerMapValue | cmd/main.go:142-145 | when lower-cased keys are distinct, the map holds each header's own values |
| HeaderAudit.AuditResponse | cmd/main.go:134-163 | building the map and walking the checklist returns exactly `Audit` of the response's headers |
| HeaderAudit.AuditHeaderFacts | main.go:67-80 | each finding for a name is about that name; it is `Missing` iff the lower-cased name is absent; a value finding is the values joined with `" "` and never for CSP; a CSP finding carries the values joined with `""` |
| HeaderAudit.AuditMissing | main.go:68-70 | `Missing(name)` is reported iff `name` is on the checklist and no response key matches it case-insensitively |
| HeaderAudit.AuditPresent | main.go:75-77 | `Present(name, v)` is reported iff `name` is a non-CSP checklist header, present, and `v` is its values joined with a single space |
| HeaderAudit.LowerMapSome | cmd/main.go:142-145 | whatever the keys, each key of the lower-cased map holds the values of some response key that lower-cases to it |
| HeaderAudit.AuditPresentSound | main.go:75-77 | even when keys collide after lower-casing, every `Present(name, v)` is a non-CSP checklist header and `v` is the values of one matching key joined with a single space |
| HeaderAudit.AuditInsecureCspSound | main.go:73-74 | even when keys collide after lower-casing, every `InsecureCsp(d, p)` names an insecure directive contained in `p`, and `p` is the values of one CSP key joined with `""` |
| HeaderAudit.AuditInsecureCsp | main.go:73-74 | `InsecureCsp(d, p)` is reported iff `d` is an insecure directive, `p` is the CSP values joined with `""`, and `p` contains `d` |
| HeaderAudit.AuditMissingHasNoValue | cmd/main.go:151-161 | a header reported missing has no value finding, and the CSP header never has a value finding |
| HeaderAudit.AuditDetectsDirectiveInAnyValue | cmd/main.go:157 | if any single CSP value contains an insecure directive, the joined policy is reported for it |
| HeaderAudit.AuditCaseInsensitive | main.go:62-68 | two responses whose keys differ only in letter case get the same audit |
| HeaderAudit.AuditOncePerHeader | main.go:54-67 | each non-CSP checklist header yields exactly one finding |
| HeaderAudit.AuditInChecklistOrder | cmd/main.go:134-150 | findings follow checklist order: none about a later header comes before one about an earlier header |
| HeaderAudit.AuditLength | cmd/main.go:150-163 | every audit has between 4 and 7 lines: one per non-CSP header and 0 to 3 for the CSP header |
| Scan.ScanDomains | main.go:44-83 | the loop over domains returns exactly `Reports` of the fetch outcomes |
| Scan.ReportsPerDomain | cmd/main.go:124-166 | one report per domain, in order: a fetch error gives a failure report and no audit; a response gives the audit of its headers |
| Scan.FetchErrorIsolated | main.go:47-51 | a fetch error changes only its own domain's report; the domains before and after are reported as if it were absent |
| Scan.PrepareDomains | cmd/main.go:112-116 | the preparation returns `removeStatic` of the input, deduplicated first when the flag is set |
| Scan.PreparedNoDuplicates | cmd/main.go:112-116 | with or without the flag, the prepared list has no repeated entry and is no longer than the input |

## Left out

- HTTP fetching is not modelled. This covers `http.Client`, `http.Get`, the transport that skips TLS verification, and `defer resp.Body.Close`. This is network I/O. The loop receives each domain paired with the outcome of its GET: a header table or an error message. The client sets no timeout (cmd/main.go:118-122, main.go:47), so a GET may never return; the model covers only runs in which every GET ends.
- Reading standard input is not modelled. This covers `bufio.Scanner` and the report of a read error. Command-line flag parsing is not modelled either. The input lines are a sequence, and `-dedupe` is a boolean parameter.
- The internals of `url.Parse` are not modelled. This is a library whose code is not shown. The model takes it as a parameter.
- Lower: models `strings.ToLower` on ASCII letters only. Unicode case mapping is outside this model.
- Go leaves the winner unspecified when two response keys lower-case to the same string, because map iteration order is unspecified. `LowerMap` lets the later key in the table win. The iff lemmas about values (`AuditPresent`, `AuditInsecureCsp`, `LowerMapValue`) require distinct lower-cased keys. Their reporting-to-input direction (`AuditPresentSound`, `AuditInsecureCspSound`) holds without that requirement.
- All printing is left out. This covers colouring through `fatih/color`, the text of the lines, the banner and information lines, the success line naming the domain, the status-code line, and the divider lines. It is cosmetic console output through a foreign library. `pkg/utils/color.go` is not part of this model.
- Neither entry point prefixes a scheme to bare hostnames or has an option for custom request headers, so neither is modelled.

