/**
 * The two URL-list filters of the scanner: `deduplicateUrls` (keep the first
 * URL for each `scheme://host+path`, dropping query strings) and `removeStatic`
 * (drop static assets, keep the query, keep the first of each resulting string).
 * Both skip entries the URL parser rejects.  The parser itself is not modelled:
 * it is a parameter, a partial function from a string to its parts.
 */
module UrlFilter {
  import opened Wrappers
  import opened Text

  /** The parts of a parsed URL the filters use. */
  datatype ParsedUrl = ParsedUrl(scheme: string, host: string, path: string, rawQuery: string)

  /** `url.Parse`: `None` for a string it rejects. */
  type UrlParser = string -> Option<ParsedUrl>

  /** The canonical key `scheme://host+path`, without the query. */
  function BaseUrl(u: ParsedUrl): string
  {
    u.scheme + "://" + u.host + u.path
  }

  /** The base URL with `?rawQuery` re-attached when the query is non-empty. */
  function WithQuery(u: ParsedUrl): (r: string)
    ensures StartsWith(r, BaseUrl(u))
    ensures r == BaseUrl(u) <==> u.rawQuery == ""
    ensures u.rawQuery != "" ==> r[|BaseUrl(u)|..] == "?" + u.rawQuery
  {
    if u.rawQuery != "" then BaseUrl(u) + "?" + u.rawQuery else BaseUrl(u)
  }

  /** The static-asset extensions, in the order they are tested. */
  const StaticExtensions: seq<string> :=
    [".css", ".js", ".jpg", ".jpeg", ".png", ".gif", ".svg", ".woff", ".woff2", ".ttf", ".eot", ".ico"]

  /** A base URL names a static asset when it ends (case-sensitively) with one of the extensions. */
  predicate IsStatic(base: string)
  {
    exists k :: 0 <= k < |StaticExtensions| && HasSuffix(base, StaticExtensions[k])
  }

  // ---------------------------------------------------------------------------
  // Keeping the first occurrence

  predicate NoDuplicates<T(==)>(s: seq<T>)
  {
    forall i, j :: 0 <= i < j < |s| ==> s[i] != s[j]
  }

  /** The elements of `s` that do not occur earlier in `s`, in order. */
  function Distinct<T(==)>(s: seq<T>): seq<T>
  {
    if s == [] then []
    else
      var prefix, last := s[..|s| - 1], s[|s| - 1];
      Distinct(prefix) + (if last in prefix then [] else [last])
  }

  /** The position of the first occurrence of `x` in `s`. */
  function FirstIndex<T(==)>(s: seq<T>, x: T): (k: nat)
    requires x in s
    ensures k < |s| && s[k] == x && x !in s[..k]
  {
    if s[0] == x then 0 else 1 + FirstIndex(s[1..], x)
  }

  lemma {:induction false} FirstIndexAppend<T>(s: seq<T>, y: T, x: T)
    requires x in s
    ensures x in s + [y] && FirstIndex(s + [y], x) == FirstIndex(s, x)
  {
    if s[0] != x {
      assert (s + [y])[1..] == s[1..] + [y];
      FirstIndexAppend(s[1..], y, x);
    }
  }

  /** `Distinct` loses no element and adds none. */
  lemma {:induction false} DistinctMembers<T>(s: seq<T>)
    ensures forall x :: x in Distinct(s) <==> x in s
  {
    if s != [] {
      var prefix := s[..|s| - 1];
      DistinctMembers(prefix);
      assert s == prefix + [s[|s| - 1]];
    }
  }

  /** `Distinct` never yields the same element twice and is no longer than its input. */
  lemma {:induction false} DistinctNoDuplicates<T>(s: seq<T>)
    ensures NoDuplicates(Distinct(s))
    ensures |Distinct(s)| <= |s|
  {
    if s != [] {
      var prefix := s[..|s| - 1];
      DistinctNoDuplicates(prefix);
      DistinctMembers(prefix);
    }
  }

  /** `Distinct` lists its elements in the order of their first occurrences in `s`. */
  lemma {:induction false} DistinctFirstSeenOrder<T>(s: seq<T>)
    ensures forall x :: x in Distinct(s) ==> x in s
    ensures forall i, j :: 0 <= i < j < |Distinct(s)| ==>
              FirstIndex(s, Distinct(s)[i]) < FirstIndex(s, Distinct(s)[j])
  {
    DistinctMembers(s);
    if s != [] {
      var prefix, last := s[..|s| - 1], s[|s| - 1];
      assert s == prefix + [last];
      DistinctFirstSeenOrder(prefix);
      FirstSeenOrderStep(prefix, last);
    }
  }

  /** Appending one element keeps the first-seen order that `Distinct` has on the list before it. */
  lemma FirstSeenOrderStep<T>(prefix: seq<T>, last: T)
    requires forall x :: x in Distinct(prefix) ==> x in prefix
    requires forall i, j :: 0 <= i < j < |Distinct(prefix)| ==>
               FirstIndex(prefix, Distinct(prefix)[i]) < FirstIndex(prefix, Distinct(prefix)[j])
    ensures forall x :: x in Distinct(prefix + [last]) ==> x in prefix + [last]
    ensures forall i, j :: 0 <= i < j < |Distinct(prefix + [last])| ==>
              FirstIndex(prefix + [last], Distinct(prefix + [last])[i])
              < FirstIndex(prefix + [last], Distinct(prefix + [last])[j])
  {
    var s := prefix + [last];
    DistinctMembers(s);
    assert s[..|s| - 1] == prefix && s[|s| - 1] == last;
    var d := Distinct(prefix);
    forall k | 0 <= k < |d| ensures d[k] in prefix && d[k] in s && FirstIndex(s, d[k]) == FirstIndex(prefix, d[k]) < |prefix| {
      FirstIndexOfKept(prefix, last, k);
    }
    if last in prefix {
      assert Distinct(s) == d;
    } else {
      assert Distinct(s) == d + [last];
      assert FirstIndex(s, last) == |prefix|;
      NewLastOrder(d, s, |prefix|);
    }
  }

  /** Appending an element first seen after all of `d`'s keeps `d`'s order. */
  lemma NewLastOrder<T>(d: seq<T>, s: seq<T>, n: nat)
    requires |s| == n + 1 && s[n] in s
    requires forall k :: 0 <= k < |d| ==> d[k] in s && FirstIndex(s, d[k]) < n
    requires forall i, j :: 0 <= i < j < |d| ==> FirstIndex(s, d[i]) < FirstIndex(s, d[j])
    requires FirstIndex(s, s[n]) == n
    ensures forall i, j :: 0 <= i < j < |d + [s[n]]| ==> FirstIndex(s, (d + [s[n]])[i]) < FirstIndex(s, (d + [s[n]])[j])
  {
    var r := d + [s[n]];
    forall i, j | 0 <= i < j < |r| ensures FirstIndex(s, r[i]) < FirstIndex(s, r[j]) {
      assert r[i] == d[i];
      if j < |d| {
        assert r[j] == d[j];
      }
    }
  }

  /** An element kept from `prefix` is first seen at the same place once another element is appended. */
  lemma FirstIndexOfKept<T>(prefix: seq<T>, last: T, k: int)
    requires 0 <= k < |Distinct(prefix)|
    ensures Distinct(prefix)[k] in prefix + [last]
    ensures Distinct(prefix)[k] in prefix
    ensures FirstIndex(prefix + [last], Distinct(prefix)[k]) == FirstIndex(prefix, Distinct(prefix)[k]) < |prefix|
  {
    DistinctMembers(prefix);
    assert Distinct(prefix)[k] in Distinct(prefix);
    FirstIndexAppend(prefix, last, Distinct(prefix)[k]);
  }

  // ---------------------------------------------------------------------------
  // deduplicateUrls

  /** The canonical keys of the entries that parse, in input order. */
  function BaseKeys(parse: UrlParser, urls: seq<string>): seq<string>
  {
    if urls == [] then []
    else
      var prefix := urls[..|urls| - 1];
      match parse(urls[|urls| - 1])
      case None => BaseKeys(parse, prefix)
      case Some(u) => BaseKeys(parse, prefix) + [BaseUrl(u)]
  }

  /** What `deduplicateUrls` returns. */
  function Deduplicated(parse: UrlParser, urls: seq<string>): seq<string>
  {
    Distinct(BaseKeys(parse, urls))
  }

  /** `deduplicateUrls`: one pass with a set of keys already emitted and an append-only result. */
  method DeduplicateUrls(parse: UrlParser, urls: seq<string>) returns (result: seq<string>)
    ensures result == Deduplicated(parse, urls)
  {
    var uniquePaths: set<string> := {};
    result := [];
    var i := 0;
    while i < |urls|
      invariant 0 <= i <= |urls|
      invariant result == Distinct(BaseKeys(parse, urls[..i]))
      invariant forall x :: x in uniquePaths <==> x in BaseKeys(parse, urls[..i])
    {
      assert urls[..i + 1][..i] == urls[..i];
      var parsed := parse(urls[i]);
      if parsed.None? {
        i := i + 1;
        continue;
      }
      var baseUrl := BaseUrl(parsed.value);
      DistinctMembers(BaseKeys(parse, urls[..i]));
      if baseUrl !in uniquePaths {
        uniquePaths := uniquePaths + {baseUrl};
        result := result + [baseUrl];
      }
      i := i + 1;
    }
    assert urls[..i] == urls;
  }

  lemma {:induction false} BaseKeysMembers(parse: UrlParser, urls: seq<string>)
    ensures |BaseKeys(parse, urls)| <= |urls|
    ensures forall r :: r in BaseKeys(parse, urls) <==>
              exists i :: 0 <= i < |urls| && parse(urls[i]).Some? && r == BaseUrl(parse(urls[i]).value)
  {
    if urls != [] {
      var prefix := urls[..|urls| - 1];
      BaseKeysMembers(parse, prefix);
      assert forall i :: 0 <= i < |prefix| ==> prefix[i] == urls[i];
    }
  }

  lemma {:induction false} BaseKeysAppend(parse: UrlParser, a: seq<string>, b: seq<string>)
    ensures BaseKeys(parse, a + b) == BaseKeys(parse, a) + BaseKeys(parse, b)
  {
    if b != [] {
      var prefix := b[..|b| - 1];
      assert (a + b)[..|a + b| - 1] == a + prefix;
      BaseKeysAppend(parse, a, prefix);
    } else {
      assert a + b == a;
    }
  }

  /** `deduplicateUrls` never returns a string twice, and returns no more entries than it was given. */
  lemma DeduplicatedNoDuplicates(parse: UrlParser, urls: seq<string>)
    ensures NoDuplicates(Deduplicated(parse, urls))
    ensures |Deduplicated(parse, urls)| <= |urls|
  {
    DistinctNoDuplicates(BaseKeys(parse, urls));
    BaseKeysMembers(parse, urls);
  }

  /** Every output is `scheme://host+path` of some input that parsed (so no query survives), and every such key is output. */
  lemma DeduplicatedMembers(parse: UrlParser, urls: seq<string>, r: string)
    ensures r in Deduplicated(parse, urls) <==>
              exists i :: 0 <= i < |urls| && parse(urls[i]).Some? && r == BaseUrl(parse(urls[i]).value)
  {
    DistinctMembers(BaseKeys(parse, urls));
    BaseKeysMembers(parse, urls);
  }

  /** The outputs appear in the order in which their keys first appear among the parsed inputs. */
  lemma DeduplicatedFirstSeenOrder(parse: UrlParser, urls: seq<string>)
    ensures forall x :: x in Deduplicated(parse, urls) ==> x in BaseKeys(parse, urls)
    ensures forall i, j :: 0 <= i < j < |Deduplicated(parse, urls)| ==>
              FirstIndex(BaseKeys(parse, urls), Deduplicated(parse, urls)[i])
              < FirstIndex(BaseKeys(parse, urls), Deduplicated(parse, urls)[j])
  {
    DistinctFirstSeenOrder(BaseKeys(parse, urls));
  }

  /** An entry that does not parse has no effect on the result, wherever it stands. */
  lemma DeduplicatedSkipsUnparsable(parse: UrlParser, a: seq<string>, bad: string, b: seq<string>)
    requires parse(bad).None?
    ensures Deduplicated(parse, a + [bad] + b) == Deduplicated(parse, a + b)
  {
    BaseKeysAppend(parse, a + [bad], b);
    BaseKeysAppend(parse, a, [bad]);
    BaseKeysAppend(parse, a, b);
    assert BaseKeys(parse, [bad]) == [];
  }

  // ---------------------------------------------------------------------------
  // removeStatic

  /** The inner loop of `removeStatic`: test the extensions in order, stopping at the first match. */
  method HasStaticExtension(baseUrl: string) returns (isStatic: bool)
    ensures isStatic <==> IsStatic(baseUrl)
  {
    isStatic := false;
    var k := 0;
    while k < |StaticExtensions|
      invariant 0 <= k <= |StaticExtensions|
      invariant !isStatic
      invariant forall j :: 0 <= j < k ==> !HasSuffix(baseUrl, StaticExtensions[j])
    {
      if HasSuffix(baseUrl, StaticExtensions[k]) {
        isStatic := true;
        break;
      }
      k := k + 1;
    }
  }

  /** The strings `removeStatic` considers, in input order: the query-carrying URL of each parsed, non-static entry. */
  function PageKeys(parse: UrlParser, urls: seq<string>): seq<string>
  {
    if urls == [] then []
    else
      var prefix := urls[..|urls| - 1];
      match parse(urls[|urls| - 1])
      case None => PageKeys(parse, prefix)
      case Some(u) =>
        if IsStatic(BaseUrl(u)) then PageKeys(parse, prefix) else PageKeys(parse, prefix) + [WithQuery(u)]
  }

  /** What `removeStatic` returns. */
  function WithoutStatic(parse: UrlParser, urls: seq<string>): seq<string>
  {
    Distinct(PageKeys(parse, urls))
  }

  /** `removeStatic`: one pass, skipping unparsable and static entries, with a set of strings already emitted. */
  method RemoveStatic(parse: UrlParser, urls: seq<string>) returns (result: seq<string>)
    ensures result == WithoutStatic(parse, urls)
  {
    var uniquePaths: set<string> := {};
    result := [];
    var i := 0;
    while i < |urls|
      invariant 0 <= i <= |urls|
      invariant result == Distinct(PageKeys(parse, urls[..i]))
      invariant forall x :: x in uniquePaths <==> x in PageKeys(parse, urls[..i])
    {
      assert urls[..i + 1][..i] == urls[..i];
      var parsed := parse(urls[i]);
      if parsed.None? {
        i := i + 1;
        continue;
      }
      var baseUrl := BaseUrl(parsed.value);
      var isStatic := HasStaticExtension(baseUrl);
      if isStatic {
        i := i + 1;
        continue;
      }
      if parsed.value.rawQuery != "" {
        baseUrl := baseUrl + "?" + parsed.value.rawQuery;
      }
      DistinctMembers(PageKeys(parse, urls[..i]));
      if baseUrl !in uniquePaths {
        uniquePaths := uniquePaths + {baseUrl};
        result := result + [baseUrl];
      }
      i := i + 1;
    }
    assert urls[..i] == urls;
  }

  lemma {:induction false} PageKeysMembers(parse: UrlParser, urls: seq<string>)
    ensures |PageKeys(parse, urls)| <= |urls|
    ensures forall r :: r in PageKeys(parse, urls) <==>
              exists i :: 0 <= i < |urls| && parse(urls[i]).Some? && !IsStatic(BaseUrl(parse(urls[i]).value))
                          && r == WithQuery(parse(urls[i]).value)
  {
    if urls != [] {
      var prefix := urls[..|urls| - 1];
      PageKeysMembers(parse, prefix);
      assert forall i :: 0 <= i < |prefix| ==> prefix[i] == urls[i];
    }
  }

  lemma {:induction false} PageKeysAppend(parse: UrlParser, a: seq<string>, b: seq<string>)
    ensures PageKeys(parse, a + b) == PageKeys(parse, a) + PageKeys(parse, b)
  {
    if b != [] {
      var prefix := b[..|b| - 1];
      assert (a + b)[..|a + b| - 1] == a + prefix;
      PageKeysAppend(parse, a, prefix);
    } else {
      assert a + b == a;
    }
  }

  /** `removeStatic` never returns a string twice, and returns no more entries than it was given. */
  lemma WithoutStaticNoDuplicates(parse: UrlParser, urls: seq<string>)
    ensures NoDuplicates(WithoutStatic(parse, urls))
    ensures |WithoutStatic(parse, urls)| <= |urls|
  {
    DistinctNoDuplicates(PageKeys(parse, urls));
    PageKeysMembers(parse, urls);
  }

  /**
   * An output of `removeStatic` is exactly the URL (with its query re-attached when
   * non-empty) of some entry that parsed and whose base URL has no static extension.
   */
  lemma WithoutStaticMembers(parse: UrlParser, urls: seq<string>, r: string)
    ensures r in WithoutStatic(parse, urls) <==>
              exists i :: 0 <= i < |urls| && parse(urls[i]).Some? && !IsStatic(BaseUrl(parse(urls[i]).value))
                          && r == WithQuery(parse(urls[i]).value)
  {
    DistinctMembers(PageKeys(parse, urls));
    PageKeysMembers(parse, urls);
  }

  /** An entry whose base URL ends with a static extension contributes nothing. */
  lemma WithoutStaticDropsStatic(parse: UrlParser, a: seq<string>, asset: string, b: seq<string>)
    requires parse(asset).Some? && IsStatic(BaseUrl(parse(asset).value))
    ensures WithoutStatic(parse, a + [asset] + b) == WithoutStatic(parse, a + b)
  {
    PageKeysAppend(parse, a + [asset], b);
    PageKeysAppend(parse, a, [asset]);
    PageKeysAppend(parse, a, b);
    assert PageKeys(parse, [asset]) == [];
  }

  /** An entry that does not parse has no effect on the result, wherever it stands. */
  lemma WithoutStaticSkipsUnparsable(parse: UrlParser, a: seq<string>, bad: string, b: seq<string>)
    requires parse(bad).None?
    ensures WithoutStatic(parse, a + [bad] + b) == WithoutStatic(parse, a + b)
  {
    PageKeysAppend(parse, a + [bad], b);
    PageKeysAppend(parse, a, [bad]);
    PageKeysAppend(parse, a, b);
    assert PageKeys(parse, [bad]) == [];
  }

  /** The outputs appear in the order in which they first appear among the kept entries. */
  lemma WithoutStaticFirstSeenOrder(parse: UrlParser, urls: seq<string>)
    ensures forall x :: x in WithoutStatic(parse, urls) ==> x in PageKeys(parse, urls)
    ensures forall i, j :: 0 <= i < j < |WithoutStatic(parse, urls)| ==>
              FirstIndex(PageKeys(parse, urls), WithoutStatic(parse, urls)[i])
              < FirstIndex(PageKeys(parse, urls), WithoutStatic(parse, urls)[j])
  {
    DistinctFirstSeenOrder(PageKeys(parse, urls));
  }

  /** The suffix test is on whole extensions and case-sensitive: `.js` is static, `.json` and `.PNG` are not. */
  lemma StaticExtensionExamples(script: string, data: string, image: string)
    requires script == "https://example.com/app.js"
    requires data == "https://example.com/app.json"
    requires image == "https://example.com/LOGO.PNG"
    ensures IsStatic(script)
    ensures !IsStatic(data)
    ensures !IsStatic(image)
  {
    assert script[|script| - 3..] == ".js";
    assert HasSuffix(script, StaticExtensions[1]);
    NotStaticByLastChar(data);
    NotStaticByLastChar(image);
  }

  /** No static extension ends in a character other than these, so a URL ending otherwise is not static. */
  lemma NotStaticByLastChar(base: string)
    requires |base| > 0 && base[|base| - 1] !in {'s', 'g', 'f', '2', 't', 'o'}
    ensures !IsStatic(base)
  {
    forall k | 0 <= k < |StaticExtensions| ensures !HasSuffix(base, StaticExtensions[k]) {
      var ext := StaticExtensions[k];
      assert ext[|ext| - 1] in {'s', 'g', 'f', '2', 't', 'o'};
      if |ext| <= |base| {
        assert base[|base| - |ext|..][|ext| - 1] == base[|base| - 1];
        assert base[|base| - |ext|..] != ext;
      }
    }
  }
}
