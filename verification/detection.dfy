/** `detect_waf` (sqlmap.py:127-131): first-match search of the signature catalog. */
module Detection {
  import opened Wrappers
  import opened Strings
  import opened Signatures

  /** Rule `i` matches and no earlier rule does. */
  predicate IsFirstMatch(rules: seq<Rule>, i: int, headers: Headers, body: string) {
    && 0 <= i < |rules|
    && Matches(rules[i], headers, body)
    && forall j :: 0 <= j < i ==> !Matches(rules[j], headers, body)
  }

  /** The loop of `detect_waf` from rule `from` on: the name of the first matching rule, else `None`. */
  function FirstMatchFrom(rules: seq<Rule>, from: nat, headers: Headers, body: string): (r: Option<string>)
    requires from <= |rules|
    ensures r.None? <==> forall i :: from <= i < |rules| ==> !Matches(rules[i], headers, body)
    ensures r.Some? ==> exists i :: && from <= i < |rules|
                                   && Matches(rules[i], headers, body)
                                   && (forall j :: from <= j < i ==> !Matches(rules[j], headers, body))
                                   && r.value == rules[i].name
    decreases |rules| - from
  {
    if from == |rules| then None
    else if Matches(rules[from], headers, body) then Some(rules[from].name)
    else FirstMatchFrom(rules, from + 1, headers, body)
  }

  /** First-match search over any ordered rule list. */
  function FirstMatch(rules: seq<Rule>, headers: Headers, body: string): (r: Option<string>)
    ensures r.None? <==> forall i :: 0 <= i < |rules| ==> !Matches(rules[i], headers, body)
    ensures r.Some? ==> exists i :: IsFirstMatch(rules, i, headers, body) && r.value == rules[i].name
  {
    FirstMatchFrom(rules, 0, headers, body)
  }

  /** `detect_waf(response_headers, response_body)`. */
  function DetectWaf(headers: Headers, body: string): (r: Option<string>)
    ensures r.None? <==> forall i :: 0 <= i < |Catalog| ==> !Matches(Catalog[i], headers, body)
    ensures r.Some? ==> exists i :: IsFirstMatch(Catalog, i, headers, body) && r.value == Catalog[i].name
  {
    FirstMatch(Catalog, headers, body)
  }

  /** The result is exactly the earliest matching rule's name. */
  lemma FirstMatchIsEarliest(rules: seq<Rule>, i: int, headers: Headers, body: string)
    requires IsFirstMatch(rules, i, headers, body)
    ensures FirstMatch(rules, headers, body) == Some(rules[i].name)
  {
    var r := FirstMatch(rules, headers, body);
    var k :| IsFirstMatch(rules, k, headers, body) && r.value == rules[k].name;
    assert k == i;
  }

  /** Priority: when rules `i < j` both match, the later rule's name is never the answer. */
  lemma LaterMatchNeverWins(rules: seq<Rule>, i: int, j: int, headers: Headers, body: string)
    requires DistinctNames(rules)
    requires 0 <= i < j < |rules|
    requires Matches(rules[i], headers, body) && Matches(rules[j], headers, body)
    ensures FirstMatch(rules, headers, body).Some?
    ensures FirstMatch(rules, headers, body) != Some(rules[j].name)
  {
    var r := FirstMatch(rules, headers, body);
    var k :| IsFirstMatch(rules, k, headers, body) && r.value == rules[k].name;
    assert k <= i;
    assert rules[k].name != rules[j].name;
  }

  /** Every name `detect_waf` returns is a catalog key, and looking it up gives the rule that matched. */
  lemma DetectedIsCatalogKey(headers: Headers, body: string)
    ensures DetectWaf(headers, body).Some? ==>
              && Lookup(Catalog, DetectWaf(headers, body).value).Some?
              && Matches(Lookup(Catalog, DetectWaf(headers, body).value).value, headers, body)
  {
    var r := DetectWaf(headers, body);
    if r.Some? {
      var i :| IsFirstMatch(Catalog, i, headers, body) && r.value == Catalog[i].name;
      CatalogNamesDistinct();
      LookupFindsRule(Catalog, i);
    }
  }

  /** A body mentioning "Cloudflare" is attributed to Cloudflare, whatever else it contains. */
  lemma CloudflareBodyWins(headers: Headers, body: string)
    requires IsSubstring("Cloudflare", body)
    ensures DetectWaf(headers, body) == Some("Cloudflare")
  {
    assert Matches(Catalog[0], headers, body);
    CatalogNamesDistinct();
    FirstMatchIsEarliest(Catalog, 0, headers, body);
  }

  /** A "403 Forbidden" body without any Cloudflare evidence is attributed to AWS Shield. */
  lemma ForbiddenBodyIsAwsShield(headers: Headers, body: string)
    requires IsSubstring("403 Forbidden", body)
    requires !InHeaders("Server: cloudflare", headers) && !IsSubstring("Cloudflare", body)
    ensures DetectWaf(headers, body) == Some("AWS Shield")
  {
    assert !Matches(Catalog[0], headers, body);
    assert Matches(Catalog[1], headers, body);
    CatalogNamesDistinct();
    FirstMatchIsEarliest(Catalog, 1, headers, body);
  }

  /** The header line `Server: cloudflare` is attributed to Cloudflare. */
  lemma CloudflareServerLine(lines: seq<string>, body: string)
    requires "Server: cloudflare" in lines
    ensures DetectWaf(HeaderLines(lines), body) == Some("Cloudflare")
  {
    assert InHeaders(Catalog[0].headers[0], HeaderLines(lines));
    CatalogNamesDistinct();
    FirstMatchIsEarliest(Catalog, 0, HeaderLines(lines), body);
  }

  /**
   * List membership is exact: a `Server: cloudflare-nginx` line with an empty body matches nothing,
   * while the same text given as one header string matches Cloudflare by substring.
   */
  lemma HeaderLinesCompareWholeLines()
    ensures DetectWaf(HeaderLines(["Server: cloudflare-nginx"]), "") == None
    ensures DetectWaf(HeaderText("Server: cloudflare-nginx"), "") == Some("Cloudflare")
  {
    var lines := HeaderLines(["Server: cloudflare-nginx"]);
    forall i | 0 <= i < |Catalog|
      ensures !Matches(Catalog[i], lines, "")
    {
      LongerIsNotSubstring(Catalog[i].errorMessage, "");
      assert |Catalog[i].headers| == 1;
      assert Catalog[i].headers[0] != "Server: cloudflare-nginx";
    }
    var text := "Server: cloudflare-nginx";
    assert OccursAt("Server: cloudflare", text, 0);
    IsSubstringAt("Server: cloudflare", text, 0);
    assert InHeaders(Catalog[0].headers[0], HeaderText(text));
    CatalogNamesDistinct();
    FirstMatchIsEarliest(Catalog, 0, HeaderText(text), "");
  }
}
