/** The WAF signature catalog (`WAF_SIGNATURES`, sqlmap.py:80-96) and what it means for a rule to match. */
module Signatures {
  import opened Wrappers
  import opened Strings

  /** One catalog entry: its key, header fingerprints, body fingerprint and the tampers it recommends. */
  datatype Rule = Rule(
    name: string,
    headers: seq<string>,
    errorMessage: string,
    recommendedTampers: seq<string>)

  /**
   * The response headers as `detect_waf` may receive them. Python's `in` means list membership when the
   * headers are a list of lines and substring search when they are one string; both are modelled.
   */
  datatype Headers = HeaderLines(lines: seq<string>) | HeaderText(text: string)

  /** `pattern in response_headers`. */
  predicate InHeaders(pattern: string, headers: Headers) {
    match headers
    case HeaderLines(lines) => pattern in lines
    case HeaderText(text) => IsSubstring(pattern, text)
  }

  /** Some header pattern of the rule is in the headers, or its error message is in the body. */
  predicate Matches(rule: Rule, headers: Headers, body: string) {
    || (exists k :: 0 <= k < |rule.headers| && InHeaders(rule.headers[k], headers))
    || IsSubstring(rule.errorMessage, body)
  }

  /** The catalog in dictionary insertion order, which is the order `detect_waf` tries the rules. */
  const Catalog: seq<Rule> := [
    Rule("Cloudflare", ["Server: cloudflare"], "Cloudflare", ["space2comment", "between", "randomcase"]),
    Rule("AWS Shield", ["x-amz-cf-id"], "403 Forbidden", ["charencode", "appendnullbyte"]),
    Rule("F5 BIG-IP", ["X-WA-Info"], "Access Denied", ["between", "equaltolike"])
  ]

  /** Dictionary keys are unique. */
  predicate DistinctNames(rules: seq<Rule>) {
    forall i, j :: 0 <= i < j < |rules| ==> rules[i].name != rules[j].name
  }

  /** `rules[name]`: the rule keyed by `name`, or `None` where Python raises `KeyError`. */
  function Lookup(rules: seq<Rule>, name: string): (r: Option<Rule>)
    ensures r.None? <==> forall i :: 0 <= i < |rules| ==> rules[i].name != name
    ensures r.Some? ==> r.value.name == name && r.value in rules
    decreases |rules|
  {
    if |rules| == 0 then None
    else if rules[0].name == name then Some(rules[0])
    else
      var r := Lookup(rules[1..], name);
      assert forall i :: 1 <= i < |rules| ==> rules[i] == rules[1..][i - 1];
      r
  }

  /** With unique keys the lookup finds exactly the rule stored under that key. */
  lemma {:induction false} LookupFindsRule(rules: seq<Rule>, i: int)
    requires DistinctNames(rules)
    requires 0 <= i < |rules|
    ensures Lookup(rules, rules[i].name) == Some(rules[i])
    decreases |rules|
  {
    if i > 0 {
      assert rules[0].name != rules[i].name;
      assert DistinctNames(rules[1..]);
      assert rules[1..][i - 1] == rules[i];
      LookupFindsRule(rules[1..], i - 1);
    }
  }

  /** The catalog's keys are unique, as those of a Python dictionary literal are. */
  lemma CatalogNamesDistinct()
    ensures DistinctNames(Catalog)
  {
    assert Catalog[0].name[0] != Catalog[1].name[0];
  }
}
