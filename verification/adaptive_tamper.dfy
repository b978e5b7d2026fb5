/** `apply_adaptive_tamper` (sqlmap.py:108-125): apply the catalog's tampers and learn from success. */
module AdaptiveTamper {
  import opened Wrappers
  import opened Signatures
  import opened Detection
  import opened TamperHistory

  /** The tampers returned to the caller, and the history file afterwards. */
  datatype Outcome = Outcome(applied: seq<string>, store: Store)

  /** Python truthiness of `waf_detected`: `None` and the empty string are false. */
  predicate Truthy(waf: Option<string>) {
    waf.Some? && waf.value != ""
  }

  /**
   * `apply_adaptive_tamper(waf_detected, response)` with the history update as intended. `succeeded`
   * stands for `response_is_successful(response)`; `store` is the history file before the call.
   */
  function ApplyAdaptiveTamper(waf: Option<string>, succeeded: bool, store: Store): (r: Result<Outcome, PyError>)
    ensures r.Failure? <==> Truthy(waf) && Lookup(Catalog, waf.value).None?
    ensures r.Failure? ==> r.error == KeyError(waf.value)
    ensures r.Success? && Truthy(waf) ==>
              exists i :: 0 <= i < |Catalog| && Catalog[i].name == waf.value
                          && r.value.applied == Catalog[i].recommendedTampers
    ensures r.Success? && !Truthy(waf) ==> r.value.applied == []
    ensures r.Success? && !(Truthy(waf) && succeeded) ==> r.value.store == store
    ensures r.Success? && Truthy(waf) && succeeded ==>
              Load(r.value.store) == Record(Load(store), waf.value, r.value.applied)
  {
    if !Truthy(waf) then Success(Outcome([], store))
    else
      match Lookup(Catalog, waf.value)
      case None => Failure(KeyError(waf.value))
      case Some(rule) =>
        var applied := rule.recommendedTampers;
        if succeeded then Success(Outcome(applied, Save(Record(Load(store), waf.value, applied))))
        else Success(Outcome(applied, store))
  }

  /**
   * The same call as written, with `response_is_successful(response)` taken as the `succeeded`
   * parameter: the history is loaded first (raising `NameError` when no file exists) and
   * `history[waf].extend` raises `KeyError` for a WAF missing from a loaded file.
   */
  function ApplyAdaptiveTamperAsWritten(waf: Option<string>, succeeded: bool, store: Store): (r: Result<Outcome, PyError>)
    ensures r.Failure? <==> || store.snapshot.None?
                            || (Truthy(waf) && Lookup(Catalog, waf.value).None?)
                            || (succeeded && Truthy(waf) && Lookup(Catalog, waf.value).Some?
                                && waf.value !in store.snapshot.value)
    ensures store.snapshot.None? ==> r == Failure(NameError("defaultdict"))
    ensures store.snapshot.Some? && Truthy(waf) && Lookup(Catalog, waf.value).None?
            ==> r == Failure(KeyError(waf.value))
    ensures && succeeded && Truthy(waf) && Lookup(Catalog, waf.value).Some?
            && store.snapshot.Some? && waf.value !in store.snapshot.value
            ==> r == Failure(KeyError(waf.value))
  {
    match LoadAsWritten(store)
    case Failure(e) => Failure(e)
    case Success(history) =>
      if !Truthy(waf) then Success(Outcome([], store))
      else
        match Lookup(Catalog, waf.value)
        case None => Failure(KeyError(waf.value))
        case Some(rule) =>
          var applied := rule.recommendedTampers;
          if !succeeded then Success(Outcome(applied, store))
          else if waf.value !in history then Failure(KeyError(waf.value))
          else Success(Outcome(applied, Save(history[waf.value := history[waf.value] + applied])))
  }

  /** With no WAF detected nothing is applied and the history file is left as it was. */
  lemma NoWafNoAction(waf: Option<string>, succeeded: bool, store: Store)
    requires !Truthy(waf)
    ensures ApplyAdaptiveTamper(waf, succeeded, store) == Success(Outcome([], store))
  {
  }

  /** A detected catalog WAF gets exactly its recommended tampers, in catalog order. */
  lemma AppliesRecommendedTampers(i: int, succeeded: bool, store: Store)
    requires 0 <= i < |Catalog|
    ensures ApplyAdaptiveTamper(Some(Catalog[i].name), succeeded, store).Success?
    ensures ApplyAdaptiveTamper(Some(Catalog[i].name), succeeded, store).value.applied == Catalog[i].recommendedTampers
  {
    CatalogNamesDistinct();
    LookupFindsRule(Catalog, i);
  }

  /**
   * On success the WAF's list becomes the old list (empty if absent) followed by the applied tampers,
   * without deduplication, and every other key keeps its list.
   */
  lemma SuccessAppendsToHistory(i: int, store: Store)
    requires 0 <= i < |Catalog|
    ensures var r := ApplyAdaptiveTamper(Some(Catalog[i].name), true, store);
            && r.Success?
            && r.value.store.snapshot.Some?
            && Load(r.value.store).Keys == Load(store).Keys + {Catalog[i].name}
            && Load(r.value.store)[Catalog[i].name] == Entry(Load(store), Catalog[i].name) + Catalog[i].recommendedTampers
            && forall k :: k in Load(store) && k != Catalog[i].name ==> Load(r.value.store)[k] == Load(store)[k]
  {
    CatalogNamesDistinct();
    LookupFindsRule(Catalog, i);
  }

  /** On failure the history is neither changed nor saved, but the tampers are still returned. */
  lemma FailureLeavesHistory(i: int, store: Store)
    requires 0 <= i < |Catalog|
    ensures ApplyAdaptiveTamper(Some(Catalog[i].name), false, store)
            == Success(Outcome(Catalog[i].recommendedTampers, store))
  {
    CatalogNamesDistinct();
    LookupFindsRule(Catalog, i);
  }

  /** The history only grows: no key is lost and each old list is a prefix of its new list. */
  lemma HistoryOnlyGrows(waf: Option<string>, succeeded: bool, store: Store)
    requires ApplyAdaptiveTamper(waf, succeeded, store).Success?
    ensures var after := Load(ApplyAdaptiveTamper(waf, succeeded, store).value.store);
            forall k :: k in Load(store) ==> k in after && Load(store)[k] <= after[k]
  {
    if Truthy(waf) && succeeded {
      RecordOnlyExtends(Load(store), waf.value, ApplyAdaptiveTamper(waf, succeeded, store).value.applied);
    }
  }

  /** Whatever `detect_waf` reports, applying the tampers for it never raises. */
  lemma DetectThenApplyNeverFails(headers: Headers, body: string, succeeded: bool, store: Store)
    ensures ApplyAdaptiveTamper(DetectWaf(headers, body), succeeded, store).Success?
  {
    var waf := DetectWaf(headers, body);
    if waf.Some? {
      var i :| IsFirstMatch(Catalog, i, headers, body) && waf.value == Catalog[i].name;
      assert Lookup(Catalog, waf.value).Some?;
    }
  }

  /** `t` repeated `n` times. */
  function Repeat(t: seq<string>, n: nat): seq<string> {
    if n == 0 then [] else Repeat(t, n - 1) + t
  }

  /** The history file after a successful call that applied `rule`'s tampers. */
  function SucceedOnce(rule: Rule, store: Store): (after: Store)
    ensures Entry(Load(after), rule.name) == Entry(Load(store), rule.name) + rule.recommendedTampers
    ensures forall k :: k != rule.name ==> Entry(Load(after), k) == Entry(Load(store), k)
  {
    Save(Record(Load(store), rule.name, rule.recommendedTampers))
  }

  /** For a catalog WAF, `SucceedOnce` is exactly what a successful call returns and saves. */
  lemma SucceedOnceIsSuccessfulCall(i: int, store: Store)
    requires 0 <= i < |Catalog|
    ensures ApplyAdaptiveTamper(Some(Catalog[i].name), true, store)
            == Success(Outcome(Catalog[i].recommendedTampers, SucceedOnce(Catalog[i], store)))
  {
    CatalogNamesDistinct();
    LookupFindsRule(Catalog, i);
  }

  /** The history file after `n` successive successful calls for `rule`. */
  function SucceedTimes(rule: Rule, n: nat, store: Store): Store {
    if n == 0 then store else SucceedOnce(rule, SucceedTimes(rule, n - 1, store))
  }

  /** After `n` successes a WAF's list holds its old list and then `n` copies of its tampers; other keys keep theirs. */
  lemma {:induction false} RepeatedSuccessAccumulates(rule: Rule, n: nat, store: Store)
    ensures Entry(Load(SucceedTimes(rule, n, store)), rule.name)
            == Entry(Load(store), rule.name) + Repeat(rule.recommendedTampers, n)
    ensures forall k :: k != rule.name ==> Entry(Load(SucceedTimes(rule, n, store)), k) == Entry(Load(store), k)
  {
    if n > 0 {
      var start := Entry(Load(store), rule.name);
      var t := rule.recommendedTampers;
      RepeatedSuccessAccumulates(rule, n - 1, store);
      assert start + Repeat(t, n - 1) + t == start + Repeat(t, n);
    }
  }

  /** From no history file, two successful Cloudflare calls record its three tampers twice. */
  lemma TwoCloudflareSuccesses()
    ensures var first := ApplyAdaptiveTamper(Some("Cloudflare"), true, Store(None));
            && first.Success?
            && Load(first.value.store) == map["Cloudflare" := ["space2comment", "between", "randomcase"]]
            && var second := ApplyAdaptiveTamper(Some("Cloudflare"), true, first.value.store);
               && second.Success?
               && Load(second.value.store)
                  == map["Cloudflare" := ["space2comment", "between", "randomcase",
                                          "space2comment", "between", "randomcase"]]
  {
    var t := Catalog[0].recommendedTampers;
    assert t == ["space2comment", "between", "randomcase"];
    SucceedOnceIsSuccessfulCall(0, Store(None));
    var once := SucceedOnce(Catalog[0], Store(None));
    assert Entry(map[], "Cloudflare") + t == t;
    assert Load(once) == map["Cloudflare" := t];
    SucceedOnceIsSuccessfulCall(0, once);
    var twice := SucceedOnce(Catalog[0], once);
    assert Load(twice) == map["Cloudflare" := t + t];
    assert t + t == ["space2comment", "between", "randomcase", "space2comment", "between", "randomcase"];
  }

  /** Wherever the code as written returns, the intended model returns the same. */
  lemma IntendedAgreesWithAsWritten(waf: Option<string>, succeeded: bool, store: Store)
    requires ApplyAdaptiveTamperAsWritten(waf, succeeded, store).Success?
    ensures ApplyAdaptiveTamper(waf, succeeded, store) == ApplyAdaptiveTamperAsWritten(waf, succeeded, store)
  {
  }

  /**
   * With no history file, the code as written raises `NameError` even when no WAF was detected,
   * while the intended behaviour is a no-op.
   */
  lemma FreshStoreRaisesAsWritten()
    ensures ApplyAdaptiveTamperAsWritten(None, false, Store(None)) == Failure(NameError("defaultdict"))
    ensures ApplyAdaptiveTamper(None, false, Store(None)) == Success(Outcome([], Store(None)))
  {
  }

  /**
   * With a history file that does not yet mention a catalog WAF, a successful call for it raises
   * `KeyError` as written, while the intended behaviour starts a new list holding its tampers.
   * From an empty file, Cloudflare is one such case.
   */
  lemma UnseenWafRaisesAsWritten(i: int, history: History)
    requires 0 <= i < |Catalog|
    requires Catalog[i].name !in history
    ensures ApplyAdaptiveTamperAsWritten(Some(Catalog[i].name), true, Store(Some(history)))
            == Failure(KeyError(Catalog[i].name))
    ensures ApplyAdaptiveTamper(Some(Catalog[i].name), true, Store(Some(history)))
            == Success(Outcome(Catalog[i].recommendedTampers,
                               Store(Some(history[Catalog[i].name := Catalog[i].recommendedTampers]))))
    ensures ApplyAdaptiveTamperAsWritten(Some("Cloudflare"), true, Store(Some(map[])))
            == Failure(KeyError("Cloudflare"))
  {
    CatalogNamesDistinct();
    LookupFindsRule(Catalog, i);
    LookupFindsRule(Catalog, 0);
    var t := Catalog[i].recommendedTampers;
    assert Entry(history, Catalog[i].name) + t == t;
  }
}
