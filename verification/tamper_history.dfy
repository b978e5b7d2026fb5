/**
 * The tamper history (sqlmap.py:98-106): a per-WAF list of tampers that worked, kept in
 * `tamper_history.json`. The file is modelled as a value that is passed in and returned.
 */
module TamperHistory {
  import opened Wrappers

  /** WAF name to every tamper applied in a successful attempt, in order, duplicates kept. */
  type History = map<string, seq<string>>

  /** The history file: absent, or the mapping it holds. */
  datatype Store = Store(snapshot: Option<History>)

  /** The Python exceptions the history code can raise. */
  datatype PyError = KeyError(key: string) | NameError(name: string)

  /** `load_tamper_history()` as intended: the saved mapping, or an empty one when no file exists. */
  function Load(store: Store): History {
    match store.snapshot
    case Some(history) => history
    case None => map[]
  }

  /** `save_tamper_history(history)`: the file is replaced by the whole mapping. */
  function Save(history: History): Store {
    Store(Some(history))
  }

  /** The history reset endpoint: save an empty mapping. */
  function Reset(): Store {
    Save(map[])
  }

  /**
   * `load_tamper_history()` as written: with no file it returns `defaultdict(list)`, but `defaultdict`
   * is never imported, so the call raises `NameError`.
   */
  function LoadAsWritten(store: Store): (r: Result<History, PyError>)
    ensures r.Failure? <==> store.snapshot.None?
    ensures r.Success? ==> r.value == Load(store)
  {
    match store.snapshot
    case Some(history) => Success(history)
    case None => Failure(NameError("defaultdict"))
  }

  /** The list kept for `waf`, empty when the WAF has never been recorded. */
  function Entry(history: History, waf: string): seq<string> {
    if waf in history then history[waf] else []
  }

  /**
   * `history[waf].extend(applied)` with `defaultdict(list)` behaviour: the WAF's list, or an empty one,
   * followed by the applied tampers. No other key changes.
   */
  function Record(history: History, waf: string, applied: seq<string>): (r: History)
    ensures r.Keys == history.Keys + {waf}
    ensures r[waf] == Entry(history, waf) + applied
    ensures forall k :: k in history && k != waf ==> r[k] == history[k]
  {
    history[waf := Entry(history, waf) + applied]
  }

  /** Whatever is saved is loaded back unchanged. */
  lemma SaveLoadRoundTrip(history: History)
    ensures Load(Save(history)) == history
    ensures LoadAsWritten(Save(history)) == Success(history)
  {
  }

  /** After a reset the history is empty, whatever it held before. */
  lemma ResetLoadsEmpty()
    ensures Load(Reset()) == map[]
    ensures forall waf :: Entry(Load(Reset()), waf) == []
  {
  }

  /** Recording only adds: every old list is a prefix of the new one and no key disappears. */
  lemma RecordOnlyExtends(history: History, waf: string, applied: seq<string>)
    ensures forall k :: k in history ==> k in Record(history, waf, applied) && history[k] <= Record(history, waf, applied)[k]
    ensures |Entry(Record(history, waf, applied), waf)| == |Entry(history, waf)| + |applied|
  {
  }
}
