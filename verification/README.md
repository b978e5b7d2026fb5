# WAF detection and adaptive tamper selection, modelled in Dafny

This project models the WAF-detection and adaptive-tamper logic of `sqlmap.py`:

- the signature catalog `WAF_SIGNATURES`, an ordered list of rules (Cloudflare, then AWS Shield, then F5 BIG-IP);
- `detect_waf`, which returns the name of the first rule whose header pattern is in the response headers or whose error message is in the body, else `None`;
- `apply_adaptive_tamper`, which returns the detected WAF's recommended tampers in order. When the response counts as successful, it also appends those tampers to that WAF's list in the tamper history and saves the history.

Modules, one file each:

- `Wrappers` (`wrappers.dfy`): `Option` for Python's `None`, and `Result` for a value or a raised exception.
- `Strings` (`strings.dfy`): Python's `in` on two strings, proved equal to "occurs at some offset".
- `Signatures` (`signatures.dfy`): the catalog, `Headers`, what it means for a rule to match, and lookup by name.
- `Detection` (`detection.dfy`): `detect_waf` as a first-match search, with its priority properties.
- `TamperHistory` (`tamper_history.dfy`): the history as a `map<string, seq<string>>` and the history file as a value (`Store`). It covers load, save, the append-on-success update, and the reset that `sq;mapapi.py` (lines 29-32) performs by saving an empty mapping (`ResetLoadsEmpty`).
- `AdaptiveTamper` (`adaptive_tamper.dfy`): `apply_adaptive_tamper`, both as intended and as written, with `response_is_successful` taken as the `succeeded` parameter.

Modelling choices:

- **Headers.** In `detect_waf`, the expression `header in response_headers` means list membership when the headers are a list of lines. It means substring search when the headers are one string. `Headers` has a case for each: `HeaderLines` compares whole lines and `HeaderText` searches for a substring. For a list of lines, `in` compares a pattern with each whole line; it does not search inside a line. `Detection.HeaderLinesCompareWholeLines` shows the difference on `Server: cloudflare-nginx`.
- **History file.** `load_tamper_history` and `save_tamper_history` read and write `tamper_history.json`. Here the file is a value, `Store(snapshot: Option<History>)`, that is passed in and returned; `None` means the file does not exist. Saving replaces the whole snapshot, and loading it back gives the same mapping by construction.
- **Success test.** `response_is_successful` is called but not defined anywhere in the file. Its result is the boolean parameter `succeeded`.
- **Truthiness.** `if waf_detected:` treats `None` and the empty string as false. A non-empty name that is not a catalog key raises `KeyError` at `WAF_SIGNATURES[waf_detected]`; that is modelled as `Failure(KeyError(name))`.
- **Intended behaviour.** `ApplyAdaptiveTamper` models the update as intended: the WAF's existing list, or an empty list when the WAF is absent, followed by the applied tampers. This is the `defaultdict(list)` behaviour the code evidently aims for. The code as written is modelled by `ApplyAdaptiveTamperAsWritten` (see Findings).

## Model

| member | source | states |
|---|---|---|
| Strings.IsSubstringCorrect | sqlmap.py:129 | Python's `error_message in response_body` holds exactly when the message occurs in the body at some offset, in both directions |
| Signatures.Lookup | sqlmap.py:114 | `WAF_SIGNATURES[name]` finds a rule exactly when some catalog rule has that name (otherwise it is the `KeyError` case); the rule found carries that name and is in the catalog |
| Signatures.LookupFindsRule | sqlmap.py:80-96 | with unique keys, looking up a rule's name returns that very rule |
| Detection.FirstMatchFrom | sqlmap.py:128-131 | the loop over the catalog returns `None` exactly when no remaining rule matches, and otherwise the name of a matching rule before which no rule matched |
| Detection.DetectWaf | sqlmap.py:127-131 | `detect_waf` returns `None` exactly when no catalog rule matches by header pattern or body message, and otherwise the name of the first matching rule in catalog order |
| Detection.FirstMatchIsEarliest | sqlmap.py:128-130 | for any ordered rule list, the result is the name of the earliest matching rule, whatever later rules match |
| Detection.LaterMatchNeverWins | sqlmap.py:128-130 | when two rules match, the result is never the later rule's name |
| Detection.DetectedIsCatalogKey | sqlmap.py:128-130 | every name `detect_waf` returns is a catalog key, and the rule under that key matches the response |
| Detection.CloudflareBodyWins | sqlmap.py:80-96 | a body containing "Cloudflare" yields "Cloudflare" even if it also contains "403 Forbidden" |
| Detection.ForbiddenBodyIsAwsShield | sqlmap.py:86-89 | a body containing "403 Forbidden", with no Cloudflare header or body evidence, yields "AWS Shield" |
| Detection.CloudflareServerLine | sqlmap.py:81-82 | a header list containing the line `Server: cloudflare` yields "Cloudflare" |
| Detection.HeaderLinesCompareWholeLines | sqlmap.py:129 | a header list compares whole lines, so `Server: cloudflare-nginx` alone matches nothing; the same text as one header string matches Cloudflare by substring |
| TamperHistory.LoadAsWritten | sqlmap.py:98-102 | the load as written fails exactly when no history file exists, and otherwise returns the file's mapping |
| TamperHistory.Record | sqlmap.py:120 | the update adds the WAF's key; its list becomes the old list (empty if absent) followed by the applied tampers; every other key keeps its list |
| TamperHistory.SaveLoadRoundTrip | sqlmap.py:98-106 | a saved history loads back unchanged |
| TamperHistory.RecordOnlyExtends | sqlmap.py:120 | the update loses no key; every old list is a prefix of the new one; the WAF's list grows by exactly the number of applied tampers (no deduplication) |
| AdaptiveTamper.ApplyAdaptiveTamper | sqlmap.py:108-125 | raises `KeyError` exactly for a truthy name that is not a catalog key; applies nothing when no WAF is given; otherwise applies that WAF's recommended tampers; saves a history extended by them only on success and leaves the file untouched otherwise |
| AdaptiveTamper.ApplyAdaptiveTamperAsWritten | sqlmap.py:108-125 | with `response_is_successful` as a parameter, the code as written raises exactly when no history file exists (`NameError`), when a history file exists and a truthy name is not a catalog key (`KeyError` at line 114), or when a success is for a catalog WAF that the loaded file lacks (`KeyError`); in every other case it returns normally |
| AdaptiveTamper.NoWafNoAction | sqlmap.py:110-112 | with no detected WAF the result is the empty list and the history file is unchanged |
| AdaptiveTamper.AppliesRecommendedTampers | sqlmap.py:114-115 | for a catalog WAF the returned list equals its `recommended_tampers`, in order, whether or not the attempt succeeded |
| AdaptiveTamper.SuccessAppendsToHistory | sqlmap.py:119-121 | on success the history is saved; the WAF's list becomes the old list (empty if absent) followed by the applied tampers; no other key changes |
| AdaptiveTamper.FailureLeavesHistory | sqlmap.py:119-125 | on failure the history file is not modified, and the applied tampers are still returned |
| AdaptiveTamper.HistoryOnlyGrows | sqlmap.py:119-121 | no call loses a history key or shortens a WAF's list |
| AdaptiveTamper.DetectThenApplyNeverFails | sqlmap.py:114 | the lookup at line 114 never raises `KeyError` for a `detect_waf` result; in the intended model the call never raises at all |
| AdaptiveTamper.SucceedOnceIsSuccessfulCall | sqlmap.py:114-121 | for a catalog WAF, a successful call returns its recommended tampers and leaves exactly the history file of one append step (`SucceedOnce`) |
| AdaptiveTamper.RepeatedSuccessAccumulates | sqlmap.py:119-121 | after n append steps (by the previous row, n successful calls for a catalog WAF) the WAF's list is its old list followed by n copies of its tampers, and every other WAF's list is unchanged |
| AdaptiveTamper.TwoCloudflareSuccesses | sqlmap.py:119-121 | starting with no history file, one successful `apply_adaptive_tamper` call for Cloudflare saves its three tampers, and a second call on the resulting file saves the six-element list with the three repeated |
| AdaptiveTamper.IntendedAgreesWithAsWritten | sqlmap.py:108-125 | whenever the code as written returns normally, the intended model gives the same result and history |
| AdaptiveTamper.FreshStoreRaisesAsWritten | sqlmap.py:102 | with no history file the code as written raises `NameError` even when no WAF is given; the intended model does nothing |
| AdaptiveTamper.UnseenWafRaisesAsWritten | sqlmap.py:120 | for every catalog WAF and every history file lacking it, a success raises `KeyError` as written, while the intended model adds the WAF with exactly its tampers and keeps the rest of the file |

## Left out

- JSON file I/O in `load_tamper_history`/`save_tamper_history`: the file is the value `Store`, and the JSON encoding of a string-to-string-list mapping is taken to round-trip.
- The `print` logging, including the warning on failure (sqlmap.py:113, 116, 123): it has no effect on results.
- `response_is_successful` and the commented-out `apply_tamper` (sqlmap.py:117, 119): the first is undefined in the file and becomes the `succeeded` parameter; the second is never called. As a result the model does not show that, as written, any call with a catalog WAF and an existing history file would raise `NameError` at the `response_is_successful` call.
- `main()`, its exception dispatch and the unconditional `os._exit(0)` (sqlmap.py:154-224): this is process control over code that is not part of this model (`lib.core.*`, `start()`, `cmdLineParser`).
- `modulePath`, `checkEnvironment` and the import and warning setup (sqlmap.py:9-77, 134-152): these are environment and installation checks.
- The task lifecycle, the control API and concurrency: no code for a task registry appears in `sqlmap.py`. The task and scan endpoints in `sq;mapapi.py` (lines 35-74) return fixed replies. Of that file only the history reset is modelled; its history read endpoint (lines 24-27) is a plain `Load`. The lost-update race between concurrent load, modify and save sequences is not modelled, because the model is sequential.
- Detection.DetectWaf: the headers are a list of strings or one string. A dictionary of headers, where `in` would test keys, is not modelled.

## Findings

| source | as written | input that shows it | evidently intended | confidence | as-written member | corrected member |
|---|---|---|---|---|---|---|
| sqlmap.py:102 | `load_tamper_history` returns `defaultdict(list)` when no file exists, but `defaultdict` is never imported, so `apply_adaptive_tamper` raises `NameError` on its first line | no `tamper_history.json`, `waf_detected = None` | an empty history that grows on the first success | high; not executed | AdaptiveTamper.FreshStoreRaisesAsWritten | AdaptiveTamper.ApplyAdaptiveTamper |
| sqlmap.py:120 | `history[waf_detected].extend(...)` on a history loaded from JSON (a plain `dict`) raises `KeyError` for a WAF not yet in the file | history file `{}`, `waf_detected = "Cloudflare"`, success; line 120 is reached only once `response_is_successful` (called at line 119, never defined) exists | start the WAF's list empty, then append (the `defaultdict` behaviour) | high; not executed | AdaptiveTamper.UnseenWafRaisesAsWritten | AdaptiveTamper.ApplyAdaptiveTamper |
