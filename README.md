# Identity search with a fingerprinted cache

A Dafny model of the core of `searcher.py`, a script that fetches every
on-chain identity registration (`Identity.IdentityOf`) from a Substrate node,
finds the accounts whose identity info contains a target string, and caches
the answer in a JSON file keyed by a fingerprint of the fetched data.

The model covers four pieces of that script:

- **Filter resolver** (`Filter`): `set_search_filter` splits the target at its
  first colon. It keeps a prefix that names one of the nine identity fields
  and drops any other prefix. `ResultKey` is the key the results are stored
  and served under.
- **Nested matcher** (`Values`, `Matcher`): `is_matching_target` works over a
  tagged union `Val` of Python values (None, bool, int, str, list, tuple, and
  dict in insertion order). It follows Python's truthiness and Python's `in`
  operator: a substring test on a str, element equality on a list or a
  tuple, key membership on a dict, and a TypeError on None, a bool or a
  number. The matcher returns a `Result<bool>`. Every shape is covered,
  including the ones that raise. `Matcher.OccursIn` states, without loops,
  where a match can come from. A match does not need a string value that
  contains the query. The elements of a list are tested with `in`, so a
  dict inside a list matches when the query is one of its keys
  (`Matcher.KeyInsideListMatches`). A list inside a list matches when it
  holds the query as an element. A tuple is tested like a list inside a
  list, but is never scanned on its own.
- **Search engine** (`Records`, `SearchEngine`): the dict comprehension that
  turns the fetched `(account, registration)` list into an insertion-ordered
  dict, and the loop of `find_in_id_list` as a `while` method. The method is
  proved against `Selected`, the in-order filter of matching accounts.
- **Cache manager** (`Cache`): `search` and `update_cache` as methods of a
  `CacheFile` class whose one field is the file's state (missing, unreadable,
  or a JSON object). The fingerprint and the write outcome are parameters.

`Scenarios` works small examples through the model. One of them shows that a
scoped search never matches a field stored as a bare string: the matcher
only looks inside dicts and lists. On chain, the fields arrive as
`{"Raw": text}` dicts, and those do match.

A behaviour of the search once its result key is fixed (`Cache.CacheFile.Search`),
which the model proves rather than changes: the cache is keyed only by the
fingerprint. An up-to-date file written for one target therefore answers a
different target with `[]` without searching (`Cache.OtherTargetServedEmpty`).
As written, the script raises IndexError before it gets that far (see
"## Findings"). A result key equal to `hash` overwrites the
fingerprint, so that entry is never up to date (`Cache.HashKeyAlwaysStale`).

## Model

| member | source | states |
|---|---|---|
| `Values.Truthy` | searcher.py:86-91 | Python truthiness: a value is falsy iff it is None, False, 0, `""`, `[]`, `()` or `{}` |
| `Values.Get` | searcher.py:63 | `info.get(field)` finds a value exactly when the key is present, and the value returned is stored under that key |
| `Values.SubstringIsOccurrence` | searcher.py:91 | Python's `sub in s` on strings holds iff `sub` is a contiguous slice of `s` |
| `Matcher.In` | searcher.py:91-96 | Python's `target in v`: raises TypeError exactly on None, a bool or a number; on a string it holds iff the target occurs in it |
| `Matcher.IsMatchingTarget` | searcher.py:69-99 | `is_matching_target`; the only exception it lets through is a TypeError |
| `Matcher.ScanValues` | searcher.py:89-92 | the loop over a dict's values, returning at the first hit; it can only raise TypeError |
| `Matcher.ScanElements` | searcher.py:94-97 | the loop over a list's elements, returning at the first `target in value`; it raises only TypeError, and only when some element is None, a bool or a number |
| `Matcher.ScalarsNeverMatch` | searcher.py:86-99 | falsy values, and non-empty values that are neither dict nor list (a bare string or a tuple included), never match |
| `Matcher.DictMatch` | searcher.py:89-92 | when the scan of a dict finishes, it matches iff some non-empty member is a string containing the target or a non-string that matches recursively; it raises iff some member raises before any member is such a hit |
| `Matcher.ListMatch` | searcher.py:94-97 | when the scan of a list finishes, it matches iff `target in element` holds for some element; it raises iff some element raises before any element holds the target |
| `Matcher.StringListMatch` | searcher.py:94-97 | a list of strings matches iff the target is a substring of one of its elements |
| `Matcher.TraversableNeverRaises` | searcher.py:86-99 | a value whose scanned lists hold only strings, lists, tuples and dicts is matched without a TypeError |
| `Matcher.ExactMemberMatches` | searcher.py:89-92 | a dict member equal to the non-empty target makes the dict match, unless an earlier member raises |
| `Matcher.MatchMeansOccurrence` | searcher.py:86-99 | whenever the matcher does not raise, it returns true iff the target occurs in the value: a non-empty string member containing it, a list element holding it by `in`, or recursively in a nested member |
| `Matcher.MemberHitsAreOccurrences` | searcher.py:89-92 | when no member raises before a hit, the dict scan finds a hit iff the target occurs in the dict |
| `Matcher.KeyInsideListMatches` | searcher.py:94-97 | a dict inside a list matches a target that is one of its keys, though no string value contains it |
| `Matcher.TupleOnlyInsideList` | searcher.py:86-97 | a tuple holding the target does not match on its own, but does as an element of a list; a list holding the target matches |
| `Filter.FirstColon` | searcher.py:119 | the position found is the first colon of the target, or its length when there is none |
| `Filter.SplitOnce` | searcher.py:119 | `split(':', 1)` gives one part (the whole target) iff there is no colon, otherwise a colon-free prefix and the rest, which rejoined with a colon give the target back |
| `Filter.SetSearchFilter` | searcher.py:102-130 | `set_search_filter`: a kept filter is one of the valid fields |
| `Filter.QueryIsSuffix` | searcher.py:119-130 | the query is a suffix of the target: the target itself, or what follows its first colon |
| `Filter.NoColonUnchanged` | searcher.py:119-130 | a target without a colon resolves to no filter and the target unchanged |
| `Filter.SplitAtFirstColon` | searcher.py:119-128 | for a colon-free `p`, the target `p:q` resolves to `(p, q)` when `p` is a valid field and to `(None, q)` otherwise; `q` keeps any later colons |
| `Filter.FilterSpellsTarget` | searcher.py:119-130 | a kept filter is a valid, colon-free field that with a colon and the query spells the target; no filter is kept iff there is no colon or the prefix is invalid |
| `Filter.ResultKey` | searcher.py:53-64 | the result key equals the raw target iff the target has no invalid prefix; with an invalid prefix it is the text after the first colon |
| `Records.Put` | searcher.py:55 | `d[k] = v` keeps distinct keys; existing keys keep their places, and the key list grows by one exactly when `k` is new; `k` now maps to `v` and the other keys keep their values |
| `Records.FromList` | searcher.py:55 | the dict has distinct keys, and they are exactly the accounts of the fetched list |
| `Records.LastRecordWins` | searcher.py:55 | each account maps to the record of its last pair in the list |
| `Records.FirstOccurrenceOrder` | searcher.py:55 | the dict's keys are in the order of the accounts' first occurrences in the list |
| `SearchEngine.Scope` | searcher.py:59-63 | the value a record is matched on: its whole `info` when unfiltered; with a filter, the value stored under the field when the field is present, and `{}` when it is absent |
| `SearchEngine.MatchRecord` | searcher.py:59-63 | `is_matching_target` on the record's scoped value; it can only raise TypeError |
| `SearchEngine.RecordMatchMeansOccurrence` | searcher.py:59-63 | when it does not raise, a record matches iff the query occurs in its scoped value |
| `SearchEngine.MissingFieldNeverMatches` | searcher.py:63 | a record without the filtered field never matches |
| `SearchEngine.Selected` | searcher.py:58-64 | an account is selected iff it is a key of the dict and its record matches |
| `SearchEngine.FoundAccountsHoldQuery` | searcher.py:58-64 | every account found is in the dict, and the query occurs in its scoped value |
| `SearchEngine.CollectMatches` | searcher.py:58-64 | the loop returns the selected accounts in dict order exactly when no record raises and, for a key that was never created, nothing matches; it raises KeyError iff that key is missing and some record matches before any record raises; otherwise TypeError |
| `SearchEngine.FindInIdList` | searcher.py:36-66 | as written: the list under the raw target is the selected accounts, unless a record raises or a target with an invalid prefix matches something, which raises KeyError |
| `SearchEngine.FindMatches` | searcher.py:36-66 | as intended: the search succeeds iff no record raises, returns the selected accounts, and can raise only TypeError |
| `SearchEngine.SearchMembership` | searcher.py:55-64 | an account is found iff it occurs in the fetched list and its last record matches |
| `SearchEngine.SearchOrder` | searcher.py:55-64 | accounts found are distinct and in the order of their first occurrence in the fetched list |
| `SearchEngine.TraversableRecordNeverRaises` | searcher.py:59-63 | a record whose lists hold only strings, lists and dicts is matched without raising, filtered or not |
| `SearchEngine.TraversableRecordsNeverRaise` | searcher.py:55-64 | over such records the whole search never raises |
| `Cache.SameHash` | searcher.py:153 | `fingerprint == stored`: for a stored int, iff it is the fingerprint; for a stored bool, iff the fingerprint is its value as an int (1 or 0); never for any other value |
| `Cache.Stale` | searcher.py:146-153 | a missing or unreadable file is stale; a file not stale holds a `hash` equal to the fingerprint; a stored hash equal to the fingerprint is not stale |
| `Cache.Served` | searcher.py:160 | `cache.get(key, [])`: the stored value under the key, or `[]` when the key is absent |
| `Cache.FirstResultKey` | searcher.py:160 | `list(matching_ids.keys())[0]`: raises IndexError exactly when the dict is empty, and otherwise is its first key (also read at line 183) |
| `Cache.ListOf` | searcher.py:183 | the stored list holds the account ids in order |
| `Cache.CacheEntry` | searcher.py:181-184 | a rebuilt entry has exactly the keys `hash` and the result key; the result key holds the matches and, unless it is `hash`, `hash` holds the fingerprint |
| `Cache.RebuiltEntryServesMatches` | searcher.py:153-160 | an entry just written is up to date for its fingerprint, has two keys, and serves exactly its matches |
| `Cache.OtherTargetServedEmpty` | searcher.py:153-160 | an up-to-date entry answers any other target with `[]` |
| `Cache.HashKeyAlwaysStale` | searcher.py:153 | an entry for the result key `hash` is stale for every fingerprint |
| `Cache.CacheFile.UpdateCache` | searcher.py:163-191 | builds `{'hash': fingerprint, key: matches}` from the intended search; writes it unless the write fails; returns it either way; a TypeError escapes before the write |
| `Cache.CacheFile.Search` | searcher.py:133-160 | recomputes iff the file is missing or unreadable, lacks `hash`, or holds a different hash; otherwise serves the stored list for the result key and leaves the file alone; a recomputation shows the fresh matches whatever the write does |
| `Cache.CacheFile.SearchAsWritten` | searcher.py:133-191 | as written, every run raises IndexError without searching: on a stale cache when `update_cache` evaluates the key of its dict display, on a fresh one when the result is printed |
| `Cache.SearchTwice` | searcher.py:146-160 | given the same fingerprint for both runs, after a first run that succeeds and whose write succeeds, a second run does not search and shows the same list |
| `Scenarios.UnscopedSearchFindsDisplayName` | searcher.py:58-61 | target `Alice` over one account with display `Alice Smith` finds that account, under the key `Alice` |
| `Scenarios.ScopedSearchLooksAtFieldOnly` | searcher.py:62-64 | `twitter:bobby` finds the account with that twitter handle and not the one with it as display name |
| `Scenarios.ScopedSearchSkipsBareStrings` | searcher.py:63 | a scoped search over fields stored as bare strings finds nothing |
| `Scenarios.UnknownPrefixSearchesRest` | searcher.py:121-126 | `badfield:xyz` resolves like `xyz`, unscoped, with result key `xyz` |
| `Scenarios.UnknownPrefixMatchRaisesKeyError` | searcher.py:53-61 | with `badfield:Alice` the prefix is invalid and a record matches before any raises |
| `Scenarios.UnknownPrefixSearchAsWritten` | searcher.py:53-61 | `find_in_id_list("badfield:Alice", ...)` over the account with display `Alice Smith` raises KeyError |
| `Scenarios.CorruptCacheIsRebuilt` | searcher.py:156-158 | an unreadable cache file is a miss: the search runs, shows the matches, and leaves the file holding the rebuilt entry, which is up to date for the fingerprint |

## Left out

- Option parsing and the usage error (searcher.py:8-28): command-line plumbing.
- The node connection and `iterate_map` (searcher.py:31, 143): a network call through a library that is not part of this model. The fetched records are an input `seq<Entry>`.
- The fingerprint `hash(str(id_list))` (searcher.py:144): Python's string form and its per-process salted hash cannot be modelled. The fingerprint is an `int` parameter, so the model cannot state that reordering the records changes it. CPython salts string hashes afresh in each process unless PYTHONHASHSEED is fixed. Two runs over the same records therefore almost always get different fingerprints, and the real cache is stale on almost every run. `Cache.SearchTwice` holds only for two runs given the same fingerprint.
- Reading and writing the JSON file, `os.path.exists`, and the printed warnings and results (searcher.py:123-125, 148-150, 157, 160, 186-189): I/O. The file is the `Disk` state. A JSON or IO error on reading is the `Unreadable` state. Any other read error, such as a `UnicodeDecodeError` from a file that is not UTF-8, escapes `search` and is not modelled. A failed write is the `writeFails` flag and leaves the file as it was. A write that fails after truncating the file is not modelled. The model assumes that reading back a written entry gives that entry.
- A cache file whose top-level JSON value is not an object: `'hash' not in cache` then behaves differently or raises. `Disk` holds only objects.
- Numbers are integers: JSON floats, and Python's `1.0 == 1` when the stored hash is compared, are not modelled.
- Registration fields other than `info` (judgements, deposit) are never read, so they are not modelled. `data['info']` is assumed to be present and to be a dict.
- Dict keys in a `Val` object are assumed distinct, as in a Python dict. `Values.Get` returns the first value under a key.
- Python's recursion limit on deeply nested values is not modelled.
- The global `matching_ids` holds results for one target per run. The intended search returns its list directly instead.

## Findings

| source | as written | input that shows it | evidently intended | confidence | as-written member | corrected member |
|---|---|---|---|---|---|---|
| searcher.py:160, searcher.py:183 | The result key is `list(matching_ids.keys())[0]`, read while the global `matching_ids` is still `{}`. With a valid cache it is read before any search has run. In `update_cache` the dict display evaluates the key before it calls `find_in_id_list`. Every run raises IndexError. | Any target, any record set, any cache file holding a JSON object. | Results stored and served under the current target's key, `Filter.ResultKey`. | not executed | `Cache.CacheFile.SearchAsWritten` | `Cache.CacheFile.Search` |
| searcher.py:53, searcher.py:61 | The result list is created under the raw target, but unscoped matches are appended under the stripped query. The two differ when the prefix is invalid, so the first match raises KeyError. | Target `badfield:Alice` over `[("alice", {display: "Alice Smith"})]`, shown by `Scenarios.UnknownPrefixMatchRaisesKeyError`. | The matches kept under the key they are appended to, so the stripped query is searched unscoped (`Scenarios.UnknownPrefixSearchesRest`). | not executed | `SearchEngine.FindInIdList` | `SearchEngine.FindMatches` |
