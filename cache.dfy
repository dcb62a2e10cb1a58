/** The cache manager: `search` and `update_cache`, over an abstract cache file. */
module Cache {
  import opened Wrappers
  import opened Values
  import opened Filter
  import opened Records
  import opened SearchEngine

  /** The cache file as one run finds it: absent, present but not readable as
      JSON (the read raises a JSON or IO error), or a JSON object. */
  datatype Disk = Missing | Unreadable | Stored(doc: map<string, Val>)

  /** Python's `fingerprint == stored` for an int fingerprint: it equals an int
      of the same value, and a bool whose value as an int is the same. */
  function SameHash(stored: Val, fingerprint: int): (same: bool)
    ensures stored.Num? ==> (same <==> stored.n == fingerprint)
    ensures stored.Bool? ==> (same <==> fingerprint == (if stored.b then 1 else 0))
    ensures same ==> stored.Num? || stored.Bool?
  {
    match stored
    case Num(n) => n == fingerprint
    case Bool(b) => (if b then 1 else 0) == fingerprint
    case _ => false
  }

  /** The results must be recomputed: the file is missing or unreadable, holds
      no 'hash', or holds a hash other than the current fingerprint. */
  function Stale(disk: Disk, fingerprint: int): (stale: bool)
    ensures !disk.Stored? ==> stale
    ensures !stale ==> disk.Stored? && "hash" in disk.doc && SameHash(disk.doc["hash"], fingerprint)
    ensures disk.Stored? && "hash" in disk.doc && disk.doc["hash"] == Num(fingerprint) ==> !stale
  {
    match disk
    case Stored(doc) => "hash" !in doc || !SameHash(doc["hash"], fingerprint)
    case _ => true
  }

  /** A JSON list of account ids. */
  function ListOf(accounts: seq<Account>): (v: Val)
    ensures v.Arr? && |v.items| == |accounts|
    ensures forall i | 0 <= i < |accounts| :: v.items[i] == Str(accounts[i])
  {
    Arr(seq(|accounts|, i requires 0 <= i < |accounts| => Str(accounts[i])))
  }

  /** `{'hash': fingerprint, key: matches}`; when the key is 'hash' itself the
      later entry wins, as in a Python dict display. */
  function CacheEntry(fingerprint: int, key: string, matches: seq<Account>): (doc: map<string, Val>)
    ensures doc.Keys == {"hash", key}
    ensures doc[key] == ListOf(matches)
    ensures key != "hash" ==> doc["hash"] == Num(fingerprint)
  {
    map["hash" := Num(fingerprint)][key := ListOf(matches)]
  }

  /** `cache.get(key, [])`. */
  function Served(doc: map<string, Val>, key: string): (v: Val)
    ensures key in doc ==> v == doc[key]
    ensures key !in doc ==> v == Arr([])
  {
    if key in doc then doc[key] else Arr([])
  }

  /** `list(matching_ids.keys())[0]`: the first key of the global dict of
      results, which raises IndexError while that dict is empty. */
  function FirstResultKey(matchingIds: seq<string>): (r: Result<string>)
    ensures r.Err? <==> matchingIds == []
    ensures r.Err? ==> r.error == IndexError
    ensures r.Ok? ==> r.value == matchingIds[0]
  {
    if matchingIds == [] then Err(IndexError) else Ok(matchingIds[0])
  }

  /** A freshly written entry is fresh for the same fingerprint and serves
      exactly the matches it was built from, beside the hash alone. */
  lemma RebuiltEntryServesMatches(fingerprint: int, key: string, matches: seq<Account>)
    requires key != "hash"
    ensures !Stale(Stored(CacheEntry(fingerprint, key, matches)), fingerprint)
    ensures Served(CacheEntry(fingerprint, key, matches), key) == ListOf(matches)
    ensures |CacheEntry(fingerprint, key, matches).Keys| == 2
  {
    assert CacheEntry(fingerprint, key, matches).Keys == {"hash", key};
  }

  /** A fresh entry for the same fingerprint answers any other target with
      `[]`, without searching. */
  lemma OtherTargetServedEmpty(fingerprint: int, key: string, other: string, matches: seq<Account>)
    requires key != "hash" && other != key && other != "hash"
    ensures !Stale(Stored(CacheEntry(fingerprint, key, matches)), fingerprint)
    ensures Served(CacheEntry(fingerprint, key, matches), other) == Arr([])
  {
  }

  /** Results stored under the key 'hash' overwrite the hash, so that entry is
      stale for every fingerprint. */
  lemma HashKeyAlwaysStale(fingerprint: int, later: int, matches: seq<Account>)
    ensures Stale(Stored(CacheEntry(fingerprint, "hash", matches)), later)
  {
  }

  /** The script's cache file. */
  class CacheFile {
    var disk: Disk

    constructor (disk: Disk)
      ensures this.disk == disk
    {
      this.disk := disk;
    }

    /** `update_cache`: search, build `{'hash': fingerprint, key: matches}`,
        write it (best effort: a failed write leaves the file as it was) and
        return it. A TypeError from the search escapes before the write. */
    method UpdateCache(target: string, idList: seq<Entry>, fingerprint: int, writeFails: bool)
      returns (r: Result<map<string, Val>>)
      modifies this
      ensures var rf, d := SetSearchFilter(target), FromList(idList);
        (r.Ok? <==> FaultFree(rf, d)) &&
        (r.Ok? ==> r.value == CacheEntry(fingerprint, ResultKey(target), Selected(rf, d.keys, d.vals))) &&
        (r.Err? ==> r.error == TypeError)
      ensures disk == if r.Ok? && !writeFails then Stored(r.value) else old(disk)
    {
      var found := FindMatches(target, idList);
      if found.Err? {
        return Err(found.error);
      }
      var entry := CacheEntry(fingerprint, ResultKey(target), found.value);
      if !writeFails {
        disk := Stored(entry);
      }
      r := Ok(entry);
    }

    /** `search`: serve the stored results while the stored hash equals the
        fingerprint of the fetched records, otherwise recompute and rewrite
        them. `recomputed` tells whether the search engine ran. */
    method Search(target: string, idList: seq<Entry>, fingerprint: int, writeFails: bool)
      returns (shown: Result<Val>, recomputed: bool)
      modifies this
      ensures recomputed == Stale(old(disk), fingerprint)
      ensures !recomputed ==> shown == Ok(Served(old(disk).doc, ResultKey(target))) && disk == old(disk)
      ensures recomputed ==> var rf, d := SetSearchFilter(target), FromList(idList);
        var matches := Selected(rf, d.keys, d.vals);
        (shown.Ok? <==> FaultFree(rf, d)) &&
        (shown.Ok? ==> shown.value == ListOf(matches) &&
                       disk == if writeFails then old(disk) else Stored(CacheEntry(fingerprint, ResultKey(target), matches))) &&
        (shown.Err? ==> shown.error == TypeError && disk == old(disk))
    {
      var cache: map<string, Val> := map[];
      if disk.Unreadable? {
        recomputed := true;
      } else {
        if disk.Stored? {
          cache := disk.doc;
        }
        recomputed := "hash" !in cache || !SameHash(cache["hash"], fingerprint);
      }
      if recomputed {
        var built := UpdateCache(target, idList, fingerprint, writeFails);
        if built.Err? {
          return Err(built.error), true;
        }
        cache := built.value;
      }
      shown := Ok(Served(cache, ResultKey(target)));
    }

    /** `search` as written. The result key is read as the first key of the
        global `matching_ids`, which holds nothing at the start of a run. On a
        stale cache `update_cache` evaluates that key in its dict display
        (line 183) before it calls `find_in_id_list` and before it writes; on a
        fresh cache it is read to print the result (line 160). Either way the
        run raises IndexError, without searching and without writing. */
    method SearchAsWritten(target: string, idList: seq<Entry>, fingerprint: int)
      returns (shown: Result<Val>, searched: bool)
      ensures shown == Err(IndexError) && !searched
    {
      var matchingIds: seq<string> := [];
      var cache: map<string, Val> := if disk.Stored? then disk.doc else map[];
      searched := false;
      if Stale(disk, fingerprint) {
        var key := FirstResultKey(matchingIds);
        match key {
          case Err(e) =>
            return Err(e), false;
          case Ok(k) =>
            var found := FindInIdList(target, idList);
            searched := true;
            match found {
              case Err(e) =>
                return Err(e), true;
              case Ok(l) =>
                cache := map["hash" := Num(fingerprint)][k := ListOf(l)];
            }
        }
      }
      var key := FirstResultKey(matchingIds);
      shown := match key
        case Err(e) => Err(e)
        case Ok(k) => Ok(Served(cache, k));
    }
  }

  /** Two runs given the same fingerprint: when the first succeeds and its
      write does too, the second serves the same list without searching. */
  method SearchTwice(c: CacheFile, target: string, idList: seq<Entry>, fingerprint: int)
    returns (first: Result<Val>, second: Result<Val>, searchedAgain: bool)
    requires ResultKey(target) != "hash"
    modifies c
    ensures first.Ok? ==> !searchedAgain && second == first
  {
    var recomputed;
    first, recomputed := c.Search(target, idList, fingerprint, false);
    second, searchedAgain := c.Search(target, idList, fingerprint, false);
    if first.Ok? && recomputed {
      ghost var d := FromList(idList);
      RebuiltEntryServesMatches(fingerprint, ResultKey(target), Selected(SetSearchFilter(target), d.keys, d.vals));
    }
  }
}
