/** The search engine: `find_in_id_list` over the fetched identity records. */
module SearchEngine {
  import opened Wrappers
  import opened Values
  import opened Matcher
  import opened Filter
  import opened Records

  /** The value a registration is matched on: its whole `info` dict, or
      `info.get(field, {})` when a filter applies. */
  function Scope(rf: Resolved, reg: Registration): (v: Val)
    ensures rf.filter.None? ==> v == Obj(reg.info)
    ensures rf.filter.Some? && rf.filter.value in Keys(reg.info) ==> (rf.filter.value, v) in reg.info
    ensures rf.filter.Some? && rf.filter.value !in Keys(reg.info) ==> v == Obj([])
  {
    match rf.filter
    case None => Obj(reg.info)
    case Some(f) => Get(reg.info, f).GetOr(Obj([]))
  }

  /** Whether one registration matches a resolved target; it can only raise
      TypeError. */
  function MatchRecord(rf: Resolved, reg: Registration): (r: Result<bool>)
    ensures r.Err? ==> r.error == TypeError
  {
    IsMatchingTarget(rf.query, Scope(rf, reg))
  }

  /** When it does not raise, a record matches iff the query occurs in its
      scoped value. */
  lemma RecordMatchMeansOccurrence(rf: Resolved, reg: Registration)
    ensures MatchRecord(rf, reg).Ok? ==> (MatchRecord(rf, reg).value <==> OccursIn(rf.query, Scope(rf, reg)))
  {
    MatchMeansOccurrence(rf.query, Scope(rf, reg));
  }

  /** A record without the filtered field never matches. */
  lemma MissingFieldNeverMatches(query: string, field: string, reg: Registration)
    requires field !in Keys(reg.info)
    ensures MatchRecord(Resolved(Some(field), query), reg) == Ok(false)
  {
  }

  /** The accounts among `keys`, in their order, whose record matches. */
  function Selected(rf: Resolved, keys: seq<Account>, vals: map<Account, Registration>): (sel: seq<Account>)
    requires forall k | k in keys :: k in vals
    ensures forall k :: k in sel <==> k in keys && MatchRecord(rf, vals[k]) == Ok(true)
  {
    if keys == [] then []
    else
      var init, k := keys[..|keys| - 1], keys[|keys| - 1];
      assert keys == init + [k];
      Selected(rf, init, vals) + (if MatchRecord(rf, vals[k]) == Ok(true) then [k] else [])
  }

  /** An account is found only when the query occurs in its scoped value:
      somewhere in its `info`, or in the filtered field. */
  lemma FoundAccountsHoldQuery(rf: Resolved, d: IdDict, k: Account)
    requires d.Valid() && k in Selected(rf, d.keys, d.vals)
    ensures k in d.vals && OccursIn(rf.query, Scope(rf, d.vals[k]))
  {
    RecordMatchMeansOccurrence(rf, d.vals[k]);
  }

  /** Every record of the dict is matched without raising. */
  ghost predicate FaultFree(rf: Resolved, d: IdDict)
    requires d.Valid()
  {
    forall i | 0 <= i < |d.keys| :: MatchRecord(rf, d.vals[d.keys[i]]).Ok?
  }

  /** Some record matches before any record raises. */
  ghost predicate MatchesBeforeFault(rf: Resolved, d: IdDict)
    requires d.Valid()
  {
    exists i | 0 <= i < |d.keys| :: MatchRecord(rf, d.vals[d.keys[i]]) == Ok(true) &&
      forall j | 0 <= j < i :: MatchRecord(rf, d.vals[d.keys[j]]).Ok?
  }

  /** No record matches before a fault when none of the first `n` records
      is selected and the loop stops at record `n`, by a fault or at the end. */
  lemma NoMatchBeforeFault(rf: Resolved, d: IdDict, n: nat)
    requires d.Valid() && n <= |d.keys|
    requires Selected(rf, d.keys[..n], d.vals) == []
    requires n == |d.keys| || MatchRecord(rf, d.vals[d.keys[n]]).Err?
    ensures !MatchesBeforeFault(rf, d)
  {
    forall j | 0 <= j < |d.keys| && (forall m | 0 <= m < j :: MatchRecord(rf, d.vals[d.keys[m]]).Ok?)
      ensures MatchRecord(rf, d.vals[d.keys[j]]) != Ok(true)
    {
      if j < n {
        assert d.keys[..n][j] == d.keys[j];
      }
    }
  }

  /** The loop of `find_in_id_list` over `id_dict.items()`. Each matching
      account is appended to the list under the key the loop writes to; when
      that key was never created (`keyExists` false) the first append raises
      KeyError. A TypeError from the matcher ends the loop too. */
  method CollectMatches(rf: Resolved, d: IdDict, keyExists: bool) returns (r: Result<seq<Account>>)
    requires d.Valid()
    ensures r.Ok? ==> FaultFree(rf, d) && r.value == Selected(rf, d.keys, d.vals) && (keyExists || r.value == [])
    ensures FaultFree(rf, d) && (keyExists || Selected(rf, d.keys, d.vals) == []) ==> r.Ok?
    ensures r.Err? ==> r.error == TypeError || r.error == KeyError
    ensures r == Err(KeyError) <==> !keyExists && MatchesBeforeFault(rf, d)
  {
    var acc: seq<Account> := [];
    var i := 0;
    while i < |d.keys|
      invariant 0 <= i <= |d.keys|
      invariant acc == Selected(rf, d.keys[..i], d.vals)
      invariant forall j | 0 <= j < i :: MatchRecord(rf, d.vals[d.keys[j]]).Ok?
      invariant keyExists || acc == []
    {
      var account := d.keys[i];
      assert d.keys[..i + 1] == d.keys[..i] + [account];
      var m := MatchRecord(rf, d.vals[account]);
      if m.Err? {
        if !keyExists {
          NoMatchBeforeFault(rf, d, i);
        }
        return Err(m.error);
      }
      if m.value {
        if !keyExists {
          assert MatchesBeforeFault(rf, d) by {
            assert MatchRecord(rf, d.vals[d.keys[i]]) == Ok(true);
          }
          return Err(KeyError);
        }
        acc := acc + [account];
      }
      i := i + 1;
    }
    assert d.keys[..i] == d.keys;
    if !keyExists {
      NoMatchBeforeFault(rf, d, i);
    }
    r := Ok(acc);
  }

  /** `find_in_id_list(target, id_list)` as written: the list it creates under
      the raw target (line 53), while line 61 appends unscoped matches under
      the stripped query. With an unknown filter prefix those differ, and the
      first match raises KeyError. */
  method FindInIdList(target: string, idList: seq<Entry>) returns (r: Result<seq<Account>>)
    ensures var rf, d := SetSearchFilter(target), FromList(idList);
      (r.Ok? <==> FaultFree(rf, d) && (!InvalidPrefix(target) || Selected(rf, d.keys, d.vals) == [])) &&
      (r.Ok? ==> r.value == Selected(rf, d.keys, d.vals)) &&
      (r == Err(KeyError) <==> InvalidPrefix(target) && MatchesBeforeFault(rf, d))
  {
    var d := FromList(idList);
    var rf := SetSearchFilter(target);
    r := CollectMatches(rf, d, ResultKey(target) == target);
  }

  /** The search as intended: matches are kept under the key they are
      appended to, `ResultKey(target)`, so the only exception left is the
      matcher's TypeError. */
  method FindMatches(target: string, idList: seq<Entry>) returns (r: Result<seq<Account>>)
    ensures var rf, d := SetSearchFilter(target), FromList(idList);
      (r.Ok? <==> FaultFree(rf, d)) &&
      (r.Ok? ==> r.value == Selected(rf, d.keys, d.vals)) &&
      (r.Err? ==> r.error == TypeError)
  {
    var d := FromList(idList);
    var rf := SetSearchFilter(target);
    r := CollectMatches(rf, d, true);
  }

  /** Where two selected accounts come from among the keys. */
  lemma {:induction false} SelectedPositions(rf: Resolved, keys: seq<Account>, vals: map<Account, Registration>, i: nat, j: nat)
    requires forall k | k in keys :: k in vals
    requires i < j < |Selected(rf, keys, vals)|
    ensures exists a, b | 0 <= a < b < |keys| ::
      keys[a] == Selected(rf, keys, vals)[i] && keys[b] == Selected(rf, keys, vals)[j]
  {
    var init, k := keys[..|keys| - 1], keys[|keys| - 1];
    var sel0 := Selected(rf, init, vals);
    var sel := Selected(rf, keys, vals);
    assert sel == sel0 + (if MatchRecord(rf, vals[k]) == Ok(true) then [k] else []);
    if j < |sel0| {
      SelectedPositions(rf, init, vals, i, j);
      var a, b :| 0 <= a < b < |init| && init[a] == sel0[i] && init[b] == sel0[j];
      assert keys[a] == sel[i] && keys[b] == sel[j];
    } else {
      assert sel[j] == k && sel[i] == sel0[i] && sel0[i] in init;
      var a :| 0 <= a < |init| && init[a] == sel0[i];
      assert keys[a] == sel[i] && keys[|keys| - 1] == sel[j];
    }
  }

  /** The accounts found are exactly those that occur in the fetched list and
      whose last record matches. */
  lemma SearchMembership(rf: Resolved, l: seq<Entry>, a: Account)
    ensures var d := FromList(l);
      a in Selected(rf, d.keys, d.vals) <==> a in Keys(l) && MatchRecord(rf, d.vals[a]) == Ok(true)
    ensures a in Keys(l) ==> IsLastRecord(l, a, FromList(l).vals[a])
  {
    if a in Keys(l) {
      LastRecordWins(l, a);
    }
  }

  /** The accounts found appear once each, in the order of their first
      occurrence in the fetched list. */
  lemma SearchOrder(rf: Resolved, l: seq<Entry>, i: nat, j: nat)
    requires var d := FromList(l); i < j < |Selected(rf, d.keys, d.vals)|
    ensures var sel := Selected(rf, FromList(l).keys, FromList(l).vals);
      sel[i] in Keys(l) && sel[j] in Keys(l) && FirstIndex(l, sel[i]) < FirstIndex(l, sel[j])
    ensures var sel := Selected(rf, FromList(l).keys, FromList(l).vals); sel[i] != sel[j]
  {
    var d := FromList(l);
    SelectedPositions(rf, d.keys, d.vals, i, j);
    var a, b :| 0 <= a < b < |d.keys| &&
      d.keys[a] == Selected(rf, d.keys, d.vals)[i] && d.keys[b] == Selected(rf, d.keys, d.vals)[j];
    FirstOccurrenceOrder(l, a, b);
  }

  /** A record whose lists hold only strings, lists and dicts matches
      without raising. */
  lemma TraversableRecordNeverRaises(rf: Resolved, reg: Registration)
    requires Traversable(Obj(reg.info))
    ensures MatchRecord(rf, reg).Ok?
  {
    match rf.filter
    case None =>
      TraversableNeverRaises(rf.query, Obj(reg.info));
    case Some(f) =>
      var g := Get(reg.info, f);
      if g.Some? {
        var m :| 0 <= m < |reg.info| && reg.info[m] == (f, g.value);
        TraversableNeverRaises(rf.query, g.value);
      }
  }

  /** Fetched records whose lists hold only strings, lists and dicts never
      make the search raise. */
  lemma TraversableRecordsNeverRaise(rf: Resolved, l: seq<Entry>)
    requires forall i | 0 <= i < |l| :: Traversable(Obj(l[i].1.info))
    ensures FaultFree(rf, FromList(l))
  {
    var d := FromList(l);
    forall i | 0 <= i < |d.keys| ensures MatchRecord(rf, d.vals[d.keys[i]]).Ok? {
      var k := d.keys[i];
      LastRecordWins(l, k);
      var n :| 0 <= n < |l| && l[n] == (k, d.vals[k]) && forall j | n < j < |l| :: l[j].0 != k;
      TraversableRecordNeverRaises(rf, l[n].1);
    }
  }
}
