/** Identity records and the insertion-ordered dict `find_in_id_list` builds from them. */
module Records {
  import opened Values

  type Account = string

  /** An identity registration as fetched; only its `info` dict is searched. */
  datatype Registration = Registration(info: seq<(string, Val)>)

  /** One `(account, data)` pair of the fetched list. */
  type Entry = (Account, Registration)

  /** A Python dict from accounts to registrations: its keys in insertion
      order, and what each key maps to. */
  datatype IdDict = IdDict(keys: seq<Account>, vals: map<Account, Registration>) {

    ghost predicate Valid() {
      (forall i, j | 0 <= i < j < |keys| :: keys[i] != keys[j]) &&
      (forall k :: k in vals <==> k in keys)
    }
  }

  /** `d[k] = v`: an existing key keeps its place and takes the new value; a
      new key goes last. */
  function Put(d: IdDict, k: Account, v: Registration): (r: IdDict)
    requires d.Valid()
    ensures r.Valid()
    ensures |r.keys| == |d.keys| + (if k in d.vals then 0 else 1)
    ensures forall i | 0 <= i < |d.keys| :: r.keys[i] == d.keys[i]
    ensures r.vals == d.vals[k := v]
  {
    IdDict(if k in d.vals then d.keys else d.keys + [k], d.vals[k := v])
  }

  /** `{account: data for account, data in id_list}`. */
  function FromList(l: seq<Entry>): (d: IdDict)
    ensures d.Valid()
    ensures forall k :: k in d.vals <==> k in Keys(l)
  {
    if l == [] then IdDict([], map[])
    else
      var init := l[..|l| - 1];
      assert Keys(l) == Keys(init) + [l[|l| - 1].0];
      Put(FromList(init), l[|l| - 1].0, l[|l| - 1].1)
  }

  /** The position of the first pair for account `k`. */
  ghost function FirstIndex(l: seq<Entry>, k: Account): (i: nat)
    requires k in Keys(l)
    ensures i < |l| && l[i].0 == k
    ensures forall j | 0 <= j < i :: l[j].0 != k
  {
    if l[0].0 == k then 0
    else
      assert k in Keys(l[1..]) by {
        var m :| 0 <= m < |l| && Keys(l)[m] == k;
        assert l[1..][m - 1].0 == k;
      }
      1 + FirstIndex(l[1..], k)
  }

  /** `v` is the record of the last pair for account `k`. */
  ghost predicate IsLastRecord(l: seq<Entry>, k: Account, v: Registration) {
    exists i | 0 <= i < |l| :: l[i] == (k, v) && forall j | i < j < |l| :: l[j].0 != k
  }

  /** For a repeated account, the last record wins. */
  lemma {:induction false} LastRecordWins(l: seq<Entry>, k: Account)
    requires k in FromList(l).vals
    ensures IsLastRecord(l, k, FromList(l).vals[k])
  {
    var init, x := l[..|l| - 1], l[|l| - 1];
    var d0 := FromList(init);
    assert FromList(l) == Put(d0, x.0, x.1);
    if k == x.0 {
      assert l[|l| - 1] == (k, FromList(l).vals[k]);
    } else {
      LastRecordWins(init, k);
      LastRecordKept(l, k, d0.vals[k]);
    }
  }

  /** A pair for another account appended to the list keeps the last record. */
  lemma LastRecordKept(l: seq<Entry>, k: Account, v: Registration)
    requires l != [] && l[|l| - 1].0 != k && IsLastRecord(l[..|l| - 1], k, v)
    ensures IsLastRecord(l, k, v)
  {
    var init := l[..|l| - 1];
    var i :| 0 <= i < |init| && init[i] == (k, v) && forall j | i < j < |init| :: init[j].0 != k;
    assert l[i] == (k, v);
    forall j | i < j < |l| ensures l[j].0 != k {
      if j < |init| {
        assert l[j] == init[j];
      }
    }
  }

  lemma FirstIndexOfPrefix(l: seq<Entry>, n: nat, k: Account)
    requires n <= |l| && k in Keys(l[..n])
    ensures k in Keys(l) && FirstIndex(l, k) == FirstIndex(l[..n], k)
  {
    var i := FirstIndex(l[..n], k);
    assert l[i].0 == k;
    assert Keys(l)[i] == k;
  }

  /** An account first seen in the last pair has its first occurrence there. */
  lemma FirstIndexOfNewcomer(l: seq<Entry>)
    requires l != [] && l[|l| - 1].0 !in Keys(l[..|l| - 1])
    ensures l[|l| - 1].0 in Keys(l) && FirstIndex(l, l[|l| - 1].0) == |l| - 1
  {
    var k, init := l[|l| - 1].0, l[..|l| - 1];
    assert Keys(l)[|l| - 1] == k;
    forall m | 0 <= m < |l| - 1 ensures l[m].0 != k {
      assert Keys(init)[m] == l[m].0;
    }
  }

  /** The dict's keys follow the first occurrences of the accounts in the list. */
  lemma {:induction false} FirstOccurrenceOrder(l: seq<Entry>, i: nat, j: nat)
    requires i < j < |FromList(l).keys|
    ensures FromList(l).keys[i] in Keys(l) && FromList(l).keys[j] in Keys(l)
    ensures FirstIndex(l, FromList(l).keys[i]) < FirstIndex(l, FromList(l).keys[j])
    decreases |l|, 1
  {
    var init, x := l[..|l| - 1], l[|l| - 1];
    var d0 := FromList(init);
    assert FromList(l) == Put(d0, x.0, x.1);
    if j < |d0.keys| {
      KeptKeysOrder(l, i, j);
    } else {
      NewKeyOrder(l, i, j);
    }
  }

  lemma {:induction false} KeptKeysOrder(l: seq<Entry>, i: nat, j: nat)
    requires l != [] && i < j < |FromList(l[..|l| - 1]).keys|
    ensures FromList(l).keys[i] in Keys(l) && FromList(l).keys[j] in Keys(l)
    ensures FirstIndex(l, FromList(l).keys[i]) < FirstIndex(l, FromList(l).keys[j])
    decreases |l|, 0
  {
    var init, x := l[..|l| - 1], l[|l| - 1];
    var d0 := FromList(init);
    assert FromList(l) == Put(d0, x.0, x.1);
    var ki, kj := d0.keys[i], d0.keys[j];
    assert ki in d0.vals && kj in d0.vals;
    FirstIndexOfPrefix(l, |l| - 1, ki);
    FirstIndexOfPrefix(l, |l| - 1, kj);
    FirstOccurrenceOrder(init, i, j);
  }

  lemma NewKeyOrder(l: seq<Entry>, i: nat, j: nat)
    requires l != [] && i < j < |FromList(l).keys| && |FromList(l[..|l| - 1]).keys| <= j
    ensures FromList(l).keys[i] in Keys(l) && FromList(l).keys[j] in Keys(l)
    ensures FirstIndex(l, FromList(l).keys[i]) < FirstIndex(l, FromList(l).keys[j])
  {
    var init, x := l[..|l| - 1], l[|l| - 1];
    var d0 := FromList(init);
    assert FromList(l) == Put(d0, x.0, x.1);
    var ki := d0.keys[i];
    assert ki in d0.vals;
    FirstIndexOfPrefix(l, |l| - 1, ki);
    assert FromList(l).keys[j] == x.0 && x.0 !in d0.vals;
    FirstIndexOfNewcomer(l);
  }
}
