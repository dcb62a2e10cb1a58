/** The decoded, dynamically typed values that make up an identity record's `info`. */
module Values {
  import opened Wrappers

  /** A decoded Python value: None, bool, int, str, list, tuple and dict.
      A dict keeps its insertion order; its keys are distinct, as in Python.
      A tuple is kept apart from a list because the matcher only scans lists. */
  datatype Val =
    | Null
    | Bool(b: bool)
    | Num(n: int)
    | Str(s: string)
    | Arr(items: seq<Val>)
    | Tup(elems: seq<Val>)
    | Obj(fields: seq<(string, Val)>)

  /** Python truthiness: None, False, 0, "", [], () and {} are falsy. */
  function Truthy(v: Val): (t: bool)
    ensures !t <==> v in [Null, Bool(false), Num(0), Str(""), Arr([]), Tup([]), Obj([])]
  {
    match v
    case Null => false
    case Bool(b) => b
    case Num(n) => n != 0
    case Str(s) => s != ""
    case Arr(items) => items != []
    case Tup(elems) => elems != []
    case Obj(fields) => fields != []
  }

  /** The first components of a sequence of pairs: the keys of a dict in
      insertion order, or the accounts of a list of `(account, data)` pairs. */
  function Keys<K, V>(pairs: seq<(K, V)>): (ks: seq<K>)
    ensures |ks| == |pairs|
    ensures forall i | 0 <= i < |pairs| :: ks[i] == pairs[i].0
  {
    seq(|pairs|, i requires 0 <= i < |pairs| => pairs[i].0)
  }

  /** `d.get(key)`: the value stored under `key`, if any. */
  function Get(fields: seq<(string, Val)>, key: string): (r: Option<Val>)
    ensures r.Some? <==> key in Keys(fields)
    ensures r.Some? ==> (key, r.value) in fields
  {
    if fields == [] then None
    else if fields[0].0 == key then Some(fields[0].1)
    else Get(fields[1..], key)
  }

  /** Python's `sub in s` for two strings: a case-sensitive substring test. */
  function IsSubstring(sub: string, s: string): bool
  {
    sub <= s || (s != [] && IsSubstring(sub, s[1..]))
  }

  /** Reference definition: `sub` is a contiguous slice of `s`. */
  ghost predicate Occurs(sub: string, s: string) {
    exists i, j | 0 <= i <= j <= |s| :: s[i..j] == sub
  }

  lemma SubstringIsOccurrence(sub: string, s: string)
    ensures IsSubstring(sub, s) <==> Occurs(sub, s)
  {
    if IsSubstring(sub, s) {
      SubstringOccurs(sub, s);
    }
    if Occurs(sub, s) {
      var i, j :| 0 <= i <= j <= |s| && s[i..j] == sub;
      OccurrenceIsSubstring(sub, s, i, j);
    }
  }

  lemma {:induction false} SubstringOccurs(sub: string, s: string)
    requires IsSubstring(sub, s)
    ensures Occurs(sub, s)
  {
    if sub <= s {
      assert s[0..|sub|] == sub;
    } else {
      SubstringOccurs(sub, s[1..]);
      var i, j :| 0 <= i <= j <= |s[1..]| && s[1..][i..j] == sub;
      assert s[i + 1..j + 1] == sub;
    }
  }

  lemma {:induction false} OccurrenceIsSubstring(sub: string, s: string, i: nat, j: nat)
    requires i <= j <= |s| && s[i..j] == sub
    ensures IsSubstring(sub, s)
  {
    if i == 0 {
      assert s[..j] == sub;
    } else {
      assert s[1..][i - 1..j - 1] == sub;
      OccurrenceIsSubstring(sub, s[1..], i - 1, j - 1);
    }
  }
}
