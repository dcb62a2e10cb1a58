/** The nested matcher: `is_matching_target` and the `in` operator it relies on. */
module Matcher {
  import opened Wrappers
  import opened Values

  /** Python's `target in v` for a string `target`: a substring test on a str,
      element equality on a list or a tuple, key membership on a dict, and a
      TypeError on None, a bool or a number. */
  function In(target: string, v: Val): (r: Result<bool>)
    ensures r.Err? <==> v.Null? || v.Bool? || v.Num?
    ensures r.Err? ==> r.error == TypeError
    ensures v.Str? ==> (r == Ok(true) <==> Occurs(target, v.s))
  {
    match v
    case Str(s) => SubstringIsOccurrence(target, s); Ok(IsSubstring(target, s))
    case Arr(items) => Ok(Str(target) in items)
    case Tup(elems) => Ok(Str(target) in elems)
    case Obj(fields) => Ok(target in Keys(fields))
    case _ => Err(TypeError)
  }

  /** `is_matching_target(target, v)`: falsy values and anything that is
      neither a dict nor a list (a bare string or a tuple included) never
      match. The only exception it lets through is the TypeError of `in`. */
  function IsMatchingTarget(target: string, v: Val): (r: Result<bool>)
    ensures r.Err? ==> r.error == TypeError
    decreases v
  {
    if !Truthy(v) then Ok(false)
    else match v
      case Obj(fields) => ScanValues(target, v, fields)
      case Arr(items) => ScanElements(target, items)
      case _ => Ok(false)
  }

  /** The loop over a dict's values, returning at the first hit. Falsy values
      are skipped; a string is tested for the substring, anything else is
      matched recursively. `parent` is the dict being scanned. */
  function ScanValues(target: string, ghost parent: Val, fields: seq<(string, Val)>): (r: Result<bool>)
    requires forall i | 0 <= i < |fields| :: fields[i].1 < parent
    ensures r.Err? ==> r.error == TypeError
    decreases parent, |fields|
  {
    if fields == [] then Ok(false)
    else
      var value := fields[0].1;
      if !Truthy(value) then ScanValues(target, parent, fields[1..])
      else
        var hit := if value.Str? then Ok(IsSubstring(target, value.s)) else IsMatchingTarget(target, value);
        match hit
        case Err(e) => Err(e)
        case Ok(true) => Ok(true)
        case Ok(false) => ScanValues(target, parent, fields[1..])
  }

  /** The loop over a list's elements, returning at the first `target in value`. */
  function ScanElements(target: string, items: seq<Val>): (r: Result<bool>)
    ensures r.Err? ==> r.error == TypeError
    ensures r.Err? ==> exists i | 0 <= i < |items| :: items[i].Null? || items[i].Bool? || items[i].Num?
  {
    if items == [] then Ok(false)
    else match In(target, items[0])
      case Err(e) => Err(e)
      case Ok(true) => Ok(true)
      case Ok(false) => ScanElements(target, items[1..])
  }

  /** A dict member the scan stops at: a non-empty string containing the
      target, or a non-empty non-string that matches recursively. */
  ghost predicate MemberHit(target: string, value: Val) {
    Truthy(value) && if value.Str? then Occurs(target, value.s) else IsMatchingTarget(target, value) == Ok(true)
  }

  /** A dict member whose recursive match raises. */
  predicate MemberRaises(target: string, value: Val) {
    Truthy(value) && !value.Str? && IsMatchingTarget(target, value).Err?
  }

  lemma {:induction false} ScanValuesOk(target: string, parent: Val, fields: seq<(string, Val)>)
    requires forall i | 0 <= i < |fields| :: fields[i].1 < parent
    ensures ScanValues(target, parent, fields).Ok? ==>
      (ScanValues(target, parent, fields).value <==> exists i | 0 <= i < |fields| :: MemberHit(target, fields[i].1))
    decreases |fields|
  {
    if fields != [] {
      var value, rest := fields[0].1, fields[1..];
      ScanValuesOk(target, parent, rest);
      if value.Str? {
        SubstringIsOccurrence(target, value.s);
      }
      if exists i | 0 <= i < |rest| :: MemberHit(target, rest[i].1) {
        var i :| 0 <= i < |rest| && MemberHit(target, rest[i].1);
        assert MemberHit(target, fields[i + 1].1);
      }
      if exists i | 0 <= i < |fields| :: MemberHit(target, fields[i].1) {
        var i :| 0 <= i < |fields| && MemberHit(target, fields[i].1);
        if i > 0 {
          assert MemberHit(target, rest[i - 1].1);
        }
      }
    }
  }

  /** No member before position `i` is a hit. */
  ghost predicate NoHitBefore(target: string, fields: seq<(string, Val)>, i: nat)
    requires i <= |fields|
  {
    forall j | 0 <= j < i :: !MemberHit(target, fields[j].1)
  }

  /** Some member raises before any member is a hit. */
  ghost predicate RaisesBeforeHit(target: string, fields: seq<(string, Val)>) {
    exists i | 0 <= i < |fields| :: MemberRaises(target, fields[i].1) && NoHitBefore(target, fields, i)
  }

  lemma {:induction false} ScanValuesErrSound(target: string, parent: Val, fields: seq<(string, Val)>)
    requires forall i | 0 <= i < |fields| :: fields[i].1 < parent
    requires ScanValues(target, parent, fields).Err?
    ensures RaisesBeforeHit(target, fields)
    decreases |fields|
  {
    var value, rest := fields[0].1, fields[1..];
    if value.Str? {
      SubstringIsOccurrence(target, value.s);
    }
    if MemberRaises(target, value) {
      assert NoHitBefore(target, fields, 0);
    } else {
      assert !MemberHit(target, value);
      ScanValuesErrSound(target, parent, rest);
      var i :| 0 <= i < |rest| && MemberRaises(target, rest[i].1) && NoHitBefore(target, rest, i);
      forall j | 0 <= j < i + 1 ensures !MemberHit(target, fields[j].1) {
        if j > 0 {
          assert fields[j] == rest[j - 1];
        }
      }
      assert MemberRaises(target, fields[i + 1].1) && NoHitBefore(target, fields, i + 1);
    }
  }

  lemma {:induction false} ScanValuesErrComplete(target: string, parent: Val, fields: seq<(string, Val)>)
    requires forall i | 0 <= i < |fields| :: fields[i].1 < parent
    requires RaisesBeforeHit(target, fields)
    ensures ScanValues(target, parent, fields).Err?
    decreases |fields|
  {
    var value, rest := fields[0].1, fields[1..];
    var i :| 0 <= i < |fields| && MemberRaises(target, fields[i].1) && NoHitBefore(target, fields, i);
    if value.Str? {
      SubstringIsOccurrence(target, value.s);
    }
    if i > 0 {
      assert !MemberHit(target, value);
      forall j | 0 <= j < i - 1 ensures !MemberHit(target, rest[j].1) {
        assert rest[j] == fields[j + 1];
      }
      assert MemberRaises(target, rest[i - 1].1) && NoHitBefore(target, rest, i - 1);
      ScanValuesErrComplete(target, parent, rest);
    }
  }

  /** A dict matches iff one of its members is a hit, whenever the scan
      finishes without raising; it raises iff some member raises before any
      member is a hit. */
  lemma DictMatch(target: string, fields: seq<(string, Val)>)
    ensures var r := IsMatchingTarget(target, Obj(fields));
      (r.Ok? ==> (r.value <==> exists i | 0 <= i < |fields| :: MemberHit(target, fields[i].1))) &&
      (r.Err? <==> RaisesBeforeHit(target, fields))
  {
    ScanValuesOk(target, Obj(fields), fields);
    if IsMatchingTarget(target, Obj(fields)).Err? {
      ScanValuesErrSound(target, Obj(fields), fields);
    }
    if RaisesBeforeHit(target, fields) {
      ScanValuesErrComplete(target, Obj(fields), fields);
    }
  }

  lemma {:induction false} ScanElementsOk(target: string, items: seq<Val>)
    ensures ScanElements(target, items).Ok? ==>
      (ScanElements(target, items).value <==> exists i | 0 <= i < |items| :: In(target, items[i]) == Ok(true))
  {
    if items != [] {
      ScanElementsOk(target, items[1..]);
      if exists i | 0 <= i < |items| :: In(target, items[i]) == Ok(true) {
        var i :| 0 <= i < |items| && In(target, items[i]) == Ok(true);
        if i > 0 {
          assert items[i] == items[1..][i - 1];
        }
      }
    }
  }

  /** Some element raises before any element contains the target. */
  ghost predicate ElementRaisesFirst(target: string, items: seq<Val>) {
    exists i | 0 <= i < |items| :: In(target, items[i]).Err? &&
      forall j | 0 <= j < i :: In(target, items[j]) != Ok(true)
  }

  lemma {:induction false} ScanElementsErr(target: string, items: seq<Val>)
    ensures ScanElements(target, items).Err? <==> ElementRaisesFirst(target, items)
  {
    if items != [] {
      var rest := items[1..];
      ScanElementsErr(target, rest);
      if In(target, items[0]) == Ok(false) {
        if ElementRaisesFirst(target, rest) {
          var i :| 0 <= i < |rest| && In(target, rest[i]).Err? && forall j | 0 <= j < i :: In(target, rest[j]) != Ok(true);
          assert In(target, items[i + 1]).Err?;
          assert forall j | 0 <= j < i + 1 :: In(target, items[j]) != Ok(true) by {
            forall j | 0 <= j < i + 1 ensures In(target, items[j]) != Ok(true) {
              if j > 0 {
                assert items[j] == rest[j - 1];
              }
            }
          }
        }
        if ElementRaisesFirst(target, items) {
          var i :| 0 <= i < |items| && In(target, items[i]).Err? && forall j | 0 <= j < i :: In(target, items[j]) != Ok(true);
          assert i > 0;
          assert In(target, rest[i - 1]).Err?;
          assert forall j | 0 <= j < i - 1 :: In(target, rest[j]) != Ok(true) by {
            forall j | 0 <= j < i - 1 ensures In(target, rest[j]) != Ok(true) {
              assert rest[j] == items[j + 1];
            }
          }
        }
      }
    }
  }

  /** A list matches iff some element satisfies `target in element`, whenever
      the scan finishes; it raises iff some element raises before any element
      contains the target. */
  lemma ListMatch(target: string, items: seq<Val>)
    ensures var r := IsMatchingTarget(target, Arr(items));
      (r.Ok? ==> (r.value <==> exists i | 0 <= i < |items| :: In(target, items[i]) == Ok(true))) &&
      (r.Err? <==> ElementRaisesFirst(target, items))
  {
    ScanElementsOk(target, items);
    ScanElementsErr(target, items);
  }

  /** A list of strings matches iff the target is a substring of one of them. */
  lemma {:induction false} StringListMatch(target: string, items: seq<Val>)
    requires forall i | 0 <= i < |items| :: items[i].Str?
    ensures IsMatchingTarget(target, Arr(items)) == Ok(exists i | 0 <= i < |items| :: Occurs(target, items[i].s))
  {
    ListMatch(target, items);
    ScanElementsErr(target, items);
    forall i | 0 <= i < |items| ensures In(target, items[i]) == Ok(Occurs(target, items[i].s)) {
      SubstringIsOccurrence(target, items[i].s);
    }
  }

  /** Falsy values, and non-empty values that are neither a dict nor a list
      (strings and tuples among them), never match. */
  lemma ScalarsNeverMatch(target: string, v: Val)
    requires !Truthy(v) || !(v.Arr? || v.Obj?)
    ensures IsMatchingTarget(target, v) == Ok(false)
  {
  }

  /** The shapes the matcher traverses without a TypeError: every list it
      scans holds only strings, lists, tuples and dicts. */
  ghost predicate Traversable(v: Val) {
    match v
    case Arr(items) => forall i | 0 <= i < |items| :: items[i].Str? || items[i].Arr? || items[i].Tup? || items[i].Obj?
    case Obj(fields) => forall i | 0 <= i < |fields| :: Traversable(fields[i].1)
    case _ => true
  }

  lemma {:induction false} TraversableNeverRaises(target: string, v: Val)
    requires Traversable(v)
    ensures IsMatchingTarget(target, v).Ok?
    decreases v
  {
    match v
    case Arr(items) =>
      ScanElementsErr(target, items);
    case Obj(fields) =>
      forall i | 0 <= i < |fields| ensures !MemberRaises(target, fields[i].1) {
        TraversableNeverRaises(target, fields[i].1);
      }
      DictMatch(target, fields);
    case _ =>
  }

  /** A dict member that is exactly the (non-empty) target makes the dict
      match, provided no earlier member raises. */
  lemma ExactMemberMatches(target: string, fields: seq<(string, Val)>, k: nat)
    requires k < |fields| && fields[k].1 == Str(target) && target != ""
    requires forall j | 0 <= j < k :: !MemberRaises(target, fields[j].1)
    ensures IsMatchingTarget(target, Obj(fields)) == Ok(true)
  {
    assert fields[k].1.s[0..|target|] == target;
    assert MemberHit(target, fields[k].1);
    DictMatch(target, fields);
  }

  /** Where the matcher finds the target, stated without its loops. A dict
      holds it when one of its members does: a non-empty string containing
      it, or a non-string value that holds it. A list holds it when one of its
      elements does by Python's `in`. For a string element, the target must be
      a substring. A list or tuple element must hold `Str(target)` itself. A
      dict element must have the target among its keys, whatever its values
      are. Nothing else holds the target. */
  ghost predicate OccursIn(target: string, v: Val)
    decreases v
  {
    match v
    case Obj(fields) => exists i | 0 <= i < |fields| ::
      var m := fields[i].1;
      if m.Str? then m.s != "" && Occurs(target, m.s) else OccursIn(target, m)
    case Arr(items) => exists i | 0 <= i < |items| :: ElementHolds(target, items[i])
    case _ => false
  }

  /** `target in e` holds for a list element `e`. */
  ghost predicate ElementHolds(target: string, e: Val) {
    match e
    case Str(s) => Occurs(target, s)
    case Arr(xs) => Str(target) in xs
    case Tup(xs) => Str(target) in xs
    case Obj(fs) => target in Keys(fs)
    case _ => false
  }

  /** Whenever the matcher finishes without raising, it returns true exactly
      when the target occurs in the value in the sense of `OccursIn`. */
  lemma {:induction false} MatchMeansOccurrence(target: string, v: Val)
    ensures IsMatchingTarget(target, v).Ok? ==> (IsMatchingTarget(target, v).value <==> OccursIn(target, v))
    decreases v
  {
    match v
    case Obj(fields) =>
      DictMatch(target, fields);
      if IsMatchingTarget(target, v).Ok? {
        MemberHitsAreOccurrences(target, fields);
      }
    case Arr(items) =>
      ListMatch(target, items);
      forall i | 0 <= i < |items| ensures In(target, items[i]) == Ok(true) <==> ElementHolds(target, items[i]) {
      }
    case _ =>
  }

  /** The dict case of `MatchMeansOccurrence`: when no member raises before
      a hit, some member is a hit iff some member holds the target. */
  lemma {:induction false} MemberHitsAreOccurrences(target: string, fields: seq<(string, Val)>)
    requires !RaisesBeforeHit(target, fields)
    ensures (exists i | 0 <= i < |fields| :: MemberHit(target, fields[i].1)) <==> OccursIn(target, Obj(fields))
    decreases Obj(fields), 0
  {
    var v := Obj(fields);
    if exists i | 0 <= i < |fields| :: MemberHit(target, fields[i].1) {
      var i :| 0 <= i < |fields| && MemberHit(target, fields[i].1);
      var m := fields[i].1;
      if !m.Str? {
        assert m < v;
        MatchMeansOccurrence(target, m);
      }
    }
    if OccursIn(target, v) {
      var i :| 0 <= i < |fields| &&
        var m := fields[i].1; if m.Str? then m.s != "" && Occurs(target, m.s) else OccursIn(target, m);
      var m := fields[i].1;
      if !exists j | 0 <= j < i :: MemberHit(target, fields[j].1) {
        assert NoHitBefore(target, fields, i);
        assert !MemberRaises(target, m);
        if !m.Str? {
          assert m < v;
          MatchMeansOccurrence(target, m);
        }
        assert MemberHit(target, m);
      }
    }
  }

  /** A dict inside a list matches by its keys, although none of its string
      values need contain the target. */
  lemma KeyInsideListMatches()
    ensures IsMatchingTarget("foo", Obj([("additional", Arr([Obj([("foo", Str("x"))])]))])) == Ok(true)
    ensures !Occurs("foo", "x")
  {
    assert Keys([("foo", Str("x"))]) == ["foo"];
  }

  /** A tuple is not scanned at the top level, but inside a list it is
      tested element by element, like a list. */
  lemma TupleOnlyInsideList()
    ensures IsMatchingTarget("alice", Tup([Str("alice")])) == Ok(false)
    ensures IsMatchingTarget("alice", Arr([Str("alice")])) == Ok(true)
    ensures IsMatchingTarget("alice", Arr([Tup([Str("alice")])])) == Ok(true)
  {
    assert "alice" <= "alice";
  }
}
