/** The filter resolver: `set_search_filter` and the key a search's result is stored under. */
module Filter {
  import opened Wrappers

  /** The metadata fields a search may be scoped to (`valid_filters`). */
  const ValidFilters: seq<string> :=
    ["additional", "display", "legal", "web", "riot", "email", "pgpFingerprint", "image", "twitter"]

  /** A resolved target: the optional field scope and the bare query. */
  datatype Resolved = Resolved(filter: Option<string>, query: string)

  /** The position of the first ':' in `s`, or `|s|` when there is none. */
  function FirstColon(s: string): (i: nat)
    ensures i <= |s|
    ensures ':' !in s[..i]
    ensures i < |s| ==> s[i] == ':'
  {
    if s == [] || s[0] == ':' then 0
    else
      var j := FirstColon(s[1..]);
      assert s[..j + 1] == [s[0]] + s[1..][..j];
      j + 1
  }

  /** `s.split(':', 1)`: the whole string, or the text before and after its
      first colon. */
  function SplitOnce(s: string): (parts: seq<string>)
    ensures 1 <= |parts| <= 2
    ensures |parts| == 1 <==> ':' !in s
    ensures |parts| == 1 ==> parts[0] == s
    ensures |parts| == 2 ==> parts[0] + ":" + parts[1] == s && ':' !in parts[0]
  {
    var i := FirstColon(s);
    if i == |s| then
      assert s[..i] == s;
      [s]
    else
      assert s[..i] + ":" + s[i + 1..] == s;
      [s[..i], s[i + 1..]]
  }

  /** `set_search_filter(target)`. A known field before the first colon
      scopes the search; an unknown one is discarded (the source prints a
      warning then) and only the text after the colon is searched. */
  function SetSearchFilter(target: string): (r: Resolved)
    ensures r.filter.Some? ==> r.filter.value in ValidFilters
  {
    var parts := SplitOnce(target);
    if |parts| > 1 then
      if parts[0] !in ValidFilters then Resolved(None, parts[1])
      else Resolved(Some(parts[0]), parts[1])
    else Resolved(None, target)
  }

  /** The query is what is left of the target once a prefix up to its first
      colon, if any, is cut off. */
  lemma QueryIsSuffix(target: string)
    ensures var q := SetSearchFilter(target).query;
      |q| <= |target| && target[|target| - |q|..] == q
  {
    var parts := SplitOnce(target);
    if |parts| > 1 {
      assert target == parts[0] + ":" + parts[1];
      assert target[|target| - |parts[1]|..] == parts[1];
    }
  }

  /** The target names an unknown field before its first colon: the case in
      which the source warns and drops the prefix. */
  predicate InvalidPrefix(target: string) {
    ':' in target && SplitOnce(target)[0] !in ValidFilters
  }

  /** A target without a colon is searched unchanged and unscoped. */
  lemma NoColonUnchanged(target: string)
    requires ':' !in target
    ensures SetSearchFilter(target) == Resolved(None, target)
  {
  }

  lemma {:induction false} FirstColonAfter(p: string, q: string)
    requires ':' !in p
    ensures FirstColon(p + ":" + q) == |p|
  {
    if p != [] {
      assert (p + ":" + q)[1..] == p[1..] + ":" + q;
      FirstColonAfter(p[1..], q);
    }
  }

  /** Every target with a colon is `p + ":" + q` for a colon-free `p`. It
      splits at that first colon only, so `q` keeps any later colons; `p` is
      kept as the filter exactly when it is a valid field. */
  lemma SplitAtFirstColon(p: string, q: string)
    requires ':' !in p
    ensures SetSearchFilter(p + ":" + q) ==
      Resolved(if p in ValidFilters then Some(p) else None, q)
    ensures InvalidPrefix(p + ":" + q) <==> p !in ValidFilters
  {
    var t := p + ":" + q;
    FirstColonAfter(p, q);
    assert t[|p|] == ':';
    assert t[..|p|] == p;
    assert t[|p| + 1..] == q;
  }

  /** Whatever the target, a kept filter is a valid field which, with a colon
      and the query, spells the target back. */
  lemma FilterSpellsTarget(target: string)
    ensures var r := SetSearchFilter(target);
      r.filter.Some? ==> r.filter.value in ValidFilters && ':' !in r.filter.value &&
                         r.filter.value + ":" + r.query == target
    ensures SetSearchFilter(target).filter.None? <==> (':' !in target || InvalidPrefix(target))
  {
  }

  /** The key a search's matches are stored and served under: the query, or
      `field:query` when a filter applies. */
  function ResultKey(target: string): (key: string)
    ensures key == target <==> !InvalidPrefix(target)
    ensures InvalidPrefix(target) ==> target == SplitOnce(target)[0] + ":" + key
  {
    var r := SetSearchFilter(target);
    if r.filter.Some? then r.filter.value + ":" + r.query else r.query
  }
}
