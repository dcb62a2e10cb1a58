/** Worked examples of the searcher on small record sets. */
module Scenarios {
  import opened Wrappers
  import opened Values
  import opened Matcher
  import opened Filter
  import opened Records
  import opened SearchEngine
  import opened Cache

  /** One account whose display name is a plain string. */
  const AliceList: seq<Entry> := [("alice", Registration([("display", Str("Alice Smith"))]))]

  lemma AliceRecordMatches()
    ensures FromList(AliceList) == IdDict(["alice"], map["alice" := AliceList[0].1])
    ensures MatchRecord(Resolved(None, "Alice"), AliceList[0].1) == Ok(true)
  {
    assert AliceList[..0] == [];
    assert "Alice" <= "Alice Smith";
  }

  /** An unscoped search finds the substring in any field. */
  lemma UnscopedSearchFindsDisplayName()
    ensures var d := FromList(AliceList);
      Selected(SetSearchFilter("Alice"), d.keys, d.vals) == ["alice"] && ResultKey("Alice") == "Alice"
  {
    NoColonUnchanged("Alice");
    AliceRecordMatches();
    assert ["alice"][..0] == [];
  }

  /** Two accounts, one with the handle in `twitter` and one in `display`,
      with field values stored as `{"Raw": text}` dicts, as on chain. */
  const RawList: seq<Entry> := [
    ("bob", Registration([("twitter", Obj([("Raw", Str("@bobby"))]))])),
    ("carol", Registration([("display", Obj([("Raw", Str("bobby"))]))]))
  ]

  /** The same two accounts with the field values as bare strings. */
  const PlainList: seq<Entry> := [
    ("bob", Registration([("twitter", Str("@bobby"))])),
    ("carol", Registration([("display", Str("bobby"))]))
  ]

  /** The dict built from two pairs of distinct accounts. */
  lemma FromTwo(x: Entry, y: Entry)
    requires x.0 != y.0
    ensures FromList([x, y]) == IdDict([x.0, y.0], map[x.0 := x.1, y.0 := y.1])
  {
    assert [x, y][..1] == [x] && [x][..0] == [];
    assert FromList([x]) == IdDict([x.0], map[x.0 := x.1]);
    assert FromList([x, y]) == Put(FromList([x]), y.0, y.1);
  }

  /** A search over two accounts keeps, in order, those that match. */
  lemma SelectedOfTwo(rf: Resolved, x: Entry, y: Entry)
    requires x.0 != y.0
    ensures var d := FromList([x, y]);
      Selected(rf, d.keys, d.vals) ==
        (if MatchRecord(rf, x.1) == Ok(true) then [x.0] else []) +
        (if MatchRecord(rf, y.1) == Ok(true) then [y.0] else [])
  {
    FromTwo(x, y);
    var vals := map[x.0 := x.1, y.0 := y.1];
    assert [x.0, y.0][..1] == [x.0] && [x.0][..0] == [];
    assert Selected(rf, [x.0], vals) == if MatchRecord(rf, x.1) == Ok(true) then [x.0] else [];
  }

  lemma ScopedResolution()
    ensures SetSearchFilter("twitter:bobby") == Resolved(Some("twitter"), "bobby")
    ensures ResultKey("twitter:bobby") == "twitter:bobby"
  {
    SplitAtFirstColon("twitter", "bobby");
    assert "twitter" + ":" + "bobby" == "twitter:bobby";
  }

  /** A `{"Raw": "@bobby"}` value contains "bobby". */
  lemma RawHandleMatches()
    ensures IsMatchingTarget("bobby", Obj([("Raw", Str("@bobby"))])) == Ok(true)
  {
    var s := "@bobby";
    assert s[1..] == "bobby";
    assert IsSubstring("bobby", s);
  }

  /** A scoped search looks only at the named field. */
  lemma ScopedSearchLooksAtFieldOnly()
    ensures var d := FromList(RawList);
      Selected(SetSearchFilter("twitter:bobby"), d.keys, d.vals) == ["bob"] &&
      ResultKey("twitter:bobby") == "twitter:bobby"
  {
    ScopedResolution();
    var rf := Resolved(Some("twitter"), "bobby");
    assert Get(RawList[0].1.info, "twitter") == Some(Obj([("Raw", Str("@bobby"))]));
    RawHandleMatches();
    assert MatchRecord(rf, RawList[0].1) == Ok(true);
    assert MatchRecord(rf, RawList[1].1) == Ok(false);
    SelectedOfTwo(rf, RawList[0], RawList[1]);
  }

  /** A scoped search tests the field's value itself, and a bare string is
      not a container: neither account is found. */
  lemma ScopedSearchSkipsBareStrings()
    ensures var d := FromList(PlainList);
      Selected(SetSearchFilter("twitter:bobby"), d.keys, d.vals) == []
  {
    ScopedResolution();
    var rf := Resolved(Some("twitter"), "bobby");
    assert Scope(rf, PlainList[0].1) == Str("@bobby");
    ScalarsNeverMatch("bobby", Str("@bobby"));
    assert Keys(PlainList[1].1.info) == ["display"];
    MissingFieldNeverMatches("bobby", "twitter", PlainList[1].1);
    SelectedOfTwo(rf, PlainList[0], PlainList[1]);
  }

  /** An unknown field prefix is dropped: the search runs unscoped on the
      text after the colon, under that text as its key. */
  lemma UnknownPrefixSearchesRest()
    ensures SetSearchFilter("badfield:xyz") == SetSearchFilter("xyz") == Resolved(None, "xyz")
    ensures InvalidPrefix("badfield:xyz") && ResultKey("badfield:xyz") == "xyz"
  {
    SplitAtFirstColon("badfield", "xyz");
    assert "badfield" + ":" + "xyz" == "badfield:xyz";
    NoColonUnchanged("xyz");
  }

  lemma UnknownPrefixResolution()
    ensures InvalidPrefix("badfield:Alice")
    ensures SetSearchFilter("badfield:Alice") == Resolved(None, "Alice")
  {
    SplitAtFirstColon("badfield", "Alice");
    assert "badfield" + ":" + "Alice" == "badfield:Alice";
  }

  /** As written, an unknown prefix with a matching record raises KeyError:
      `find_in_id_list` creates the list under the raw target and appends
      under the text after the colon. */
  lemma UnknownPrefixMatchRaisesKeyError()
    ensures InvalidPrefix("badfield:Alice")
    ensures MatchesBeforeFault(SetSearchFilter("badfield:Alice"), FromList(AliceList))
  {
    UnknownPrefixResolution();
    AliceRecordMatches();
    var d := FromList(AliceList);
    assert MatchRecord(Resolved(None, "Alice"), d.vals[d.keys[0]]) == Ok(true);
  }

  /** The search as written on `badfield:Alice` over `AliceList`: the match
      is appended under `Alice`, a key that was never created. */
  method UnknownPrefixSearchAsWritten() returns (r: Result<seq<Account>>)
    ensures r == Err(KeyError)
  {
    r := FindInIdList("badfield:Alice", AliceList);
    UnknownPrefixMatchRaisesKeyError();
  }

  /** A corrupt cache file is a miss: the search runs and, when the write
      succeeds, the file holds an up-to-date entry for the current fingerprint. */
  method CorruptCacheIsRebuilt(fingerprint: int) returns (shown: Result<Val>, recomputed: bool, c: CacheFile)
    ensures fresh(c)
    ensures recomputed && shown == Ok(ListOf(["alice"]))
    ensures c.disk == Stored(CacheEntry(fingerprint, "Alice", ["alice"]))
    ensures !Stale(c.disk, fingerprint)
  {
    c := new CacheFile(Unreadable);
    shown, recomputed := c.Search("Alice", AliceList, fingerprint, false);
    UnscopedSearchFindsDisplayName();
    TraversableRecordsNeverRaise(SetSearchFilter("Alice"), AliceList);
    RebuiltEntryServesMatches(fingerprint, "Alice", ["alice"]);
  }
}
