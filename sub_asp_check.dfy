/**
 * src/sampleStore/subjectAspectMap/checkSamplesAgainstSubAspMap.js: count
 * the sample records under a subject prefix and how many of them are in
 * the subject-aspect index.
 */
module SubAspCheck {
  import opened Text
  import opened Keys
  import opened Store
  import opened SubAspPopulate

  datatype CheckResult = CheckResult(total: nat, foundInMap: nat)

  /** The scoped records that are in the index. */
  function FoundIn(db: Db, keys: set<string>): set<string> {
    set k | k in keys && Found(db, k)
  }

  /** What the index check reports: all scoped records, and those the index knows. */
  function CheckSpec(db: Db, subjectKey: string): CheckResult {
    var scoped := Matching(db, SamplePfx + subjectKey);
    CheckResult(|scoped|, |FoundIn(db, scoped)|)
  }

  /** How many of `keys` are in the index, counted along the sequence. */
  function CountFound(db: Db, keys: seq<string>): nat {
    if keys == [] then 0
    else CountFound(db, keys[..|keys| - 1]) + (if Found(db, keys[|keys| - 1]) then 1 else 0)
  }

  /** One more key adds itself to the found ones exactly when the index knows it. */
  lemma FoundInSnoc(db: Db, init: seq<string>, x: string)
    ensures FoundIn(db, set k | k in init + [x]) ==
      FoundIn(db, set k | k in init) + (if Found(db, x) then {x} else {})
  {
    assert (set k | k in init + [x]) == (set k | k in init) + {x};
  }

  /** Counting along a duplicate-free sequence counts the found members of its set. */
  lemma {:induction false} CountFoundIsCard(db: Db, keys: seq<string>)
    requires NoDup(keys)
    ensures CountFound(db, keys) == |FoundIn(db, set k | k in keys)|
  {
    if keys == [] {
      assert FoundIn(db, set k | k in keys) == {};
    } else {
      var init := keys[..|keys| - 1];
      var x := keys[|keys| - 1];
      assert NoDup(init);
      CountFoundIsCard(db, init);
      assert keys == init + [x];
      assert x !in init;
      FoundInSnoc(db, init, x);
      var before := FoundIn(db, set k | k in init);
      assert x !in before;
    }
  }

  /** checkSamplesAgainstSubAspMap(redis, subjectKey) */
  method CheckSamplesAgainstSubAspMap(redis: Redis, subjectKey: string) returns (r: CheckResult)
    ensures r == CheckSpec(redis.db, subjectKey)
  {
    var keys := redis.Scan(SamplePfx + subjectKey);
    forall k | k in keys ensures IsSampleKey(k) {
      ScopedKeysAreSampleKeys(redis.db, subjectKey, k);
    }
    var total := |keys|;
    var found := 0;
    var i := 0;
    while i < |keys|
      invariant 0 <= i <= |keys|
      invariant found == CountFound(redis.db, keys[..i])
    {
      var (subject, aspect) := SubjectAndAspect(keys[i]);
      var isMember := redis.SIsMember(SubAspMapPfx + subject, aspect);
      assert keys[..i + 1][..i] == keys[..i];
      if isMember {
        found := found + 1;
      }
      i := i + 1;
    }
    assert keys[..i] == keys;
    CountFoundIsCard(redis.db, keys);
    assert (set k | k in keys) == Matching(redis.db, SamplePfx + subjectKey);
    ScanCard(keys, redis.db, SamplePfx + subjectKey);
    r := CheckResult(total, found);
  }

  /** The index never accounts for more records than there are. */
  lemma FoundAtMostTotal(db: Db, subjectKey: string)
    ensures CheckSpec(db, subjectKey).foundInMap <= CheckSpec(db, subjectKey).total
  {
    var scoped := Matching(db, SamplePfx + subjectKey);
    SubsetCard(FoundIn(db, scoped), scoped);
  }

  /** Nothing is missing exactly when every scoped record is in the index. */
  lemma CompleteIff(db: Db, subjectKey: string)
    ensures CheckSpec(db, subjectKey).foundInMap == CheckSpec(db, subjectKey).total <==>
      forall k :: k in Matching(db, SamplePfx + subjectKey) ==> Found(db, k)
  {
    var scoped := Matching(db, SamplePfx + subjectKey);
    var found := FoundIn(db, scoped);
    if exists k :: k in scoped && !Found(db, k) {
      var k :| k in scoped && !Found(db, k);
      assert k !in found;
      SubsetCard(found, scoped);
    } else {
      assert found == scoped;
    }
  }

  /** With no index entries at all, none of the records is found. */
  lemma NothingFoundWithoutIndex(db: Db, subjectKey: string)
    requires Matching(db, SubAspMapPfx) == {}
    ensures CheckSpec(db, subjectKey).foundInMap == 0
  {
    var scoped := Matching(db, SamplePfx + subjectKey);
    forall k | k in scoped ensures !Found(db, k) {
      if IsSampleKey(k) {
        var p := IndexPair(k);
        assert p.0 !in Matching(db, SubAspMapPfx);
      }
    }
    assert FoundIn(db, scoped) == {};
  }

  /** Populating the same scope over an index that holds only sets leaves nothing missing. */
  lemma CheckAfterPopulate(db: Db, subjectKey: string, scan: seq<string>)
    requires IndexSettable(db)
    requires IsScanOf(scan, db, SamplePfx + subjectKey)
    requires forall x :: x in scan ==> IsSampleKey(x)
    ensures var c := CheckSpec(SAddAll(db, IndexPairs(scan)), subjectKey);
      c.foundInMap == c.total && c.total == |scan|
  {
    var db1 := SAddAll(db, IndexPairs(scan));
    StartsWithAppend(SamplePfx, subjectKey, SamplePfx + subjectKey);
    PopulateKeepsRecords(db, scan, SamplePfx + subjectKey);
    forall k | k in Matching(db1, SamplePfx + subjectKey) ensures Found(db1, k) {
      PopulateFindsAll(db, subjectKey, scan, k);
    }
    CompleteIff(db1, subjectKey);
    ScanCard(scan, db, SamplePfx + subjectKey);
  }
}
