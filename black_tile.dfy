/**
 * black-tile.js: check the subject-aspect index against the sample records
 * under a root subject and, when records are missing from it, delete the
 * index and populate it again.
 */
module BlackTile {
  import opened Text
  import opened Keys
  import opened Store
  import opened SubAspPopulate
  import opened SubAspCheck
  import opened SubAspDelete

  /**
   * blackTileCheckAndRebuild(redis, subjectKey), as written: the delete it
   * calls takes no scope, so a rebuild empties the whole index and then
   * repopulates only the records under `subjectKey`.
   */
  method BlackTileCheckAndRebuild(redis: Redis, subjectKey: string) returns (rebuilt: bool, ghost scan: seq<string>)
    modifies redis
    ensures var c := CheckSpec(old(redis.db), subjectKey); rebuilt <==> c.total - c.foundInMap > 0
    ensures !rebuilt ==> redis.db == old(redis.db)
    ensures rebuilt ==>
      && IsScanOf(scan, DeleteMatching(old(redis.db), SubAspMapPfx), SamplePfx + subjectKey)
      && (forall k :: k in scan ==> IsSampleKey(k))
      && redis.db == SAddAll(DeleteMatching(old(redis.db), SubAspMapPfx), IndexPairs(scan))
  {
    var samplesInSubAspMap := CheckSamplesAgainstSubAspMap(redis, subjectKey);
    var numberOfMissingSamples := samplesInSubAspMap.total - samplesInSubAspMap.foundInMap;
    scan := [];
    rebuilt := numberOfMissingSamples > 0;
    if rebuilt {
      DeleteSubAspMap(redis);
      var added;
      added, scan := PopulateSubjectAspectMap(redis, subjectKey);
    }
  }

  /** The corrected rebuild: the same populate, after deleting only the index keys under the scope. */
  method BlackTileCheckAndRebuildScoped(redis: Redis, subjectKey: string) returns (rebuilt: bool, ghost scan: seq<string>)
    modifies redis
    ensures var c := CheckSpec(old(redis.db), subjectKey); rebuilt <==> c.total - c.foundInMap > 0
    ensures !rebuilt ==> redis.db == old(redis.db)
    ensures rebuilt ==>
      && IsScanOf(scan, DeleteMatching(old(redis.db), SubAspMapPfx + subjectKey), SamplePfx + subjectKey)
      && (forall k :: k in scan ==> IsSampleKey(k))
      && redis.db == SAddAll(DeleteMatching(old(redis.db), SubAspMapPfx + subjectKey), IndexPairs(scan))
  {
    var samplesInSubAspMap := CheckSamplesAgainstSubAspMap(redis, subjectKey);
    var numberOfMissingSamples := samplesInSubAspMap.total - samplesInSubAspMap.foundInMap;
    scan := [];
    rebuilt := numberOfMissingSamples > 0;
    if rebuilt {
      DeleteScanned(redis, SubAspMapPfx + subjectKey);
      var added;
      added, scan := PopulateSubjectAspectMap(redis, subjectKey);
    }
  }

  /** Deleting index keys leaves the scoped sample records as they were. */
  lemma DeleteKeepsScopedRecords(db: Db, pfx: string, subjectKey: string)
    requires StartsWith(SubAspMapPfx, pfx)
    ensures Matching(DeleteMatching(db, pfx), SamplePfx + subjectKey) == Matching(db, SamplePfx + subjectKey)
  {
    forall k | k in db && StartsWith(SamplePfx + subjectKey, k) ensures !StartsWith(pfx, k) {
      StartsWithAppend(SamplePfx, subjectKey, k);
      IndexKeysAreNotRecords(k);
      if StartsWith(pfx, k) {
        StartsWithTrans(SubAspMapPfx, pfx, k);
      }
    }
  }

  /** After a rebuild, as written, the index check over the same scope finds every record. */
  lemma RebuildRestoresCheck(db: Db, subjectKey: string, scan: seq<string>)
    requires IsScanOf(scan, DeleteMatching(db, SubAspMapPfx), SamplePfx + subjectKey)
    requires forall k :: k in scan ==> IsSampleKey(k)
    ensures var c := CheckSpec(SAddAll(DeleteMatching(db, SubAspMapPfx), IndexPairs(scan)), subjectKey);
      c.foundInMap == c.total && c.total == CheckSpec(db, subjectKey).total
  {
    var db1 := DeleteMatching(db, SubAspMapPfx);
    StartsWithSelf(SubAspMapPfx, "");
    assert SubAspMapPfx + "" == SubAspMapPfx;
    DeleteKeepsScopedRecords(db, SubAspMapPfx, subjectKey);
    CheckAfterPopulate(db1, subjectKey, scan);
    ScanCard(scan, db1, SamplePfx + subjectKey);
  }

  /** After the scoped rebuild, over an index that holds only sets, the index check finds every record. */
  lemma ScopedRebuildRestoresCheck(db: Db, subjectKey: string, scan: seq<string>)
    requires IndexSettable(db)
    requires IsScanOf(scan, DeleteMatching(db, SubAspMapPfx + subjectKey), SamplePfx + subjectKey)
    requires forall k :: k in scan ==> IsSampleKey(k)
    ensures var c := CheckSpec(SAddAll(DeleteMatching(db, SubAspMapPfx + subjectKey), IndexPairs(scan)), subjectKey);
      c.foundInMap == c.total && c.total == CheckSpec(db, subjectKey).total
  {
    var db1 := DeleteMatching(db, SubAspMapPfx + subjectKey);
    StartsWithSelf(SubAspMapPfx, subjectKey);
    DeleteKeepsScopedRecords(db, SubAspMapPfx + subjectKey, subjectKey);
    CheckAfterPopulate(db1, subjectKey, scan);
    ScanCard(scan, db1, SamplePfx + subjectKey);
  }

  /** The scoped rebuild keeps every index entry of a subject outside the scope. */
  lemma ScopedRebuildKeepsOtherSubjects(db: Db, subjectKey: string, scan: seq<string>, k: string, x: string)
    requires forall s :: s in scan ==> IsSampleKey(s)
    requires !StartsWith(SubAspMapPfx + subjectKey, k)
    requires IsMember(db, k, x)
    ensures IsMember(SAddAll(DeleteMatching(db, SubAspMapPfx + subjectKey), IndexPairs(scan)), k, x)
  {
    SAddAllMeaning(DeleteMatching(db, SubAspMapPfx + subjectKey), IndexPairs(scan), k, x);
  }

  /** No rebuild happens when nothing is missing. */
  lemma NoRebuildWhenComplete(db: Db, subjectKey: string)
    requires forall k :: k in Matching(db, SamplePfx + subjectKey) ==> Found(db, k)
    ensures CheckSpec(db, subjectKey).total - CheckSpec(db, subjectKey).foundInMap == 0
  {
    CompleteIff(db, subjectKey);
  }

  /**
   * A store with an unindexed sample under the root subject and an indexed
   * sample of another subject, such as "canada" and "mexico".
   */
  function Before(root: string, other: string, aspect: string): Db {
    map[SampleKey(root + "|" + aspect) := Hash(map[]),
        SampleKey(other + "|" + aspect) := Hash(map[]),
        SubAspMapPfx + other := Set([aspect])]
  }

  /** Names a sample key is made of: no ':' and no '|'. */
  predicate PlainName(s: string) {
    ':' !in s && '|' !in s
  }

  /** A name without '|' that starts `other|aspect` starts `other`. */
  lemma PrefixBeforeBar(root: string, other: string, aspect: string)
    requires '|' !in root && StartsWith(root, other + "|" + aspect)
    ensures StartsWith(root, other)
  {
    var name := other + "|" + aspect;
    assert name[|other|] == '|';
    assert forall i :: 0 <= i < |root| ==> root[i] == name[i] != '|';
    assert name[..|root|] == other[..|root|];
  }

  /** The other subject's sample is outside the root's scan. */
  lemma OtherOutOfScope(root: string, other: string, aspect: string)
    requires PlainName(root) && !StartsWith(root, other)
    ensures !StartsWith(SamplePfx + root, SampleKey(other + "|" + aspect))
  {
    var name := other + "|" + aspect;
    assert SampleKey(name) == SamplePfx + name;
    if StartsWith(SamplePfx + root, SamplePfx + name) {
      StartsWithCancel(SamplePfx, root, name);
      PrefixBeforeBar(root, other, aspect);
    }
  }

  /** Only the root's own sample is in its scope, before and after deleting index keys. */
  lemma OnlyRootInScope(root: string, other: string, aspect: string, db: Db)
    requires PlainName(root) && !StartsWith(root, other)
    requires db.Keys <= Before(root, other, aspect).Keys
    ensures Matching(db, SamplePfx + root) <= {SampleKey(root + "|" + aspect)}
  {
    OtherOutOfScope(root, other, aspect);
    var k := SubAspMapPfx + other;
    if StartsWith(SamplePfx + root, k) {
      StartsWithAppend(SamplePfx, root, k);
      StartsWithSelf(SubAspMapPfx, other);
      IndexKeysAreNotRecords(k);
    }
  }

  /** The root's sample is in scope and not yet indexed, so the index check reports it missing. */
  lemma RootSampleMissing(root: string, other: string, aspect: string)
    requires PlainName(root) && PlainName(aspect) && !StartsWith(root, other)
    ensures CheckSpec(Before(root, other, aspect), root) == CheckResult(1, 0)
  {
    var db := Before(root, other, aspect);
    var rootKey := SampleKey(root + "|" + aspect);
    var rootIndex := SubAspMapPfx + root;
    SubjectAndAspectOfKey(root, aspect);
    assert rootKey == SamplePfx + root + ("|" + aspect);
    StartsWithSelf(SamplePfx + root, "|" + aspect);
    OnlyRootInScope(root, other, aspect, db);
    assert Matching(db, SamplePfx + root) == {rootKey};
    StartsWithSelf(SubAspMapPfx, root);
    IndexKeysAreNotRecords(rootIndex);
    assert rootIndex != SubAspMapPfx + other by {
      assert rootIndex[|SubAspMapPfx|..] == root;
      assert (SubAspMapPfx + other)[|SubAspMapPfx|..] == other;
    }
    assert rootIndex !in db;
    assert FoundIn(db, {rootKey}) == {};
  }

  /** The rebuild as written empties the whole index and repopulates only the root's records. */
  lemma AsWrittenLosesOther(root: string, other: string, aspect: string, scan: seq<string>)
    requires PlainName(root) && PlainName(aspect) && !StartsWith(root, other)
    requires IsScanOf(scan, DeleteMatching(Before(root, other, aspect), SubAspMapPfx), SamplePfx + root)
    requires forall k :: k in scan ==> IsSampleKey(k)
    ensures !IsMember(SAddAll(DeleteMatching(Before(root, other, aspect), SubAspMapPfx), IndexPairs(scan)),
                      SubAspMapPfx + other, aspect)
  {
    var db1 := DeleteMatching(Before(root, other, aspect), SubAspMapPfx);
    var otherIndex := SubAspMapPfx + other;
    var rootKey := SampleKey(root + "|" + aspect);
    SubjectAndAspectOfKey(root, aspect);
    assert IndexPair(rootKey).0 == SubAspMapPfx + root;
    assert SubAspMapPfx + root != otherIndex by {
      assert (SubAspMapPfx + root)[|SubAspMapPfx|..] == root;
      assert otherIndex[|SubAspMapPfx|..] == other;
    }
    StartsWithSelf(SubAspMapPfx, other);
    assert otherIndex !in db1;
    OnlyRootInScope(root, other, aspect, db1);
    var ps := IndexPairs(scan);
    forall i | 0 <= i < |ps| ensures ps[i].0 != otherIndex {
      assert scan[i] in Matching(db1, SamplePfx + root);
      assert ps[i] == IndexPair(rootKey);
    }
    SAddAllFrame(db1, ps, otherIndex);
  }

  /**
   * With the root subject "canada", say, and an indexed "mexico" sample, the
   * check reports one missing record, and the rebuild as written loses the
   * mexico entry whatever order the scan takes; the scoped rebuild keeps it.
   */
  lemma RebuildDropsOtherSubjects(root: string, other: string, aspect: string, scan: seq<string>, scopedScan: seq<string>)
    requires PlainName(root) && PlainName(aspect) && !StartsWith(root, other)
    requires IsScanOf(scan, DeleteMatching(Before(root, other, aspect), SubAspMapPfx), SamplePfx + root)
    requires forall k :: k in scan ==> IsSampleKey(k)
    requires forall k :: k in scopedScan ==> IsSampleKey(k)
    ensures CheckSpec(Before(root, other, aspect), root) == CheckResult(1, 0)
    ensures IsMember(Before(root, other, aspect), SubAspMapPfx + other, aspect)
    ensures !IsMember(SAddAll(DeleteMatching(Before(root, other, aspect), SubAspMapPfx), IndexPairs(scan)),
                      SubAspMapPfx + other, aspect)
    ensures IsMember(SAddAll(DeleteMatching(Before(root, other, aspect), SubAspMapPfx + root), IndexPairs(scopedScan)),
                     SubAspMapPfx + other, aspect)
  {
    RootSampleMissing(root, other, aspect);
    AsWrittenLosesOther(root, other, aspect, scan);
    if StartsWith(SubAspMapPfx + root, SubAspMapPfx + other) {
      StartsWithCancel(SubAspMapPfx, root, other);
    }
    ScopedRebuildKeepsOtherSubjects(Before(root, other, aspect), root, scopedScan, SubAspMapPfx + other, aspect);
  }
}
