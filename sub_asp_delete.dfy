/**
 * src/sampleStore/subjectAspectMap/delete.js: delete every `samsto:subaspmap:*` key,
 * one DEL per key found by the scan.
 */
module SubAspDelete {
  import opened Text
  import opened Keys
  import opened Store

  /** deleteSubAspMap(redis): the scan pattern is fixed to the whole index. */
  method DeleteSubAspMap(redis: Redis)
    modifies redis
    ensures redis.db == DeleteMatching(old(redis.db), SubAspMapPfx)
  {
    DeleteScanned(redis, SubAspMapPfx);
  }

  /** The scan of `pattern*` with a DEL for every key it returns. */
  method DeleteScanned(redis: Redis, pattern: string)
    modifies redis
    ensures redis.db == DeleteMatching(old(redis.db), pattern)
  {
    ghost var db0 := redis.db;
    var keys := redis.Scan(pattern);
    var i := 0;
    while i < |keys|
      invariant 0 <= i <= |keys|
      invariant redis.db == db0 - Elems(keys[..i])
    {
      redis.Del(keys[i]);
      assert Elems(keys[..i + 1]) == Elems(keys[..i]) + {keys[i]} by {
        assert keys[..i + 1] == keys[..i] + [keys[i]];
      }
      i := i + 1;
    }
    assert keys[..i] == keys;
    assert Elems(keys) == Matching(db0, pattern);
  }

  /** Deleting the subject-aspect index leaves the sample records and the aspect-subject index alone. */
  lemma DeleteSubAspMapKeepsOthers(db: Db, k: string)
    requires IsSampleKey(k) || StartsWith(AspSubMapPfx, k)
    ensures k in DeleteMatching(db, SubAspMapPfx) <==> k in db
    ensures k in db ==> DeleteMatching(db, SubAspMapPfx)[k] == db[k]
  {
    IndexKeysAreNotRecords(k);
    IndexPrefixesDisjoint(k);
  }

  /** The index key `samsto:subaspmap:a` goes and the unrelated `somethingelse` stays. */
  lemma DeleteSubAspMapExample(v: Value, w: Value)
    ensures DeleteMatching(map["samsto:subaspmap:a" := v, "somethingelse" := w], SubAspMapPfx)
         == map["somethingelse" := w]
  {
    var db := map["samsto:subaspmap:a" := v, "somethingelse" := w];
    StartsWithSelf(SubAspMapPfx, "a");
    assert SubAspMapPfx + "a" == "samsto:subaspmap:a";
    NotStartsWith(SubAspMapPfx, "somethingelse", 1);
    assert Matching(db, SubAspMapPfx) == {"samsto:subaspmap:a"};
  }
}
