/**
 * src/sampleStore/aspectSubjectMap/delete.js: collect every
 * `samsto:aspsubmap:*` key over the whole scan, then delete them with one DEL.
 */
module AspSubDelete {
  import opened Text
  import opened Keys
  import opened Store

  /** The aspect-subject index delete; with nothing found no DEL is issued. */
  method DeleteAspSubMap(redis: Redis)
    modifies redis
    ensures redis.db == DeleteMatching(old(redis.db), AspSubMapPfx)
  {
    var toDelete := redis.Scan(AspSubMapPfx);
    assert (set k | k in toDelete) == Matching(redis.db, AspSubMapPfx);
    if |toDelete| > 0 {
      redis.DelMany(toDelete);
    }
  }

  /** Deleting the aspect-subject index leaves the sample records and the subject-aspect index alone. */
  lemma DeleteAspSubMapKeepsOthers(db: Db, k: string)
    requires IsSampleKey(k) || StartsWith(SubAspMapPfx, k)
    ensures k in DeleteMatching(db, AspSubMapPfx) <==> k in db
    ensures k in db ==> DeleteMatching(db, AspSubMapPfx)[k] == db[k]
  {
    IndexKeysAreNotRecords(k);
    IndexPrefixesDisjoint(k);
  }
}
