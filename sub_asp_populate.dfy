/**
 * src/sampleStore/subjectAspectMap/populate.js: scan the sample records
 * under a subject prefix and add each sample's aspect to its subject's
 * `samsto:subaspmap:<subject>` set.
 */
module SubAspPopulate {
  import opened Text
  import opened Keys
  import opened Store

  /** The sample-key split: "samsto", "sample", then the rest of the key. */
  lemma SplitSampleKey(rest: string)
    ensures Split(SamplePfx + rest, ':') == ["samsto", "sample"] + Split(rest, ':')
  {
    assert SamplePfx + rest == "samsto" + [':'] + ("sample" + [':'] + rest);
    SplitCons("samsto", ':', "sample" + [':'] + rest);
    SplitCons("sample", ':', rest);
  }

  /** The sample name part of a record key: the third ':'-separated segment. */
  function SampleName(key: string): (name: string)
    requires IsSampleKey(key)
    ensures ':' !in name
  {
    var rest := key[|SamplePfx|..];
    assert key == SamplePfx + rest;
    SplitSampleKey(rest);
    Split(key, ':')[2]
  }

  /**
   * getSubjectAndAspectFromSampleKey: the name split at '|'. A name without
   * '|' has an undefined aspect, which the Redis client sends as "".
   */
  function SubjectAndAspect(key: string): (string, string)
    requires IsSampleKey(key)
  {
    var parts := Split(SampleName(key), '|');
    (parts[0], if |parts| >= 2 then parts[1] else "")
  }

  /** Parsing the key of sample `subject|aspect` gives back the subject and the aspect. */
  lemma SubjectAndAspectOfKey(subject: string, aspect: string)
    requires ':' !in subject && ':' !in aspect && '|' !in subject && '|' !in aspect
    ensures SubjectAndAspect(SampleKey(subject + "|" + aspect)) == (subject, aspect)
  {
    var name := subject + "|" + aspect;
    SplitSampleKey(name);
    assert ':' !in name;
    assert IndexOf(name, ':') == -1;
    assert Split(name, ':') == [name];
    SplitCons(subject, '|', aspect);
    assert IndexOf(aspect, '|') == -1;
    assert Split(name, '|') == [subject, aspect];
  }

  /** A sample name without '|' is all subject, with the empty aspect. */
  lemma SubjectAndAspectNoBar(name: string)
    requires ':' !in name && '|' !in name
    ensures SubjectAndAspect(SampleKey(name)) == (name, "")
  {
    SplitSampleKey(name);
    assert IndexOf(name, ':') == -1;
    assert IndexOf(name, '|') == -1;
  }

  /** The index key and member a sample record contributes. */
  function IndexPair(key: string): (p: (string, string))
    requires IsSampleKey(key)
    ensures StartsWith(SubAspMapPfx, p.0)
  {
    var (subject, aspect) := SubjectAndAspect(key);
    StartsWithSelf(SubAspMapPfx, subject);
    (SubAspMapPfx + subject, aspect)
  }

  /** The SADDs for a list of sample keys, in order. */
  function IndexPairs(keys: seq<string>): (ps: seq<(string, string)>)
    requires forall k :: k in keys ==> IsSampleKey(k)
    ensures |ps| == |keys|
  {
    seq(|keys|, i requires 0 <= i < |keys| => IndexPair(keys[i]))
  }

  /** Every key the scan `samsto:sample:<subjectKey>*` returns is a sample record key. */
  lemma ScopedKeysAreSampleKeys(db: Db, subjectKey: string, k: string)
    requires k in db && StartsWith(SamplePfx + subjectKey, k)
    ensures IsSampleKey(k)
  {
    StartsWithAppend(SamplePfx, subjectKey, k);
  }

  /** The sample is recorded in the index: its aspect is in its subject's set. */
  predicate Found(db: Db, k: string) {
    IsSampleKey(k) && IsMember(db, IndexPair(k).0, IndexPair(k).1)
  }

  /** Every index key in `db` holds a set or nothing. */
  predicate IndexSettable(db: Db) {
    forall k :: k in db && StartsWith(SubAspMapPfx, k) ==> db[k].Set?
  }

  /** populateSubjectAspectMap(redis, subjectKey) */
  method PopulateSubjectAspectMap(redis: Redis, subjectKey: string) returns (added: nat, ghost scan: seq<string>)
    modifies redis
    ensures IsScanOf(scan, old(redis.db), SamplePfx + subjectKey)
    ensures forall k :: k in scan ==> IsSampleKey(k)
    ensures added == |scan|
    ensures redis.db == SAddAll(old(redis.db), IndexPairs(scan))
  {
    ghost var db0 := redis.db;
    var keys := redis.Scan(SamplePfx + subjectKey);
    forall k | k in keys ensures IsSampleKey(k) {
      ScopedKeysAreSampleKeys(db0, subjectKey, k);
    }
    scan := keys;
    added := 0;
    var i := 0;
    while i < |keys|
      invariant 0 <= i <= |keys|
      invariant added == i
      invariant redis.db == SAddAll(db0, IndexPairs(keys[..i]))
    {
      var (subject, aspect) := SubjectAndAspect(keys[i]);
      redis.SAdd(SubAspMapPfx + subject, aspect);
      assert IndexPairs(keys[..i + 1]) == IndexPairs(keys[..i]) + [IndexPair(keys[i])];
      added := added + 1;
      i := i + 1;
    }
    assert keys[..i] == keys;
  }

  /** The keys a pipeline of SADDs can create are the ones it names. */
  lemma {:induction false} SAddAllKeys(db: Db, pairs: seq<(string, string)>, k: string)
    requires k in SAddAll(db, pairs) && k !in db
    ensures exists i :: 0 <= i < |pairs| && pairs[i].0 == k
  {
    var init := pairs[..|pairs| - 1];
    if k in SAddAll(db, init) {
      SAddAllKeys(db, init, k);
      var i :| 0 <= i < |init| && init[i].0 == k;
      assert pairs[i] == init[i];
    }
  }

  /** Populating only writes index keys: every other key, the sample records included, is unchanged. */
  lemma PopulateTouchesOnlyIndex(db: Db, keys: seq<string>, k: string)
    requires forall x :: x in keys ==> IsSampleKey(x)
    requires !StartsWith(SubAspMapPfx, k)
    ensures k in SAddAll(db, IndexPairs(keys)) <==> k in db
    ensures k in db ==> SAddAll(db, IndexPairs(keys))[k] == db[k]
  {
    SAddAllFrame(db, IndexPairs(keys), k);
  }

  /** The scoped records are the same before and after populating. */
  lemma PopulateKeepsRecords(db: Db, keys: seq<string>, pfx: string)
    requires forall x :: x in keys ==> IsSampleKey(x)
    requires StartsWith(SamplePfx, pfx)
    ensures Matching(SAddAll(db, IndexPairs(keys)), pfx) == Matching(db, pfx)
  {
    var db1 := SAddAll(db, IndexPairs(keys));
    forall k | StartsWith(pfx, k) ensures k in db1 <==> k in db {
      StartsWithTrans(SamplePfx, pfx, k);
      IndexKeysAreNotRecords(k);
      PopulateTouchesOnlyIndex(db, keys, k);
    }
  }

  /**
   * After populating with a complete scan, every scanned record is in the
   * index unless its index key already held a non-set; and every index
   * entry present afterwards was either there before or comes from a
   * scanned record.
   */
  lemma PopulateIndexesEveryScannedSample(db: Db, scope: string, scan: seq<string>, s: string, a: string)
    requires IsScanOf(scan, db, SamplePfx + scope)
    requires forall k :: k in scan ==> IsSampleKey(k)
    ensures IsMember(SAddAll(db, IndexPairs(scan)), s, a) <==>
      IsMember(db, s, a) || (Settable(db, s) && exists k :: k in scan && IndexPair(k) == (s, a))
  {
    var ps := IndexPairs(scan);
    SAddAllMeaning(db, ps, s, a);
    if (s, a) in ps {
      var i :| 0 <= i < |ps| && ps[i] == (s, a);
      assert scan[i] in scan && IndexPair(scan[i]) == (s, a);
    }
    if exists k :: k in scan && IndexPair(k) == (s, a) {
      var k :| k in scan && IndexPair(k) == (s, a);
      var i :| 0 <= i < |scan| && scan[i] == k;
      assert ps[i] == (s, a);
    }
  }

  /** With every index key a set or missing, each scoped record is found after populating. */
  lemma PopulateFindsAll(db: Db, scope: string, scan: seq<string>, k: string)
    requires IndexSettable(db)
    requires IsScanOf(scan, db, SamplePfx + scope)
    requires forall x :: x in scan ==> IsSampleKey(x)
    requires k in Matching(db, SamplePfx + scope)
    ensures Found(SAddAll(db, IndexPairs(scan)), k)
  {
    var p := IndexPair(k);
    PopulateIndexesEveryScannedSample(db, scope, scan, p.0, p.1);
  }

  /** The store the populate test starts from: five sample keys, each holding a one-member set. */
  function PopulateFixture(): Db {
    map[SampleKey("canada" + "|" + "temperature") := Set(["50"]),
        SampleKey("canada" + "|" + "humidity") := Set(["25"]),
        SampleKey("canada.manitoba" + "|" + "temperature") := Set(["20"]),
        SampleKey("canada.ontario" + "|" + "temperature") := Set(["21"]),
        SampleKey("canada.quebec" + "|" + "humidity") := Set(["80"])]
  }

  /** A complete scan of the fixture holds exactly its five sample keys. */
  lemma PopulateFixtureScan(scan: seq<string>, k: string)
    requires IsScanOf(scan, PopulateFixture(), SamplePfx)
    ensures k in scan <==>
      k in [SampleKey("canada" + "|" + "temperature"), SampleKey("canada" + "|" + "humidity"), SampleKey("canada.manitoba" + "|" + "temperature"),
            SampleKey("canada.ontario" + "|" + "temperature"), SampleKey("canada.quebec" + "|" + "humidity")]
  {
  }

  /** The index entry of sample `subject|aspect`. */
  lemma IndexPairOf(subject: string, aspect: string)
    requires ':' !in subject && ':' !in aspect && '|' !in subject && '|' !in aspect
    ensures IndexPair(SampleKey(subject + "|" + aspect)) == (SubAspMapPfx + subject, aspect)
  {
    SubjectAndAspectOfKey(subject, aspect);
  }

  /** The fixture holds no index key. */
  lemma PopulateFixtureNoIndex(k: string)
    requires StartsWith(SubAspMapPfx, k)
    ensures k !in PopulateFixture()
  {
    IndexKeysAreNotRecords(k);
  }

  /** On a store without the index key `s`, populating puts into `s` exactly the scanned entries for `s`. */
  lemma PopulatedEntries(db: Db, scan: seq<string>, s: string, x: string)
    requires IsScanOf(scan, db, SamplePfx)
    requires forall k :: k in scan ==> IsSampleKey(k)
    requires s !in db
    ensures IsMember(SAddAll(db, IndexPairs(scan)), s, x) <==> exists k :: k in scan && IndexPair(k) == (s, x)
  {
    assert SamplePfx + "" == SamplePfx;
    PopulateIndexesEveryScannedSample(db, "", scan, s, x);
  }

  /** Of the fixture's samples, only canada.manitoba's contributes to canada.manitoba's index key. */
  lemma PopulateFixtureOnlyManitoba(scan: seq<string>, k: string)
    requires IsScanOf(scan, PopulateFixture(), SamplePfx)
    requires k in scan
    ensures IsSampleKey(k)
    ensures IndexPair(k).0 == SubAspMapPfx + "canada.manitoba" ==> k == SampleKey("canada.manitoba" + "|" + "temperature")
  {
    PopulateFixtureScan(scan, k);
    var m := SubAspMapPfx + "canada.manitoba";
    if k == SampleKey("canada" + "|" + "temperature") {
      IndexPairOf("canada", "temperature");
      assert |IndexPair(k).0| != |m|;
    } else if k == SampleKey("canada" + "|" + "humidity") {
      IndexPairOf("canada", "humidity");
      assert |IndexPair(k).0| != |m|;
    } else if k == SampleKey("canada.ontario" + "|" + "temperature") {
      IndexPairOf("canada.ontario", "temperature");
      assert |IndexPair(k).0| != |m|;
    } else if k == SampleKey("canada.quebec" + "|" + "humidity") {
      IndexPairOf("canada.quebec", "humidity");
      assert |IndexPair(k).0| != |m|;
    }
  }

  /** Of the fixture's samples, only canada's own two contribute to canada's index key. */
  lemma PopulateFixtureOnlyCanada(scan: seq<string>, k: string)
    requires IsScanOf(scan, PopulateFixture(), SamplePfx)
    requires k in scan
    ensures IndexPair(k).0 == SubAspMapPfx + "canada" ==>
      k == SampleKey("canada" + "|" + "temperature") || k == SampleKey("canada" + "|" + "humidity")
  {
    PopulateFixtureScan(scan, k);
    var c := SubAspMapPfx + "canada";
    if k == SampleKey("canada.manitoba" + "|" + "temperature") {
      IndexPairOf("canada.manitoba", "temperature");
      assert |IndexPair(k).0| != |c|;
    } else if k == SampleKey("canada.ontario" + "|" + "temperature") {
      IndexPairOf("canada.ontario", "temperature");
      assert |IndexPair(k).0| != |c|;
    } else if k == SampleKey("canada.quebec" + "|" + "humidity") {
      IndexPairOf("canada.quebec", "humidity");
      assert |IndexPair(k).0| != |c|;
    }
  }

  /** The fixture's scan holds only its five sample keys. */
  lemma PopulateFixtureKeys(scan: seq<string>)
    requires IsScanOf(scan, PopulateFixture(), SamplePfx)
    ensures forall k :: k in scan ==> IsSampleKey(k)
  {
    var k1, k2, k3 := SampleKey("canada" + "|" + "temperature"), SampleKey("canada" + "|" + "humidity"),
                      SampleKey("canada.manitoba" + "|" + "temperature");
    var k4, k5 := SampleKey("canada.ontario" + "|" + "temperature"), SampleKey("canada.quebec" + "|" + "humidity");
    forall k | k in scan ensures IsSampleKey(k) && k in [k1, k2, k3, k4, k5] {
      PopulateFixtureScan(scan, k);
    }
  }

  /** Populating the fixture gives canada exactly its two aspects. */
  lemma PopulateFixtureCanada(scan: seq<string>, x: string)
    requires IsScanOf(scan, PopulateFixture(), SamplePfx)
    ensures IsMember(SAddAll(PopulateFixture(), IndexPairs(scan)), SubAspMapPfx + "canada", x) <==>
      x == "temperature" || x == "humidity"
  {
    var db := PopulateFixture();
    var c := SubAspMapPfx + "canada";
    var k1, k2 := SampleKey("canada" + "|" + "temperature"), SampleKey("canada" + "|" + "humidity");
    PopulateFixtureKeys(scan);
    StartsWithSelf(SubAspMapPfx, "canada");
    PopulateFixtureNoIndex(c);
    PopulateFixtureScan(scan, k1);
    PopulateFixtureScan(scan, k2);
    IndexPairOf("canada", "temperature");
    IndexPairOf("canada", "humidity");
    forall k | k in scan && IndexPair(k).0 == c ensures k == k1 || k == k2 {
      PopulateFixtureOnlyCanada(scan, k);
    }
    PopulatedEntries(db, scan, c, x);
  }

  /** Populating the fixture gives canada.manitoba exactly temperature. */
  lemma PopulateFixtureManitoba(scan: seq<string>, x: string)
    requires IsScanOf(scan, PopulateFixture(), SamplePfx)
    ensures IsMember(SAddAll(PopulateFixture(), IndexPairs(scan)), SubAspMapPfx + "canada.manitoba", x) <==>
      x == "temperature"
  {
    var db := PopulateFixture();
    var m := SubAspMapPfx + "canada.manitoba";
    var k3 := SampleKey("canada.manitoba" + "|" + "temperature");
    PopulateFixtureKeys(scan);
    StartsWithSelf(SubAspMapPfx, "canada.manitoba");
    PopulateFixtureNoIndex(m);
    PopulateFixtureScan(scan, k3);
    IndexPairOf("canada.manitoba", "temperature");
    forall k | k in scan && IndexPair(k).0 == m ensures k == k3 {
      PopulateFixtureOnlyManitoba(scan, k);
    }
    PopulatedEntries(db, scan, m, x);
  }

  /**
   * The populate test's end state, whatever order the scan returns the
   * samples in: canada's set holds temperature and humidity and nothing
   * else, and canada.manitoba's set holds temperature and nothing else.
   */
  lemma PopulateFixtureEndState(scan: seq<string>, x: string)
    requires IsScanOf(scan, PopulateFixture(), SamplePfx)
    ensures forall k :: k in scan ==> IsSampleKey(k)
    ensures var after := SAddAll(PopulateFixture(), IndexPairs(scan));
      && (IsMember(after, SubAspMapPfx + "canada", x) <==> x == "temperature" || x == "humidity")
      && (IsMember(after, SubAspMapPfx + "canada.manitoba", x) <==> x == "temperature")
  {
    PopulateFixtureKeys(scan);
    PopulateFixtureCanada(scan, x);
    PopulateFixtureManitoba(scan, x);
  }
}
