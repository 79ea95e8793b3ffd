/**
 * src/sampleStore/sampleCleanup/cleanup.js: reconcile the master list
 * `samsto:samples` with the sample records. Master entries with no key are
 * removed from the list; sample records not on the list are deleted; listed
 * records whose hash fails validation are deleted and removed from the list.
 *
 * The functions here take the validator as a parameter, because the preview
 * in previewCleanup.js reports the same plan with the validator of
 * helpers.js instead of cleanup.js's own.
 */
module SampleCleanup {
  import opened Wrappers
  import opened Text
  import opened Keys
  import opened Store
  import Helpers

  /** cleanup.js's own validator: a name with a '|' anywhere, a subject id and an aspect id. */
  predicate ValidateRecord(sample: map<string, string>) {
    && Helpers.Truthy(sample, "name")
    && IndexOf(sample["name"], '|') >= 0
    && Helpers.Truthy(sample, "subjectId")
    && Helpers.Truthy(sample, "aspectId")
  }

  /** A record that exists and is a hash the validator rejects. */
  predicate Failing(db: Db, valid: map<string, string> -> bool, k: string) {
    k in db && db[k].Hash? && !valid(db[k].fields)
  }

  /** Master-list entries that name no key. */
  function Missing(db: Db, master: seq<string>): set<string> {
    set m | m in master && m !in db
  }

  /** A record cleanup deletes: one not on the master list, or a listed one that fails. */
  predicate DoomedKey(db: Db, master: seq<string>, valid: map<string, string> -> bool, k: string) {
    k in db && (k !in master || Failing(db, valid, k))
  }

  /** A record cleanup also removes from the master list: a listed one that fails. */
  predicate RejectedKey(db: Db, master: seq<string>, valid: map<string, string> -> bool, k: string) {
    k in master && Failing(db, valid, k)
  }

  /** Among the records `ks`, those cleanup deletes. */
  function Doomed(db: Db, master: seq<string>, valid: map<string, string> -> bool, ks: set<string>): set<string> {
    set k | k in ks && DoomedKey(db, master, valid, k)
  }

  /** Among the records `ks`, those cleanup removes from the master list. */
  function Rejected(db: Db, master: seq<string>, valid: map<string, string> -> bool, ks: set<string>): set<string> {
    set k | k in ks && RejectedKey(db, master, valid, k)
  }

  /** The store after cleanup, given the master list read at the start. */
  function CleanedWith(db: Db, master: seq<string>, valid: map<string, string> -> bool): Db {
    var records := Matching(db, SamplePfx);
    Unlist(db - Doomed(db, master, valid, records), SamplesKey,
           Missing(db, master) + Rejected(db, master, valid, records))
  }

  /** The whole cleanup: it fails, changing nothing, when the master list is not a set. */
  function Cleaned(db: Db, valid: map<string, string> -> bool): Result<Db> {
    match SMembersOf(db, SamplesKey)
    case Failure(e) => Failure(e)
    case Success(master) => Success(CleanedWith(db, master, valid))
  }

  // ---------------------------------------------------------------------
  // The cleanup itself
  // ---------------------------------------------------------------------

  /** One EXISTS per master entry, in one batch. */
  method ExistsPipeline(redis: Redis, samples: seq<string>) returns (present: seq<bool>)
    ensures |present| == |samples|
    ensures forall i :: 0 <= i < |samples| ==> (present[i] <==> samples[i] in redis.db)
  {
    present := [];
    var i := 0;
    while i < |samples|
      invariant 0 <= i <= |samples|
      invariant |present| == i
      invariant forall j :: 0 <= j < i ==> (present[j] <==> samples[j] in redis.db)
    {
      var b := redis.Exists(samples[i]);
      present := present + [b];
      i := i + 1;
    }
  }

  /** First phase: SREM from the master list every entry EXISTS did not find. */
  method UnlistMissing(redis: Redis, samples: seq<string>)
    modifies redis
    ensures redis.db == Unlist(old(redis.db), SamplesKey, Missing(old(redis.db), samples))
  {
    ghost var db0 := redis.db;
    var present := ExistsPipeline(redis, samples);
    UnlistNothing(db0, SamplesKey);
    assert Missing(db0, samples[..0]) == {};
    var i := 0;
    while i < |samples|
      invariant 0 <= i <= |samples|
      invariant redis.db == Unlist(db0, SamplesKey, Missing(db0, samples[..i]))
    {
      ghost var before := Missing(db0, samples[..i]);
      assert samples[..i + 1] == samples[..i] + [samples[i]];
      if !present[i] {
        redis.SRem(SamplesKey, samples[i]);
        UnlistUnion(db0, SamplesKey, before, {samples[i]});
        assert Missing(db0, samples[..i + 1]) == before + {samples[i]};
      } else {
        assert Missing(db0, samples[..i + 1]) == before;
      }
      i := i + 1;
    }
    assert samples[..i] == samples;
  }

  /** Removing entries from the master list leaves the sample records as they are. */
  lemma UnlistKeepsRecords(db: Db, gone: set<string>, k: string)
    requires IsSampleKey(k)
    ensures k in Unlist(db, SamplesKey, gone) <==> k in db
    ensures k in db ==> Unlist(db, SamplesKey, gone)[k] == db[k]
  {
    MasterSetIsNotARecord();
    UnlistMembers(db, SamplesKey, gone, k, k);
  }

  /** The store once the records `ks` have been dealt with, starting from the master list minus `gone`. */
  function AfterRecords(db0: Db, master: seq<string>, gone: set<string>, ks: set<string>): Db {
    Unlist(db0 - Doomed(db0, master, ValidateRecord, ks), SamplesKey, gone + Rejected(db0, master, ValidateRecord, ks))
  }

  /** Dealing with one more record adds it to the deleted keys or to the removed entries, or to neither. */
  lemma AfterRecordsSnoc(db0: Db, master: seq<string>, gone: set<string>, ks: set<string>, k: string)
    ensures var d := Doomed(db0, master, ValidateRecord, ks);
      var g := gone + Rejected(db0, master, ValidateRecord, ks);
      AfterRecords(db0, master, gone, ks + {k}) ==
        Unlist(db0 - (if DoomedKey(db0, master, ValidateRecord, k) then d + {k} else d), SamplesKey,
               if RejectedKey(db0, master, ValidateRecord, k) then g + {k} else g)
  {
    var r := Rejected(db0, master, ValidateRecord, ks);
    PlanSnoc(db0, master, ValidateRecord, ks, k);
    if RejectedKey(db0, master, ValidateRecord, k) {
      assert gone + (r + {k}) == (gone + r) + {k};
    } else {
      assert r + {} == r;
    }
  }

  /** Growing the scanned set by one key grows the plan by that key, if at all. */
  lemma PlanSnoc(db: Db, master: seq<string>, valid: map<string, string> -> bool, ks: set<string>, k: string)
    ensures Doomed(db, master, valid, ks + {k}) ==
      Doomed(db, master, valid, ks) + (if DoomedKey(db, master, valid, k) then {k} else {})
    ensures Rejected(db, master, valid, ks + {k}) ==
      Rejected(db, master, valid, ks) + (if RejectedKey(db, master, valid, k) then {k} else {})
  {
    var d := Doomed(db, master, valid, ks);
    var r := Rejected(db, master, valid, ks);
    if DoomedKey(db, master, valid, k) {
      assert Doomed(db, master, valid, ks + {k}) == d + {k};
    } else {
      assert Doomed(db, master, valid, ks + {k}) == d;
    }
    if RejectedKey(db, master, valid, k) {
      assert Rejected(db, master, valid, ks + {k}) == r + {k};
    } else {
      assert Rejected(db, master, valid, ks + {k}) == r;
    }
  }

  /** One scanned record: DEL it when unlisted; DEL and SREM it when listed and failing. */
  method DropRecord(redis: Redis, samples: seq<string>, k: string, ghost db0: Db, ghost gone: set<string>, ghost ks: set<string>)
    modifies redis
    requires IsSampleKey(k) && k in db0 && k !in ks
    requires redis.db == AfterRecords(db0, samples, gone, ks)
    ensures redis.db == AfterRecords(db0, samples, gone, ks + {k})
  {
    ghost var d := Doomed(db0, samples, ValidateRecord, ks);
    ghost var g := gone + Rejected(db0, samples, ValidateRecord, ks);
    AfterRecordsSnoc(db0, samples, gone, ks, k);
    MasterSetIsNotARecord();
    UnlistMembers(db0 - d, SamplesKey, g, k, k);
    if k !in samples {
      redis.Del(k);
      UnlistDel(db0 - d, SamplesKey, g, k);
      assert (db0 - d) - {k} == db0 - (d + {k});
    } else {
      var h := redis.HGetAll(k);
      if h.Some? && !ValidateRecord(h.value) {
        redis.Del(k);
        UnlistDel(db0 - d, SamplesKey, g, k);
        assert (db0 - d) - {k} == db0 - (d + {k});
        redis.SRem(SamplesKey, k);
        UnlistUnion(db0 - (d + {k}), SamplesKey, g, {k});
      }
    }
  }

  /**
   * Second phase: scan the records; DEL the unlisted ones, and DEL and SREM
   * the listed ones whose hash fails validation.
   */
  method DropRecords(redis: Redis, samples: seq<string>, ghost db0: Db, ghost gone: set<string>)
    modifies redis
    requires redis.db == Unlist(db0, SamplesKey, gone)
    ensures redis.db == AfterRecords(db0, samples, gone, Matching(db0, SamplePfx))
  {
    var keys := redis.Scan(SamplePfx);
    forall k ensures k in keys <==> k in Matching(db0, SamplePfx) {
      if IsSampleKey(k) {
        UnlistKeepsRecords(db0, gone, k);
      }
    }
    assert Doomed(db0, samples, ValidateRecord, {}) == {};
    assert Rejected(db0, samples, ValidateRecord, {}) == {};
    assert db0 - {} == db0 && gone + {} == gone;
    assert Elems(keys[..0]) == {};
    var j := 0;
    while j < |keys|
      invariant 0 <= j <= |keys|
      invariant redis.db == AfterRecords(db0, samples, gone, Elems(keys[..j]))
    {
      var k := keys[j];
      assert keys[..j + 1] == keys[..j] + [k];
      assert Elems(keys[..j + 1]) == Elems(keys[..j]) + {k};
      DropRecord(redis, samples, k, db0, gone, Elems(keys[..j]));
      j := j + 1;
    }
    assert keys[..j] == keys;
    assert Elems(keys) == Matching(db0, SamplePfx);
  }

  /** The cleanup as a whole: the master list, then unlisted and invalid records. */
  method Cleanup(redis: Redis) returns (r: Result<()>)
    modifies redis
    ensures r.Success? <==> Cleaned(old(redis.db), ValidateRecord).Success?
    ensures redis.db == if r.Success? then Cleaned(old(redis.db), ValidateRecord).value else old(redis.db)
  {
    ghost var db0 := redis.db;
    var s := redis.SMembers(SamplesKey);
    if s.Failure? {
      return Failure(s.error);
    }
    var samples := s.value;
    UnlistMissing(redis, samples);
    DropRecords(redis, samples, db0, Missing(db0, samples));
    r := Success(());
  }

  // ---------------------------------------------------------------------
  // What cleanup guarantees
  // ---------------------------------------------------------------------

  /** The master list as read at the start is the set's members. */
  lemma MasterMembers(db: Db, m: string)
    requires SMembersOf(db, SamplesKey).Success?
    ensures m in SMembersOf(db, SamplesKey).value <==> IsMember(db, SamplesKey, m)
  {
  }

  /** After cleanup, every master-list entry names an existing key. */
  lemma CleanedListsOnlyPresent(db: Db, valid: map<string, string> -> bool, m: string)
    requires Cleaned(db, valid).Success?
    requires IsMember(Cleaned(db, valid).value, SamplesKey, m)
    ensures m in Cleaned(db, valid).value
  {
    var master := SMembersOf(db, SamplesKey).value;
    var records := Matching(db, SamplePfx);
    var d := Doomed(db, master, valid, records);
    var g := Missing(db, master) + Rejected(db, master, valid, records);
    MasterSetIsNotARecord();
    UnlistMembers(db - d, SamplesKey, g, SamplesKey, m);
    assert m in master && m !in g;
    if m != SamplesKey {
      UnlistMembers(db - d, SamplesKey, g, m, m);
      assert m !in d;
    }
  }

  /** After cleanup, every sample record is on the master list and passes validation. */
  lemma CleanedRecordsListed(db: Db, valid: map<string, string> -> bool, k: string)
    requires Cleaned(db, valid).Success?
    requires IsSampleKey(k) && k in Cleaned(db, valid).value
    ensures IsMember(Cleaned(db, valid).value, SamplesKey, k)
    ensures !Failing(Cleaned(db, valid).value, valid, k)
  {
    var master := SMembersOf(db, SamplesKey).value;
    var records := Matching(db, SamplePfx);
    var d := Doomed(db, master, valid, records);
    var g := Missing(db, master) + Rejected(db, master, valid, records);
    MasterSetIsNotARecord();
    UnlistMembers(db - d, SamplesKey, g, k, k);
    assert k in db && k in records && k !in d;
    assert k in master && !Failing(db, valid, k);
    UnlistMembers(db - d, SamplesKey, g, SamplesKey, k);
  }

  /** A record survives exactly when it is listed and does not fail validation, and then unchanged. */
  lemma CleanedRecordFate(db: Db, valid: map<string, string> -> bool, k: string)
    requires Cleaned(db, valid).Success?
    requires IsSampleKey(k) && k in db
    ensures k in Cleaned(db, valid).value <==>
      k in SMembersOf(db, SamplesKey).value && !Failing(db, valid, k)
    ensures k in Cleaned(db, valid).value ==> Cleaned(db, valid).value[k] == db[k]
  {
    var master := SMembersOf(db, SamplesKey).value;
    var records := Matching(db, SamplePfx);
    var d := Doomed(db, master, valid, records);
    var g := Missing(db, master) + Rejected(db, master, valid, records);
    MasterSetIsNotARecord();
    UnlistMembers(db - d, SamplesKey, g, k, k);
  }

  /** Keys other than the master list and the records are left alone. */
  lemma CleanedKeepsOthers(db: Db, valid: map<string, string> -> bool, k: string)
    requires Cleaned(db, valid).Success?
    requires k != SamplesKey && !IsSampleKey(k)
    ensures k in Cleaned(db, valid).value <==> k in db
    ensures k in db ==> Cleaned(db, valid).value[k] == db[k]
  {
    var master := SMembersOf(db, SamplesKey).value;
    var records := Matching(db, SamplePfx);
    var d := Doomed(db, master, valid, records);
    var g := Missing(db, master) + Rejected(db, master, valid, records);
    UnlistMembers(db - d, SamplesKey, g, k, k);
  }

  /** The master list afterwards holds the old entries that were kept, and nothing new. */
  lemma CleanedMaster(db: Db, valid: map<string, string> -> bool, m: string)
    requires Cleaned(db, valid).Success?
    ensures IsMember(Cleaned(db, valid).value, SamplesKey, m) <==>
      var master := SMembersOf(db, SamplesKey).value;
      m in master && m !in Missing(db, master) && m !in Rejected(db, master, valid, Matching(db, SamplePfx))
  {
    var master := SMembersOf(db, SamplesKey).value;
    var records := Matching(db, SamplePfx);
    var d := Doomed(db, master, valid, records);
    var g := Missing(db, master) + Rejected(db, master, valid, records);
    MasterSetIsNotARecord();
    UnlistMembers(db - d, SamplesKey, g, SamplesKey, m);
  }

  /** Cleanup keeps Redis's own invariants. */
  lemma CleanedWellFormed(db: Db, valid: map<string, string> -> bool)
    requires WellFormed(db) && Cleaned(db, valid).Success?
    ensures WellFormed(Cleaned(db, valid).value)
  {
    var master := SMembersOf(db, SamplesKey).value;
    var records := Matching(db, SamplePfx);
    UnlistWellFormed(db - Doomed(db, master, valid, records), SamplesKey,
                     Missing(db, master) + Rejected(db, master, valid, records));
  }

  /** A second cleanup finds nothing to do. */
  lemma CleanupIdempotent(db: Db, valid: map<string, string> -> bool)
    requires Cleaned(db, valid).Success?
    ensures Cleaned(Cleaned(db, valid).value, valid) == Cleaned(db, valid)
  {
    var c := Cleaned(db, valid).value;
    var master := SMembersOf(db, SamplesKey).value;
    var records := Matching(db, SamplePfx);
    var d := Doomed(db, master, valid, records);
    var g := Missing(db, master) + Rejected(db, master, valid, records);
    MasterSetIsNotARecord();
    UnlistMembers(db - d, SamplesKey, g, SamplesKey, SamplesKey);
    assert SMembersOf(c, SamplesKey).Success?;
    var master2 := SMembersOf(c, SamplesKey).value;
    var records2 := Matching(c, SamplePfx);
    forall m | m in master2 ensures m in c {
      MasterMembers(c, m);
      CleanedListsOnlyPresent(db, valid, m);
    }
    assert Missing(c, master2) == {};
    forall k | k in records2 ensures k in master2 && !Failing(c, valid, k) {
      CleanedRecordsListed(db, valid, k);
      MasterMembers(c, k);
    }
    assert Doomed(c, master2, valid, records2) == {};
    assert Rejected(c, master2, valid, records2) == {};
    assert Missing(c, master2) + Rejected(c, master2, valid, records2) == {};
    assert c - Doomed(c, master2, valid, records2) == c;
    UnlistNothing(c, SamplesKey);
    assert CleanedWith(c, master2, valid) == c;
  }

  // ---------------------------------------------------------------------
  // The two validators
  // ---------------------------------------------------------------------

  /**
   * helpers.js's validator accepts a subset of what cleanup.js's accepts: the
   * two differ exactly on names whose first '|' is their first character.
   */
  lemma ValidatorsDiffer(sample: map<string, string>)
    ensures Helpers.ValidateSample(sample) ==> ValidateRecord(sample)
    ensures ValidateRecord(sample) && !Helpers.ValidateSample(sample) <==>
      ValidateRecord(sample) && sample["name"][0] == '|'
  {
    Helpers.ValidateSampleMeaning(sample);
  }

  /** So cleanup with helpers.js's validator deletes every record cleanup.js's deletes, and more. */
  lemma StricterValidatorDoomsMore(db: Db, master: seq<string>, ks: set<string>, k: string)
    ensures Doomed(db, master, ValidateRecord, ks) <= Doomed(db, master, Helpers.ValidateSample, ks)
    ensures k in Doomed(db, master, Helpers.ValidateSample, ks) - Doomed(db, master, ValidateRecord, ks) <==>
      k in ks && k in master && k in db && db[k].Hash? &&
      ValidateRecord(db[k].fields) && db[k].fields["name"][0] == '|'
  {
    forall x | x in db && db[x].Hash? {
      ValidatorsDiffer(db[x].fields);
    }
  }

  /** A record with the given name, subjectId and aspectId; an empty argument leaves that field out. */
  function Rec(name: string, subjectId: string, aspectId: string): map<string, string> {
    var r: map<string, string> := if name == "" then map[] else map["name" := name];
    var r := if subjectId == "" then r else r["subjectId" := subjectId];
    if aspectId == "" then r else r["aspectId" := aspectId]
  }

  /** A record built from its three fields passes exactly when all three are set and the name has a '|'. */
  lemma RecValidity(name: string, subjectId: string, aspectId: string)
    ensures ValidateRecord(Rec(name, subjectId, aspectId)) <==>
      name != "" && '|' in name && subjectId != "" && aspectId != ""
  {
    var r := Rec(name, subjectId, aspectId);
    assert "name" != "subjectId" && "name" != "aspectId" && "subjectId" != "aspectId";
    assert name != "" ==> "name" in r && r["name"] == name;
    assert subjectId != "" ==> "subjectId" in r && r["subjectId"] == subjectId;
    assert aspectId != "" ==> "aspectId" in r && r["aspectId"] == aspectId;
  }

  /** Which of the test's records pass: a and b; not c (no subjectId), d (no name), e (no aspectId), f (no '|'). */
  lemma FixtureValidity(id: string)
    requires id != ""
    ensures ValidateRecord(Rec("a|aspect", id, id))
    ensures ValidateRecord(Rec("b|aspect", id, id))
    ensures !ValidateRecord(Rec("c|aspect", "", id))
    ensures !ValidateRecord(Rec("", id, id))
    ensures !ValidateRecord(Rec("e|aspect", id, ""))
    ensures !ValidateRecord(Rec("f", id, id))
  {
    assert "a|aspect"[1] == '|' && "b|aspect"[1] == '|';
    assert '|' !in "f";
    RecValidity("a|aspect", id, id);
    RecValidity("b|aspect", id, id);
    RecValidity("c|aspect", "", id);
    RecValidity("", id, id);
    RecValidity("e|aspect", id, "");
    RecValidity("f", id, id);
  }

  /** The key of the test's sample `<c>|aspect`. */
  function FixtureKey(c: char): (k: string)
    ensures IsSampleKey(k) && |k| > |SamplePfx| && k[|SamplePfx|] == c
  {
    SampleKey([c] + "|aspect")
  }

  /** The cleanup test's master list. */
  function FixtureMaster(): seq<string> {
    [FixtureKey('a'), FixtureKey('b'), FixtureKey('c'), FixtureKey('d'),
     FixtureKey('e'), FixtureKey('f'), FixtureKey('h')]
  }

  /**
   * The store the cleanup test starts from, with `id` for every subjectId
   * and aspectId (the test uses "123"): a master list of seven names, one of
   * which (h) has no record, and seven records, one of which (g) is not
   * listed.
   */
  function CleanupFixture(id: string): Db {
    map[SamplesKey := Set(FixtureMaster()),
        FixtureKey('a') := Hash(Rec("a|aspect", id, id)),
        FixtureKey('b') := Hash(Rec("b|aspect", id, id)),
        FixtureKey('c') := Hash(Rec("c|aspect", "", id)),
        FixtureKey('d') := Hash(Rec("", id, id)),
        FixtureKey('e') := Hash(Rec("e|aspect", id, "")),
        FixtureKey('f') := Hash(Rec("f", id, id)),
        FixtureKey('g') := Hash(Rec("g|aspect", id, id))]
  }

  /** The fixture's records a and b are listed and pass. */
  lemma FixtureKept(id: string, c: char)
    requires id != "" && (c == 'a' || c == 'b')
    ensures var db := CleanupFixture(id);
      FixtureKey(c) in FixtureMaster() && FixtureKey(c) in db && !Failing(db, ValidateRecord, FixtureKey(c))
  {
    var db := CleanupFixture(id);
    if c == 'a' {
      assert db[FixtureKey('a')] == Hash(Rec("a|aspect", id, id));
      assert "a|aspect"[1] == '|';
      RecValidity("a|aspect", id, id);
    } else {
      assert db[FixtureKey('b')] == Hash(Rec("b|aspect", id, id));
      assert "b|aspect"[1] == '|';
      RecValidity("b|aspect", id, id);
    }
  }

  /** The fixture's records c and d are listed and fail: c has no subject id, d no name. */
  lemma FixtureFailsCD(id: string, c: char)
    requires id != "" && (c == 'c' || c == 'd')
    ensures FixtureKey(c) in FixtureMaster() && Failing(CleanupFixture(id), ValidateRecord, FixtureKey(c))
  {
    var db := CleanupFixture(id);
    if c == 'c' {
      assert db[FixtureKey('c')] == Hash(Rec("c|aspect", "", id));
    } else {
      assert db[FixtureKey('d')] == Hash(Rec("", id, id));
    }
  }

  /** The fixture's records e and f are listed and fail: e has no aspect id, f no '|' in its name. */
  lemma FixtureFailsEF(id: string, c: char)
    requires id != "" && (c == 'e' || c == 'f')
    ensures FixtureKey(c) in FixtureMaster() && Failing(CleanupFixture(id), ValidateRecord, FixtureKey(c))
  {
    var db := CleanupFixture(id);
    if c == 'e' {
      assert db[FixtureKey('e')] == Hash(Rec("e|aspect", id, ""));
    } else {
      assert db[FixtureKey('f')] == Hash(Rec("f", id, id));
      assert '|' !in "f";
      RecValidity("f", id, id);
    }
  }

  /** Which of the fixture's master-listed names are missing or rejected. */
  lemma CleanupFixtureFate(id: string, k: string)
    requires id != ""
    ensures var db := CleanupFixture(id);
      (k in FixtureMaster() && k !in Missing(db, FixtureMaster()) &&
       k !in Rejected(db, FixtureMaster(), ValidateRecord, Matching(db, SamplePfx)))
        <==> k == FixtureKey('a') || k == FixtureKey('b')
  {
    var db := CleanupFixture(id);
    var master := FixtureMaster();
    if k == FixtureKey('a') {
      FixtureKept(id, 'a');
    } else if k == FixtureKey('b') {
      FixtureKept(id, 'b');
    } else if k in master {
      var c := k[|SamplePfx|];
      if c == 'h' {
        assert k == FixtureKey('h');
        assert k !in db;
        assert k in Missing(db, master);
      } else {
        assert k == FixtureKey(c);
        if c == 'c' || c == 'd' {
          FixtureFailsCD(id, c);
        } else {
          FixtureFailsEF(id, c);
        }
        assert k in Matching(db, SamplePfx);
        assert k in Rejected(db, master, ValidateRecord, Matching(db, SamplePfx));
      }
    }
  }

  /** After cleaning the fixture, the master list holds a and b and nothing else. */
  lemma CleanupFixtureMaster(id: string, k: string)
    requires id != ""
    ensures Cleaned(CleanupFixture(id), ValidateRecord).Success?
    ensures IsMember(Cleaned(CleanupFixture(id), ValidateRecord).value, SamplesKey, k) <==>
      k == FixtureKey('a') || k == FixtureKey('b')
  {
    var db := CleanupFixture(id);
    MasterSetIsNotARecord();
    assert SamplesKey in db && db[SamplesKey] == Set(FixtureMaster());
    CleanupFixtureFate(id, k);
    CleanedMaster(db, ValidateRecord, k);
  }

  /** After cleaning the fixture, the records left are a and b. */
  lemma CleanupFixtureRecords(id: string, k: string)
    requires id != "" && IsSampleKey(k)
    ensures Cleaned(CleanupFixture(id), ValidateRecord).Success?
    ensures k in Cleaned(CleanupFixture(id), ValidateRecord).value <==> k == FixtureKey('a') || k == FixtureKey('b')
  {
    var db := CleanupFixture(id);
    CleanupFixtureMaster(id, k);
    if k == FixtureKey('a') || k == FixtureKey('b') {
      FixtureKept(id, k[|SamplePfx|]);
      CleanedRecordFate(db, ValidateRecord, k);
    } else if k in Cleaned(db, ValidateRecord).value {
      CleanedRecordsListed(db, ValidateRecord, k);
      assert false;
    }
  }

  /** Cleaning the fixture keeps its master list and adds no other key. */
  lemma CleanupFixtureOthers(id: string, k: string)
    requires id != "" && !IsSampleKey(k)
    ensures Cleaned(CleanupFixture(id), ValidateRecord).Success?
    ensures k in Cleaned(CleanupFixture(id), ValidateRecord).value <==> k == SamplesKey
  {
    var db := CleanupFixture(id);
    CleanupFixtureMaster(id, FixtureKey('a'));
    if k != SamplesKey {
      MasterSetIsNotARecord();
      CleanedKeepsOthers(db, ValidateRecord, k);
      assert k !in db;
    }
  }

  /** After cleaning the fixture, the keys starting with "samsto:sample" are the master list, a and b. */
  lemma CleanupFixtureKeys(id: string, k: string)
    requires id != ""
    ensures Cleaned(CleanupFixture(id), ValidateRecord).Success?
    ensures var after := Cleaned(CleanupFixture(id), ValidateRecord).value;
      k in after && StartsWith("samsto:sample", k) <==> k == SamplesKey || k == FixtureKey('a') || k == FixtureKey('b')
  {
    assert StartsWith("samsto:sample", SamplesKey);
    assert StartsWith("samsto:sample", SamplePfx);
    MasterSetIsNotARecord();
    CleanupFixtureOthers(id, SamplesKey);
    if IsSampleKey(k) {
      StartsWithTrans("samsto:sample", SamplePfx, k);
      CleanupFixtureRecords(id, k);
    } else {
      CleanupFixtureOthers(id, k);
    }
  }

  /**
   * The cleanup test's end state: the master list holds a and b, and the
   * keys starting with "samsto:sample" are the master list, a and b.
   */
  lemma CleanupFixtureEndState(id: string, k: string)
    requires id != ""
    ensures Cleaned(CleanupFixture(id), ValidateRecord).Success?
    ensures var after := Cleaned(CleanupFixture(id), ValidateRecord).value;
      && (IsMember(after, SamplesKey, k) <==> k == FixtureKey('a') || k == FixtureKey('b'))
      && (k in after && StartsWith("samsto:sample", k) <==> k == SamplesKey || k == FixtureKey('a') || k == FixtureKey('b'))
  {
    CleanupFixtureMaster(id, k);
    CleanupFixtureKeys(id, k);
  }
}
