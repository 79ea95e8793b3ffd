/**
 * src/sampleStore/sampleCleanup/previewCleanup.js: the same reconciliation
 * as cleanup.js, but it only reports what it would do, and it validates the
 * records with helpers.js's validator. It lists the sample keys that would
 * be deleted and the master-list entries that would be removed.
 */
module PreviewCleanup {
  import opened Wrappers
  import opened Text
  import opened Keys
  import opened Store
  import Helpers
  import opened SampleCleanup

  /** The two lists the preview prints. */
  datatype Report = Report(deletedSamples: seq<string>, deletedFromMaster: seq<string>)

  /** The preview; it sends no write command, so the store is unchanged. */
  method Preview(redis: Redis) returns (r: Result<Report>)
    ensures r.Failure? <==> SMembersOf(redis.db, SamplesKey).Failure?
    ensures r.Success? ==>
      var master := SMembersOf(redis.db, SamplesKey).value;
      var records := Matching(redis.db, SamplePfx);
      && NoDup(r.value.deletedSamples)
      && Elems(r.value.deletedSamples) == Doomed(redis.db, master, Helpers.ValidateSample, records)
      && Elems(r.value.deletedFromMaster) ==
           Missing(redis.db, master) + Rejected(redis.db, master, Helpers.ValidateSample, records)
  {
    var s := redis.SMembers(SamplesKey);
    if s.Failure? {
      return Failure(s.error);
    }
    var samples := s.value;
    var present := ExistsPipeline(redis, samples);
    var fromMaster: seq<string> := [];
    var i := 0;
    while i < |samples|
      invariant 0 <= i <= |samples|
      invariant Elems(fromMaster) == Missing(redis.db, samples[..i])
    {
      assert samples[..i + 1] == samples[..i] + [samples[i]];
      if !present[i] {
        assert Missing(redis.db, samples[..i + 1]) == Missing(redis.db, samples[..i]) + {samples[i]};
        assert Elems(fromMaster + [samples[i]]) == Elems(fromMaster) + {samples[i]};
        fromMaster := fromMaster + [samples[i]];
      } else {
        assert Missing(redis.db, samples[..i + 1]) == Missing(redis.db, samples[..i]);
      }
      i := i + 1;
    }
    assert samples[..i] == samples;
    var keys := redis.Scan(SamplePfx);
    ghost var missing := Missing(redis.db, samples);
    var deleted: seq<string> := [];
    assert Doomed(redis.db, samples, Helpers.ValidateSample, Elems(keys[..0])) == {};
    assert Rejected(redis.db, samples, Helpers.ValidateSample, Elems(keys[..0])) == {};
    var j := 0;
    while j < |keys|
      invariant 0 <= j <= |keys|
      invariant NoDup(deleted) && forall x :: x in deleted ==> x in keys[..j]
      invariant Elems(deleted) == Doomed(redis.db, samples, Helpers.ValidateSample, Elems(keys[..j]))
      invariant Elems(fromMaster) == missing + Rejected(redis.db, samples, Helpers.ValidateSample, Elems(keys[..j]))
    {
      var k := keys[j];
      assert keys[..j + 1] == keys[..j] + [k];
      assert Elems(keys[..j + 1]) == Elems(keys[..j]) + {k};
      assert k !in keys[..j];
      assert k in redis.db;
      PlanSnoc(redis.db, samples, Helpers.ValidateSample, Elems(keys[..j]), k);
      if k !in samples {
        assert DoomedKey(redis.db, samples, Helpers.ValidateSample, k);
        assert !RejectedKey(redis.db, samples, Helpers.ValidateSample, k);
        assert Elems(deleted + [k]) == Elems(deleted) + {k};
        deleted := deleted + [k];
      } else {
        var h := redis.HGetAll(k);
        if h.Some? && !Helpers.ValidateSample(h.value) {
          assert Failing(redis.db, Helpers.ValidateSample, k);
          assert Elems(deleted + [k]) == Elems(deleted) + {k};
          assert Elems(fromMaster + [k]) == Elems(fromMaster) + {k};
          fromMaster := fromMaster + [k];
          deleted := deleted + [k];
        } else {
          assert !Failing(redis.db, Helpers.ValidateSample, k);
        }
      }
      j := j + 1;
    }
    assert keys[..j] == keys;
    assert Elems(keys) == Matching(redis.db, SamplePfx);
    DedupOfNoDup(deleted);
    r := Success(Report(Dedup(deleted), fromMaster));
  }

  /**
   * The report is exactly what a cleanup run with helpers.js's validator
   * would change: the records it would delete and the entries it would drop.
   */
  lemma ReportMatchesCleanup(db: Db, k: string, m: string)
    requires Cleaned(db, Helpers.ValidateSample).Success?
    ensures var master := SMembersOf(db, SamplesKey).value;
      var records := Matching(db, SamplePfx);
      var after := Cleaned(db, Helpers.ValidateSample).value;
      && (k in Doomed(db, master, Helpers.ValidateSample, records) <==> k in records && k !in after)
      && (m in Missing(db, master) + Rejected(db, master, Helpers.ValidateSample, records) <==>
            m in master && !IsMember(after, SamplesKey, m))
  {
    if IsSampleKey(k) && k in db {
      CleanedRecordFate(db, Helpers.ValidateSample, k);
    }
    CleanedMaster(db, Helpers.ValidateSample, m);
  }

  /**
   * Against what cleanup.js really does, the preview never leaves a deletion
   * out; what it announces in excess are the listed records whose name
   * starts with '|', which cleanup.js's own validator accepts.
   */
  lemma ReportAgainstCleanup(db: Db, k: string)
    requires Cleaned(db, ValidateRecord).Success?
    ensures var master := SMembersOf(db, SamplesKey).value;
      var records := Matching(db, SamplePfx);
      var after := Cleaned(db, ValidateRecord).value;
      && (k in records && k !in after ==> k in Doomed(db, master, Helpers.ValidateSample, records))
      && (k in Doomed(db, master, Helpers.ValidateSample, records) && k in after <==>
            k in records && k in master && db[k].Hash? &&
            ValidateRecord(db[k].fields) && db[k].fields["name"][0] == '|')
  {
    var master := SMembersOf(db, SamplesKey).value;
    var records := Matching(db, SamplePfx);
    StricterValidatorDoomsMore(db, master, records, k);
    if IsSampleKey(k) && k in db {
      CleanedRecordFate(db, ValidateRecord, k);
    }
  }
}
