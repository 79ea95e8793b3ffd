/**
 * src/sampleStore/aspectSubjectMap/populate.js: build the aspect-subject
 * index from the subject master set and the subject-aspect index. Every
 * subject listed in `samsto:subjects` is added to `samsto:aspsubmap:<a>`
 * for each aspect `a` in its `samsto:subaspmap:<subject>` set.
 */
module AspSubPopulate {
  import opened Wrappers
  import opened Text
  import opened Keys
  import opened Store
  import opened Helpers

  /** The SMEMBERS pipeline over `keys`: every reply, or an error if any key holds another type. */
  function ReadAll(db: Db, keys: seq<string>): (r: Result<seq<seq<string>>>)
    ensures r.Success? ==> |r.value| == |keys|
  {
    if keys == [] then Success([])
    else
      match ReadAll(db, keys[..|keys| - 1])
      case Failure(e) => Failure(e)
      case Success(init) =>
        match SMembersOf(db, keys[|keys| - 1])
        case Failure(e) => Failure(e)
        case Success(ms) => Success(init + [ms])
  }

  /** The pipeline succeeds exactly when every key can be read as a set, and then holds each key's members. */
  lemma {:induction false} ReadAllMeaning(db: Db, keys: seq<string>)
    ensures ReadAll(db, keys).Success? <==> forall i :: 0 <= i < |keys| ==> Settable(db, keys[i])
    ensures ReadAll(db, keys).Success? ==>
      forall i :: 0 <= i < |keys| ==> ReadAll(db, keys).value[i] == SMembersOf(db, keys[i]).value
  {
    if keys != [] {
      var init := keys[..|keys| - 1];
      ReadAllMeaning(db, init);
      assert forall i :: 0 <= i < |init| ==> init[i] == keys[i];
    }
  }

  /** The SADDs for one subject: the subject under each of its aspects. */
  function SubjectPairs(subject: string, aspects: seq<string>): seq<(string, string)> {
    seq(|aspects|, j requires 0 <= j < |aspects| => (AspSubMapPfx + aspects[j], subject))
  }

  /** The SADD pipeline, subject by subject. */
  function AspSubPairs(subjects: seq<string>, lists: seq<seq<string>>): seq<(string, string)>
    requires |subjects| == |lists|
  {
    if lists == [] then []
    else
      AspSubPairs(subjects[..|subjects| - 1], lists[..|lists| - 1])
        + SubjectPairs(subjects[|subjects| - 1], lists[|lists| - 1])
  }

  /** What the module does to the store: the error, or the store after all SADDs. */
  function Populated(db: Db): Result<Db> {
    match SMembersOf(db, SubjectsKey)
    case Failure(e) => Failure(e)
    case Success(subjectKeys) =>
      var subjects := ReplacePrefixAll(subjectKeys, SubjectPfx, "");
      var samKeys := ReplacePrefixAll(subjects, "", SubAspMapPfx);
      match ReadAll(db, samKeys)
      case Failure(e) => Failure(e)
      case Success(lists) => Success(SAddAll(db, AspSubPairs(subjects, lists)))
  }

  /** The aspect-subject populate module. */
  method PopulateAspectSubjectMap(redis: Redis) returns (r: Result<()>)
    modifies redis
    ensures r.Success? <==> Populated(old(redis.db)).Success?
    ensures redis.db == if r.Success? then Populated(old(redis.db)).value else old(redis.db)
  {
    var subjectKeys := redis.SMembers(SubjectsKey);
    if subjectKeys.Failure? {
      return Failure(subjectKeys.error);
    }
    var subjects := ReplacePrefixAll(subjectKeys.value, SubjectPfx, "");
    var samKeys := ReplacePrefixAll(subjects, "", SubAspMapPfx);
    var subjectAspects := SMembersPipeline(redis, samKeys);
    var pending := QueueSAdds(subjects, samKeys, redis.db, subjectAspects);
    if pending.Failure? {
      return Failure(pending.error);
    }
    redis.SAddPipeline(pending.value);
    r := Success(());
  }

  /** The pipeline of SMEMBERS, one reply per key. */
  method SMembersPipeline(redis: Redis, keys: seq<string>) returns (replies: seq<Result<seq<string>>>)
    ensures |replies| == |keys|
    ensures forall j :: 0 <= j < |keys| ==> replies[j] == SMembersOf(redis.db, keys[j])
  {
    replies := [];
    var i := 0;
    while i < |keys|
      invariant 0 <= i <= |keys|
      invariant |replies| == i
      invariant forall j :: 0 <= j < i ==> replies[j] == SMembersOf(redis.db, keys[j])
    {
      var res := redis.SMembers(keys[i]);
      replies := replies + [res];
      i := i + 1;
    }
  }

  /** One more aspect adds its pair at the end. */
  lemma SubjectPairsSnoc(subject: string, aspects: seq<string>, j: nat)
    requires j < |aspects|
    ensures SubjectPairs(subject, aspects[..j + 1]) ==
      SubjectPairs(subject, aspects[..j]) + [(AspSubMapPfx + aspects[j], subject)]
  {
  }

  /** One more subject adds its pairs at the end. */
  lemma AspSubPairsSnoc(subjects: seq<string>, lists: seq<seq<string>>, aspects: seq<string>)
    requires |lists| < |subjects|
    ensures AspSubPairs(subjects[..|lists| + 1], lists + [aspects]) ==
      AspSubPairs(subjects[..|lists|], lists) + SubjectPairs(subjects[|lists|], aspects)
  {
    var n := |lists|;
    assert subjects[..n + 1][..n] == subjects[..n];
    assert (lists + [aspects])[..n] == lists;
  }

  /** The inner `forEach`: one SADD of the subject per aspect, after those already queued. */
  method QueueSubjectSAdds(queued: seq<(string, string)>, subject: string, aspects: seq<string>)
      returns (q: seq<(string, string)>)
    ensures q == queued + SubjectPairs(subject, aspects)
  {
    q := queued;
    var j := 0;
    while j < |aspects|
      invariant 0 <= j <= |aspects|
      invariant q == queued + SubjectPairs(subject, aspects[..j])
    {
      SubjectPairsSnoc(subject, aspects, j);
      q := q + [(AspSubMapPfx + aspects[j], subject)];
      j := j + 1;
    }
    assert aspects[..j] == aspects;
  }

  /**
   * The SADDs queued from the replies, subject by subject; a reply that is
   * an error stops the queueing, and nothing is sent.
   */
  method QueueSAdds(subjects: seq<string>, samKeys: seq<string>, ghost db: Db, subjectAspects: seq<Result<seq<string>>>)
      returns (pending: Result<seq<(string, string)>>)
    requires |subjects| == |samKeys| == |subjectAspects|
    requires forall j :: 0 <= j < |samKeys| ==> subjectAspects[j] == SMembersOf(db, samKeys[j])
    ensures pending.Success? <==> ReadAll(db, samKeys).Success?
    ensures pending.Success? ==> pending.value == AspSubPairs(subjects, ReadAll(db, samKeys).value)
  {
    var queued: seq<(string, string)> := [];
    ghost var lists: seq<seq<string>> := [];
    var idx := 0;
    while idx < |subjectAspects|
      invariant 0 <= idx <= |subjectAspects|
      invariant ReadAll(db, samKeys[..idx]) == Success(lists)
      invariant |lists| == idx
      invariant queued == AspSubPairs(subjects[..idx], lists)
    {
      var subaspmap := subjectAspects[idx];
      assert samKeys[..idx + 1][..idx] == samKeys[..idx];
      if subaspmap.Failure? {
        ReadAllFailsFrom(db, samKeys, idx + 1);
        return Failure(subaspmap.error);
      }
      var aspects := subaspmap.value;
      queued := QueueSubjectSAdds(queued, subjects[idx], aspects);
      AspSubPairsSnoc(subjects, lists, aspects);
      lists := lists + [aspects];
      idx := idx + 1;
    }
    assert samKeys[..idx] == samKeys;
    assert subjects[..idx] == subjects;
    pending := Success(queued);
  }

  /** Once one SMEMBERS reply is an error, the whole pipeline is. */
  lemma {:induction false} ReadAllFailsFrom(db: Db, keys: seq<string>, n: nat)
    requires 0 < n <= |keys| && ReadAll(db, keys[..n]).Failure?
    ensures ReadAll(db, keys).Failure?
    decreases |keys| - n
  {
    if n < |keys| {
      assert keys[..n + 1][..n] == keys[..n];
      ReadAllFailsFrom(db, keys, n + 1);
    } else {
      assert keys[..n] == keys;
    }
  }

  /** A subject's pairs are its aspects' keys, each with the subject. */
  lemma SubjectPairsMeaning(subject: string, aspects: seq<string>, a: string, s: string)
    ensures (AspSubMapPfx + a, s) in SubjectPairs(subject, aspects) <==> s == subject && a in aspects
  {
    var pairs := SubjectPairs(subject, aspects);
    if (AspSubMapPfx + a, s) in pairs {
      var j :| 0 <= j < |pairs| && pairs[j] == (AspSubMapPfx + a, s);
      assert AspSubMapPfx + aspects[j] == AspSubMapPfx + a;
      assert aspects[j] == (AspSubMapPfx + a)[|AspSubMapPfx|..];
    }
    if s == subject && a in aspects {
      var j :| 0 <= j < |aspects| && aspects[j] == a;
      assert pairs[j] == (AspSubMapPfx + a, s);
    }
  }

  /** A pair is in the pipeline exactly when its subject lists its aspect. */
  lemma {:induction false} AspSubPairsMeaning(subjects: seq<string>, lists: seq<seq<string>>, a: string, s: string)
    requires |subjects| == |lists|
    ensures (AspSubMapPfx + a, s) in AspSubPairs(subjects, lists) <==>
      exists i :: 0 <= i < |subjects| && subjects[i] == s && a in lists[i]
  {
    if lists != [] {
      var n := |lists| - 1;
      AspSubPairsMeaning(subjects[..n], lists[..n], a, s);
      SubjectPairsMeaning(subjects[n], lists[n], a, s);
      if exists i :: 0 <= i < |subjects| && subjects[i] == s && a in lists[i] {
        var i :| 0 <= i < |subjects| && subjects[i] == s && a in lists[i];
        if i < n {
          assert subjects[..n][i] == s && lists[..n][i] == lists[i];
        }
      }
      if exists i :: 0 <= i < n && subjects[..n][i] == s && a in lists[..n][i] {
        var i :| 0 <= i < n && subjects[..n][i] == s && a in lists[..n][i];
        assert subjects[i] == s && a in lists[i];
      }
    }
  }

  /**
   * The aspect-subject index is the inverse of the subject-aspect index:
   * after a successful populate, subject `s` is listed under aspect `a`
   * exactly when it was before, or when `s` is a subject of the master set
   * (its prefix removed) whose subject-aspect set lists `a` and the
   * aspect's key can hold a set.
   */
  lemma PopulatedInvertsIndex(db: Db, a: string, s: string)
    requires Populated(db).Success?
    ensures var subjects := ReplacePrefixAll(SMembersOf(db, SubjectsKey).value, SubjectPfx, "");
      IsMember(Populated(db).value, AspSubMapPfx + a, s) <==>
        || IsMember(db, AspSubMapPfx + a, s)
        || (Settable(db, AspSubMapPfx + a) && s in subjects && IsMember(db, SubAspMapPfx + s, a))
  {
    var subjects := ReplacePrefixAll(SMembersOf(db, SubjectsKey).value, SubjectPfx, "");
    var samKeys := ReplacePrefixAll(subjects, "", SubAspMapPfx);
    var lists := ReadAll(db, samKeys).value;
    ReadAllMeaning(db, samKeys);
    SAddAllMeaning(db, AspSubPairs(subjects, lists), AspSubMapPfx + a, s);
    AspSubPairsMeaning(subjects, lists, a, s);
    forall i | 0 <= i < |subjects| ensures samKeys[i] == SubAspMapPfx + subjects[i] {
      assert StartsWith("", subjects[i]);
      assert subjects[i][0..] == subjects[i];
    }
    if s in subjects && IsMember(db, SubAspMapPfx + s, a) {
      var i :| 0 <= i < |subjects| && subjects[i] == s;
      assert a in lists[i];
    }
  }

  /** A master-set entry `samsto:subject:<path>` contributes the path itself. */
  lemma SubjectEntryStripped(path: string)
    ensures ReplacePrefixAll([SubjectPfx + path], SubjectPfx, "") == [path]
  {
    StartsWithSelf(SubjectPfx, path);
    assert (SubjectPfx + path)[|SubjectPfx|..] == path;
    assert ReplacePrefixAll([SubjectPfx + path], SubjectPfx, "")[0] == "" + path == path;
  }

  /** Only aspect-subject index keys are written. */
  lemma PopulatedTouchesOnlyIndex(db: Db, k: string)
    requires Populated(db).Success? && !StartsWith(AspSubMapPfx, k)
    ensures k in Populated(db).value <==> k in db
    ensures k in db ==> Populated(db).value[k] == db[k]
  {
    var subjects := ReplacePrefixAll(SMembersOf(db, SubjectsKey).value, SubjectPfx, "");
    var samKeys := ReplacePrefixAll(subjects, "", SubAspMapPfx);
    var lists := ReadAll(db, samKeys).value;
    var ps := AspSubPairs(subjects, lists);
    forall i | 0 <= i < |ps| ensures ps[i].0 != k {
      AspSubPairsKeys(subjects, lists, i);
    }
    SAddAllFrame(db, ps, k);
  }

  lemma {:induction false} AspSubPairsKeys(subjects: seq<string>, lists: seq<seq<string>>, i: nat)
    requires |subjects| == |lists| && i < |AspSubPairs(subjects, lists)|
    ensures StartsWith(AspSubMapPfx, AspSubPairs(subjects, lists)[i].0)
  {
    var n := |lists| - 1;
    var init := AspSubPairs(subjects[..n], lists[..n]);
    if i < |init| {
      AspSubPairsKeys(subjects[..n], lists[..n], i);
    } else {
      StartsWithSelf(AspSubMapPfx, lists[n][i - |init|]);
    }
  }

  /** A subject key with its prefix removed is the subject's path. */
  lemma SubjectPathStripped(path: string)
    ensures ReplaceLeading(SubjectPfx + path, SubjectPfx, "") == path
  {
    StartsWithSelf(SubjectPfx, path);
    assert (SubjectPfx + path)[|SubjectPfx|..] == path;
  }

  /**
   * The store the aspect-subject populate test starts from: four listed
   * subjects and the subject-aspect sets of three of them. The test creates
   * canada's set with no member, which Redis does not keep.
   */
  function InvertFixture(): Db {
    map[SubjectsKey := Set([SubjectPfx + "canada", SubjectPfx + "canada.manitoba",
                            SubjectPfx + "canada.ontario", SubjectPfx + "canada.quebec"]),
        SubAspMapPfx + "canada.manitoba" := Set(["humidity", "temperature"]),
        SubAspMapPfx + "canada.ontario" := Set(["temperature"]),
        SubAspMapPfx + "canada.quebec" := Set(["humidity"])]
  }

  /** The fixture's subject paths, and every key of it holding a set. */
  lemma InvertFixtureSubjects()
    ensures SMembersOf(InvertFixture(), SubjectsKey).Success?
    ensures ReplacePrefixAll(SMembersOf(InvertFixture(), SubjectsKey).value, SubjectPfx, "") ==
      ["canada", "canada.manitoba", "canada.ontario", "canada.quebec"]
    ensures forall k :: Settable(InvertFixture(), k)
  {
    SubjectPathStripped("canada");
    SubjectPathStripped("canada.manitoba");
    SubjectPathStripped("canada.ontario");
    SubjectPathStripped("canada.quebec");
  }

  /** Populating the fixture succeeds. */
  lemma InvertFixturePopulates()
    ensures Populated(InvertFixture()).Success?
  {
    var db := InvertFixture();
    InvertFixtureSubjects();
    var subjects := ReplacePrefixAll(SMembersOf(db, SubjectsKey).value, SubjectPfx, "");
    ReadAllMeaning(db, ReplacePrefixAll(subjects, "", SubAspMapPfx));
  }

  /**
   * The aspect-subject populate test's end state: humidity lists
   * canada.manitoba and canada.quebec, and temperature lists
   * canada.manitoba and canada.ontario, and neither lists anyone else.
   */
  lemma InvertFixtureEndState(s: string)
    ensures Populated(InvertFixture()).Success?
    ensures var after := Populated(InvertFixture()).value;
      && (IsMember(after, AspSubMapPfx + "humidity", s) <==> s == "canada.manitoba" || s == "canada.quebec")
      && (IsMember(after, AspSubMapPfx + "temperature", s) <==> s == "canada.manitoba" || s == "canada.ontario")
  {
    var db := InvertFixture();
    InvertFixturePopulates();
    InvertFixtureSubjects();
    IndexPrefixesDisjoint(AspSubMapPfx + "humidity");
    IndexPrefixesDisjoint(AspSubMapPfx + "temperature");
    StartsWithSelf(AspSubMapPfx, "humidity");
    StartsWithSelf(AspSubMapPfx, "temperature");
    assert SubAspMapPfx + "canada" !in db by {
      assert |SubAspMapPfx + "canada"| < |SubAspMapPfx + "canada.quebec"| < |SubAspMapPfx + "canada.ontario"|
        < |SubAspMapPfx + "canada.manitoba"|;
    }
    assert |SubAspMapPfx + "canada.quebec"| < |SubAspMapPfx + "canada.ontario"| < |SubAspMapPfx + "canada.manitoba"|;
    assert db[SubAspMapPfx + "canada.manitoba"] == Set(["humidity", "temperature"]);
    assert db[SubAspMapPfx + "canada.ontario"] == Set(["temperature"]);
    assert db[SubAspMapPfx + "canada.quebec"] == Set(["humidity"]);
    assert |"humidity"| != |"temperature"|;
    PopulatedInvertsIndex(db, "humidity", s);
    PopulatedInvertsIndex(db, "temperature", s);
  }
}
