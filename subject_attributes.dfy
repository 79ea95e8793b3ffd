/**
 * src/sampleStore/attributesAsKeys/subjectAttributesAsKeys.js: for every
 * subject on the master list `samsto:subjects`, project its tags into the
 * set `samsto:subTags:<path>` and mark it in `samsto:subExists:<path>`, the
 * path being its absolute path in lower case. Each published subject's two
 * keys are deleted first; clear mode only deletes them; preview mode (the
 * default) queues the batch without executing it.
 */
module SubjectAttributes {
  import opened Wrappers
  import opened Text
  import opened Keys
  import opened Store
  import opened Attributes

  function TagsKey(path: string): string {
    SubjectTagsPfx + path
  }

  function ExistsKey(path: string): string {
    SubjectExistsPfx + path
  }

  /** A subject's two keys are distinct, whatever the two paths. */
  lemma TagsKeyIsNotExistsKey(p: string, q: string)
    ensures TagsKey(p) != ExistsKey(q)
  {
    assert TagsKey(p)[10] == 'T' && ExistsKey(q)[10] == 'E';
  }

  /** The non-empty `tags` attribute, decoded; no tags read as the empty array. */
  function SubjectTags(subject: map<string, string>, decode: string -> Decoded): Decoded {
    if "tags" in subject && subject["tags"] != "" then decode(subject["tags"]) else AnArray([])
  }

  /**
   * The commands one HGETALL reply queues. A reply that is not a hash with
   * an absolute path, or tags that are not a JSON array, throw.
   */
  function SubjectCmds(reply: Option<map<string, string>>, clear: bool, decode: string -> Decoded): Result<seq<Cmd>> {
    if reply.None? || "absolutePath" !in reply.value then Failure("TypeError")
    else
      var subject := reply.value;
      var path := ToLower(subject["absolutePath"]);
      if !IsPublished(subject) then Success([])
      else
        var dels := [Del(TagsKey(path)), Del(ExistsKey(path))];
        if clear || path == "" then Success(dels)
        else
          match SubjectTags(subject, decode)
          case Malformed => Failure("SyntaxError")
          case NotAnArray => Failure("Invalid tags values")
          case AnArray(items) =>
            Success(dels + (if items == [] then [] else [SAdd(TagsKey(path), items)]) +
                    [SetStr(ExistsKey(path), "true")])
  }

  /** The batch for all replies, in order; the first reply that throws aborts it. */
  function BatchCmds(replies: seq<Option<map<string, string>>>, clear: bool, decode: string -> Decoded): Result<seq<Cmd>> {
    if replies == [] then Success([])
    else
      match BatchCmds(replies[..|replies| - 1], clear, decode)
      case Failure(e) => Failure(e)
      case Success(cmds) =>
        match SubjectCmds(replies[|replies| - 1], clear, decode)
        case Failure(e) => Failure(e)
        case Success(more) => Success(cmds + more)
  }

  /** The batch the script builds from the store. */
  function Plan(db: Db, clear: bool, decode: string -> Decoded): Result<seq<Cmd>> {
    match SMembersOf(db, SubjectsKey)
    case Failure(e) => Failure(e)
    case Success(keys) => BatchCmds(Replies(db, keys), clear, decode)
  }

  // ---------------------------------------------------------------------
  // The script
  // ---------------------------------------------------------------------

  /** The commands queued for one subject, pushed in the script's order. */
  method QueueSubject(reply: Option<map<string, string>>, clear: bool, decode: string -> Decoded)
    returns (r: Result<seq<Cmd>>)
    ensures r == SubjectCmds(reply, clear, decode)
  {
    if reply.None? || "absolutePath" !in reply.value {
      return Failure("TypeError");
    }
    var subject := reply.value;
    var path := ToLower(subject["absolutePath"]);
    var queue: seq<Cmd> := [];
    if IsPublished(subject) {
      queue := queue + [Del(TagsKey(path))];
      queue := queue + [Del(ExistsKey(path))];
      ghost var dels := queue;
      assert dels == [Del(TagsKey(path)), Del(ExistsKey(path))];
      if clear {
        return Success(queue);
      }
      if path != "" {
        ghost var mid: seq<Cmd> := [];
        if "tags" in subject && subject["tags"] != "" {
          var tags := decode(subject["tags"]);
          if tags.Malformed? {
            return Failure("SyntaxError");
          }
          if tags.NotAnArray? {
            return Failure("Invalid tags values");
          }
          if |tags.items| > 0 {
            queue := queue + [SAdd(TagsKey(path), tags.items)];
            mid := [SAdd(TagsKey(path), tags.items)];
          }
        }
        assert queue == dels + mid;
        queue := queue + [SetStr(ExistsKey(path), "true")];
      }
    }
    r := Success(queue);
  }

  /** Once one reply throws, the batch as a whole fails with that error. */
  lemma {:induction false} BatchFailsFrom(replies: seq<Option<map<string, string>>>, i: nat, clear: bool,
                                          decode: string -> Decoded, e: string)
    requires i < |replies|
    requires BatchCmds(replies[..i], clear, decode).Success?
    requires SubjectCmds(replies[i], clear, decode) == Failure(e)
    ensures BatchCmds(replies, clear, decode) == Failure(e)
  {
    if |replies| == i + 1 {
      assert replies[..|replies| - 1] == replies[..i];
    } else {
      var init := replies[..|replies| - 1];
      assert init[..i] == replies[..i];
      BatchFailsFrom(init, i, clear, decode, e);
    }
  }

  /** subjectAttributesAsKeys(redis, clear, preview) */
  method SubjectAttributesAsKeys(redis: Redis, clear: bool, preview: bool, decode: string -> Decoded)
    returns (r: Result<seq<Cmd>>)
    modifies redis
    ensures r == Plan(old(redis.db), clear, decode)
    ensures redis.db == if r.Success? && !preview then ExecAll(old(redis.db), r.value) else old(redis.db)
  {
    var s := redis.SMembers(SubjectsKey);
    if s.Failure? {
      return Failure(s.error);
    }
    var replies := redis.HGetAllBatch(s.value);
    var batch: seq<Cmd> := [];
    var i := 0;
    while i < |replies|
      invariant 0 <= i <= |replies|
      invariant BatchCmds(replies[..i], clear, decode) == Success(batch)
      invariant redis.db == old(redis.db)
    {
      assert replies[..i + 1][..i] == replies[..i];
      var more := QueueSubject(replies[i], clear, decode);
      if more.Failure? {
        BatchFailsFrom(replies, i, clear, decode, more.error);
        return Failure(more.error);
      }
      batch := batch + more.value;
      i := i + 1;
    }
    assert replies[..i] == replies;
    if !preview {
      redis.Exec(batch);
    }
    r := Success(batch);
  }

  // ---------------------------------------------------------------------
  // What the batch does
  // ---------------------------------------------------------------------

  /** A subject's commands fail exactly when the reply has no path, or when tags it must read are not an array. */
  lemma SubjectFailsIff(reply: Option<map<string, string>>, clear: bool, decode: string -> Decoded)
    ensures SubjectCmds(reply, clear, decode).Failure? <==>
      || reply.None? || "absolutePath" !in reply.value
      || (&& IsPublished(reply.value) && !clear && ToLower(reply.value["absolutePath"]) != ""
          && !SubjectTags(reply.value, decode).AnArray?)
  {
  }

  /**
   * Executing one published subject's commands replaces its tags set by
   * exactly the decoded tags (no set when there are none), marks it as
   * existing, and leaves every other key alone.
   */
  lemma SubjectRefreshed(db: Db, subject: map<string, string>, decode: string -> Decoded, k: string, t: string)
    requires "absolutePath" in subject && IsPublished(subject)
    requires ToLower(subject["absolutePath"]) != ""
    requires SubjectTags(subject, decode).AnArray?
    ensures var path := ToLower(subject["absolutePath"]);
      var items := SubjectTags(subject, decode).items;
      var after := ExecAll(db, SubjectCmds(Some(subject), false, decode).value);
      && after[ExistsKey(path)] == Str("true")
      && (TagsKey(path) in after <==> items != [])
      && (IsMember(after, TagsKey(path), t) <==> t in items)
      && (TagsKey(path) in after ==> after[TagsKey(path)].Set? && NoDup(after[TagsKey(path)].members))
      && (k != TagsKey(path) && k != ExistsKey(path) ==> SameAt(after, db, k))
  {
    var path := ToLower(subject["absolutePath"]);
    var items := SubjectTags(subject, decode).items;
    var tk := TagsKey(path);
    var ek := ExistsKey(path);
    TagsKeyIsNotExistsKey(path, path);
    var cleared := (db - {tk}) - {ek};
    var cmds := SubjectCmds(Some(subject), false, decode).value;
    ExecAllSnoc(db, [], Del(tk));
    assert [] + [Del(tk)] == [Del(tk)];
    ExecAllSnoc(db, [Del(tk)], Del(ek));
    assert [Del(tk)] + [Del(ek)] == [Del(tk), Del(ek)];
    assert ExecAll(db, [Del(tk), Del(ek)]) == cleared;
    if items == [] {
      assert cmds == [Del(tk), Del(ek)] + [SetStr(ek, "true")];
      ExecAllSnoc(db, [Del(tk), Del(ek)], SetStr(ek, "true"));
    } else {
      var three := [Del(tk), Del(ek), SAdd(tk, items)];
      assert three == [Del(tk), Del(ek)] + [SAdd(tk, items)];
      assert cmds == three + [SetStr(ek, "true")];
      ExecAllSnoc(db, [Del(tk), Del(ek)], SAdd(tk, items));
      ExecAllSnoc(db, three, SetStr(ek, "true"));
      SAddEachFresh(cleared, tk, items);
    }
  }

  /** Clear mode only deletes the published subject's two keys. */
  lemma SubjectCleared(db: Db, subject: map<string, string>, decode: string -> Decoded)
    requires "absolutePath" in subject && IsPublished(subject)
    ensures var path := ToLower(subject["absolutePath"]);
      ExecAll(db, SubjectCmds(Some(subject), true, decode).value) == db - {TagsKey(path), ExistsKey(path)}
  {
    var path := ToLower(subject["absolutePath"]);
    var cmds := SubjectCmds(Some(subject), true, decode).value;
    ExecAllSnoc(db, [], Del(TagsKey(path)));
    assert [] + [Del(TagsKey(path))] == [Del(TagsKey(path))];
    ExecAllSnoc(db, [Del(TagsKey(path))], Del(ExistsKey(path)));
    assert [Del(TagsKey(path))] + [Del(ExistsKey(path))] == cmds;
    assert db - {TagsKey(path)} - {ExistsKey(path)} == db - {TagsKey(path), ExistsKey(path)};
  }

  /** An unpublished subject queues nothing. */
  lemma UnpublishedQueuesNothing(subject: map<string, string>, clear: bool, decode: string -> Decoded)
    requires "absolutePath" in subject && !IsPublished(subject)
    ensures SubjectCmds(Some(subject), clear, decode) == Success([])
  {
  }

  /** A non-empty block deletes the subject's two keys first and names no other key. */
  lemma SubjectBlockKeys(reply: Option<map<string, string>>, clear: bool, decode: string -> Decoded)
    requires SubjectCmds(reply, clear, decode).Success? && SubjectCmds(reply, clear, decode).value != []
    ensures var cmds := SubjectCmds(reply, clear, decode).value;
      var path := ToLower(reply.value["absolutePath"]);
      && |cmds| >= 2 && cmds[0] == Del(TagsKey(path)) && cmds[1] == Del(ExistsKey(path))
      && (forall i :: 0 <= i < |cmds| ==> cmds[i].key == TagsKey(path) || cmds[i].key == ExistsKey(path))
      && (clear ==> forall i :: 0 <= i < |cmds| ==> cmds[i].Del?)
  {
    var cmds := SubjectCmds(reply, clear, decode).value;
    var path := ToLower(reply.value["absolutePath"]);
    var tk, ek := TagsKey(path), ExistsKey(path);
    var dels := [Del(tk), Del(ek)];
    if cmds != dels {
      var items := SubjectTags(reply.value, decode).items;
      if items == [] {
        assert cmds == dels + [SetStr(ek, "true")];
      } else {
        assert cmds == dels + [SAdd(tk, items)] + [SetStr(ek, "true")];
      }
    }
  }

  /** A block that deletes a subject's two keys first and names no other key has the block shape. */
  lemma TwoKeyBlockShape(cmds: seq<Cmd>, path: string)
    requires |cmds| >= 2 && cmds[0] == Del(TagsKey(path)) && cmds[1] == Del(ExistsKey(path))
    requires forall i :: 0 <= i < |cmds| ==> cmds[i].key == TagsKey(path) || cmds[i].key == ExistsKey(path)
    ensures SelfClearing(cmds)
    ensures forall i :: 0 <= i < |cmds| ==> StartsWith(SubjectTagsPfx, cmds[i].key) || StartsWith(SubjectExistsPfx, cmds[i].key)
  {
    StartsWithSelf(SubjectTagsPfx, path);
    StartsWithSelf(SubjectExistsPfx, path);
    SelfClearingTwoKeys(cmds, TagsKey(path), ExistsKey(path));
  }

  /** Every command of a subject's block is about one of the subject's two keys, deleted first. */
  lemma SubjectBlockShape(reply: Option<map<string, string>>, clear: bool, decode: string -> Decoded)
    requires SubjectCmds(reply, clear, decode).Success?
    ensures var cmds := SubjectCmds(reply, clear, decode).value;
      && SelfClearing(cmds)
      && (forall i :: 0 <= i < |cmds| ==> StartsWith(SubjectTagsPfx, cmds[i].key) || StartsWith(SubjectExistsPfx, cmds[i].key))
      && (clear ==> forall i :: 0 <= i < |cmds| ==> cmds[i].Del?)
  {
    if SubjectCmds(reply, clear, decode).value != [] {
      SubjectBlockKeys(reply, clear, decode);
      TwoKeyBlockShape(SubjectCmds(reply, clear, decode).value, ToLower(reply.value["absolutePath"]));
    }
  }

  /** The batch for a prefix of replies has the same shape as each block. */
  lemma {:induction false} BatchShape(replies: seq<Option<map<string, string>>>, clear: bool, decode: string -> Decoded)
    requires BatchCmds(replies, clear, decode).Success?
    ensures var cmds := BatchCmds(replies, clear, decode).value;
      && SelfClearing(cmds)
      && (forall i :: 0 <= i < |cmds| ==> StartsWith(SubjectTagsPfx, cmds[i].key) || StartsWith(SubjectExistsPfx, cmds[i].key))
      && (clear ==> forall i :: 0 <= i < |cmds| ==> cmds[i].Del?)
  {
    if replies != [] {
      var init := replies[..|replies| - 1];
      BatchShape(init, clear, decode);
      var last := replies[|replies| - 1];
      SubjectBlockShape(last, clear, decode);
      var p := BatchCmds(init, clear, decode).value;
      var q := SubjectCmds(last, clear, decode).value;
      SelfClearingAppend(p, q);
      var pq := p + q;
      forall i | 0 <= i < |pq|
        ensures StartsWith(SubjectTagsPfx, pq[i].key) || StartsWith(SubjectExistsPfx, pq[i].key)
        ensures clear ==> pq[i].Del?
      {
        if i < |p| {
          assert pq[i] == p[i];
        } else {
          assert pq[i] == q[i - |p|];
        }
      }
    }
  }

  /** Running the script twice leaves the store as running it once. */
  lemma PlanIdempotent(db0: Db, db: Db, clear: bool, decode: string -> Decoded)
    requires Plan(db0, clear, decode).Success?
    ensures var cmds := Plan(db0, clear, decode).value;
      ExecAll(ExecAll(db, cmds), cmds) == ExecAll(db, cmds)
  {
    var keys := SMembersOf(db0, SubjectsKey).value;
    BatchShape(Replies(db0, keys), clear, decode);
    ExecAllIdempotent(db, Plan(db0, clear, decode).value);
  }

  /** The batch only writes subject attribute keys; every other key stays as it was. */
  lemma PlanTouchesOnlyAttributes(db: Db, clear: bool, decode: string -> Decoded, k: string)
    requires Plan(db, clear, decode).Success?
    requires !StartsWith(SubjectTagsPfx, k) && !StartsWith(SubjectExistsPfx, k)
    ensures SameAt(ExecAll(db, Plan(db, clear, decode).value), db, k)
  {
    var keys := SMembersOf(db, SubjectsKey).value;
    BatchShape(Replies(db, keys), clear, decode);
    ExecAllFrame(db, Plan(db, clear, decode).value, k);
  }

  /** In clear mode the batch is DELs only, and executing it removes exactly the keys it names. */
  lemma ClearOnlyDeletes(db: Db, decode: string -> Decoded)
    requires Plan(db, true, decode).Success?
    ensures var cmds := Plan(db, true, decode).value;
      (forall i :: 0 <= i < |cmds| ==> cmds[i].Del?) && ExecAll(db, cmds) == db - CmdKeys(cmds)
  {
    var keys := SMembersOf(db, SubjectsKey).value;
    BatchShape(Replies(db, keys), true, decode);
    ExecAllDels(db, Plan(db, true, decode).value);
  }

  /** In clear mode the tags are never parsed: the batch does not depend on the decoder. */
  lemma {:induction false} ClearIgnoresTags(replies: seq<Option<map<string, string>>>, d1: string -> Decoded, d2: string -> Decoded)
    ensures BatchCmds(replies, true, d1) == BatchCmds(replies, true, d2)
  {
    if replies != [] {
      ClearIgnoresTags(replies[..|replies| - 1], d1, d2);
    }
  }

  // ---------------------------------------------------------------------
  // The store after the whole script
  // ---------------------------------------------------------------------

  /** The reply is a published subject whose lower-cased path is `p`: its block rewrites `p`'s two keys. */
  predicate Writes(reply: Option<map<string, string>>, p: string) {
    reply.Some? && "absolutePath" in reply.value && IsPublished(reply.value) && ToLower(reply.value["absolutePath"]) == p
  }

  /** The last of the replies that writes path `p`, if any. */
  function LastFor(replies: seq<Option<map<string, string>>>, p: string): Option<map<string, string>> {
    if replies == [] then None
    else if Writes(replies[|replies| - 1], p) then Some(replies[|replies| - 1].value)
    else LastFor(replies[..|replies| - 1], p)
  }

  /** LastFor finds nothing exactly when no reply writes `p`, and otherwise a reply that no later one overrides. */
  lemma {:induction false} LastForIff(replies: seq<Option<map<string, string>>>, p: string)
    ensures LastFor(replies, p).None? <==> forall j :: 0 <= j < |replies| ==> !Writes(replies[j], p)
    ensures LastFor(replies, p).Some? ==>
      exists j :: 0 <= j < |replies| && replies[j] == Some(LastFor(replies, p).value) && Writes(replies[j], p)
        && forall l :: j < l < |replies| ==> !Writes(replies[l], p)
  {
    if replies != [] {
      var n := |replies| - 1;
      var init := replies[..n];
      LastForIff(init, p);
      assert forall j :: 0 <= j < n ==> init[j] == replies[j];
      if Writes(replies[n], p) {
        assert replies[n] == Some(LastFor(replies, p).value);
      } else if LastFor(init, p).Some? {
        var j :| 0 <= j < |init| && init[j] == Some(LastFor(init, p).value) && Writes(init[j], p)
          && forall l :: j < l < |init| ==> !Writes(init[l], p);
        assert replies[j] == Some(LastFor(replies, p).value) && Writes(replies[j], p);
      }
    }
  }

  /**
   * What the store holds at path `p`'s two keys after a batch, given the
   * last subject that wrote them: nothing changed when there is none, and
   * otherwise that subject's tags exactly (no set when it has none) and the
   * exists marker.
   */
  predicate PathEndState(db: Db, after: Db, last: Option<map<string, string>>, p: string, decode: string -> Decoded, t: string) {
    match last
    case None => SameAt(after, db, TagsKey(p)) && SameAt(after, db, ExistsKey(p))
    case Some(subject) =>
      && SubjectTags(subject, decode).AnArray?
      && ExistsKey(p) in after && after[ExistsKey(p)] == Str("true")
      && (TagsKey(p) in after <==> SubjectTags(subject, decode).items != [])
      && (IsMember(after, TagsKey(p), t) <==> t in SubjectTags(subject, decode).items)
  }

  /** A block that does not write `p` leaves `p`'s two keys alone. */
  lemma OtherBlockKeepsPath(db: Db, reply: Option<map<string, string>>, decode: string -> Decoded, p: string)
    requires SubjectCmds(reply, false, decode).Success? && !Writes(reply, p)
    ensures var after := ExecAll(db, SubjectCmds(reply, false, decode).value);
      SameAt(after, db, TagsKey(p)) && SameAt(after, db, ExistsKey(p))
  {
    var q := SubjectCmds(reply, false, decode).value;
    if q != [] {
      SubjectBlockKeys(reply, false, decode);
      var path := ToLower(reply.value["absolutePath"]);
      TagsKeyIsNotExistsKey(p, path);
      TagsKeyIsNotExistsKey(path, p);
      if TagsKey(p) == TagsKey(path) {
        PrefixedInjective(SubjectTagsPfx, p, path);
      }
      if ExistsKey(p) == ExistsKey(path) {
        PrefixedInjective(SubjectExistsPfx, p, path);
      }
    }
    ExecAllFrame(db, q, TagsKey(p));
    ExecAllFrame(db, q, ExistsKey(p));
  }

  /** After a refreshing batch, every non-empty path holds what its last subject gave it. */
  lemma {:induction false} BatchEndState(db: Db, replies: seq<Option<map<string, string>>>, decode: string -> Decoded,
                                         p: string, t: string)
    requires BatchCmds(replies, false, decode).Success?
    requires p != ""
    ensures PathEndState(db, ExecAll(db, BatchCmds(replies, false, decode).value), LastFor(replies, p), p, decode, t)
  {
    if replies != [] {
      var init := replies[..|replies| - 1];
      var last := replies[|replies| - 1];
      BatchEndState(db, init, decode, p, t);
      var pc := BatchCmds(init, false, decode).value;
      var q := SubjectCmds(last, false, decode).value;
      ExecAllAppend(db, pc, q);
      var mid := ExecAll(db, pc);
      if Writes(last, p) {
        SubjectFailsIff(last, false, decode);
        SubjectRefreshed(mid, last.value, decode, p, t);
      } else {
        OtherBlockKeepsPath(mid, last, decode, p);
      }
    }
  }

  /**
   * The script's end state, refreshing mode: for every non-empty path, the
   * tags key holds exactly the tags of the last listed subject with that
   * lower-cased path and its exists key is "true"; a path no published
   * subject has keeps both keys as they were.
   */
  lemma PlanEndState(db: Db, decode: string -> Decoded, p: string, t: string)
    requires Plan(db, false, decode).Success?
    requires p != ""
    ensures var replies := Replies(db, SMembersOf(db, SubjectsKey).value);
      PathEndState(db, ExecAll(db, Plan(db, false, decode).value), LastFor(replies, p), p, decode, t)
  {
    BatchEndState(db, Replies(db, SMembersOf(db, SubjectsKey).value), decode, p, t);
  }

  /** Every published listed subject with a non-empty path is marked as existing after the script. */
  lemma PlanMarksEveryListed(db: Db, decode: string -> Decoded, j: nat)
    requires Plan(db, false, decode).Success?
    requires var replies := Replies(db, SMembersOf(db, SubjectsKey).value);
      j < |replies| && replies[j].Some? && "absolutePath" in replies[j].value && IsPublished(replies[j].value)
      && ToLower(replies[j].value["absolutePath"]) != ""
    ensures var replies := Replies(db, SMembersOf(db, SubjectsKey).value);
      var after := ExecAll(db, Plan(db, false, decode).value);
      var path := ToLower(replies[j].value["absolutePath"]);
      ExistsKey(path) in after && after[ExistsKey(path)] == Str("true")
  {
    var replies := Replies(db, SMembersOf(db, SubjectsKey).value);
    var path := ToLower(replies[j].value["absolutePath"]);
    assert Writes(replies[j], path);
    LastForIff(replies, path);
    PlanEndState(db, decode, path, "");
  }
}
