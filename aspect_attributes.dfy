/**
 * src/sampleStore/attributesAsKeys/aspectAttributesAsKeys.js: for every
 * aspect on the master list `samsto:aspects` that is published and named,
 * add its tags to the set `samsto:aspTags:<name>`, its writers to
 * `samsto:aspWriters:<name>`, and the bounds of its four status ranges to
 * the sorted set `samsto:aspRanges:<lower-case name>`. Nothing is deleted
 * first. Preview mode (the default) builds the batch without executing it.
 */
module AspectAttributes {
  import opened Wrappers
  import opened Text
  import opened Keys
  import opened Store
  import opened Attributes

  function TagsKey(name: string): string {
    AspectTagsPfx + name
  }

  function WritersKey(name: string): string {
    AspectWritersPfx + name
  }

  /** The ranges key, unlike the other two, uses the name in lower case. */
  function RangesKey(name: string): string {
    AspectRangesPfx + ToLower(name)
  }

  /** An aspect's three keys are pairwise distinct, whatever the names. */
  lemma AspectKeysDistinct(a: string, b: string)
    ensures TagsKey(a) != WritersKey(b) && TagsKey(a) != RangesKey(b) && WritersKey(a) != RangesKey(b)
  {
    assert TagsKey(a)[10] == 'T' && WritersKey(a)[10] == 'W';
    assert WritersKey(b)[10] == 'W' && RangesKey(b)[10] == 'R';
  }

  // ---------------------------------------------------------------------
  // Range members
  // ---------------------------------------------------------------------

  /** The statuses, in the order the script visits them, and the attribute holding each range. */
  const Statuses: seq<string> := ["Critical", "Warning", "Info", "OK"]
  const RangeFields: seq<string> := ["criticalRange", "warningRange", "infoRange", "okRange"]

  /** A sorted-set member `<precedence>:<min|max>:<status>`. */
  function RangeMember(precedence: char, bound: string, status: string): string {
    [precedence] + ":" + bound + ":" + status
  }

  /**
   * The members for a range's two bounds: a flat range gets precedences 1
   * and 2, any other range 0 for its maximum and 3 for its minimum.
   */
  function RangeKeys(status: string, lo: real, hi: real): (string, string) {
    if lo == hi then (RangeMember('1', "min", status), RangeMember('2', "max", status))
    else (RangeMember('3', "min", status), RangeMember('0', "max", status))
  }

  lemma RangeMemberParts(p: char, bound: string, status: string)
    requires |bound| == 3
    ensures var m := RangeMember(p, bound, status);
      && |m| == 6 + |status| && m[0] == p && m[2..5] == bound && m[6..] == status
  {
  }

  /**
   * The ordering the precedences buy among members of equal score: a flat
   * range lists its minimum first; the maximum of a range that is not flat
   * comes before every minimum, and every maximum comes before the minimum
   * of a range that is not flat, so a shared boundary goes to the lower range.
   */
  lemma RangeKeysOrder(s: string, lo: real, hi: real, t: string, lo2: real, hi2: real)
    ensures lo == hi ==> LexLess(RangeKeys(s, lo, hi).0, RangeKeys(s, lo, hi).1)
    ensures lo != hi ==> LexLess(RangeKeys(s, lo, hi).1, RangeKeys(t, lo2, hi2).0)
    ensures lo2 != hi2 ==> LexLess(RangeKeys(s, lo, hi).1, RangeKeys(t, lo2, hi2).0)
  {
  }

  /** A minimum member never equals a maximum member, and members of different statuses differ. */
  lemma RangeKeysDistinct(s: string, lo: real, hi: real, t: string, lo2: real, hi2: real)
    ensures RangeKeys(s, lo, hi).0 != RangeKeys(t, lo2, hi2).1
    ensures s != t ==> RangeKeys(s, lo, hi).0 != RangeKeys(t, lo2, hi2).0
    ensures s != t ==> RangeKeys(s, lo, hi).1 != RangeKeys(t, lo2, hi2).1
  {
    var a := RangeKeys(s, lo, hi);
    var b := RangeKeys(t, lo2, hi2);
    RangeMemberParts(a.0[0], "min", s);
    RangeMemberParts(a.1[0], "max", s);
    RangeMemberParts(b.0[0], "min", t);
    RangeMemberParts(b.1[0], "max", t);
    assert a.0[2..5] != b.1[2..5];
  }

  // ---------------------------------------------------------------------
  // The commands of one aspect
  // ---------------------------------------------------------------------

  /** The attribute is present and not the empty string (truthy). */
  predicate Given(asp: map<string, string>, field: string) {
    field in asp && asp[field] != ""
  }

  /** An aspect the script adds keys for: published, with a non-empty name. */
  predicate Listed(asp: map<string, string>) {
    IsPublished(asp) && Given(asp, "name")
  }

  /** The SADD for a tags or writers attribute; `err` is the message for a value that is not an array. */
  function ListCmds(asp: map<string, string>, field: string, key: string, decode: string -> Decoded, err: string)
    : Result<seq<Cmd>>
  {
    if !Given(asp, field) then Success([])
    else
      match decode(asp[field])
      case Malformed => Failure("SyntaxError")
      case NotAnArray => Failure(err)
      case AnArray(items) => Success(if items == [] then [] else [SAdd(key, items)])
  }

  /** The decoded members of a tags or writers attribute; none when it is absent. */
  function ListItems(asp: map<string, string>, field: string, decode: string -> Decoded): seq<string> {
    if Given(asp, field) && decode(asp[field]).AnArray? then decode(asp[field]).items else []
  }

  /** The two ZADDs for one status's range. */
  function RangePair(key: string, status: string, lo: real, hi: real): seq<Cmd> {
    var ks := RangeKeys(status, lo, hi);
    [ZAdd(key, lo, ks.0), ZAdd(key, hi, ks.1)]
  }

  /** The ZADDs for the first `n` statuses that have a range; a range the decoder rejects throws. */
  function RangesCmds(asp: map<string, string>, key: string, n: nat, decodeRange: RangeDecoder): Result<seq<Cmd>>
    requires n <= 4
  {
    if n == 0 then Success([])
    else
      match RangesCmds(asp, key, n - 1, decodeRange)
      case Failure(e) => Failure(e)
      case Success(cmds) =>
        if !Given(asp, RangeFields[n - 1]) then Success(cmds)
        else
          match decodeRange(asp[RangeFields[n - 1]])
          case None => Failure("SyntaxError")
          case Some(bounds) => Success(cmds + RangePair(key, Statuses[n - 1], bounds.0, bounds.1))
  }

  /** A status whose range throws makes every longer prefix throw the same. */
  lemma {:induction false} RangesFailureStays(asp: map<string, string>, key: string, i: nat, n: nat,
                                              decodeRange: RangeDecoder)
    requires i <= n <= 4
    requires RangesCmds(asp, key, i, decodeRange).Failure?
    ensures RangesCmds(asp, key, n, decodeRange) == RangesCmds(asp, key, i, decodeRange)
  {
    if n > i {
      RangesFailureStays(asp, key, i, n - 1, decodeRange);
    }
  }

  /** Commands appended to a queue; a failure discards the queue. */
  function Push(queue: seq<Cmd>, r: Result<seq<Cmd>>): Result<seq<Cmd>> {
    match r
    case Failure(e) => Failure(e)
    case Success(cmds) => Success(queue + cmds)
  }

  /** Queueing onto a longer queue is queueing its extra part first. */
  lemma PushOnto(queue: seq<Cmd>, pre: seq<Cmd>, r: Result<seq<Cmd>>)
    ensures Push(queue + pre, r) == Push(queue, Push(pre, r))
  {
    if r.Success? {
      assert queue + pre + r.value == queue + (pre + r.value);
    }
  }

  /** The commands one HGETALL reply queues: tags, then writers, then ranges. */
  function AspectCmds(reply: Option<map<string, string>>, decode: string -> Decoded, decodeRange: RangeDecoder)
    : Result<seq<Cmd>>
  {
    if reply.None? then Failure("TypeError")
    else if !Listed(reply.value) then Success([])
    else
      var asp := reply.value;
      var name := asp["name"];
      match ListCmds(asp, "tags", TagsKey(name), decode, "Invalid tags values")
      case Failure(e) => Failure(e)
      case Success(tags) =>
        match ListCmds(asp, "writers", WritersKey(name), decode, "Invalid writers values")
        case Failure(e) => Failure(e)
        case Success(writers) => Push(tags + writers, RangesCmds(asp, RangesKey(name), 4, decodeRange))
  }

  /** The batch for all replies, in order; the first reply that throws aborts it. */
  function BatchCmds(replies: seq<Option<map<string, string>>>, decode: string -> Decoded, decodeRange: RangeDecoder)
    : Result<seq<Cmd>>
  {
    if replies == [] then Success([])
    else
      match BatchCmds(replies[..|replies| - 1], decode, decodeRange)
      case Failure(e) => Failure(e)
      case Success(cmds) => Push(cmds, AspectCmds(replies[|replies| - 1], decode, decodeRange))
  }

  /** The batch the script builds from the store. */
  function Plan(db: Db, decode: string -> Decoded, decodeRange: RangeDecoder): Result<seq<Cmd>> {
    match SMembersOf(db, AspectsKey)
    case Failure(e) => Failure(e)
    case Success(keys) => BatchCmds(Replies(db, keys), decode, decodeRange)
  }

  // ---------------------------------------------------------------------
  // The script
  // ---------------------------------------------------------------------

  /** addTagsCmds / addWritersCmds: push the SADD for one attribute onto the shared queue. */
  method AddListCmds(asp: map<string, string>, field: string, key: string, decode: string -> Decoded,
                     err: string, queue: seq<Cmd>)
    returns (r: Result<seq<Cmd>>)
    ensures r == Push(queue, ListCmds(asp, field, key, decode, err))
  {
    if !Given(asp, field) {
      assert queue + [] == queue;
      return Success(queue);
    }
    var parsed := decode(asp[field]);
    if parsed.Malformed? {
      return Failure("SyntaxError");
    }
    if parsed.NotAnArray? {
      return Failure(err);
    }
    if |parsed.items| > 0 {
      return Success(queue + [SAdd(key, parsed.items)]);
    }
    assert queue + [] == queue;
    r := Success(queue);
  }

  /** addRangesCmds: push a pair of ZADDs for every status with a range. */
  method AddRangesCmds(asp: map<string, string>, name: string, decodeRange: RangeDecoder, queue: seq<Cmd>)
    returns (r: Result<seq<Cmd>>)
    ensures r == Push(queue, RangesCmds(asp, RangesKey(name), 4, decodeRange))
  {
    var key := RangesKey(name);
    var acc := queue;
    assert queue + [] == queue;
    for i := 0 to 4
      invariant Push(queue, RangesCmds(asp, key, i, decodeRange)) == Success(acc)
    {
      if Given(asp, RangeFields[i]) {
        var bounds := decodeRange(asp[RangeFields[i]]);
        if bounds.None? {
          RangesFailureStays(asp, key, i + 1, 4, decodeRange);
          return Failure("SyntaxError");
        }
        var lo := bounds.value.0;
        var hi := bounds.value.1;
        var ks := RangeKeys(Statuses[i], lo, hi);
        ghost var before := RangesCmds(asp, key, i, decodeRange).value;
        acc := acc + [ZAdd(key, lo, ks.0)];
        acc := acc + [ZAdd(key, hi, ks.1)];
        assert acc == queue + (before + RangePair(key, Statuses[i], lo, hi));
      }
    }
    r := Success(acc);
  }

  /** The body of the script's forEach for one reply. */
  method QueueAspect(reply: Option<map<string, string>>, decode: string -> Decoded, decodeRange: RangeDecoder,
                     queue: seq<Cmd>)
    returns (r: Result<seq<Cmd>>)
    ensures r == Push(queue, AspectCmds(reply, decode, decodeRange))
  {
    if reply.None? {
      return Failure("TypeError");
    }
    var asp := reply.value;
    if !(IsPublished(asp) && Given(asp, "name")) {
      assert queue + [] == queue;
      return Success(queue);
    }
    var name := asp["name"];
    var t := AddListCmds(asp, "tags", TagsKey(name), decode, "Invalid tags values", queue);
    if t.Failure? {
      return t;
    }
    var w := AddListCmds(asp, "writers", WritersKey(name), decode, "Invalid writers values", t.value);
    if w.Failure? {
      return w;
    }
    ghost var tags := ListCmds(asp, "tags", TagsKey(name), decode, "Invalid tags values").value;
    ghost var writers := ListCmds(asp, "writers", WritersKey(name), decode, "Invalid writers values").value;
    assert w.value == queue + (tags + writers);
    r := AddRangesCmds(asp, name, decodeRange, w.value);
    PushOnto(queue, tags + writers, RangesCmds(asp, RangesKey(name), 4, decodeRange));
  }

  /** aspectAttributesAsKeys(redis, preview) */
  method AspectAttributesAsKeys(redis: Redis, preview: bool, decode: string -> Decoded, decodeRange: RangeDecoder)
    returns (r: Result<seq<Cmd>>)
    modifies redis
    ensures r == Plan(old(redis.db), decode, decodeRange)
    ensures redis.db == if r.Success? && !preview then ExecAll(old(redis.db), r.value) else old(redis.db)
  {
    var s := redis.SMembers(AspectsKey);
    if s.Failure? {
      return Failure(s.error);
    }
    var replies := redis.HGetAllBatch(s.value);
    var batch: seq<Cmd> := [];
    var i := 0;
    while i < |replies|
      invariant 0 <= i <= |replies|
      invariant BatchCmds(replies[..i], decode, decodeRange) == Success(batch)
      invariant redis.db == old(redis.db)
    {
      assert replies[..i + 1][..i] == replies[..i];
      var next := QueueAspect(replies[i], decode, decodeRange, batch);
      if next.Failure? {
        BatchFailsFrom(replies, i, decode, decodeRange, next.error);
        return Failure(next.error);
      }
      batch := next.value;
      i := i + 1;
    }
    assert replies[..i] == replies;
    if !preview {
      redis.Exec(batch);
    }
    r := Success(batch);
  }

  /** Once one reply throws, the batch as a whole fails with that error. */
  lemma {:induction false} BatchFailsFrom(replies: seq<Option<map<string, string>>>, i: nat,
                                          decode: string -> Decoded, decodeRange: RangeDecoder, e: string)
    requires i < |replies|
    requires BatchCmds(replies[..i], decode, decodeRange).Success?
    requires AspectCmds(replies[i], decode, decodeRange) == Failure(e)
    ensures BatchCmds(replies, decode, decodeRange) == Failure(e)
  {
    if |replies| == i + 1 {
      assert replies[..|replies| - 1] == replies[..i];
    } else {
      var init := replies[..|replies| - 1];
      assert init[..i] == replies[..i];
      BatchFailsFrom(init, i, decode, decodeRange, e);
    }
  }

  // ---------------------------------------------------------------------
  // When the script throws
  // ---------------------------------------------------------------------

  /** A tags or writers attribute that is given but does not decode to an array. */
  predicate ListFails(asp: map<string, string>, field: string, decode: string -> Decoded) {
    Given(asp, field) && !decode(asp[field]).AnArray?
  }

  /** The range of status `i` is given but does not decode to a pair. */
  predicate RangeFails(asp: map<string, string>, i: nat, decodeRange: RangeDecoder)
    requires i < 4
  {
    Given(asp, RangeFields[i]) && decodeRange(asp[RangeFields[i]]).None?
  }

  lemma {:induction false} RangesFailIff(asp: map<string, string>, key: string, n: nat, decodeRange: RangeDecoder)
    requires n <= 4
    ensures RangesCmds(asp, key, n, decodeRange).Failure? <==> exists i :: 0 <= i < n && RangeFails(asp, i, decodeRange)
  {
    if n > 0 {
      RangesFailIff(asp, key, n - 1, decodeRange);
      if RangeFails(asp, n - 1, decodeRange) {
        assert 0 <= n - 1 < n && RangeFails(asp, n - 1, decodeRange);
      }
      if exists i :: 0 <= i < n - 1 && RangeFails(asp, i, decodeRange) {
        var i :| 0 <= i < n - 1 && RangeFails(asp, i, decodeRange);
        assert 0 <= i < n && RangeFails(asp, i, decodeRange);
      }
    }
  }

  /**
   * One aspect's commands fail exactly when the reply is not a hash, or the
   * aspect is published and named and one of its tags, writers or ranges
   * does not decode.
   */
  lemma AspectFailsIff(reply: Option<map<string, string>>, decode: string -> Decoded, decodeRange: RangeDecoder)
    ensures AspectCmds(reply, decode, decodeRange).Failure? <==>
      || reply.None?
      || (&& Listed(reply.value)
          && (|| ListFails(reply.value, "tags", decode)
              || ListFails(reply.value, "writers", decode)
              || exists i :: 0 <= i < 4 && RangeFails(reply.value, i, decodeRange)))
  {
    if reply.Some? && Listed(reply.value) {
      RangesFailIff(reply.value, RangesKey(reply.value["name"]), 4, decodeRange);
    }
  }

  /** An aspect that is not published, or has no name, queues nothing. */
  lemma UnlistedQueuesNothing(asp: map<string, string>, decode: string -> Decoded, decodeRange: RangeDecoder)
    requires !Listed(asp)
    ensures AspectCmds(Some(asp), decode, decodeRange) == Success([])
  {
  }

  /** The batch fails exactly when some reply's commands fail; nothing is then executed. */
  lemma {:induction false} BatchFailsIff(replies: seq<Option<map<string, string>>>, decode: string -> Decoded,
                                         decodeRange: RangeDecoder)
    ensures BatchCmds(replies, decode, decodeRange).Failure? <==>
      exists i :: 0 <= i < |replies| && AspectCmds(replies[i], decode, decodeRange).Failure?
  {
    if replies != [] {
      var init := replies[..|replies| - 1];
      BatchFailsIff(init, decode, decodeRange);
      assert forall i :: 0 <= i < |init| ==> replies[i] == init[i];
    }
  }

  // ---------------------------------------------------------------------
  // What the batch does
  // ---------------------------------------------------------------------

  /** The status part of a range member. */
  function StatusOf(m: string): string {
    if |m| >= 6 then m[6..] else ""
  }

  /** The two members of one status's pair differ and both carry the status. */
  lemma PairMembers(key: string, status: string, lo: real, hi: real)
    ensures var pair := RangePair(key, status, lo, hi);
      && pair[0].member != pair[1].member
      && StatusOf(pair[0].member) == status && StatusOf(pair[1].member) == status
  {
    var ks := RangeKeys(status, lo, hi);
    RangeKeysDistinct(status, lo, hi, status, lo, hi);
    RangeMemberParts(ks.0[0], "min", status);
    RangeMemberParts(ks.1[0], "max", status);
  }

  /** Appending one status's ZADDs to those of the earlier statuses. */
  lemma RangesSnoc(prev: seq<Cmd>, pair: seq<Cmd>, key: string, n: nat)
    requires 0 < n <= 4
    requires forall j :: 0 <= j < |prev| ==> prev[j].ZAdd? && prev[j].key == key
    requires forall j :: 0 <= j < |prev| ==> StatusOf(prev[j].member) in Statuses[..n - 1]
    requires forall j :: 0 <= j < |pair| ==> pair[j].ZAdd? && pair[j].key == key && StatusOf(pair[j].member) == Statuses[n - 1]
    ensures var cmds := prev + pair;
      && (forall j :: 0 <= j < |cmds| ==> cmds[j].ZAdd? && cmds[j].key == key)
      && (forall j :: 0 <= j < |cmds| ==> StatusOf(cmds[j].member) in Statuses[..n])
  {
    var cmds := prev + pair;
    assert Statuses[..n] == Statuses[..n - 1] + [Statuses[n - 1]];
    forall j | 0 <= j < |cmds|
      ensures cmds[j].ZAdd? && cmds[j].key == key
      ensures StatusOf(cmds[j].member) in Statuses[..n]
    {
      if j < |prev| {
        assert cmds[j] == prev[j];
      } else {
        assert cmds[j] == pair[j - |prev|];
      }
    }
  }

  /** The range commands are ZADDs to the ranges key, each member carrying one of the first `n` statuses. */
  lemma {:induction false} RangesOnKey(asp: map<string, string>, key: string, n: nat, decodeRange: RangeDecoder)
    requires n <= 4
    requires RangesCmds(asp, key, n, decodeRange).Success?
    ensures var cmds := RangesCmds(asp, key, n, decodeRange).value;
      && (forall j :: 0 <= j < |cmds| ==> cmds[j].ZAdd? && cmds[j].key == key)
      && (forall j :: 0 <= j < |cmds| ==> StatusOf(cmds[j].member) in Statuses[..n])
  {
    if n > 0 {
      var prev := RangesCmds(asp, key, n - 1, decodeRange).value;
      RangesOnKey(asp, key, n - 1, decodeRange);
      if Given(asp, RangeFields[n - 1]) {
        var b := decodeRange(asp[RangeFields[n - 1]]).value;
        var pair := RangePair(key, Statuses[n - 1], b.0, b.1);
        PairMembers(key, Statuses[n - 1], b.0, b.1);
        RangesSnoc(prev, pair, key, n);
      } else {
        assert Statuses[..n] == Statuses[..n - 1] + [Statuses[n - 1]];
      }
    }
  }

  /** Appending two ZADDs of a new status to ZADDs of earlier statuses adds no member twice. */
  lemma MembersDistinctSnoc(prev: seq<Cmd>, pair: seq<Cmd>, status: string, earlier: seq<string>)
    requires forall j :: 0 <= j < |prev| ==> prev[j].ZAdd? && StatusOf(prev[j].member) in earlier
    requires forall j, l :: 0 <= j < l < |prev| ==> prev[j].ZAdd? && prev[l].ZAdd? && prev[j].member != prev[l].member
    requires |pair| == 2 && pair[0].ZAdd? && pair[1].ZAdd? && pair[0].member != pair[1].member
    requires StatusOf(pair[0].member) == status && StatusOf(pair[1].member) == status && status !in earlier
    ensures var cmds := prev + pair;
      forall j, l :: 0 <= j < l < |cmds| ==> cmds[j].ZAdd? && cmds[l].ZAdd? && cmds[j].member != cmds[l].member
  {
    var cmds := prev + pair;
    forall j, l | 0 <= j < l < |cmds| ensures cmds[j].ZAdd? && cmds[l].ZAdd? && cmds[j].member != cmds[l].member {
      if l >= |prev| {
        assert cmds[l] == pair[l - |prev|];
        if j < |prev| {
          assert cmds[j] == prev[j];
        } else {
          assert cmds[j] == pair[j - |prev|];
        }
      } else {
        assert cmds[j] == prev[j] && cmds[l] == prev[l];
      }
    }
  }

  /** No member is added twice within one aspect's ranges. */
  lemma {:induction false} RangesDistinct(asp: map<string, string>, key: string, n: nat, decodeRange: RangeDecoder)
    requires n <= 4
    requires RangesCmds(asp, key, n, decodeRange).Success?
    ensures var cmds := RangesCmds(asp, key, n, decodeRange).value;
      forall j, l :: 0 <= j < l < |cmds| ==> cmds[j].ZAdd? && cmds[l].ZAdd? && cmds[j].member != cmds[l].member
  {
    RangesOnKey(asp, key, n, decodeRange);
    if n > 0 {
      var cmds := RangesCmds(asp, key, n, decodeRange).value;
      var prev := RangesCmds(asp, key, n - 1, decodeRange).value;
      RangesDistinct(asp, key, n - 1, decodeRange);
      if Given(asp, RangeFields[n - 1]) {
        RangesOnKey(asp, key, n - 1, decodeRange);
        var s := Statuses[n - 1];
        var b := decodeRange(asp[RangeFields[n - 1]]).value;
        var pair := RangePair(key, s, b.0, b.1);
        PairMembers(key, s, b.0, b.1);
        assert s !in Statuses[..n - 1];
        MembersDistinctSnoc(prev, pair, s, Statuses[..n - 1]);
      }
    }
  }

  /** Every status with a range contributes its two ZADDs. */
  lemma {:induction false} RangesCover(asp: map<string, string>, key: string, n: nat, decodeRange: RangeDecoder, i: nat)
    requires i < n <= 4
    requires RangesCmds(asp, key, n, decodeRange).Success?
    requires Given(asp, RangeFields[i])
    ensures decodeRange(asp[RangeFields[i]]).Some?
    ensures var cmds := RangesCmds(asp, key, n, decodeRange).value;
      var b := decodeRange(asp[RangeFields[i]]).value;
      var ks := RangeKeys(Statuses[i], b.0, b.1);
      ZAdd(key, b.0, ks.0) in cmds && ZAdd(key, b.1, ks.1) in cmds
  {
    var prev := RangesCmds(asp, key, n - 1, decodeRange).value;
    if i < n - 1 {
      RangesCover(asp, key, n - 1, decodeRange, i);
    } else {
      var b := decodeRange(asp[RangeFields[i]]).value;
      var pair := RangePair(key, Statuses[i], b.0, b.1);
      assert RangesCmds(asp, key, n, decodeRange).value == prev + pair;
      assert pair[0] in prev + pair && pair[1] in prev + pair;
    }
  }

  /** The commands of one listed aspect: its tags SADD, its writers SADD and its range ZADDs. */
  lemma BlockParts(asp: map<string, string>, decode: string -> Decoded, decodeRange: RangeDecoder)
    requires Listed(asp) && AspectCmds(Some(asp), decode, decodeRange).Success?
    ensures var name := asp["name"];
      var tags := ListCmds(asp, "tags", TagsKey(name), decode, "Invalid tags values");
      var writers := ListCmds(asp, "writers", WritersKey(name), decode, "Invalid writers values");
      var ranges := RangesCmds(asp, RangesKey(name), 4, decodeRange);
      && tags.Success? && writers.Success? && ranges.Success?
      && AspectCmds(Some(asp), decode, decodeRange).value == tags.value + writers.value + ranges.value
      && tags.value == (if ListItems(asp, "tags", decode) == [] then [] else [SAdd(TagsKey(name), ListItems(asp, "tags", decode))])
      && writers.value == (if ListItems(asp, "writers", decode) == [] then []
                           else [SAdd(WritersKey(name), ListItems(asp, "writers", decode))])
  {
  }

  /** Every command of an aspect's block adds to one of its three keys; none deletes. */
  lemma BlockShape(reply: Option<map<string, string>>, decode: string -> Decoded, decodeRange: RangeDecoder)
    requires AspectCmds(reply, decode, decodeRange).Success?
    ensures var cmds := AspectCmds(reply, decode, decodeRange).value;
      && Additive(cmds)
      && (cmds != [] ==> Listed(reply.value))
      && (forall j :: 0 <= j < |cmds| ==>
            var name := reply.value["name"];
            cmds[j].key == TagsKey(name) || cmds[j].key == WritersKey(name) || cmds[j].key == RangesKey(name))
  {
    var cmds := AspectCmds(reply, decode, decodeRange).value;
    if reply.Some? && Listed(reply.value) {
      var asp := reply.value;
      var name := asp["name"];
      BlockParts(asp, decode, decodeRange);
      RangesOnKey(asp, RangesKey(name), 4, decodeRange);
      var tw := ListCmds(asp, "tags", TagsKey(name), decode, "Invalid tags values").value +
                ListCmds(asp, "writers", WritersKey(name), decode, "Invalid writers values").value;
      var ranges := RangesCmds(asp, RangesKey(name), 4, decodeRange).value;
      assert cmds == tw + ranges;
      forall j | 0 <= j < |cmds|
        ensures cmds[j].SAdd? || cmds[j].ZAdd?
        ensures cmds[j].key == TagsKey(name) || cmds[j].key == WritersKey(name) || cmds[j].key == RangesKey(name)
      {
        if j >= |tw| {
          assert cmds[j] == ranges[j - |tw|];
        }
      }
    }
  }

  /** A key under one of the three aspect attribute prefixes. */
  predicate AttributeKey(k: string) {
    StartsWith(AspectTagsPfx, k) || StartsWith(AspectWritersPfx, k) || StartsWith(AspectRangesPfx, k)
  }

  /** The whole batch only adds, and only to aspect attribute keys. */
  lemma {:induction false} BatchShape(replies: seq<Option<map<string, string>>>, decode: string -> Decoded,
                                      decodeRange: RangeDecoder)
    requires BatchCmds(replies, decode, decodeRange).Success?
    ensures var cmds := BatchCmds(replies, decode, decodeRange).value;
      Additive(cmds) && forall j :: 0 <= j < |cmds| ==> AttributeKey(cmds[j].key)
  {
    if replies != [] {
      var init := replies[..|replies| - 1];
      var last := replies[|replies| - 1];
      BatchShape(init, decode, decodeRange);
      BlockShape(last, decode, decodeRange);
      var p := BatchCmds(init, decode, decodeRange).value;
      var q := AspectCmds(last, decode, decodeRange).value;
      if q != [] {
        var name := last.value["name"];
        StartsWithSelf(AspectTagsPfx, name);
        StartsWithSelf(AspectWritersPfx, name);
        StartsWithSelf(AspectRangesPfx, ToLower(name));
      }
      var pq := p + q;
      forall j | 0 <= j < |pq|
        ensures pq[j].SAdd? || pq[j].ZAdd?
        ensures AttributeKey(pq[j].key)
      {
        if j < |p| {
          assert pq[j] == p[j];
        } else {
          assert pq[j] == q[j - |p|];
        }
      }
    }
  }

  /** The batch leaves every key outside the three aspect attribute prefixes as it was. */
  lemma PlanTouchesOnlyAttributes(db: Db, decode: string -> Decoded, decodeRange: RangeDecoder, k: string)
    requires Plan(db, decode, decodeRange).Success?
    requires !AttributeKey(k)
    ensures SameAt(ExecAll(db, Plan(db, decode, decodeRange).value), db, k)
  {
    var keys := SMembersOf(db, AspectsKey).value;
    BatchShape(Replies(db, keys), decode, decodeRange);
    ExecAllFrame(db, Plan(db, decode, decodeRange).value, k);
  }

  /**
   * Nothing is deleted first, so the batch never removes a key, a tag, a
   * writer or a range entry an earlier run left, even one the aspect no
   * longer has.
   */
  lemma PlanKeepsEverything(db: Db, decode: string -> Decoded, decodeRange: RangeDecoder, k: string)
    requires Plan(db, decode, decodeRange).Success?
    ensures Keeps(db, ExecAll(db, Plan(db, decode, decodeRange).value), k)
  {
    var keys := SMembersOf(db, AspectsKey).value;
    BatchShape(Replies(db, keys), decode, decodeRange);
    ExecAllAdditiveKeeps(db, Plan(db, decode, decodeRange).value, k);
  }

  /** An SADD of `items` at `key` (none when empty) followed by commands on other keys. */
  lemma SAddThenOthers(db: Db, key: string, items: seq<string>, rest: seq<Cmd>, x: string)
    requires forall j :: 0 <= j < |rest| ==> rest[j].key != key
    ensures var after := ExecAll(db, (if items == [] then [] else [SAdd(key, items)]) + rest);
      && (IsMember(after, key, x) <==> IsMember(db, key, x) || (x in items && Settable(db, key)))
      && (Settable(after, key) <==> Settable(db, key))
  {
    var first: seq<Cmd> := if items == [] then [] else [SAdd(key, items)];
    ExecAllAppend(db, first, rest);
    ExecAllFrame(ExecAll(db, first), rest, key);
    if items != [] {
      ExecAllSnoc(db, [], SAdd(key, items));
      assert [] + [SAdd(key, items)] == first;
      SAddEachMeaning(db, key, items, x);
    }
  }

  /** A tags or writers command is an SADD to the given key. */
  lemma ListCmdsOnKey(asp: map<string, string>, field: string, key: string, decode: string -> Decoded, err: string)
    requires ListCmds(asp, field, key, decode, err).Success?
    ensures var cmds := ListCmds(asp, field, key, decode, err).value;
      |cmds| <= 1 && forall j :: 0 <= j < |cmds| ==> cmds[j].SAdd? && cmds[j].key == key
  {
  }

  /** The block of one listed aspect as its three parts, and which keys each names. */
  lemma BlockKeys(asp: map<string, string>, decode: string -> Decoded, decodeRange: RangeDecoder)
    requires Listed(asp) && AspectCmds(Some(asp), decode, decodeRange).Success?
    ensures var name := asp["name"];
      var t: seq<Cmd> := ListCmds(asp, "tags", TagsKey(name), decode, "Invalid tags values").value;
      var w: seq<Cmd> := ListCmds(asp, "writers", WritersKey(name), decode, "Invalid writers values").value;
      var r: seq<Cmd> := RangesCmds(asp, RangesKey(name), 4, decodeRange).value;
      && AspectCmds(Some(asp), decode, decodeRange).value == t + (w + r)
      && (forall j :: 0 <= j < |w + r| ==> (w + r)[j].key != TagsKey(name))
      && (forall j :: 0 <= j < |r| ==> r[j].key != WritersKey(name))
      && (forall j :: 0 <= j < |t| ==> t[j].key == TagsKey(name))
  {
    var name := asp["name"];
    AspectKeysDistinct(name, name);
    ListCmdsOnKey(asp, "tags", TagsKey(name), decode, "Invalid tags values");
    ListCmdsOnKey(asp, "writers", WritersKey(name), decode, "Invalid writers values");
    RangesOnKey(asp, RangesKey(name), 4, decodeRange);
    var t: seq<Cmd> := ListCmds(asp, "tags", TagsKey(name), decode, "Invalid tags values").value;
    var w: seq<Cmd> := ListCmds(asp, "writers", WritersKey(name), decode, "Invalid writers values").value;
    var r: seq<Cmd> := RangesCmds(asp, RangesKey(name), 4, decodeRange).value;
    assert t + w + r == t + (w + r);
    forall j | 0 <= j < |w + r| ensures (w + r)[j].key != TagsKey(name) {
      if j >= |w| {
        assert (w + r)[j] == r[j - |w|];
      } else {
        assert (w + r)[j] == w[j];
      }
    }
  }


  /**
   * Executing one listed aspect's commands leaves in its tags set the old
   * members plus the decoded tags, these only when the key can hold a set.
   */
  lemma AspectTagsAdded(db: Db, asp: map<string, string>, decode: string -> Decoded, decodeRange: RangeDecoder,
                        x: string)
    requires Listed(asp) && AspectCmds(Some(asp), decode, decodeRange).Success?
    ensures var tk := TagsKey(asp["name"]);
      var after := ExecAll(db, AspectCmds(Some(asp), decode, decodeRange).value);
      && (IsMember(after, tk, x) <==> IsMember(db, tk, x) || (x in ListItems(asp, "tags", decode) && Settable(db, tk)))
      && (Settable(after, tk) <==> Settable(db, tk))
  {
    var name := asp["name"];
    BlockParts(asp, decode, decodeRange);
    BlockKeys(asp, decode, decodeRange);
    var w: seq<Cmd> := ListCmds(asp, "writers", WritersKey(name), decode, "Invalid writers values").value;
    var r: seq<Cmd> := RangesCmds(asp, RangesKey(name), 4, decodeRange).value;
    SAddThenOthers(db, TagsKey(name), ListItems(asp, "tags", decode), w + r, x);
  }

  /** The same for the writers set. */
  lemma AspectWritersAdded(db: Db, asp: map<string, string>, decode: string -> Decoded, decodeRange: RangeDecoder,
                           x: string)
    requires Listed(asp) && AspectCmds(Some(asp), decode, decodeRange).Success?
    ensures var wk := WritersKey(asp["name"]);
      var after := ExecAll(db, AspectCmds(Some(asp), decode, decodeRange).value);
      && (IsMember(after, wk, x) <==> IsMember(db, wk, x) || (x in ListItems(asp, "writers", decode) && Settable(db, wk)))
      && (Settable(after, wk) <==> Settable(db, wk))
  {
    var name := asp["name"];
    var wk := WritersKey(name);
    AspectKeysDistinct(name, name);
    BlockParts(asp, decode, decodeRange);
    BlockKeys(asp, decode, decodeRange);
    var t: seq<Cmd> := ListCmds(asp, "tags", TagsKey(name), decode, "Invalid tags values").value;
    var w: seq<Cmd> := ListCmds(asp, "writers", wk, decode, "Invalid writers values").value;
    var r: seq<Cmd> := RangesCmds(asp, RangesKey(name), 4, decodeRange).value;
    ExecAllAppend(db, t, w + r);
    ExecAllFrame(db, t, wk);
    SAddThenOthers(ExecAll(db, t), wk, ListItems(asp, "writers", decode), r, x);
  }

  /** One aspect's commands leave every key other than its three as it was. */
  lemma AspectOthersUnchanged(db: Db, asp: map<string, string>, decode: string -> Decoded, decodeRange: RangeDecoder,
                              k: string)
    requires Listed(asp) && AspectCmds(Some(asp), decode, decodeRange).Success?
    requires k != TagsKey(asp["name"]) && k != WritersKey(asp["name"]) && k != RangesKey(asp["name"])
    ensures SameAt(ExecAll(db, AspectCmds(Some(asp), decode, decodeRange).value), db, k)
  {
    BlockShape(Some(asp), decode, decodeRange);
    ExecAllFrame(db, AspectCmds(Some(asp), decode, decodeRange).value, k);
  }

  /**
   * After one listed aspect's commands, when its ranges key held a sorted
   * set or nothing, every status with a range has its minimum and maximum
   * members scored with the range's bounds.
   */
  lemma AspectRangesScored(db: Db, asp: map<string, string>, decode: string -> Decoded, decodeRange: RangeDecoder,
                           i: nat)
    requires Listed(asp) && AspectCmds(Some(asp), decode, decodeRange).Success?
    requires i < 4 && Given(asp, RangeFields[i])
    requires RangesKey(asp["name"]) !in db || db[RangesKey(asp["name"])].ZSet?
    ensures var rk := RangesKey(asp["name"]);
      var after := ExecAll(db, AspectCmds(Some(asp), decode, decodeRange).value);
      && decodeRange(asp[RangeFields[i]]).Some?
      && var b := decodeRange(asp[RangeFields[i]]).value;
         var ks := RangeKeys(Statuses[i], b.0, b.1);
         && rk in after && after[rk].ZSet?
         && ks.0 in after[rk].scores && after[rk].scores[ks.0] == b.0
         && ks.1 in after[rk].scores && after[rk].scores[ks.1] == b.1
  {
    var name := asp["name"];
    var tk, wk, rk := TagsKey(name), WritersKey(name), RangesKey(name);
    AspectKeysDistinct(name, name);
    BlockParts(asp, decode, decodeRange);
    RangesOnKey(asp, rk, 4, decodeRange);
    RangesDistinct(asp, rk, 4, decodeRange);
    RangesCover(asp, rk, 4, decodeRange, i);
    var t: seq<Cmd> := ListCmds(asp, "tags", tk, decode, "Invalid tags values").value;
    var w: seq<Cmd> := ListCmds(asp, "writers", wk, decode, "Invalid writers values").value;
    var r: seq<Cmd> := RangesCmds(asp, rk, 4, decodeRange).value;
    var cmds := AspectCmds(Some(asp), decode, decodeRange).value;
    assert cmds == (t + w) + r;
    ExecAllAppend(db, t + w, r);
    var d1 := ExecAll(db, t + w);
    forall l | 0 <= l < |t + w| ensures (t + w)[l].key != rk {
      if l < |t| {
        assert (t + w)[l] == t[l] && t[l].key == tk;
      } else {
        assert (t + w)[l] == w[l - |t|] && w[l - |t|].key == wk;
      }
    }
    ExecAllFrame(db, t + w, rk);
    var b := decodeRange(asp[RangeFields[i]]).value;
    var ks := RangeKeys(Statuses[i], b.0, b.1);
    var j0 :| 0 <= j0 < |r| && r[j0] == ZAdd(rk, b.0, ks.0);
    var j1 :| 0 <= j1 < |r| && r[j1] == ZAdd(rk, b.1, ks.1);
    ZAddsScores(d1, r, rk, j0);
    ZAddsScores(d1, r, rk, j1);
  }

  // ---------------------------------------------------------------------
  // The store after the whole script
  // ---------------------------------------------------------------------

  /** The key a tags or writers attribute of the aspect named `name` is added to. */
  function ListKey(field: string, name: string): string {
    if field == "tags" then TagsKey(name) else WritersKey(name)
  }

  /** The reply is a listed aspect named `n` whose `field` attribute decodes to a list holding `x`. */
  predicate AddsTo(reply: Option<map<string, string>>, field: string, n: string, x: string, decode: string -> Decoded) {
    reply.Some? && Listed(reply.value) && reply.value["name"] == n && x in ListItems(reply.value, field, decode)
  }

  /** Some reply is a listed aspect named `n` whose `field` attribute decodes to a list holding `x`. */
  predicate AddedBy(replies: seq<Option<map<string, string>>>, field: string, n: string, x: string,
                    decode: string -> Decoded) {
    exists j :: 0 <= j < |replies| && AddsTo(replies[j], field, n, x, decode)
  }

  lemma AddedBySnoc(replies: seq<Option<map<string, string>>>, field: string, n: string, x: string,
                    decode: string -> Decoded)
    requires replies != []
    ensures AddedBy(replies, field, n, x, decode) <==>
      AddedBy(replies[..|replies| - 1], field, n, x, decode) || AddsTo(replies[|replies| - 1], field, n, x, decode)
  {
    var last := |replies| - 1;
    var init := replies[..last];
    if AddedBy(replies, field, n, x, decode) {
      var j :| 0 <= j < |replies| && AddsTo(replies[j], field, n, x, decode);
      if j < last {
        assert init[j] == replies[j];
      }
    }
    if AddedBy(init, field, n, x, decode) {
      var j :| 0 <= j < |init| && AddsTo(init[j], field, n, x, decode);
      assert init[j] == replies[j];
    }
  }

  /** One block's effect on the tags or writers set of the name `n`, whichever aspect it is for. */
  lemma BlockListAdded(db: Db, reply: Option<map<string, string>>, decode: string -> Decoded, decodeRange: RangeDecoder,
                       field: string, n: string, x: string)
    requires field == "tags" || field == "writers"
    requires AspectCmds(reply, decode, decodeRange).Success?
    ensures var k := ListKey(field, n);
      var after := ExecAll(db, AspectCmds(reply, decode, decodeRange).value);
      && (IsMember(after, k, x) <==> IsMember(db, k, x) || (AddsTo(reply, field, n, x, decode) && Settable(db, k)))
      && (Settable(after, k) <==> Settable(db, k))
  {
    var k := ListKey(field, n);
    if reply.Some? && Listed(reply.value) && reply.value["name"] == n {
      if field == "tags" {
        AspectTagsAdded(db, reply.value, decode, decodeRange, x);
      } else {
        AspectWritersAdded(db, reply.value, decode, decodeRange, x);
      }
    } else {
      var cmds := AspectCmds(reply, decode, decodeRange).value;
      BlockShape(reply, decode, decodeRange);
      if cmds != [] {
        var name := reply.value["name"];
        AspectKeysDistinct(n, name);
        AspectKeysDistinct(name, n);
        if TagsKey(n) == TagsKey(name) {
          PrefixedInjective(AspectTagsPfx, n, name);
        }
        if WritersKey(n) == WritersKey(name) {
          PrefixedInjective(AspectWritersPfx, n, name);
        }
      }
      ExecAllFrame(db, cmds, k);
    }
  }

  /**
   * After a batch, `x` is in the tags (or writers) set of the name `n`
   * exactly when it was before, or the key could hold a set and some listed
   * aspect of that name has `x` among its decoded tags (or writers).
   */
  lemma {:induction false} BatchListsAdded(db: Db, replies: seq<Option<map<string, string>>>, decode: string -> Decoded,
                                           decodeRange: RangeDecoder, field: string, n: string, x: string)
    requires field == "tags" || field == "writers"
    requires BatchCmds(replies, decode, decodeRange).Success?
    ensures var k := ListKey(field, n);
      var after := ExecAll(db, BatchCmds(replies, decode, decodeRange).value);
      && (IsMember(after, k, x) <==>
            || IsMember(db, k, x)
            || (Settable(db, k) && AddedBy(replies, field, n, x, decode)))
      && (Settable(after, k) <==> Settable(db, k))
  {
    if replies != [] {
      var last := |replies| - 1;
      var init := replies[..last];
      BatchListsAdded(db, init, decode, decodeRange, field, n, x);
      var pc := BatchCmds(init, decode, decodeRange).value;
      var q := AspectCmds(replies[last], decode, decodeRange).value;
      ExecAllAppend(db, pc, q);
      BlockListAdded(ExecAll(db, pc), replies[last], decode, decodeRange, field, n, x);
      AddedBySnoc(replies, field, n, x, decode);
    }
  }

  /** A block's SADDs never go to a ranges key. */
  lemma BlockSAddsOffRanges(reply: Option<map<string, string>>, decode: string -> Decoded, decodeRange: RangeDecoder)
    requires AspectCmds(reply, decode, decodeRange).Success?
    ensures var cmds := AspectCmds(reply, decode, decodeRange).value;
      forall j :: 0 <= j < |cmds| && cmds[j].SAdd? ==> !StartsWith(AspectRangesPfx, cmds[j].key)
  {
    if reply.Some? && Listed(reply.value) {
      var asp := reply.value;
      var name := asp["name"];
      BlockParts(asp, decode, decodeRange);
      RangesOnKey(asp, RangesKey(name), 4, decodeRange);
      NotStartsWith(AspectRangesPfx, TagsKey(name), 10);
      NotStartsWith(AspectRangesPfx, WritersKey(name), 10);
      var tw := ListCmds(asp, "tags", TagsKey(name), decode, "Invalid tags values").value +
                ListCmds(asp, "writers", WritersKey(name), decode, "Invalid writers values").value;
      var r := RangesCmds(asp, RangesKey(name), 4, decodeRange).value;
      var cmds := AspectCmds(reply, decode, decodeRange).value;
      assert cmds == tw + r;
      forall j | 0 <= j < |cmds| ensures cmds[j].SAdd? ==> !StartsWith(AspectRangesPfx, cmds[j].key) {
        if j < |tw| {
          assert cmds[j] == tw[j];
        } else {
          assert cmds[j] == r[j - |tw|];
        }
      }
    }
  }

  /** The whole batch's SADDs never go to a ranges key. */
  lemma {:induction false} BatchSAddsOffRanges(replies: seq<Option<map<string, string>>>, decode: string -> Decoded,
                                               decodeRange: RangeDecoder)
    requires BatchCmds(replies, decode, decodeRange).Success?
    ensures var cmds := BatchCmds(replies, decode, decodeRange).value;
      forall j :: 0 <= j < |cmds| && cmds[j].SAdd? ==> !StartsWith(AspectRangesPfx, cmds[j].key)
  {
    if replies != [] {
      var init := replies[..|replies| - 1];
      var last := replies[|replies| - 1];
      BatchSAddsOffRanges(init, decode, decodeRange);
      BlockSAddsOffRanges(last, decode, decodeRange);
      var p := BatchCmds(init, decode, decodeRange).value;
      var q := AspectCmds(last, decode, decodeRange).value;
      var pq := p + q;
      forall j | 0 <= j < |pq| && pq[j].SAdd? ensures !StartsWith(AspectRangesPfx, pq[j].key) {
        if j < |p| {
          assert pq[j] == p[j];
        } else {
          assert pq[j] == q[j - |p|];
        }
      }
    }
  }

  /**
   * After a batch, every range a listed aspect gives has its minimum and
   * maximum members in the aspect's ranges sorted set, when that key held a
   * sorted set or nothing before.
   */
  lemma {:induction false} BatchRangesPresent(db: Db, replies: seq<Option<map<string, string>>>, decode: string -> Decoded,
                                              decodeRange: RangeDecoder, j: nat, i: nat)
    requires BatchCmds(replies, decode, decodeRange).Success?
    requires j < |replies| && replies[j].Some? && Listed(replies[j].value)
    requires i < 4 && Given(replies[j].value, RangeFields[i])
    requires RangesKey(replies[j].value["name"]) !in db || db[RangesKey(replies[j].value["name"])].ZSet?
    ensures var asp := replies[j].value;
      var rk := RangesKey(asp["name"]);
      var after := ExecAll(db, BatchCmds(replies, decode, decodeRange).value);
      && decodeRange(asp[RangeFields[i]]).Some?
      && var b := decodeRange(asp[RangeFields[i]]).value;
         var ks := RangeKeys(Statuses[i], b.0, b.1);
         rk in after && after[rk].ZSet? && ks.0 in after[rk].scores && ks.1 in after[rk].scores
  {
    var last := |replies| - 1;
    var init := replies[..last];
    var asp := replies[j].value;
    var rk := RangesKey(asp["name"]);
    var pc := BatchCmds(init, decode, decodeRange).value;
    var q := AspectCmds(replies[last], decode, decodeRange).value;
    ExecAllAppend(db, pc, q);
    var mid := ExecAll(db, pc);
    BlockShape(replies[last], decode, decodeRange);
    if j == last {
      BatchShape(init, decode, decodeRange);
      BatchSAddsOffRanges(init, decode, decodeRange);
      StartsWithSelf(AspectRangesPfx, ToLower(asp["name"]));
      ExecAllKeepsZSettable(db, pc, rk);
      AspectRangesScored(mid, asp, decode, decodeRange, i);
    } else {
      assert init[j] == replies[j];
      BatchRangesPresent(db, init, decode, decodeRange, j, i);
      ExecAllAdditiveKeeps(mid, q, rk);
    }
  }

  /**
   * The script's end state for tags and writers: a member is in a name's
   * set afterwards exactly when it was before, or the key could hold a set
   * and some listed aspect of that name decodes to a list holding it.
   */
  lemma PlanListsAdded(db: Db, decode: string -> Decoded, decodeRange: RangeDecoder, field: string, n: string, x: string)
    requires field == "tags" || field == "writers"
    requires Plan(db, decode, decodeRange).Success?
    ensures var replies := Replies(db, SMembersOf(db, AspectsKey).value);
      var k := ListKey(field, n);
      var after := ExecAll(db, Plan(db, decode, decodeRange).value);
      IsMember(after, k, x) <==>
        || IsMember(db, k, x)
        || (Settable(db, k) && exists j :: 0 <= j < |replies| && AddsTo(replies[j], field, n, x, decode))
  {
    BatchListsAdded(db, Replies(db, SMembersOf(db, AspectsKey).value), decode, decodeRange, field, n, x);
  }

  /**
   * The script's end state for ranges: every range of every listed aspect
   * has its two members in the ranges sorted set, when that key held a
   * sorted set or nothing before.
   */
  lemma PlanRangesPresent(db: Db, decode: string -> Decoded, decodeRange: RangeDecoder, j: nat, i: nat)
    requires Plan(db, decode, decodeRange).Success?
    requires var replies := Replies(db, SMembersOf(db, AspectsKey).value);
      && j < |replies| && replies[j].Some? && Listed(replies[j].value)
      && i < 4 && Given(replies[j].value, RangeFields[i])
      && (RangesKey(replies[j].value["name"]) !in db || db[RangesKey(replies[j].value["name"])].ZSet?)
    ensures var asp := Replies(db, SMembersOf(db, AspectsKey).value)[j].value;
      var rk := RangesKey(asp["name"]);
      var after := ExecAll(db, Plan(db, decode, decodeRange).value);
      && decodeRange(asp[RangeFields[i]]).Some?
      && var b := decodeRange(asp[RangeFields[i]]).value;
         var ks := RangeKeys(Statuses[i], b.0, b.1);
         rk in after && after[rk].ZSet? && ks.0 in after[rk].scores && ks.1 in after[rk].scores
  {
    BatchRangesPresent(db, Replies(db, SMembersOf(db, AspectsKey).value), decode, decodeRange, j, i);
  }
}
