/**
 * The part of Redis the sample store maintenance code talks to, as a map
 * from keys to typed values, with the semantics of the commands it issues
 * (SCAN with a `prefix*` pattern, EXISTS, HGETALL, SMEMBERS, SISMEMBER,
 * SADD, SREM, DEL, SET, ZADD) and of a MULTI batch of commands.
 */
module Store {
  import opened Wrappers
  import opened Text

  /** A Redis value: a hash, a set (kept in insertion order), a string or a sorted set. */
  datatype Value =
    | Hash(fields: map<string, string>)
    | Set(members: seq<string>)
    | Str(text: string)
    | ZSet(scores: map<string, real>)

  type Db = map<string, Value>

  /** Redis never keeps an empty set, and a set has no repeated member. */
  predicate WellFormed(db: Db) {
    forall k :: k in db && db[k].Set? ==> db[k].members != [] && NoDup(db[k].members)
  }

  /** The keys a `SCAN MATCH pfx*` visits. */
  function Matching(db: Db, pfx: string): set<string> {
    set k | k in db && StartsWith(pfx, k)
  }

  /** `keys` is one complete scan: every matching key exactly once, in some order. */
  ghost predicate IsScanOf(keys: seq<string>, db: Db, pfx: string) {
    NoDup(keys) && forall k :: k in keys <==> k in db && StartsWith(pfx, k)
  }

  lemma ScanCard(keys: seq<string>, db: Db, pfx: string)
    requires IsScanOf(keys, db, pfx)
    ensures |keys| == |Matching(db, pfx)|
  {
    NoDupCard(keys);
    assert (set x | x in keys) == Matching(db, pfx);
  }

  /** SMEMBERS: a missing key reads as the empty set, any other type is an error. */
  function SMembersOf(db: Db, key: string): Result<seq<string>> {
    if key !in db then Success([])
    else if db[key].Set? then Success(db[key].members)
    else Failure("WRONGTYPE")
  }

  /** HGETALL: a missing key reads as the empty hash, any other type is an error. */
  function HGetAllOf(db: Db, key: string): Option<map<string, string>> {
    if key !in db then Some(map[])
    else if db[key].Hash? then Some(db[key].fields)
    else None
  }

  /** The replies of one HGETALL per key. */
  function Replies(db: Db, keys: seq<string>): (rs: seq<Option<map<string, string>>>)
    ensures |rs| == |keys| && forall i :: 0 <= i < |keys| ==> rs[i] == HGetAllOf(db, keys[i])
  {
    seq(|keys|, i requires 0 <= i < |keys| => HGetAllOf(db, keys[i]))
  }

  /** SISMEMBER answering 1; a missing key or another type does not. */
  predicate IsMember(db: Db, key: string, m: string) {
    key in db && db[key].Set? && m in db[key].members
  }

  /** `key` holds a set or nothing, so SADD to it succeeds. */
  predicate Settable(db: Db, key: string) {
    key !in db || db[key].Set?
  }

  /** SADD key m: a new member is appended; another type makes the command fail. */
  function SAddTo(db: Db, key: string, m: string): Db {
    if key !in db then db[key := Set([m])]
    else if !db[key].Set? then db
    else if m in db[key].members then db
    else db[key := Set(db[key].members + [m])]
  }

  /** SADD key m1 m2 ...: the members one after another. */
  function SAddEach(db: Db, key: string, ms: seq<string>): Db {
    if ms == [] then db else SAddTo(SAddEach(db, key, ms[..|ms| - 1]), key, ms[|ms| - 1])
  }

  /** A pipeline of single-member SADDs, one per (key, member) pair, in order. */
  function SAddAll(db: Db, pairs: seq<(string, string)>): Db {
    if pairs == [] then db
    else
      var last := pairs[|pairs| - 1];
      SAddTo(SAddAll(db, pairs[..|pairs| - 1]), last.0, last.1)
  }

  /** `ms` with every member of `gone` removed, order kept. */
  function Without(ms: seq<string>, gone: set<string>): seq<string> {
    if ms == [] then [] else (if ms[0] in gone then [] else [ms[0]]) + Without(ms[1..], gone)
  }

  /** The members left are the old ones not in `gone`. */
  lemma {:induction false} WithoutMembers(ms: seq<string>, gone: set<string>)
    ensures forall x :: x in Without(ms, gone) <==> x in ms && x !in gone
  {
    if ms != [] {
      WithoutMembers(ms[1..], gone);
      assert ms == [ms[0]] + ms[1..];
    }
  }

  /** SREM of every member of `gone` from the set at `key`; an emptied set disappears. */
  function Unlist(db: Db, key: string, gone: set<string>): Db {
    if key !in db || !db[key].Set? then db
    else
      var rest := Without(db[key].members, gone);
      if rest == db[key].members then db
      else if rest == [] then db - {key}
      else db[key := Set(rest)]
  }

  /** SREM key m */
  function SRemFrom(db: Db, key: string, m: string): Db {
    Unlist(db, key, {m})
  }

  /** ZADD key score member: sets the score; another type makes the command fail. */
  function ZAddTo(db: Db, key: string, score: real, member: string): Db {
    if key !in db then db[key := ZSet(map[member := score])]
    else if db[key].ZSet? then db[key := ZSet(db[key].scores[member := score])]
    else db
  }

  /** A command queued in a MULTI batch. */
  datatype Cmd =
    | Del(key: string)
    | SAdd(key: string, members: seq<string>)
    | SetStr(key: string, value: string)
    | ZAdd(key: string, score: real, member: string)

  function Apply(db: Db, c: Cmd): Db {
    match c
    case Del(k) => db - {k}
    case SAdd(k, ms) => SAddEach(db, k, ms)
    case SetStr(k, v) => db[k := Str(v)]
    case ZAdd(k, s, m) => ZAddTo(db, k, s, m)
  }

  /** EXEC of a batch: every command in order; one that fails changes nothing and the rest go on. */
  function ExecAll(db: Db, cmds: seq<Cmd>): Db {
    if cmds == [] then db else Apply(ExecAll(db, cmds[..|cmds| - 1]), cmds[|cmds| - 1])
  }

  // ---------------------------------------------------------------------
  // Properties of the commands
  // ---------------------------------------------------------------------

  /** SADD adds exactly the member, and only when the key holds a set or nothing. */
  lemma SAddToMeaning(db: Db, key: string, m: string, k: string, x: string)
    ensures IsMember(SAddTo(db, key, m), k, x) <==>
      IsMember(db, k, x) || (k == key && x == m && Settable(db, key))
    ensures k != key ==> (k in SAddTo(db, key, m) <==> k in db)
    ensures k != key && k in db ==> SAddTo(db, key, m)[k] == db[k]
  {
  }

  /** The members a pipeline of SADDs leaves: the old ones plus every pair whose key can hold a set. */
  lemma {:induction false} SAddAllMeaning(db: Db, pairs: seq<(string, string)>, k: string, x: string)
    ensures IsMember(SAddAll(db, pairs), k, x) <==>
      IsMember(db, k, x) || ((k, x) in pairs && Settable(db, k))
  {
    if pairs != [] {
      var init := pairs[..|pairs| - 1];
      var last := pairs[|pairs| - 1];
      SAddAllMeaning(db, init, k, x);
      SAddAllSettable(db, init, k);
      SAddToMeaning(SAddAll(db, init), last.0, last.1, k, x);
      assert pairs == init + [last];
    }
  }

  /** The members a multi-member SADD leaves: the old ones, plus the new ones when the key can hold a set. */
  lemma {:induction false} SAddEachMeaning(db: Db, key: string, ms: seq<string>, x: string)
    ensures IsMember(SAddEach(db, key, ms), key, x) <==> IsMember(db, key, x) || (x in ms && Settable(db, key))
    ensures Settable(SAddEach(db, key, ms), key) <==> Settable(db, key)
  {
    if ms != [] {
      var init := ms[..|ms| - 1];
      SAddEachMeaning(db, key, init, x);
      SAddToMeaning(SAddEach(db, key, init), key, ms[|ms| - 1], key, x);
      assert ms == init + [ms[|ms| - 1]];
    }
  }

  /** Whether a key can hold a set does not change under SADD. */
  lemma {:induction false} SAddAllSettable(db: Db, pairs: seq<(string, string)>, k: string)
    ensures Settable(SAddAll(db, pairs), k) <==> Settable(db, k)
  {
    if pairs != [] {
      SAddAllSettable(db, pairs[..|pairs| - 1], k);
    }
  }

  /** A key no pair names is left as it was. */
  lemma {:induction false} SAddAllFrame(db: Db, pairs: seq<(string, string)>, k: string)
    requires forall i :: 0 <= i < |pairs| ==> pairs[i].0 != k
    ensures k in SAddAll(db, pairs) <==> k in db
    ensures k in db ==> SAddAll(db, pairs)[k] == db[k]
  {
    if pairs != [] {
      SAddAllFrame(db, pairs[..|pairs| - 1], k);
    }
  }

  lemma {:induction false} SAddAllAppend(db: Db, p: seq<(string, string)>, q: seq<(string, string)>)
    ensures SAddAll(db, p + q) == SAddAll(SAddAll(db, p), q)
  {
    if q == [] {
      assert p + q == p;
    } else {
      assert (p + q)[..|p + q| - 1] == p + q[..|q| - 1];
      SAddAllAppend(db, p, q[..|q| - 1]);
    }
  }

  /** SADD onto a missing key creates the de-duplicated members, in order. */
  lemma {:induction false} SAddEachFresh(db: Db, key: string, ms: seq<string>)
    requires key !in db && ms != []
    ensures SAddEach(db, key, ms) == db[key := Set(Dedup(ms))]
  {
    var init := ms[..|ms| - 1];
    var x := ms[|ms| - 1];
    if init == [] {
      assert Dedup(ms) == [x];
      assert SAddEach(db, key, ms) == SAddTo(db, key, x);
    } else {
      SAddEachFresh(db, key, init);
      var d := Dedup(init);
      var db1 := db[key := Set(d)];
      assert SAddEach(db, key, ms) == SAddTo(db1, key, x);
      assert Dedup(ms) == if x in d then d else d + [x];
      if x !in d {
        assert db1[key := Set(d + [x])] == db[key := Set(d + [x])];
      }
    }
  }

  /** SADD onto a set keeps the old members first and appends the new ones once each. */
  lemma {:induction false} SAddEachSet(db: Db, key: string, ms: seq<string>)
    requires key in db && db[key].Set? && NoDup(db[key].members)
    ensures SAddEach(db, key, ms) == db[key := Set(Dedup(db[key].members + ms))]
  {
    var old0 := db[key].members;
    if ms == [] {
      DedupOfNoDup(old0);
      assert old0 + ms == old0;
    } else {
      var init := ms[..|ms| - 1];
      var x := ms[|ms| - 1];
      SAddEachSet(db, key, init);
      assert old0 + ms == (old0 + init) + [x];
    }
  }

  /** SADD on a key of another type changes nothing. */
  lemma {:induction false} SAddEachWrongType(db: Db, key: string, ms: seq<string>)
    requires key in db && !db[key].Set?
    ensures SAddEach(db, key, ms) == db
  {
    if ms != [] {
      SAddEachWrongType(db, key, ms[..|ms| - 1]);
    }
  }

  lemma {:induction false} SAddEachFrame(db: Db, key: string, ms: seq<string>, k: string)
    requires k != key
    ensures k in SAddEach(db, key, ms) <==> k in db
    ensures k in db ==> SAddEach(db, key, ms)[k] == db[k]
  {
    if ms != [] {
      SAddEachFrame(db, key, ms[..|ms| - 1], k);
    }
  }

  lemma {:induction false} WithoutNothing(ms: seq<string>)
    ensures Without(ms, {}) == ms
  {
    if ms != [] {
      WithoutNothing(ms[1..]);
      assert ms == [ms[0]] + ms[1..];
    }
  }

  /** Removing members none of which is there changes nothing. */
  lemma {:induction false} WithoutNone(ms: seq<string>, gone: set<string>)
    requires forall x :: x in ms ==> x !in gone
    ensures Without(ms, gone) == ms
  {
    if ms != [] {
      WithoutNone(ms[1..], gone);
      assert ms == [ms[0]] + ms[1..];
    }
  }

  /** Removing all the members leaves nothing. */
  lemma {:induction false} WithoutAll(ms: seq<string>, gone: set<string>)
    requires forall x :: x in ms ==> x in gone
    ensures Without(ms, gone) == []
  {
    if ms != [] {
      WithoutAll(ms[1..], gone);
      assert ms[0] in ms;
    }
  }

  lemma {:induction false} WithoutUnion(ms: seq<string>, a: set<string>, b: set<string>)
    ensures Without(Without(ms, a), b) == Without(ms, a + b)
  {
    if ms != [] {
      WithoutUnion(ms[1..], a, b);
      var head := if ms[0] in a then [] else [ms[0]];
      WithoutAppend(head, Without(ms[1..], a), b);
      if ms[0] !in a {
        assert Without(head, b) == (if ms[0] in b then [] else [ms[0]]) by {
          assert head[1..] == [];
        }
      }
    }
  }

  lemma {:induction false} WithoutAppend(p: seq<string>, q: seq<string>, gone: set<string>)
    ensures Without(p + q, gone) == Without(p, gone) + Without(q, gone)
  {
    if p == [] {
      assert p + q == q;
    } else {
      var head := if p[0] in gone then [] else [p[0]];
      assert (p + q)[1..] == p[1..] + q;
      assert (p + q)[0] == p[0];
      assert Without(p + q, gone) == head + Without(p[1..] + q, gone);
      WithoutAppend(p[1..], q, gone);
      assert Without(p, gone) == head + Without(p[1..], gone);
    }
  }

  lemma {:induction false} WithoutNoDup(ms: seq<string>, gone: set<string>)
    requires NoDup(ms)
    ensures NoDup(Without(ms, gone))
  {
    if ms != [] {
      WithoutNoDup(ms[1..], gone);
      WithoutMembers(ms[1..], gone);
      assert ms[0] !in ms[1..];
      assert NoDup(ms[1..]);
      var head := if ms[0] in gone then [] else [ms[0]];
      assert Without(ms, gone) == head + Without(ms[1..], gone);
    }
  }

  /** Removing members in two rounds is removing them all at once. */
  lemma UnlistUnion(db: Db, key: string, a: set<string>, b: set<string>)
    ensures Unlist(Unlist(db, key, a), key, b) == Unlist(db, key, a + b)
  {
    if key in db && db[key].Set? {
      var ms := db[key].members;
      WithoutUnion(ms, a, b);
      WithoutShorter(ms, a);
      WithoutShorter(Without(ms, a), b);
    }
  }

  /** Removing members either changes nothing or shortens the list. */
  lemma {:induction false} WithoutShorter(ms: seq<string>, gone: set<string>)
    ensures |Without(ms, gone)| <= |ms|
    ensures Without(ms, gone) != ms ==> |Without(ms, gone)| < |ms|
  {
    if ms != [] {
      WithoutShorter(ms[1..], gone);
      assert ms == [ms[0]] + ms[1..];
    }
  }

  lemma UnlistNothing(db: Db, key: string)
    ensures Unlist(db, key, {}) == db
  {
    if key in db && db[key].Set? {
      WithoutNothing(db[key].members);
    }
  }

  /** Removing members of one set and deleting another key commute. */
  lemma UnlistDel(db: Db, key: string, gone: set<string>, k: string)
    requires k != key
    ensures Unlist(db, key, gone) - {k} == Unlist(db - {k}, key, gone)
  {
  }

  /** After removing `gone`, the set at `key` has exactly its other members. */
  lemma UnlistMembers(db: Db, key: string, gone: set<string>, k: string, x: string)
    ensures IsMember(Unlist(db, key, gone), k, x) <==> IsMember(db, k, x) && (k == key ==> x !in gone)
    ensures k != key ==> (k in Unlist(db, key, gone) <==> k in db)
    ensures k != key && k in db ==> Unlist(db, key, gone)[k] == db[k]
  {
    if key in db && db[key].Set? {
      WithoutMembers(db[key].members, gone);
    }
  }

  /** Every command keeps the store well formed. */
  lemma ApplyWellFormed(db: Db, c: Cmd)
    requires WellFormed(db)
    ensures WellFormed(Apply(db, c))
  {
    if c.SAdd? {
      if c.key !in db {
        if c.members != [] {
          SAddEachFresh(db, c.key, c.members);
        }
      } else if db[c.key].Set? {
        SAddEachSet(db, c.key, c.members);
      } else {
        SAddEachWrongType(db, c.key, c.members);
      }
    }
  }

  lemma {:induction false} ExecAllWellFormed(db: Db, cmds: seq<Cmd>)
    requires WellFormed(db)
    ensures WellFormed(ExecAll(db, cmds))
  {
    if cmds != [] {
      ExecAllWellFormed(db, cmds[..|cmds| - 1]);
      ApplyWellFormed(ExecAll(db, cmds[..|cmds| - 1]), cmds[|cmds| - 1]);
    }
  }

  lemma UnlistWellFormed(db: Db, key: string, gone: set<string>)
    requires WellFormed(db)
    ensures WellFormed(Unlist(db, key, gone))
  {
    if key in db && db[key].Set? {
      WithoutNoDup(db[key].members, gone);
    }
  }

  /** A batch with one more command at the end. */
  lemma ExecAllSnoc(db: Db, cmds: seq<Cmd>, c: Cmd)
    ensures ExecAll(db, cmds + [c]) == Apply(ExecAll(db, cmds), c)
  {
    assert (cmds + [c])[..|cmds|] == cmds;
  }

  /** Running two batches is running their concatenation. */
  lemma {:induction false} ExecAllAppend(db: Db, p: seq<Cmd>, q: seq<Cmd>)
    ensures ExecAll(db, p + q) == ExecAll(ExecAll(db, p), q)
  {
    if q == [] {
      assert p + q == p;
    } else {
      assert (p + q)[..|p + q| - 1] == p + q[..|q| - 1];
      ExecAllAppend(db, p, q[..|q| - 1]);
    }
  }

  /** The keys a batch names. */
  function CmdKeys(cmds: seq<Cmd>): set<string> {
    set i | 0 <= i < |cmds| :: cmds[i].key
  }

  lemma CmdKeysSnoc(cmds: seq<Cmd>, c: Cmd)
    ensures CmdKeys(cmds + [c]) == CmdKeys(cmds) + {c.key}
  {
    var all := cmds + [c];
    forall x | x in CmdKeys(all) ensures x in CmdKeys(cmds) + {c.key} {
      var i :| 0 <= i < |all| && all[i].key == x;
      if i < |cmds| {
        assert all[i] == cmds[i];
      }
    }
    forall x | x in CmdKeys(cmds) ensures x in CmdKeys(all) {
      var i :| 0 <= i < |cmds| && cmds[i].key == x;
      assert all[i] == cmds[i];
    }
    assert all[|cmds|] == c;
  }

  /** A batch of DELs removes exactly the keys it names. */
  lemma {:induction false} ExecAllDels(db: Db, cmds: seq<Cmd>)
    requires forall i :: 0 <= i < |cmds| ==> cmds[i].Del?
    ensures ExecAll(db, cmds) == db - CmdKeys(cmds)
  {
    if cmds == [] {
      assert CmdKeys(cmds) == {};
    } else {
      var init := cmds[..|cmds| - 1];
      ExecAllDels(db, init);
      assert cmds == init + [cmds[|cmds| - 1]];
      CmdKeysSnoc(init, cmds[|cmds| - 1]);
    }
  }

  /** A key no command names is left as it was. */
  lemma {:induction false} ExecAllFrame(db: Db, cmds: seq<Cmd>, k: string)
    requires forall i :: 0 <= i < |cmds| ==> cmds[i].key != k
    ensures k in ExecAll(db, cmds) <==> k in db
    ensures k in db ==> ExecAll(db, cmds)[k] == db[k]
  {
    if cmds != [] {
      var init := cmds[..|cmds| - 1];
      ExecAllFrame(db, init, k);
      var c := cmds[|cmds| - 1];
      if c.SAdd? {
        SAddEachFrame(ExecAll(db, init), c.key, c.members, k);
      }
    }
  }

  /** A batch of SADDs and ZADDs only: it adds to sets and sorted sets and never removes. */
  predicate Additive(cmds: seq<Cmd>) {
    forall i :: 0 <= i < |cmds| ==> cmds[i].SAdd? || cmds[i].ZAdd?
  }

  /** What an additive batch keeps of a key: the key, its type, its set members and its scored members. */
  predicate Keeps(db1: Db, db2: Db, k: string) {
    k in db1 ==>
      && k in db2
      && (db1[k].Set? <==> db2[k].Set?)
      && (db1[k].ZSet? <==> db2[k].ZSet?)
      && (db1[k].Hash? ==> db2[k] == db1[k])
      && (db1[k].Str? ==> db2[k] == db1[k])
      && (db1[k].Set? ==> forall x :: x in db1[k].members ==> x in db2[k].members)
      && (db1[k].ZSet? ==> db1[k].scores.Keys <= db2[k].scores.Keys)
  }

  lemma {:induction false} SAddEachKeeps(db: Db, key: string, ms: seq<string>, k: string)
    ensures Keeps(db, SAddEach(db, key, ms), k)
  {
    if ms != [] {
      var init := ms[..|ms| - 1];
      SAddEachKeeps(db, key, init, k);
    }
  }

  /** An additive batch removes nothing: no key, no type change, no member, no scored member. */
  lemma {:induction false} ExecAllAdditiveKeeps(db: Db, cmds: seq<Cmd>, k: string)
    requires Additive(cmds)
    ensures Keeps(db, ExecAll(db, cmds), k)
  {
    if cmds != [] {
      var init := cmds[..|cmds| - 1];
      var c := cmds[|cmds| - 1];
      ExecAllAdditiveKeeps(db, init, k);
      if c.SAdd? {
        SAddEachKeeps(ExecAll(db, init), c.key, c.members, k);
      }
    }
  }

  /** ZADDs to one key that holds a sorted set or nothing leave a sorted set there. */
  lemma {:induction false} ZAddsKeepZSet(db: Db, cmds: seq<Cmd>, key: string)
    requires forall l :: 0 <= l < |cmds| ==> cmds[l].ZAdd? && cmds[l].key == key
    requires key !in db || db[key].ZSet?
    ensures var after := ExecAll(db, cmds);
      && (key in db || cmds != [] ==> key in after)
      && (key in after ==> after[key].ZSet?)
  {
    if cmds != [] {
      ZAddsKeepZSet(db, cmds[..|cmds| - 1], key);
    }
  }

  /** Commands that only ZADD to `key`, when they name it at all, leave a sorted set or nothing there. */
  lemma {:induction false} ExecAllKeepsZSettable(db: Db, cmds: seq<Cmd>, key: string)
    requires forall l :: 0 <= l < |cmds| && cmds[l].key == key ==> cmds[l].ZAdd?
    requires key !in db || db[key].ZSet?
    ensures var after := ExecAll(db, cmds); key !in after || after[key].ZSet?
  {
    if cmds != [] {
      var init := cmds[..|cmds| - 1];
      var c := cmds[|cmds| - 1];
      ExecAllKeepsZSettable(db, init, key);
      if c.SAdd? {
        SAddEachFrame(ExecAll(db, init), c.key, c.members, key);
      }
    }
  }

  /** After ZADDs to one sorted set, a member's score is the one its last ZADD gave it. */
  lemma {:induction false} ZAddsScores(db: Db, cmds: seq<Cmd>, key: string, j: nat)
    requires forall l :: 0 <= l < |cmds| ==> cmds[l].ZAdd? && cmds[l].key == key
    requires key !in db || db[key].ZSet?
    requires j < |cmds|
    requires forall l :: j < l < |cmds| ==> cmds[l].member != cmds[j].member
    ensures var after := ExecAll(db, cmds);
      && key in after && after[key].ZSet?
      && cmds[j].member in after[key].scores && after[key].scores[cmds[j].member] == cmds[j].score
  {
    var init := cmds[..|cmds| - 1];
    ZAddsKeepZSet(db, init, key);
    if j < |cmds| - 1 {
      ZAddsScores(db, init, key, j);
    }
  }

  /** Command `i`'s key is DELeted by that command or an earlier one. */
  predicate ClearedAt(cmds: seq<Cmd>, i: nat)
    requires i < |cmds|
  {
    Del(cmds[i].key) in cmds[..i + 1]
  }

  /** Every command's key is DELeted by the same or an earlier command of the batch. */
  predicate SelfClearing(cmds: seq<Cmd>) {
    forall i :: 0 <= i < |cmds| ==> ClearedAt(cmds, i)
  }

  lemma SelfClearingAppend(p: seq<Cmd>, q: seq<Cmd>)
    requires SelfClearing(p) && SelfClearing(q)
    ensures SelfClearing(p + q)
  {
    var pq := p + q;
    forall i | 0 <= i < |pq| ensures ClearedAt(pq, i) {
      if i < |p| {
        assert pq[..i + 1] == p[..i + 1];
        assert pq[i] == p[i];
        assert ClearedAt(p, i);
      } else {
        var n := i - |p|;
        assert pq[..i + 1] == p + q[..n + 1];
        assert pq[i] == q[n];
        assert ClearedAt(q, n);
      }
    }
  }

  /** A batch that starts by deleting the only two keys it names is self-clearing. */
  lemma SelfClearingTwoKeys(cmds: seq<Cmd>, a: string, b: string)
    requires |cmds| >= 2 && cmds[0] == Del(a) && cmds[1] == Del(b)
    requires forall i :: 0 <= i < |cmds| ==> cmds[i].key == a || cmds[i].key == b
    ensures SelfClearing(cmds)
  {
    forall i | 0 <= i < |cmds| ensures ClearedAt(cmds, i) {
      assert cmds[..i + 1][0] == Del(a);
      if i >= 1 {
        assert cmds[..i + 1][1] == Del(b);
      }
    }
  }

  lemma SelfClearingPrefix(cmds: seq<Cmd>, n: nat)
    requires SelfClearing(cmds) && n <= |cmds|
    ensures SelfClearing(cmds[..n])
  {
    var p := cmds[..n];
    forall i | 0 <= i < |p| ensures ClearedAt(p, i) {
      assert p[..i + 1] == cmds[..i + 1];
      assert ClearedAt(cmds, i);
    }
  }

  /** The two stores hold the same at `k`. */
  predicate SameAt(db1: Db, db2: Db, k: string) {
    (k in db1 <==> k in db2) && (k in db1 ==> db1[k] == db2[k])
  }

  /** The two stores hold the same everywhere outside `s`. */
  ghost predicate AgreeOutside(db1: Db, db2: Db, s: set<string>) {
    forall k :: k !in s ==> SameAt(db1, db2, k)
  }

  lemma AgreeEverywhere(db1: Db, db2: Db)
    requires AgreeOutside(db1, db2, {})
    ensures db1 == db2
  {
    forall k ensures (k in db1 <==> k in db2) && (k in db1 ==> db1[k] == db2[k]) {
      assert k !in {};
      assert SameAt(db1, db2, k);
    }
  }

  /** What SADD leaves at its key depends only on what was there. */
  lemma {:induction false} SAddEachAt(db1: Db, db2: Db, key: string, ms: seq<string>)
    requires SameAt(db1, db2, key)
    ensures SameAt(SAddEach(db1, key, ms), SAddEach(db2, key, ms), key)
  {
    if ms != [] {
      SAddEachAt(db1, db2, key, ms[..|ms| - 1]);
    }
  }

  /** Every command only reads and writes its own key. */
  lemma ApplyLocal(db1: Db, db2: Db, s: set<string>, c: Cmd)
    requires c.key !in s && AgreeOutside(db1, db2, s)
    ensures AgreeOutside(Apply(db1, c), Apply(db2, c), s)
  {
    assert SameAt(db1, db2, c.key);
    forall k | k !in s ensures SameAt(Apply(db1, c), Apply(db2, c), k) {
      assert SameAt(db1, db2, k);
      if c.SAdd? {
        if k == c.key {
          SAddEachAt(db1, db2, k, c.members);
        } else {
          SAddEachFrame(db1, c.key, c.members, k);
          SAddEachFrame(db2, c.key, c.members, k);
        }
      }
    }
  }

  /** A DEL makes the two stores agree at its key. */
  lemma DelAgrees(db1: Db, db2: Db, s: set<string>, k: string)
    requires AgreeOutside(db1, db2, s)
    ensures AgreeOutside(Apply(db1, Del(k)), Apply(db2, Del(k)), s - {k})
  {
    forall x | x !in s - {k} ensures SameAt(Apply(db1, Del(k)), Apply(db2, Del(k)), x) {
      if x != k {
        assert SameAt(db1, db2, x);
      }
    }
  }

  /** One more command of a self-clearing batch keeps the stores agreeing outside the keys not yet named. */
  lemma ForgetStep(e1: Db, e2: Db, s: set<string>, named: set<string>, c: Cmd)
    requires AgreeOutside(e1, e2, s - named)
    requires c == Del(c.key) || c.key in named
    ensures AgreeOutside(Apply(e1, c), Apply(e2, c), s - (named + {c.key}))
  {
    if c.key in named {
      assert s - (named + {c.key}) == s - named;
      ApplyLocal(e1, e2, s - named, c);
    } else {
      assert s - (named + {c.key}) == (s - named) - {c.key};
      DelAgrees(e1, e2, s - named, c.key);
    }
  }

  /** The last command of a self-clearing batch is a DEL or names a key an earlier command names. */
  lemma SelfClearingLast(cmds: seq<Cmd>)
    requires SelfClearing(cmds) && cmds != []
    ensures var c := cmds[|cmds| - 1];
      c == Del(c.key) || c.key in CmdKeys(cmds[..|cmds| - 1])
  {
    var n := |cmds| - 1;
    var c := cmds[n];
    assert ClearedAt(cmds, n);
    if c != Del(c.key) {
      var j :| 0 <= j < n + 1 && cmds[..n + 1][j] == Del(c.key);
      assert j < n && cmds[..n][j] == cmds[j];
    }
  }

  /** The last command keeps the agreement outside the named keys, when it is a DEL or names an earlier command's key. */
  lemma ForgetLast(db1: Db, db2: Db, s: set<string>, cmds: seq<Cmd>)
    requires cmds != []
    requires AgreeOutside(ExecAll(db1, cmds[..|cmds| - 1]), ExecAll(db2, cmds[..|cmds| - 1]), s - CmdKeys(cmds[..|cmds| - 1]))
    requires var c := cmds[|cmds| - 1]; c == Del(c.key) || c.key in CmdKeys(cmds[..|cmds| - 1])
    ensures AgreeOutside(ExecAll(db1, cmds), ExecAll(db2, cmds), s - CmdKeys(cmds))
  {
    var init := cmds[..|cmds| - 1];
    var c := cmds[|cmds| - 1];
    assert cmds == init + [c];
    CmdKeysSnoc(init, c);
    ForgetStep(ExecAll(db1, init), ExecAll(db2, init), s, CmdKeys(init), c);
  }

  /**
   * Two stores that differ only on the keys `s` differ, after a
   * self-clearing batch, only on the keys of `s` the batch does not name.
   */
  lemma {:induction false} ExecAllForgets(db1: Db, db2: Db, s: set<string>, cmds: seq<Cmd>)
    requires SelfClearing(cmds) && AgreeOutside(db1, db2, s)
    ensures AgreeOutside(ExecAll(db1, cmds), ExecAll(db2, cmds), s - CmdKeys(cmds))
  {
    if cmds == [] {
      assert CmdKeys(cmds) == {};
      assert s - {} == s;
    } else {
      SelfClearingPrefix(cmds, |cmds| - 1);
      ExecAllForgets(db1, db2, s, cmds[..|cmds| - 1]);
      SelfClearingLast(cmds);
      ForgetLast(db1, db2, s, cmds);
    }
  }

  /** Running a self-clearing batch a second time changes nothing more. */
  lemma ExecAllIdempotent(db: Db, cmds: seq<Cmd>)
    requires SelfClearing(cmds)
    ensures ExecAll(ExecAll(db, cmds), cmds) == ExecAll(db, cmds)
  {
    var after := ExecAll(db, cmds);
    var keys := CmdKeys(cmds);
    forall k | k !in keys ensures SameAt(after, db, k) {
      forall i | 0 <= i < |cmds| ensures cmds[i].key != k {
        assert cmds[i].key in keys;
      }
      ExecAllFrame(db, cmds, k);
    }
    ExecAllForgets(after, db, keys, cmds);
    assert keys - keys == {};
    AgreeEverywhere(ExecAll(after, cmds), ExecAll(db, cmds));
  }

  /** Deleting every key with a prefix. */
  function DeleteMatching(db: Db, pfx: string): (r: Db)
    ensures Matching(r, pfx) == {}
    ensures forall k :: k in r <==> k in db && !StartsWith(pfx, k)
    ensures forall k :: k in r ==> r[k] == db[k]
  {
    db - Matching(db, pfx)
  }

  lemma DeleteMatchingIdempotent(db: Db, pfx: string)
    ensures DeleteMatching(DeleteMatching(db, pfx), pfx) == DeleteMatching(db, pfx)
  {
    assert Matching(DeleteMatching(db, pfx), pfx) == {};
  }

  // ---------------------------------------------------------------------
  // A Redis connection
  // ---------------------------------------------------------------------

  /** A connection to Redis; `db` is the store's content. */
  class Redis {
    var db: Db

    constructor(db0: Db)
      ensures db == db0
    {
      db := db0;
    }

    /** A complete `SCAN MATCH pfx*`, the batches concatenated. */
    method Scan(pfx: string) returns (keys: seq<string>)
      ensures IsScanOf(keys, db, pfx)
    {
      var rest := Matching(db, pfx);
      keys := [];
      while rest != {}
        invariant NoDup(keys)
        invariant rest <= Matching(db, pfx)
        invariant forall k :: k in keys <==> k in Matching(db, pfx) && k !in rest
        decreases |rest|
      {
        var k :| k in rest;
        keys := keys + [k];
        rest := rest - {k};
      }
    }

    method Exists(key: string) returns (b: bool)
      ensures b <==> key in db
    {
      b := key in db;
    }

    method SMembers(key: string) returns (r: Result<seq<string>>)
      ensures r == SMembersOf(db, key)
    {
      r := SMembersOf(db, key);
    }

    method HGetAll(key: string) returns (r: Option<map<string, string>>)
      ensures r == HGetAllOf(db, key)
    {
      r := HGetAllOf(db, key);
    }

    /** One HGETALL per key, in one MULTI batch. */
    method HGetAllBatch(keys: seq<string>) returns (replies: seq<Option<map<string, string>>>)
      ensures replies == Replies(db, keys)
    {
      replies := [];
      var i := 0;
      while i < |keys|
        invariant 0 <= i <= |keys|
        invariant replies == Replies(db, keys[..i])
      {
        var h := HGetAll(keys[i]);
        replies := replies + [h];
        i := i + 1;
      }
      assert keys[..i] == keys;
    }

    method SIsMember(key: string, m: string) returns (b: bool)
      ensures b <==> IsMember(db, key, m)
    {
      b := IsMember(db, key, m);
    }

    method SAdd(key: string, m: string)
      modifies this
      ensures db == SAddTo(old(db), key, m)
    {
      db := SAddTo(db, key, m);
    }

    method SRem(key: string, m: string)
      modifies this
      ensures db == SRemFrom(old(db), key, m)
    {
      db := SRemFrom(db, key, m);
    }

    method Del(key: string)
      modifies this
      ensures db == old(db) - {key}
    {
      db := db - {key};
    }

    /** A pipeline of single-member SADDs. */
    method SAddPipeline(pairs: seq<(string, string)>)
      modifies this
      ensures db == SAddAll(old(db), pairs)
    {
      var k := 0;
      while k < |pairs|
        invariant 0 <= k <= |pairs|
        invariant db == SAddAll(old(db), pairs[..k])
      {
        SAdd(pairs[k].0, pairs[k].1);
        assert pairs[..k + 1][..k] == pairs[..k];
        k := k + 1;
      }
      assert pairs[..k] == pairs;
    }

    /** DEL k1 k2 ... */
    method DelMany(keys: seq<string>)
      modifies this
      ensures db == old(db) - (set k | k in keys)
    {
      db := db - (set k | k in keys);
    }

    /** MULTI ... EXEC */
    method Exec(cmds: seq<Cmd>)
      modifies this
      ensures db == ExecAll(old(db), cmds)
    {
      db := ExecAll(db, cmds);
    }
  }
}
