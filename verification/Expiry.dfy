/** Lazy deletion against a store that never deletes, and runs of INCR. */
module Expiry {
  import opened Basics
  import opened Text
  import opened Decimal
  import opened Commands
  import opened Printing
  import opened Executor

  /** The keys whose entries have not expired. */
  function LiveKeys(store: Store, now: Instant): set<string> {
    set k | k in store && !store[k].IsExpired(now)
  }

  /** The reference: nothing is ever deleted, and an expired entry counts as absent. */
  function Reference(cmd: Command, w: World, now: Instant): (World, string) {
    match cmd
    case Get(key) => (w, if key in LiveKeys(w.store, now) then BulkText(w.store[key].data) else NIL_REPLY)
    case Incr(key) => Execute(cmd, w.(store := if key in LiveKeys(w.store, now) then w.store else w.store - {key}), now)
    case Keys(pattern) => (w, if w.isPattern(pattern) then KeysReply(LiveFound(pattern, w, now)) else REGEX_REPLY)
    case _ => Execute(cmd, w, now)
  }

  /** The live keys that match, in the order in which the reference visits them. */
  function LiveFound(pattern: string, w: World, now: Instant): seq<string> {
    Matching(pattern, w.listing(LiveKeys(w.store, now), now), w.isMatch)
  }

  function ReferenceAll(cmds: seq<Command>, w: World, clock: Clock, at: nat): (World, seq<string>) {
    if cmds == [] then (w, [])
    else
      var (w1, reply) := Reference(cmds[0], w, clock(at));
      var (w2, replies) := ReferenceAll(cmds[1..], w1, clock, at + 1);
      (w2, [reply] + replies)
  }

  /** The lazy state holds what the timeless one holds, except for entries that expired by `now`. */
  ghost predicate Lazy(lazy: World, timeless: World, now: Instant) {
    && timeless == lazy.(store := timeless.store)
    && (forall k | k in lazy.store :: k in timeless.store && timeless.store[k] == lazy.store[k])
    && (forall k | k in timeless.store && k !in lazy.store :: timeless.store[k].IsExpired(now))
  }

  /** A stale entry: expired, and not yet removed. */
  predicate Stale(w: World, key: string, now: Instant) {
    key in w.store && w.store[key].IsExpired(now)
  }

  /** The commands whose reply does not depend on an expired entry that is still there. */
  predicate Timely(cmd: Command, w: World, now: Instant) {
    match cmd
    case Incr(key) => !Stale(w, key, now)
    case Keys(pattern) => w.isPattern(pattern) ==> forall k | k in w.store && w.isMatch(pattern, k) :: !Stale(w, k, now)
    case _ => true
  }

  predicate AllTimely(cmds: seq<Command>, w: World, clock: Clock, at: nat) {
    cmds != [] ==>
      && Timely(cmds[0], w, clock(at))
      && AllTimely(cmds[1..], Execute(cmds[0], w, clock(at)).0, clock, at + 1)
  }

  lemma LazyLater(lazy: World, timeless: World, now: Instant, later: Instant)
    requires Lazy(lazy, timeless, now) && now <= later
    ensures Lazy(lazy, timeless, later)
  {
    forall k | k in timeless.store && k !in lazy.store
      ensures timeless.store[k].IsExpired(later)
    {
      assert timeless.store[k].IsExpired(now);
    }
  }

  /** The same reply; KEYS may list the same keys in another order. */
  ghost predicate SameReply(cmd: Command, reply: string, expected: string) {
    reply == expected || (cmd.Keys? && exists ks, ls :: Relisted(ks, ls, reply, expected))
  }

  ghost predicate Relisted(ks: seq<string>, ls: seq<string>, reply: string, expected: string) {
    multiset(ks) == multiset(ls) && reply == KeysReply(ks) && expected == KeysReply(ls)
  }

  lemma {:induction false} MatchingCount(pattern: string, keys: seq<string>, isMatch: (string, string) -> bool, k: string)
    ensures multiset(Matching(pattern, keys, isMatch))[k] == if isMatch(pattern, k) then multiset(keys)[k] else 0
  {
    if keys != [] {
      MatchingCount(pattern, keys[1..], isMatch, k);
      assert keys == [keys[0]] + keys[1..];
    }
  }

  /** How often KEYS lists a key: once if it is in the map and matches. */
  lemma FoundCount(pattern: string, w: World, keys: set<string>, now: Instant, k: string)
    requires Lists(w)
    ensures multiset(Matching(pattern, w.listing(keys, now), w.isMatch))[k]
         == if k in keys && w.isMatch(pattern, k) then 1 else 0
  {
    MatchingCount(pattern, w.listing(keys, now), w.isMatch, k);
    assert multiset(w.listing(keys, now)) == multiset(keys);
  }

  /** KEYS lists the keys that the reference lists if and only if no key that matches is stale. */
  lemma KeysExact(pattern: string, lazy: World, timeless: World, now: Instant)
    requires Lazy(lazy, timeless, now) && Lists(lazy) && lazy.isPattern(pattern)
    ensures multiset(Found(pattern, lazy, now)) == multiset(LiveFound(pattern, timeless, now))
              <==> Timely(Keys(pattern), lazy, now)
  {
    var found, expected := multiset(Found(pattern, lazy, now)), multiset(LiveFound(pattern, timeless, now));
    forall k: string
      ensures found[k] == if k in lazy.store && lazy.isMatch(pattern, k) then 1 else 0
      ensures expected[k] == if k in LiveKeys(timeless.store, now) && lazy.isMatch(pattern, k) then 1 else 0
    {
      FoundCount(pattern, lazy, lazy.store.Keys, now, k);
      FoundCount(pattern, timeless, LiveKeys(timeless.store, now), now, k);
    }
    if Timely(Keys(pattern), lazy, now) {
      forall k: string
        ensures found[k] == expected[k]
      {
        assert k in lazy.store && lazy.isMatch(pattern, k) ==> !Stale(lazy, k, now);
      }
    }
    if found == expected {
      forall k | k in lazy.store && lazy.isMatch(pattern, k)
        ensures !Stale(lazy, k, now)
      {
        assert found[k] == 1 && expected[k] == 1;
      }
    }
  }

  lemma LazyStep(cmd: Command, lazy: World, timeless: World, now: Instant)
    requires Lazy(lazy, timeless, now) && Lists(lazy) && Timely(cmd, lazy, now)
    ensures var (lazy', reply) := Execute(cmd, lazy, now);
            var (timeless', expected) := Reference(cmd, timeless, now);
            SameReply(cmd, reply, expected) && Lazy(lazy', timeless', now) && Lists(lazy')
  {
    hide Resp, InfoReply, AckReply, KeysReply, ConfigReply, ShowInt, ParseSigned, Found, LiveFound;
    match cmd
    case Keys(pattern) =>
      if lazy.isPattern(pattern) {
        KeysExact(pattern, lazy, timeless, now);
        assert Relisted(Found(pattern, lazy, now), LiveFound(pattern, timeless, now),
                        Execute(cmd, lazy, now).1, Reference(cmd, timeless, now).1);
      }
    case Info(sections) => SameInfoReply(sections, lazy, timeless);
    case Incr(key) => LazyIncr(key, lazy, timeless, now);
    case _ =>
  }

  lemma LazyIncr(key: string, lazy: World, timeless: World, now: Instant)
    requires Lazy(lazy, timeless, now) && !Stale(lazy, key, now)
    ensures var (lazy', reply) := Execute(Incr(key), lazy, now);
            var (timeless', expected) := Reference(Incr(key), timeless, now);
            reply == expected && Lazy(lazy', timeless', now)
  {
    hide ShowInt, ParseSigned;
    assert key in LiveKeys(timeless.store, now) <==> key in lazy.store;
  }

  lemma {:induction false} SameInfo(sections: seq<InfoSection>, w: World, v: World)
    requires v == w.(store := v.store)
    ensures InfoBody(sections, w) == InfoBody(sections, v)
  {
    if sections != [] {
      SameInfo(sections[1..], w, v);
    }
  }

  lemma SameInfoReply(sections: seq<InfoSection>, w: World, v: World)
    requires v == w.(store := v.store)
    ensures InfoReply(sections, w) == InfoReply(sections, v)
  {
    SameInfo(sections, w, v);
  }

  /** For every run with a non-decreasing clock, the replies are those of the store that never deletes,
      as long as no INCR meets an entry that is expired but not yet removed, and no KEYS one that
      matches. */
  lemma {:induction false} LazyRefines(cmds: seq<Command>, lazy: World, timeless: World, clock: Clock, at: nat)
    requires Monotone(clock) && Lazy(lazy, timeless, clock(at)) && Lists(lazy) && AllTimely(cmds, lazy, clock, at)
    ensures var replies, expected := ExecuteAll(cmds, lazy, clock, at).1, ReferenceAll(cmds, timeless, clock, at).1;
            && |replies| == |expected| == |cmds|
            && forall i | 0 <= i < |cmds| :: SameReply(cmds[i], replies[i], expected[i])
  {
    hide Execute, Reference, Timely, SameReply, Lists, Lazy;
    if cmds != [] {
      LazyStep(cmds[0], lazy, timeless, clock(at));
      var (lazy', reply) := Execute(cmds[0], lazy, clock(at));
      var (timeless', expected) := Reference(cmds[0], timeless, clock(at));
      assert clock(at) <= clock(at + 1);
      LazyLater(lazy', timeless', clock(at), clock(at + 1));
      LazyRefines(cmds[1..], lazy', timeless', clock, at + 1);
      var replies, more := ExecuteAll(cmds[1..], lazy', clock, at + 1).1, ReferenceAll(cmds[1..], timeless', clock, at + 1).1;
      assert ExecuteAll(cmds, lazy, clock, at).1 == [reply] + replies;
      assert ReferenceAll(cmds, timeless, clock, at).1 == [expected] + more;
      forall i | 0 <= i < |cmds|
        ensures SameReply(cmds[i], ([reply] + replies)[i], ([expected] + more)[i])
      {
        assert i > 0 ==> SameReply(cmds[1..][i - 1], replies[i - 1], more[i - 1]);
      }
    }
  }

  /** SET and GET are always timely, so runs of them need no condition. */
  lemma {:induction false} SetGetTimely(cmds: seq<Command>, w: World, clock: Clock, at: nat)
    requires forall c | c in cmds :: c.Set? || c.Get?
    ensures AllTimely(cmds, w, clock, at)
  {
    if cmds != [] {
      assert cmds[0] in cmds;
      SetGetTimely(cmds[1..], Execute(cmds[0], w, clock(at)).0, clock, at + 1);
    }
  }

  /** INCR agrees with the reference if and only if the entry is not stale: the code counts on from a
      value that GET would no longer show, and keeps its expiry. */
  lemma IncrExact(key: string, lazy: World, timeless: World, now: Instant)
    requires Lazy(lazy, timeless, now)
    ensures var (lazy', reply) := Execute(Incr(key), lazy, now);
            var (timeless', expected) := Reference(Incr(key), timeless, now);
            (reply == expected && Lazy(lazy', timeless', now)) <==> !Stale(lazy, key, now)
  {
    if !Stale(lazy, key, now) {
      LazyIncr(key, lazy, timeless, now);
    } else {
      ZeroParses();
      var timeless' := Reference(Incr(key), timeless, now).0;
      var lazy' := Execute(Incr(key), lazy, now).0;
      hide ShowInt, ParseSigned;
      assert timeless'.store[key].expiration.None?;
      assert key in lazy'.store && lazy'.store[key].expiration.Some?;
    }
  }

  lemma ZeroParses()
    ensures ParseSigned("0", I64_MIN, I64_MAX) == Some(0)
  {
    assert ShowInt(0) == "0";
    ParseShowInt(0, I64_MIN, I64_MAX);
  }

  // ---------------------------------------------------------------- runs of INCR

  function Incrs(key: string, k: nat): seq<Command> {
    if k == 0 then [] else [Incr(key)] + Incrs(key, k - 1)
  }

  function Min(a: int, b: int): int {
    if a < b then a else b
  }

  /** The entry that INCR works on. */
  function Counter(w: World, key: string): StringData {
    if key in w.store then w.store[key] else StringData("0", None)
  }

  /** k INCRs of a decimal n leave the canonical decimal of n + k, saturated at the largest i64, keep
      the expiry, touch nothing else, and reply with every value on the way. */
  lemma {:induction false} IncrRun(key: string, k: nat, n: int, w: World, clock: Clock, at: nat)
    requires k > 0 && ParseSigned(Counter(w, key).data, I64_MIN, I64_MAX) == Some(n)
    ensures var (w', replies) := ExecuteAll(Incrs(key, k), w, clock, at);
            && w' == w.(store := w.store[key := Counter(w, key).(data := ShowInt(Min(n + k, I64_MAX)))])
            && |replies| == k
            && forall i | 0 <= i < k :: replies[i] == ":" + ShowInt(Min(n + i + 1, I64_MAX)) + CRLF
    decreases k
  {
    hide ShowInt, ParseSigned, Execute, Bump;
    var cmds := Incrs(key, k);
    assert cmds[0] == Incr(key) && cmds[1..] == Incrs(key, k - 1);
    IncrOnce(key, n, w, clock(at));
    var (w1, r1) := Execute(cmds[0], w, clock(at));
    if k == 1 {
      assert ExecuteAll(cmds[1..], w1, clock, at + 1) == (w1, []);
    } else {
      var m := Min(n + 1, I64_MAX);
      ParseShowInt(m, I64_MIN, I64_MAX);
      IncrRun(key, k - 1, m, w1, clock, at + 1);
      var (w2, r2) := ExecuteAll(cmds[1..], w1, clock, at + 1);
      assert w1.store[key := w2.store[key]] == w.store[key := w2.store[key]];
      assert Min(m + (k - 1), I64_MAX) == Min(n + k, I64_MAX);
      forall i | 0 <= i < k
        ensures ([r1] + r2)[i] == ":" + ShowInt(Min(n + i + 1, I64_MAX)) + CRLF
      {
        if i > 0 {
          assert ([r1] + r2)[i] == r2[i - 1] == ":" + ShowInt(Min(m + (i - 1) + 1, I64_MAX)) + CRLF;
        }
      }
    }
  }

  lemma IncrOnce(key: string, n: int, w: World, now: Instant)
    requires ParseSigned(Counter(w, key).data, I64_MIN, I64_MAX) == Some(n)
    ensures var m := Min(n + 1, I64_MAX);
            && I64_MIN <= m <= I64_MAX
            && Execute(Incr(key), w, now)
                 == (w.(store := w.store[key := Counter(w, key).(data := ShowInt(m))]), ":" + ShowInt(m) + CRLF)
  {
    hide ShowInt, ParseSigned;
  }

  /** A value that is no i64 is left alone by any number of INCRs, and each one says so. */
  lemma {:induction false} IncrRefused(key: string, k: nat, w: World, clock: Clock, at: nat)
    requires ParseSigned(Counter(w, key).data, I64_MIN, I64_MAX).None?
    ensures var (w', replies) := ExecuteAll(Incrs(key, k), w, clock, at);
            w' == w && forall r | r in replies :: r == NOT_INTEGER_REPLY
    decreases k
  {
    ZeroParses();
    hide ShowInt, ParseSigned;
    if k > 0 {
      var cmds := Incrs(key, k);
      assert cmds[0] == Incr(key) && cmds[1..] == Incrs(key, k - 1);
      assert key in w.store && w.store[key := w.store[key]] == w.store;
      IncrRefused(key, k - 1, w, clock, at + 1);
    }
  }
}
