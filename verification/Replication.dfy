/** Replication as interleaved steps: client tasks that SET and INCR under the map lock, pipes that forward the
    broadcast log, and replicas that re-parse and execute it. */
module Replication {
  import opened Basics
  import opened Text
  import opened Decimal
  import opened RespSpec
  import opened Commands
  import opened Executor
  import opened Stream

  /** How far the client task that holds the map lock has come. */
  datatype Phase = Locked | Inserted | Sent

  datatype Holder = Holder(client: nat, item: Item, now: Instant, phase: Phase)

  /** A subscribed replica: its own state and clock, how many messages its pipe has written to the
      connection, and how many of those its loop has read. */
  datatype Peer = Peer(replica: Replica, clock: Clock, delivered: nat, applied: nat)

  /** What a client wrote into the master's map. */
  datatype Write = Put(item: Item) | Count(key: string)

  /** `history` records the SETs behind the messages in `master.sent`, and `writes` all that was written
      to the master's map. */
  datatype System = System(master: World, history: seq<Item>, writes: seq<Write>, holder: Option<Holder>,
                           peers: map<nat, Peer>)

  datatype Action =
    | Lock(client: nat, item: Item, now: Instant)
    | Insert
    | Send
    | Unlock
    | CountUp(key: string, now: Instant)
    | Deliver(peer: nat)
    | Apply(peer: nat, count: nat)

  /** One step, where it is enabled. INCR holds the map lock throughout and sends nothing. A read takes one
      or more whole messages. */
  function Next(s: System, a: Action): Option<System> {
    match a
    case Lock(client, item, now) =>
      if s.holder.None? && item.SetItem? && Deadline(item.px, now, s.master.horizon).Some?
      then Some(s.(holder := Some(Holder(client, item, now, Locked)))) else None
    case Insert =>
      if s.holder.Some? && s.holder.value.phase == Locked && s.holder.value.item.SetItem?
         && Deadline(s.holder.value.item.px, s.holder.value.now, s.master.horizon).Some? then
        var h := s.holder.value;
        var data := StringData(h.item.value, Deadline(h.item.px, h.now, s.master.horizon).value);
        Some(s.(master := s.master.(store := s.master.store[h.item.key := data]),
                writes := s.writes + [Put(h.item)],
                holder := Some(h.(phase := Inserted))))
      else None
    case Send =>
      if s.holder.Some? && s.holder.value.phase == Inserted then
        var h := s.holder.value;
        Some(s.(master := s.master.(sent := s.master.sent + [Resp(h.item.Cmd())]),
                history := s.history + [h.item],
                holder := Some(h.(phase := Sent))))
      else None
    case Unlock =>
      if s.holder.Some? && s.holder.value.phase == Sent then Some(s.(holder := None)) else None
    case CountUp(key, now) =>
      if s.holder.None?
      then Some(s.(master := Execute(Incr(key), s.master, now).0, writes := s.writes + [Count(key)])) else None
    case Deliver(p) =>
      if p in s.peers && s.peers[p].delivered < |s.master.sent|
      then Some(s.(peers := s.peers[p := s.peers[p].(delivered := s.peers[p].delivered + 1)])) else None
    case Apply(p, count) =>
      if p in s.peers && 0 < count && s.peers[p].applied + count <= s.peers[p].delivered <= |s.master.sent| then
        var peer := s.peers[p];
        var chunk := Concat(s.master.sent[peer.applied..peer.applied + count]);
        Some(s.(peers := s.peers[p := peer.(replica := ApplyChunk(chunk, peer.replica, peer.clock),
                                            applied := peer.applied + count)]))
      else None
  }

  function Runs(s: System, actions: seq<Action>): Option<System>
    decreases |actions|
  {
    if actions == [] then Some(s)
    else match Next(s, actions[0])
         case Some(s') => Runs(s', actions[1..])
         case None => None
  }

  /** The critical section, when nothing interrupts it, is the executor's SET. */
  lemma CriticalSection(s: System, client: nat, item: Item, now: Instant)
    requires s.holder.None? && item.SetItem? && s.master.role == Master && s.master.slaves != 0
    requires Deadline(item.px, now, s.master.horizon).Some?
    ensures Runs(s, [Lock(client, item, now), Insert, Send, Unlock])
         == Some(s.(master := Execute(item.Cmd(), s.master, now).0, history := s.history + [item],
                    writes := s.writes + [Put(item)]))
  {
    hide Deadline, Resp;
    var as0 := [Lock(client, item, now), Insert, Send, Unlock];
    var as1 := as0[1..];
    assert as1 == [Insert, Send, Unlock];
    var as2 := as1[1..];
    assert as2 == [Send, Unlock];
    var as3 := as2[1..];
    assert as3 == [Unlock] && as3[1..] == [];
    var s1 := Next(s, as0[0]).value;
    var s2 := Next(s1, as1[0]).value;
    var s3 := Next(s2, as2[0]).value;
    var s4 := Next(s3, as3[0]).value;
    assert Runs(s4, as3[1..]) == Some(s4);
    assert Runs(s3, as3) == Some(s4) && Runs(s2, as2) == Some(s4) && Runs(s1, as1) == Some(s4);
  }

  /** While a client holds the map lock no other may take it or count up, the holder's steps come in their
      order, and no client's step touches a replica. */
  lemma Exclusive(s: System, a: Action)
    requires Next(s, a).Some?
    ensures a.Lock? || a.CountUp? ==> s.holder.None?
    ensures a.Insert? ==> s.holder.Some? && s.holder.value.phase == Locked
    ensures a.Send? ==> s.holder.Some? && s.holder.value.phase == Inserted
    ensures a.Unlock? ==> s.holder.Some? && s.holder.value.phase == Sent
    ensures !a.Deliver? && !a.Apply? ==> Next(s, a).value.peers == s.peers
    ensures a.Deliver? || a.Apply? ==>
              var s' := Next(s, a).value;
              && s' == s.(peers := s'.peers) && s'.peers.Keys == s.peers.Keys && a.peer in s.peers
              && forall p | p in s.peers && p != a.peer :: s'.peers[p] == s.peers[p]
  {
    hide Execute, ApplyChunk, Resp, Deadline;
  }

  function Delivers(p: nat, count: nat): seq<Action> {
    if count == 0 then [] else [Deliver(p)] + Delivers(p, count - 1)
  }

  lemma {:induction false} RunsAppend(s: System, a: seq<Action>, b: seq<Action>)
    ensures Runs(s, a + b) == match Runs(s, a) case Some(s1) => Runs(s1, b) case None => None
    decreases |a|
  {
    hide Next;
    if a == [] {
      assert a + b == b;
    } else {
      assert (a + b)[0] == a[0] && (a + b)[1..] == a[1..] + b;
      if Next(s, a[0]).Some? {
        RunsAppend(Next(s, a[0]).value, a[1..], b);
      }
    }
  }

  lemma {:induction false} DeliversRun(s: System, p: nat, count: nat)
    requires p in s.peers && s.peers[p].delivered + count <= |s.master.sent|
    ensures Runs(s, Delivers(p, count))
         == Some(s.(peers := s.peers[p := s.peers[p].(delivered := s.peers[p].delivered + count)]))
    decreases count
  {
    hide Execute, ApplyChunk, Resp, Deadline;
    if count == 0 {
      assert s.peers[p := s.peers[p]] == s.peers;
    } else {
      var as0 := Delivers(p, count);
      assert as0[0] == Deliver(p) && as0[1..] == Delivers(p, count - 1);
      var s1 := Next(s, Deliver(p)).value;
      DeliversRun(s1, p, count - 1);
      var peer := s.peers[p].(delivered := s.peers[p].delivered + count);
      assert s1.peers[p := peer] == s.peers[p := peer];
    }
  }

  // ---------------------------------------------------------------- the invariant

  /** What is known of a key: absent, a value with the expiry it has, or a value with some expiry. */
  datatype Seen = Absent | Known(data: string, expiration: Option<Instant>) | Timed(data: string)

  predicate Matches(store: Store, key: string, seen: Seen) {
    match seen
    case Absent => key !in store
    case Known(data, expiration) => key in store && store[key] == StringData(data, expiration)
    case Timed(data) => key in store && store[key].data == data && store[key].expiration.Some?
  }

  /** What INCR leaves of a value: one more, or the same text if it is no number. */
  function BumpText(data: string): string {
    match ParseSigned(data, I64_MIN, I64_MAX)
    case Some(n) => ShowInt(Bump(n))
    case None => data
  }

  function Bumped(seen: Seen): Seen {
    match seen
    case Absent => Known(BumpText("0"), None)
    case Known(data, expiration) => Known(BumpText(data), expiration)
    case Timed(data) => Timed(BumpText(data))
  }

  /** What one write makes of a key: a SET replaces the value, an INCR counts it up. */
  function AfterWrite(seen: Seen, w: Write, key: string): Seen {
    match w
    case Put(item) =>
      if !item.SetItem? || item.key != key then seen
      else if item.px.None? then Known(item.value, None)
      else Timed(item.value)
    case Count(k) => if k == key then Bumped(seen) else seen
  }

  /** What a key holds after some writes: the value of its last SET, counted up by every INCR since, with an
      expiry exactly if that SET had one. */
  function Meaning(start: Store, writes: seq<Write>, key: string): Seen {
    if writes == [] then if key in start then Known(start[key].data, start[key].expiration) else Absent
    else AfterWrite(Meaning(start, writes[..|writes| - 1], key), writes[|writes| - 1], key)
  }

  ghost predicate Explains(store: Store, start: Store, writes: seq<Write>) {
    forall key: string :: Matches(store, key, Meaning(start, writes, key))
  }

  function AsWrites(items: seq<Item>): (writes: seq<Write>)
    ensures |writes| == |items|
  {
    if items == [] then [] else AsWrites(items[..|items| - 1]) + [Put(items[|items| - 1])]
  }

  function PutOf(w: Write): seq<Item> {
    if w.Put? then [w.item] else []
  }

  /** The SETs among some writes: what replicas are told. */
  function Puts(writes: seq<Write>): seq<Item> {
    if writes == [] then [] else Puts(writes[..|writes| - 1]) + PutOf(writes[|writes| - 1])
  }

  function Messages(items: seq<Item>): seq<string> {
    EncodeAll(Wires(items))
  }

  /** Every sum of a reading and an expiry fits the platform's clock type. */
  ghost predicate Roomy(clock: Clock, horizon: Instant) {
    forall i: nat :: clock(i) + U64_MAX * NANOS_PER_MILLI <= horizon
  }

  /** The SETs that have reached the master's map: those broadcast, and the lock holder's if it has
      inserted but not yet sent. */
  function Applied(s: System): seq<Item> {
    s.history + if s.holder.Some? && s.holder.value.phase == Inserted then [s.holder.value.item] else []
  }

  /** A replica's map is explained by the SETs that it has applied. */
  ghost predicate PeerInv(peer: Peer, start: Store, history: seq<Item>) {
    && peer.applied <= peer.delivered <= |history|
    && peer.replica.alive
    && Roomy(peer.clock, peer.replica.world.horizon)
    && Explains(peer.replica.world.store, start, AsWrites(history[..peer.applied]))
  }

  ghost predicate Inv(s: System, start: Store) {
    && s.master.sent == Messages(s.history) && |s.master.sent| == |s.history|
    && AllSafe(s.history) && (forall item | item in s.history :: item.SetItem?)
    && (s.holder.Some? ==> s.holder.value.item.SetItem? && s.holder.value.item.Safe())
    && Explains(s.master.store, start, s.writes) && Puts(s.writes) == Applied(s)
    && forall p | p in s.peers :: PeerInv(s.peers[p], start, s.history)
  }

  /** Equal maps, nothing sent, nobody in the critical section. */
  ghost predicate Init(s: System, start: Store) {
    && s.master.store == start && s.master.sent == [] && s.history == [] && s.writes == [] && s.holder.None?
    && forall p | p in s.peers ::
         && s.peers[p].applied == s.peers[p].delivered == 0
         && s.peers[p].replica.alive
         && s.peers[p].replica.world.store == start
         && Roomy(s.peers[p].clock, s.peers[p].replica.world.horizon)
  }

  /** Clients only write what survives the stream. */
  predicate SafeActions(actions: seq<Action>) {
    forall a | a in actions :: a.Lock? ==> a.item.Safe()
  }

  lemma MeaningNext(start: Store, writes: seq<Write>, w: Write, key: string)
    ensures Meaning(start, writes + [w], key) == AfterWrite(Meaning(start, writes, key), w, key)
  {
    assert (writes + [w])[..|writes|] == writes;
  }

  lemma PutsNext(writes: seq<Write>, w: Write)
    ensures Puts(writes + [w]) == Puts(writes) + PutOf(w)
  {
    assert (writes + [w])[..|writes|] == writes;
  }

  lemma AsWritesNext(items: seq<Item>, item: Item)
    ensures AsWrites(items + [item]) == AsWrites(items) + [Put(item)]
  {
    assert (items + [item])[..|items|] == items;
  }

  /** Inserting what a SET writes explains one SET more. */
  lemma ExplainsInsert(store: Store, start: Store, writes: seq<Write>, item: Item, data: StringData)
    requires Explains(store, start, writes) && item.SetItem?
    requires data.data == item.value && (data.expiration.Some? <==> item.px.Some?)
    ensures Explains(store[item.key := data], start, writes + [Put(item)])
  {
    hide BumpText, Meaning;
    forall key: string
      ensures Matches(store[item.key := data], key, Meaning(start, writes + [Put(item)], key))
    {
      MeaningNext(start, writes, Put(item), key);
      assert Matches(store, key, Meaning(start, writes, key));
    }
  }

  /** Counting up explains one INCR more. */
  lemma ExplainsCount(w: World, start: Store, writes: seq<Write>, key: string, now: Instant)
    requires Explains(w.store, start, writes)
    ensures Explains(Execute(Incr(key), w, now).0.store, start, writes + [Count(key)])
  {
    hide Meaning, ParseSigned, ShowInt, Bump;
    var w' := Execute(Incr(key), w, now).0;
    ZeroNumber();
    forall k: string
      ensures Matches(w'.store, k, Meaning(start, writes + [Count(key)], k))
    {
      MeaningNext(start, writes, Count(key), k);
      assert Matches(w.store, k, Meaning(start, writes, k));
    }
  }

  lemma ZeroNumber()
    ensures ParseSigned("0", I64_MIN, I64_MAX) == Some(0)
  {
    assert ShowInt(0) == "0";
    ParseShowInt(0, I64_MIN, I64_MAX);
  }

  lemma {:induction false} ExplainsRun(items: seq<Item>, r: Replica, clock: Clock, start: Store, before: seq<Item>)
    requires forall item | item in items :: item.SetItem?
    requires Roomy(clock, r.world.horizon) && Explains(r.world.store, start, AsWrites(before))
    ensures var end := RunItems(items, r, clock);
            && Explains(end.world.store, start, AsWrites(before + items))
            && end.world.horizon == r.world.horizon && end.alive == r.alive
  {
    hide Explains, AsWrites, RunItem, Deadline, Execute, Roomy;
    if items == [] {
      assert before + items == before;
    } else {
      var item := items[0];
      assert item in items;
      SetEffect(item, r, clock);
      var r1 := RunItem(item, r, clock);
      ExplainsInsert(r.world.store, start, AsWrites(before), item,
                     StringData(item.value, Deadline(item.px, clock(r.at), r.world.horizon).value));
      AsWritesNext(before, item);
      ExplainsRun(items[1..], r1, clock, start, before + [item]);
      assert before + [item] + items[1..] == before + items;
    }
  }

  lemma SetEffect(item: Item, r: Replica, clock: Clock)
    requires item.SetItem? && Roomy(clock, r.world.horizon)
    ensures var d := Deadline(item.px, clock(r.at), r.world.horizon);
            var r1 := RunItem(item, r, clock);
            && d.Some? && (d.value.Some? <==> item.px.Some?)
            && r1.world.store == r.world.store[item.key := StringData(item.value, d.value)]
            && r1.world.horizon == r.world.horizon && r1.alive == r.alive
  {
    hide Resp, Encode;
    assert clock(r.at) + U64_MAX * NANOS_PER_MILLI <= r.world.horizon;
  }

  // ---------------------------------------------------------------- messages are frames

  lemma {:induction false} MessagesCount(items: seq<Item>)
    ensures |Messages(items)| == |items|
  {
    if items != [] {
      MessagesCount(items[1..]);
      assert Wires(items)[1..] == Wires(items[1..]);
    }
  }

  lemma {:induction false} MessagesAppend(a: seq<Item>, b: seq<Item>)
    ensures Messages(a + b) == Messages(a) + Messages(b)
  {
    hide Messages, Encode;
    if a == [] {
      MessagesNone();
      assert a + b == b;
    } else {
      assert (a + b)[0] == a[0] && (a + b)[1..] == a[1..] + b;
      MessagesAppend(a[1..], b);
      MessagesCons(a);
      MessagesCons(a + b);
      assert [Encode(a[0].Wire())] + (Messages(a[1..]) + Messages(b)) == Messages(a) + Messages(b);
    }
  }

  lemma MessagesNone()
    ensures Messages([]) == []
  {
  }

  lemma MessagesCons(items: seq<Item>)
    requires items != []
    ensures Messages(items) == [Encode(items[0].Wire())] + Messages(items[1..])
  {
    assert Wires(items)[0] == items[0].Wire() && Wires(items)[1..] == Wires(items[1..]);
  }

  lemma MessageOne(item: Item)
    requires item.SetItem?
    ensures Messages([item]) == [Resp(item.Cmd())]
  {
    assert [item][1..] == [] && [item.Wire()][1..] == [];
    assert Wires([item]) == [item.Wire()] + Wires([item][1..]) == [item.Wire()];
    assert EncodeAll([item.Wire()][1..]) == [];
    assert EncodeAll([item.Wire()]) == [Encode(item.Wire())] + [];
  }

  /** A read of whole messages carries the bytes of the SETs behind them. */
  lemma ChunkOfMessages(items: seq<Item>, i: nat, j: nat)
    requires i <= j <= |items|
    ensures |Messages(items)| == |items|
    ensures Concat(Messages(items)[i..j]) == Bytes(items[i..j])
  {
    var a, b, c := items[..i], items[i..j], items[j..];
    assert items == a + (b + c);
    MessagesAppend(a, b + c);
    MessagesAppend(b, c);
    MessagesCount(items);
    MessagesCount(a);
    MessagesCount(b);
    assert Messages(items)[i..j] == Messages(b);
  }

  // ---------------------------------------------------------------- every step keeps it

  lemma InitInv(s: System, start: Store)
    requires Init(s, start)
    ensures Inv(s, start)
  {
    assert Messages([]) == [];
    forall p | p in s.peers
      ensures PeerInv(s.peers[p], start, s.history)
    {
      assert s.history[..0] == [];
    }
  }

  lemma SendStep(s: System, start: Store)
    requires Inv(s, start) && Next(s, Send).Some?
    ensures Inv(Next(s, Send).value, start)
  {
    hide Explains, Roomy, Resp;
    var item := s.holder.value.item;
    MessagesAppend(s.history, [item]);
    MessageOne(item);
    var s' := Next(s, Send).value;
    assert Applied(s') == Applied(s);
    forall p | p in s'.peers
      ensures PeerInv(s'.peers[p], start, s'.history)
    {
      var peer := s.peers[p];
      assert PeerInv(peer, start, s.history);
      assert s'.history[..peer.applied] == s.history[..peer.applied];
    }
  }

  lemma ApplyStep(s: System, start: Store, p: nat, count: nat)
    requires Inv(s, start) && Next(s, Apply(p, count)).Some?
    ensures Inv(Next(s, Apply(p, count)).value, start)
  {
    hide Explains, Roomy, ApplyChunk, RunItems, Messages, Bytes, Resp, Deadline, Execute, Meaning, AsWrites, Puts,
         Replay, Drifted, LinesAll, SurplusAll;
    var peer := s.peers[p];
    var i, j := peer.applied, peer.applied + count;
    assert PeerInv(peer, start, s.history);
    var items := s.history[i..j];
    ChunkOfMessages(s.history, i, j);
    ChunkRefines(items, peer.replica, peer.clock);
    ExplainsRun(items, peer.replica, peer.clock, start, s.history[..i]);
    assert s.history[..i] + items == s.history[..j];
  }

  lemma InsertStep(s: System, start: Store)
    requires Inv(s, start) && Next(s, Insert).Some?
    ensures Inv(Next(s, Insert).value, start)
  {
    var h := s.holder.value;
    assert Applied(s) == s.history;
    ExplainsInsert(s.master.store, start, s.writes, h.item,
                   StringData(h.item.value, Deadline(h.item.px, h.now, s.master.horizon).value));
    PutsNext(s.writes, Put(h.item));
    hide Explains, Meaning, Puts;
  }

  lemma CountStep(s: System, start: Store, key: string, now: Instant)
    requires Inv(s, start) && Next(s, CountUp(key, now)).Some?
    ensures Inv(Next(s, CountUp(key, now)).value, start)
  {
    hide Explains, Meaning, Puts, Roomy, ParseSigned, ShowInt;
    var s' := Next(s, CountUp(key, now)).value;
    ExplainsCount(s.master, start, s.writes, key, now);
    PutsNext(s.writes, Count(key));
    assert Applied(s') == Applied(s);
  }

  lemma StepInv(s: System, a: Action, start: Store)
    requires Inv(s, start) && Next(s, a).Some? && (a.Lock? ==> a.item.Safe())
    ensures Inv(Next(s, a).value, start)
  {
    hide Explains, Roomy, ApplyChunk, Resp;
    match a
    case Insert => InsertStep(s, start);
    case Send => SendStep(s, start);
    case Apply(p, count) => ApplyStep(s, start, p, count);
    case CountUp(key, now) => CountStep(s, start, key, now);
    case Lock(_, _, _) => assert Applied(Next(s, a).value) == Applied(s);
    case Unlock => assert Applied(Next(s, a).value) == Applied(s);
    case Deliver(p) =>
      assert PeerInv(s.peers[p], start, s.history);
      assert Applied(Next(s, a).value) == Applied(s);
  }

  /** Safety over every interleaving of any number of client tasks and replicas: in every reachable
      state the master's map is explained by its writes, whose SETs are those broadcast plus the lock
      holder's unsent one, and each replica's map by the prefix of the broadcast log that it has applied. */
  lemma {:induction false} Safety(s: System, actions: seq<Action>, start: Store)
    requires Inv(s, start) && SafeActions(actions) && Runs(s, actions).Some?
    ensures Inv(Runs(s, actions).value, start)
    decreases |actions|
  {
    hide Inv;
    if actions != [] {
      assert actions[0] in actions;
      StepInv(s, actions[0], start);
      Safety(Next(s, actions[0]).value, actions[1..], start);
    }
  }

  /** A replica has read everything, and nothing else has changed. */
  ghost predicate CaughtUp(s: System, s': System, p: nat) {
    && s' == s.(peers := s'.peers) && s'.peers.Keys == s.peers.Keys && p in s.peers
    && s'.peers[p].applied == s'.peers[p].delivered == |s.history|
    && forall q | q in s.peers && q != p :: s'.peers[q] == s.peers[q]
  }

  /** How much of the log a pipe has not written, and its replica not read. */
  function Unwritten(s: System, p: nat): nat
    requires p in s.peers
  {
    if s.peers[p].delivered <= |s.history| then |s.history| - s.peers[p].delivered else 0
  }

  function Unread(s: System, p: nat): nat
    requires p in s.peers
  {
    if s.peers[p].applied <= |s.history| then |s.history| - s.peers[p].applied else 0
  }

  /** From every reachable state a replica can catch up by its own steps alone, whatever the clients are
      doing: its pipe delivers what is left, and one read applies it. */
  lemma CatchUp(s: System, start: Store, p: nat)
    requires Inv(s, start) && p in s.peers && s.peers[p].applied < |s.history|
    ensures var end := Runs(s, Delivers(p, Unwritten(s, p)) + [Apply(p, Unread(s, p))]);
            end.Some? && Inv(end.value, start) && CaughtUp(s, end.value, p)
  {
    hide Inv, Next, Delivers, Runs, CaughtUp;
    InvCounts(s, start, p);
    CatchUpRun(s, p);
    DeliveredInv(s, start, p);
    var read := Apply(p, Unread(s, p));
    ReadAll(Delivered(s, p), start, p, read.count);
    CaughtUpFrom(s, Next(Delivered(s, p), read).value, p);
  }

  lemma CaughtUpFrom(s: System, s': System, p: nat)
    requires p in s.peers && CaughtUp(Delivered(s, p), s', p)
    ensures CaughtUp(s, s', p)
  {
  }

  /** The system once a pipe has delivered everything. */
  function Delivered(s: System, p: nat): (s': System)
    requires p in s.peers
    ensures s' == s.(peers := s'.peers) && s'.peers.Keys == s.peers.Keys
    ensures s'.peers[p] == s.peers[p].(delivered := |s.history|)
    ensures forall q | q in s.peers && q != p :: s'.peers[q] == s.peers[q]
  {
    s.(peers := s.peers[p := s.peers[p].(delivered := |s.history|)])
  }

  lemma CatchUpRun(s: System, p: nat)
    requires p in s.peers && s.peers[p].delivered <= |s.history| == |s.master.sent| && s.peers[p].applied <= |s.history|
    ensures var read := Apply(p, Unread(s, p));
            Runs(s, Delivers(p, Unwritten(s, p)) + [read]) == Next(Delivered(s, p), read)
  {
    hide Next, Delivers, Runs;
    var waiting, read := Unwritten(s, p), Apply(p, Unread(s, p));
    DeliversRun(s, p, waiting);
    RunsAppend(s, Delivers(p, waiting), [read]);
    OneRun(Delivered(s, p), read);
  }

  lemma InvCounts(s: System, start: Store, p: nat)
    requires Inv(s, start) && p in s.peers
    ensures s.peers[p].applied <= s.peers[p].delivered <= |s.history| == |s.master.sent|
  {
    assert PeerInv(s.peers[p], start, s.history);
  }

  lemma ReadAll(s: System, start: Store, p: nat, count: nat)
    requires Inv(s, start) && p in s.peers && count > 0
    requires s.peers[p].applied + count == s.peers[p].delivered == |s.history|
    ensures var end := Next(s, Apply(p, count));
            end.Some? && Inv(end.value, start) && CaughtUp(s, end.value, p)
  {
    hide Explains, Roomy, ApplyChunk, Messages, Puts, Meaning, AsWrites, PeerInv;
    ApplyStep(s, start, p, count);
  }

  lemma OneRun(s: System, a: Action)
    ensures Runs(s, [a]) == Next(s, a)
  {
    hide Next;
    assert [a][1..] == [];
  }

  lemma DeliveredInv(s: System, start: Store, p: nat)
    requires Inv(s, start) && p in s.peers
    ensures Inv(Delivered(s, p), start)
  {
    hide Explains, Roomy, Messages, Puts, Meaning, AsWrites;
    assert PeerInv(s.peers[p], start, s.history);
  }

  // ---------------------------------------------------------------- what it means for the maps

  /** Writes without expiry, replayed on a map. */
  function Replay(start: Store, writes: seq<Write>): Store {
    if writes == [] then start
    else
      var before := Replay(start, writes[..|writes| - 1]);
      match writes[|writes| - 1]
      case Put(item) => if item.SetItem? then before[item.key := StringData(item.value, None)] else before
      case Count(key) =>
        var entry := if key in before then before[key] else StringData("0", None);
        before[key := entry.(data := BumpText(entry.data))]
  }

  predicate Timeless(items: seq<Item>) {
    forall item | item in items :: item.SetItem? && item.px.None?
  }

  lemma {:induction false} ReplayKey(start: Store, writes: seq<Write>, key: string)
    requires Timeless(Puts(writes))
    ensures !Meaning(start, writes, key).Timed? && Matches(Replay(start, writes), key, Meaning(start, writes, key))
  {
    hide BumpText;
    if writes != [] {
      var init, last := writes[..|writes| - 1], writes[|writes| - 1];
      assert Timeless(Puts(init)) by {
        forall item | item in Puts(init)
          ensures item.SetItem? && item.px.None?
        {
          assert item in Puts(writes);
        }
      }
      assert last.Put? ==> last.item in Puts(writes);
      ReplayKey(start, init, key);
    }
  }

  /** Without expiries an explained map is the replay. */
  lemma ExplainedIsReplay(store: Store, start: Store, writes: seq<Write>)
    requires Explains(store, start, writes) && Timeless(Puts(writes))
    ensures store == Replay(start, writes)
  {
    hide Replay, Meaning, Puts;
    forall key: string
      ensures key in store <==> key in Replay(start, writes)
      ensures key in store ==> store[key] == Replay(start, writes)[key]
    {
      assert Matches(store, key, Meaning(start, writes, key));
      ReplayKey(start, writes, key);
    }
  }

  lemma {:induction false} PutsOfItems(items: seq<Item>)
    ensures Puts(AsWrites(items)) == items
  {
    if items != [] {
      var init, last := items[..|items| - 1], items[|items| - 1];
      PutsOfItems(init);
      PutsNext(AsWrites(init), Put(last));
      assert init + [last] == items;
    }
  }

  lemma ReachableReplay(s0: System, actions: seq<Action>, start: Store)
    requires Init(s0, start) && SafeActions(actions) && Runs(s0, actions).Some?
    requires forall a | a in actions && a.Lock? && a.item.SetItem? :: a.item.px.None?
    ensures var s := Runs(s0, actions).value;
            && s.master.store == Replay(start, s.writes) && Puts(s.writes) == Applied(s)
            && forall p | p in s.peers ::
                 s.peers[p].applied <= |s.history|
                 && s.peers[p].replica.world.store == Replay(start, AsWrites(s.history[..s.peers[p].applied]))
  {
    hide Explains, Replay, Puts, AsWrites;
    InitInv(s0, start);
    Safety(s0, actions, start);
    PxFree(s0, actions);
    var s := Runs(s0, actions).value;
    assert Timeless(Applied(s));
    ExplainedIsReplay(s.master.store, start, s.writes);
    forall p | p in s.peers
      ensures s.peers[p].applied <= |s.history|
      ensures s.peers[p].replica.world.store == Replay(start, AsWrites(s.history[..s.peers[p].applied]))
    {
      assert PeerInv(s.peers[p], start, s.history);
      PutsOfItems(s.history[..s.peers[p].applied]);
      ExplainedIsReplay(s.peers[p].replica.world.store, start, AsWrites(s.history[..s.peers[p].applied]));
    }
  }

  predicate HolderTimeless(s: System) {
    && Timeless(s.history)
    && (s.holder.Some? ==> s.holder.value.item.SetItem? && s.holder.value.item.px.None?)
  }

  lemma {:induction false} PxFree(s: System, actions: seq<Action>)
    requires HolderTimeless(s) && Runs(s, actions).Some?
    requires forall a | a in actions && a.Lock? && a.item.SetItem? :: a.item.px.None?
    ensures HolderTimeless(Runs(s, actions).value)
    decreases |actions|
  {
    hide ApplyChunk, Resp, Deadline, Execute;
    if actions != [] {
      assert actions[0] in actions;
      PxFree(Next(s, actions[0]).value, actions[1..]);
    }
  }

  // ---------------------------------------------------------------- when a replica agrees with its master

  /** An INCR since the last SET of the key changed its value: replicas never hear of it. */
  predicate Drifted(start: Store, writes: seq<Write>, key: string) {
    if writes == [] then false
    else
      var init, last := writes[..|writes| - 1], writes[|writes| - 1];
      if last.Put? then !(last.item.SetItem? && last.item.key == key) && Drifted(start, init, key)
      else Drifted(start, init, key) || AfterWrite(Meaning(start, init, key), last, key) != Meaning(start, init, key)
  }

  /** The value has been counted up from the base, and no further counting can bring the base back. */
  ghost predicate Moved(base: Seen, now: Seen) {
    && !now.Absent?
    && var n := ParseSigned(now.data, I64_MIN, I64_MAX);
       && n.Some? && now.data == ShowInt(n.value)
       && forall m | n.value <= m <= I64_MAX :: base.Absent? || base.data != ShowInt(m)
  }

  lemma FirstMove(base: Seen)
    requires Bumped(base) != base
    ensures Moved(base, Bumped(base))
  {
    ZeroNumber();
    hide ShowInt, ParseSigned;
    var data := if base.Absent? then "0" else base.data;
    var n := ParseSigned(data, I64_MIN, I64_MAX).value;
    ParseShowInt(Bump(n), I64_MIN, I64_MAX);
    forall m | Bump(n) <= m <= I64_MAX
      ensures base.Absent? || base.data != ShowInt(m)
    {
      ParseShowInt(m, I64_MIN, I64_MAX);
    }
  }

  lemma NextMove(base: Seen, now: Seen)
    requires Moved(base, now)
    ensures Moved(base, Bumped(now))
  {
    hide ShowInt, ParseSigned;
    var n := ParseSigned(now.data, I64_MIN, I64_MAX).value;
    ParseShowInt(Bump(n), I64_MIN, I64_MAX);
  }

  /** What the master holds against what its SETs alone would have left. */
  lemma {:induction false} DriftMoves(start: Store, writes: seq<Write>, key: string)
    ensures var base, now := Meaning(start, AsWrites(Puts(writes)), key), Meaning(start, writes, key);
            if Drifted(start, writes, key) then Moved(base, now) else now == base
  {
    hide Bumped, Moved;
    if writes != [] {
      var init, last := writes[..|writes| - 1], writes[|writes| - 1];
      DriftMoves(start, init, key);
      var base, now := Meaning(start, AsWrites(Puts(init)), key), Meaning(start, init, key);
      match last
      case Put(item) =>
        AsWritesNext(Puts(init), item);
        MeaningNext(start, AsWrites(Puts(init)), last, key);
      case Count(k) =>
        assert Puts(writes) == Puts(init) + [] == Puts(init);
        if k == key {
          if Drifted(start, init, key) {
            NextMove(base, now);
          } else if Bumped(now) != now {
            FirstMove(now);
          }
        }
    }
  }

  /** The same value, and an expiry in both maps or in neither. */
  predicate Agree(mine: Store, theirs: Store, key: string) {
    && (key in mine <==> key in theirs)
    && (key in mine ==>
          mine[key].data == theirs[key].data && (mine[key].expiration.Some? <==> theirs[key].expiration.Some?))
  }

  /** Once a replica has read everything and nobody is between insert and send, it agrees with the master
      on a key if and only if no INCR since that key's last SET changed its value. */
  lemma ConvergenceExact(s: System, start: Store, p: nat, key: string)
    requires Inv(s, start) && p in s.peers && s.peers[p].applied == |s.history| && Applied(s) == s.history
    ensures Agree(s.peers[p].replica.world.store, s.master.store, key) <==> !Drifted(start, s.writes, key)
  {
    var mine, theirs := s.peers[p].replica.world.store, s.master.store;
    assert PeerInv(s.peers[p], start, s.history);
    assert s.history[..|s.history|] == s.history;
    DriftMoves(start, s.writes, key);
    assert Matches(mine, key, Meaning(start, AsWrites(s.history), key));
    assert Matches(theirs, key, Meaning(start, s.writes, key));
    hide Meaning, AsWrites, Puts, Drifted, ParseSigned, ShowInt, Messages;
  }

  lemma {:induction false} NoCountNoDrift(start: Store, writes: seq<Write>, key: string)
    requires forall w | w in writes :: w.Put?
    ensures !Drifted(start, writes, key)
  {
    if writes != [] {
      assert writes[|writes| - 1] in writes;
      NoCountNoDrift(start, writes[..|writes| - 1], key);
    }
  }

  /** Without INCR a replica that has read everything holds the master's keys and values, and an expiry
      exactly where the master has one. */
  lemma Convergence(s: System, start: Store, p: nat)
    requires Inv(s, start) && p in s.peers && s.peers[p].applied == |s.history| && Applied(s) == s.history
    requires forall w | w in s.writes :: w.Put?
    ensures var mine, theirs := s.peers[p].replica.world.store, s.master.store;
            mine.Keys == theirs.Keys && forall k | k in mine :: Agree(mine, theirs, k)
  {
    hide Inv, Drifted;
    var mine, theirs := s.peers[p].replica.world.store, s.master.store;
    forall k: string
      ensures Agree(mine, theirs, k)
    {
      ConvergenceExact(s, start, p, k);
      NoCountNoDrift(start, s.writes, k);
    }
    forall k
      ensures k in mine <==> k in theirs
    {
      assert Agree(mine, theirs, k);
    }
  }
}
