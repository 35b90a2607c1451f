/** The replica's end of the command stream: bytes in, parsed, executed and counted. */
module Stream {
  import opened Basics
  import opened Text
  import opened Decimal
  import opened RespSpec
  import opened Pipeline
  import opened Printing
  import opened Commands
  import opened Executor

  /** A replica between two reads: its state, the next clock reading, what it has written back to the
      master, and whether its loop still runs. */
  datatype Replica = Replica(world: World, at: nat, written: string, alive: bool)

  /** What the replica adds to its offset for one SET. */
  function CountedBytes(key: string, value: string, px: Option<u64>): nat {
    4
    + (|key| + |Show(|key|)| + 5)
    + (|value| + |Show(|value|)| + 5)
    + match px
      case None => 0
      case Some(millis) => 8 + |Show(millis)| + |Show(|Show(millis)|)| + 5
  }

  /** One command: execute it, answer a GETACK, count a SET. */
  function ApplyCommand(cmd: Command, r: Replica, clock: Clock): Replica {
    var (w, reply) := Execute(cmd, r.world, clock(r.at));
    match cmd
    case Replconf(Getack(_)) => r.(world := w, at := r.at + 1, written := r.written + reply)
    case Set(key, value, px) =>
      r.(world := w.(offset := Wrap64(w.offset + CountedBytes(key, value, px))), at := r.at + 1)
    case _ => r.(world := w, at := r.at + 1)
  }

  /** One parsed value: anything but an array holding a command is dropped. */
  function ApplyValue(v: Value, r: Replica, clock: Clock): Replica {
    if !v.Array? then r
    else
      var cmd := ParseCommand(v.items);
      if cmd.Ok? then ApplyCommand(cmd.value, r, clock) else r
  }

  function ApplyValues(vs: seq<Value>, r: Replica, clock: Clock): Replica {
    if vs == [] then r else ApplyValues(vs[1..], ApplyValue(vs[0], r, clock), clock)
  }

  /** One read of the replica loop. A text that does not parse is dropped whole; an empty read or a panic
      ends the loop. */
  function ApplyChunk(bytes: string, r: Replica, clock: Clock): Replica {
    if !r.alive then r
    else if bytes == "" then r.(alive := false)
    else
      match ParseMulti(bytes)
      case Ok(vs) => ApplyValues(vs, r, clock)
      case Err(_) => r
      case Panic => r.(alive := false)
  }

  function ApplyChunks(chunks: seq<string>, r: Replica, clock: Clock): Replica {
    if chunks == [] then r else ApplyChunks(chunks[1..], ApplyChunk(chunks[0], r, clock), clock)
  }

  /** A read that is empty or panics ends the loop and does nothing else; one that does not parse does
      nothing at all, not even for the frames before the one that fails; after its end the loop reads
      nothing. */
  lemma ChunkOutcomes(bytes: string, r: Replica, clock: Clock)
    ensures r.alive && (bytes == "" || ParseMulti(bytes).Panic?) ==> ApplyChunk(bytes, r, clock) == r.(alive := false)
    ensures ParseMulti(bytes).Err? || !r.alive ==> ApplyChunk(bytes, r, clock) == r
  {
    hide ApplyValues;
  }

  /** A replica does nothing for what is no command, and executes every other command; only GETACK is
      answered and only SET is counted. */
  lemma SilentCommand(v: Value, cmd: Command, r: Replica, clock: Clock)
    ensures !v.Array? || !ParseCommand(v.items).Ok? ==> ApplyValue(v, r, clock) == r
    ensures v.Array? && ParseCommand(v.items) == Ok(cmd) && !cmd.Set? && !(cmd.Replconf? && cmd.sub.Getack?) ==>
              ApplyValue(v, r, clock) == r.(world := Execute(cmd, r.world, clock(r.at)).0, at := r.at + 1)
  {
    hide ParseCommand, Execute;
  }

  // ---------------------------------------------------------------- what the master sends

  /** The commands of a replication stream. */
  datatype Item = SetItem(key: string, value: string, px: Option<u64>) | AckItem(arg: string) {
    function Wire(): (v: Value)
      ensures v.Array?
    {
      match this
      case SetItem(key, value, px) => SetValue(key, value, px)
      case AckItem(arg) => GetackValue(arg)
    }

    function Cmd(): Command {
      match this
      case SetItem(key, value, px) => Set(key, value, px)
      case AckItem(arg) => Replconf(Getack(arg))
    }

    /** The item reaches the parser intact: see `SetItemSafe`. */
    predicate Safe() {
      Pipelinable(Wire())
    }
  }

  predicate AllSafe(items: seq<Item>) {
    forall item | item in items :: item.Safe()
  }

  function Wires(items: seq<Item>): seq<Value> {
    if items == [] then [] else [items[0].Wire()] + Wires(items[1..])
  }

  function Cmds(items: seq<Item>): (cmds: seq<Command>)
    ensures |cmds| == |items|
  {
    if items == [] then [] else [items[0].Cmd()] + Cmds(items[1..])
  }

  function Bytes(items: seq<Item>): string {
    Concat(EncodeAll(Wires(items)))
  }

  function ChunkBytes(chunks: seq<seq<Item>>): seq<string> {
    if chunks == [] then [] else [Bytes(chunks[0])] + ChunkBytes(chunks[1..])
  }

  function Flatten(chunks: seq<seq<Item>>): seq<Item> {
    if chunks == [] then [] else chunks[0] + Flatten(chunks[1..])
  }

  /** The reference: run the command, count the bytes of its frame except the nine of `$3 set`. */
  function RunItem(item: Item, r: Replica, clock: Clock): Replica {
    var (w, reply) := Execute(item.Cmd(), r.world, clock(r.at));
    match item
    case SetItem(_, _, _) => r.(world := w.(offset := Wrap64(w.offset + |Encode(item.Wire())| - 9)), at := r.at + 1)
    case AckItem(_) => r.(world := w, at := r.at + 1, written := r.written + reply)
  }

  function RunItems(items: seq<Item>, r: Replica, clock: Clock): Replica {
    if items == [] then r else RunItems(items[1..], RunItem(items[0], r, clock), clock)
  }

  // ---------------------------------------------------------------- which SETs are safe

  lemma ThreeFacts(a: string, b: string, c: string)
    ensures var vs := [BulkString(a), BulkString(b), BulkString(c)];
            && CleanAll(vs) == (Clean(a) && Clean(b) && Clean(c))
            && SurplusAll(vs) == Quota(a) + Quota(b) + Quota(c)
            && RobustAll(vs) == (Quota(a) == 0 && Quota(b) == 0 && Quota(c) <= 1)
            && WidthsAll(vs) == (|a| <= I32_MAX && |b| <= I32_MAX && |c| <= I32_MAX)
            && |LinesAll(vs)| == 6
            && StarCountAll(vs) == Stars(a) + Stars(b) + Stars(c)
  {
    hide Quota, Stars, Clean;
    TwoFacts(b, c);
    var vs := [BulkString(a), BulkString(b), BulkString(c)];
    var tail := [BulkString(b), BulkString(c)];
    assert vs[1..] == tail && |vs| == 3;
    assert CleanAll(vs) == (Clean(a) && CleanAll(tail));
    assert SurplusAll(vs) == Quota(a) + SurplusAll(tail);
    assert RobustAll(vs) == (Quota(a) == 0 && RobustAll(tail));
    assert WidthsAll(vs) == (|a| <= I32_MAX && WidthsAll(tail));
    assert LinesAll(vs) == Lines(BulkString(a)) + LinesAll(tail);
    assert StarCountAll(vs) == Stars(a) + StarCountAll(tail);
  }

  lemma TwoFacts(b: string, c: string)
    ensures var vs := [BulkString(b), BulkString(c)];
            && CleanAll(vs) == (Clean(b) && Clean(c))
            && SurplusAll(vs) == Quota(b) + Quota(c)
            && RobustAll(vs) == (Quota(b) == 0 && Quota(c) <= 1)
            && WidthsAll(vs) == (|b| <= I32_MAX && |c| <= I32_MAX)
            && |LinesAll(vs)| == 4
            && StarCountAll(vs) == Stars(b) + Stars(c)
  {
    hide Quota, Stars, Clean;
    var vs := [BulkString(b), BulkString(c)];
    assert vs[1..] == [BulkString(c)] && [BulkString(c)][1..] == [];
    assert CleanAll([BulkString(c)]) == Clean(c);
    assert RobustAll([BulkString(c)]) == (Quota(c) <= 1);
    assert WidthsAll([BulkString(c)]) == (|c| <= I32_MAX);
    assert LinesAll([BulkString(c)]) == Lines(BulkString(c)) + LinesAll([]);
    assert LinesAll(vs) == Lines(BulkString(b)) + LinesAll([BulkString(c)]);
    assert SurplusAll([BulkString(c)]) == Quota(c) + SurplusAll([]);
    assert StarCountAll([BulkString(c)]) == Stars(c) + StarCountAll([]);
  }

  lemma {:induction false} AppendFacts(a: seq<Value>, b: seq<Value>)
    requires b != []
    ensures CleanAll(a + b) == (CleanAll(a) && CleanAll(b))
    ensures RobustAll(a + b) == (SurplusAll(a) == 0 && RobustAll(b))
    ensures StarCountAll(a + b) == StarCountAll(a) + StarCountAll(b)
    ensures WidthsAll(a + b) == (WidthsAll(a) && WidthsAll(b))
    ensures |LinesAll(a + b)| == |LinesAll(a)| + |LinesAll(b)|
  {
    if a == [] {
      assert a + b == b;
    } else {
      assert (a + b)[1..] == a[1..] + b;
      AppendFacts(a[1..], b);
    }
  }

  /** A decimal is inert and offers no cut. */
  lemma DigitsInert(n: nat)
    requires n <= U64_MAX
    ensures Clean(Show(n)) && Quota(Show(n)) == 0 && Stars(Show(n)) == 0 && |Show(n)| <= 20
  {
    ShowLength(n, 20, PowerOfTen(20)) by { TwentyDigits(); }
    ShowIntClean(n);
    DigitsHaveNone(Show(n));
  }

  lemma WordInert(t: string)
    requires t == "set" || t == "px"
    ensures Clean(t) && Quota(t) == 0 && Stars(t) == 0
  {
    DigitsHaveNone(t);
  }

  /** A SET crosses the stream intact if and only if its key and value are single lines without `*digit`
      whose lengths fit the parser's i32, and look like no header; a value at the very end may announce
      one line. */
  lemma SetItemSafe(key: string, value: string, px: Option<u64>)
    ensures SetItem(key, value, px).Safe() <==>
              && |key| <= I32_MAX && |value| <= I32_MAX
              && Clean(key) && Clean(value)
              && Stars(key) == 0 && Stars(value) == 0
              && Quota(key) == 0 && Quota(value) <= (if px.None? then 1 else 0)
  {
    var fixed := [BulkString("set"), BulkString(key), BulkString(value)];
    WordInert("set");
    ThreeFacts("set", key, value);
    if px.Some? {
      WordInert("px");
      DigitsInert(px.value);
      TwoFacts("px", Show(px.value));
      AppendFacts(fixed, [BulkString("px"), BulkString(Show(px.value))]);
    }
    hide Clean, Quota, Stars;
  }

  // ---------------------------------------------------------------- the closed form of the offset

  /** The closed form counts the whole frame except the fixed nine bytes of its first bulk string. */
  lemma CountedIsFrame(key: string, value: string, px: Option<u64>)
    ensures CountedBytes(key, value, px) == |Encode(SetValue(key, value, px))| - 9
  {
    if px.Some? {
      EncodeFive("set", key, value, "px", Show(px.value));
    } else {
      EncodeThree("set", key, value);
    }
  }

  // ---------------------------------------------------------------- end to end

  lemma ApplyItem(item: Item, r: Replica, clock: Clock)
    ensures ApplyValue(item.Wire(), r, clock) == RunItem(item, r, clock)
  {
    hide Execute, Wrap64, CountedBytes, Encode, ParseCommand;
    match item
    case SetItem(key, value, px) =>
      ParseSetValue(key, value, px);
      CountedIsFrame(key, value, px);
    case AckItem(arg) => ParseGetackValue(arg);
  }

  lemma {:induction false} ApplyWires(items: seq<Item>, r: Replica, clock: Clock)
    ensures ApplyValues(Wires(items), r, clock) == RunItems(items, r, clock)
  {
    hide ApplyValue, RunItem;
    if items != [] {
      ApplyItem(items[0], r, clock);
      ApplyWires(items[1..], RunItem(items[0], r, clock), clock);
      assert Wires(items)[1..] == Wires(items[1..]);
    }
  }

  lemma WireShort(item: Item)
    ensures Short(item.Wire())
  {
    match item
    case SetItem(key, value, px) =>
      ThreeFacts("set", key, value);
      if px.Some? {
        TwoFacts("px", Show(px.value));
        AppendFacts([BulkString("set"), BulkString(key), BulkString(value)], [BulkString("px"), BulkString(Show(px.value))]);
      }
    case AckItem(arg) => ThreeFacts("REPLCONF", "GETACK", arg);
  }

  lemma {:induction false} WiresSafe(items: seq<Item>)
    requires AllSafe(items)
    ensures AllShort(Wires(items)) && forall v | v in Wires(items) :: Pipelinable(v)
  {
    hide Pipelinable, Short;
    if items != [] {
      assert items[0] in items;
      WireShort(items[0]);
      WiresSafe(items[1..]);
    }
  }

  lemma {:induction false} BytesThere(items: seq<Item>)
    requires items != []
    ensures Bytes(items) != ""
  {
    EncodedStars(items[0].Wire());
    assert EncodeAll(Wires(items)) == [Encode(items[0].Wire())] + EncodeAll(Wires(items[1..]));
    ConcatCons(Encode(items[0].Wire()), EncodeAll(Wires(items[1..])));
  }

  /** One read that ends at a frame boundary has the effect of its commands. */
  lemma ChunkRefines(items: seq<Item>, r: Replica, clock: Clock)
    requires r.alive && items != [] && AllSafe(items)
    ensures ApplyChunk(Bytes(items), r, clock) == RunItems(items, r, clock)
  {
    BytesThere(items);
    WiresSafe(items);
    PipelineExact(Wires(items));
    ApplyWires(items, r, clock);
  }

  lemma {:induction false} RunItemsAppend(a: seq<Item>, b: seq<Item>, r: Replica, clock: Clock)
    ensures RunItems(a + b, r, clock) == RunItems(b, RunItems(a, r, clock), clock)
  {
    hide RunItem;
    if a == [] {
      assert a + b == b;
    } else {
      assert (a + b)[1..] == a[1..] + b;
      RunItemsAppend(a[1..], b, RunItem(a[0], r, clock), clock);
    }
  }

  lemma {:induction false} StaysAlive(items: seq<Item>, r: Replica, clock: Clock)
    ensures RunItems(items, r, clock).alive == r.alive
  {
    hide Execute;
    if items != [] {
      StaysAlive(items[1..], RunItem(items[0], r, clock), clock);
    }
  }

  /** However the stream is cut at frame boundaries, reading it gives exactly what running its commands
      gives: the store, the offset, the acknowledgements written and the clock readings used. */
  lemma {:induction false} StreamRefines(chunks: seq<seq<Item>>, r: Replica, clock: Clock)
    requires r.alive && AllSafe(Flatten(chunks)) && forall c | c in chunks :: c != []
    ensures ApplyChunks(ChunkBytes(chunks), r, clock) == RunItems(Flatten(chunks), r, clock)
  {
    hide ApplyChunk, RunItem;
    if chunks != [] {
      var rest := Flatten(chunks[1..]);
      assert forall item | item in chunks[0] :: item in Flatten(chunks);
      assert forall item | item in rest :: item in Flatten(chunks);
      assert chunks[0] in chunks && forall c | c in chunks[1..] :: c in chunks;
      ChunkRefines(chunks[0], r, clock);
      RunItemsAppend(chunks[0], rest, r, clock);
      StaysAlive(chunks[0], r, clock);
      StreamRefines(chunks[1..], RunItems(chunks[0], r, clock), clock);
      assert ChunkBytes(chunks)[1..] == ChunkBytes(chunks[1..]);
    }
  }

  /** Executing a SET or a GETACK does not look at the offset, except in the acknowledgement. */
  lemma OffsetBlind(item: Item, w: World, offset: u64, now: Instant)
    ensures Execute(item.Cmd(), w.(offset := offset), now).0 == Execute(item.Cmd(), w, now).0.(offset := offset)
  {
    hide Resp, AckReply;
  }

  /** The store of the replica is the store that the commands give when run directly. */
  lemma {:induction false} StreamStore(items: seq<Item>, r: Replica, w: World, clock: Clock)
    requires r.world == w.(offset := r.world.offset)
    ensures var end := RunItems(items, r, clock);
            end.world == ExecuteAll(Cmds(items), w, clock, r.at).0.(offset := end.world.offset)
    ensures RunItems(items, r, clock).at == r.at + |items|
  {
    hide Execute;
    if items != [] {
      OffsetBlind(items[0], w, r.world.offset, clock(r.at));
      assert Cmds(items)[0] == items[0].Cmd() && Cmds(items)[1..] == Cmds(items[1..]);
      var w1 := Execute(items[0].Cmd(), w, clock(r.at)).0;
      StreamStore(items[1..], RunItem(items[0], r, clock), w1, clock);
    }
  }

  // ---------------------------------------------------------------- offset accounting

  /** Bytes of the SET frames, and how many of them there are. */
  function SetBytes(items: seq<Item>): nat {
    if items == [] then 0
    else (if items[0].SetItem? then |Encode(items[0].Wire())| else 0) + SetBytes(items[1..])
  }

  function SetCount(items: seq<Item>): nat {
    if items == [] then 0 else (if items[0].SetItem? then 1 else 0) + SetCount(items[1..])
  }

  lemma WrapTwice(a: int, b: int, c: int)
    ensures Wrap64(Wrap64(a + b) + c) == Wrap64(a + (b + c))
  {
  }

  /** The offset advances by the bytes of every SET frame less nine for each, modulo 2^64, and nothing
      else advances it. */
  lemma {:induction false} OffsetAccounting(items: seq<Item>, r: Replica, clock: Clock)
    ensures RunItems(items, r, clock).world.offset
         == Wrap64(r.world.offset + (SetBytes(items) - 9 * SetCount(items)))
  {
    hide Execute, Wrap64, Encode;
    if items != [] {
      KeepsOffset(items[0], r.world, clock(r.at));
      var r1 := RunItem(items[0], r, clock);
      OffsetAccounting(items[1..], r1, clock);
      if items[0].SetItem? {
        assert r1.world.offset == Wrap64(r.world.offset + (|Encode(items[0].Wire())| - 9));
        WrapTwice(r.world.offset, |Encode(items[0].Wire())| - 9, SetBytes(items[1..]) - 9 * SetCount(items[1..]));
      }
    }
  }

  lemma KeepsOffset(item: Item, w: World, now: Instant)
    ensures Execute(item.Cmd(), w, now).0.offset == w.offset
    ensures item.AckItem? ==> Execute(item.Cmd(), w, now).1 == AckReply(w.offset)
  {
  }

  /** A stream that is only SETs is counted nine bytes short for each of them. */
  lemma {:induction false} SetStreamBytes(items: seq<Item>)
    requires forall item | item in items :: item.SetItem?
    ensures SetBytes(items) == |Bytes(items)| && SetCount(items) == |items|
  {
    if items != [] {
      assert items[0] in items;
      SetStreamBytes(items[1..]);
      assert EncodeAll(Wires(items)) == [Encode(items[0].Wire())] + EncodeAll(Wires(items[1..]));
      ConcatCons(Encode(items[0].Wire()), EncodeAll(Wires(items[1..])));
    }
  }

  /** A GETACK anywhere in the stream is answered with exactly the offset reached before it. */
  lemma GetackReply(items: seq<Item>, arg: string, r: Replica, clock: Clock)
    ensures RunItems(items + [AckItem(arg)], r, clock).written
         == RunItems(items, r, clock).written
            + AckReply(Wrap64(r.world.offset + (SetBytes(items) - 9 * SetCount(items))))
  {
    hide Execute;
    var mid := RunItems(items, r, clock);
    RunItemsAppend(items, [AckItem(arg)], r, clock);
    OffsetAccounting(items, r, clock);
    KeepsOffset(AckItem(arg), mid.world, clock(mid.at));
    assert [AckItem(arg)][1..] == [];
    assert RunItems([AckItem(arg)], mid, clock) == RunItem(AckItem(arg), mid, clock);
  }
}
