/** src/main.rs in its own form: global state updated in place by the executor, the replica loop and the
    connection loop. */
module Server {
  import opened Basics
  import opened Text
  import opened Decimal
  import opened RespSpec
  import opened Printing
  import opened Commands
  import opened Executor
  import opened Stream
  import opened Connection
  import opened Data
  import Parser
  import CommandParser

  /** The lazily initialised statics, with the broadcast channel as the messages sent so far. */
  class Server {
    const admin: Admin
    const info: ReplicationInfo
    var slavesCount: nat
    var channel: seq<string>
    const dir: Option<string>
    const dbfilename: Option<string>
    const horizon: Instant
    const isPattern: string -> bool
    const isMatch: (string, string) -> bool
    const listing: (set<string>, Instant) -> seq<string>

    constructor (admin: Admin, info: ReplicationInfo, dir: Option<string>, dbfilename: Option<string>,
                 horizon: Instant, isPattern: string -> bool, isMatch: (string, string) -> bool,
                 listing: (set<string>, Instant) -> seq<string>)
      requires admin.Valid()
      ensures Valid() && this.admin == admin && this.info == info
      ensures slavesCount == 0 && channel == []
    {
      this.admin := admin;
      this.info := info;
      this.dir := dir;
      this.dbfilename := dbfilename;
      this.horizon := horizon;
      this.isPattern := isPattern;
      this.isMatch := isMatch;
      this.listing := listing;
      slavesCount := 0;
      channel := [];
    }

    ghost predicate Valid()
      reads this, admin
    {
      admin.Valid()
    }

    ghost function View(): World
      requires Valid()
      reads this, admin, info, admin.Current()
    {
      World(admin.Current().entries, info.role, info.masterReplid, info.masterReplOffset, slavesCount,
            channel, dir, dbfilename, horizon, isPattern, isMatch, listing)
    }

    /** One turn of the executor's loop. */
    method ExecuteCommand(cmd: Command, now: Instant) returns (reply: string)
      requires Valid()
      modifies admin.Current(), this`channel
      ensures Valid()
      ensures (View(), reply) == Execute(cmd, old(View()), now)
    {
      match cmd
      case Ping => reply := "+PONG" + CRLF;
      case Echo(words) => reply := "+" + words + CRLF;
      case ConfigGet(Dir) => reply := ConfigReply("dir", dir);
      case ConfigGet(DbFilename) => reply := ConfigReply("dbfilename", dbfilename);
      case Set(key, value, px) => reply := ExecuteSet(key, value, px, now);
      case Get(key) => reply := ExecuteGet(key, now);
      case Keys(pattern) => reply := ExecuteKeys(pattern, now);
      case Incr(key) => reply := ExecuteIncr(key, now);
      case Info(sections) => reply := PrintInfo(sections);
      case Replconf(ListeningPort(_)) => reply := OK_REPLY;
      case Replconf(Capa(_)) => reply := OK_REPLY;
      case Replconf(Getack(_)) => reply := AckReply(info.masterReplOffset);
      case Replconf(Ack(_)) => reply := "";
      case _ => reply := UNSUPPORTED_REPLY;
    }

    /** Insert, then broadcast if there is a replica to hear it; both while the map is locked. */
    method ExecuteSet(key: string, value: string, px: Option<u64>, now: Instant) returns (reply: string)
      requires Valid()
      modifies admin.Current(), this`channel
      ensures Valid()
      ensures (View(), reply) == Execute(Set(key, value, px), old(View()), now)
    {
      var expiration: Option<Instant> := None;
      if px.Some? {
        var future := now + px.value * NANOS_PER_MILLI;
        if future > horizon {
          return OVERFLOW_REPLY;
        }
        expiration := Some(future);
      }
      var table := admin.GetStringDataMap();
      table.entries := table.entries[key := StringData(value, expiration)];
      reply := OK_REPLY;
      if info.role == Master && slavesCount != 0 {
        var message := CommandParser.GenerateResp(Set(key, value, px));
        channel := channel + [message];
      }
    }

    method ExecuteGet(key: string, now: Instant) returns (reply: string)
      requires Valid()
      modifies admin.Current()
      ensures Valid()
      ensures (View(), reply) == Execute(Get(key), old(View()), now)
    {
      var table := admin.GetStringDataMap();
      if key in table.entries {
        var data := table.entries[key];
        if data.IsExpired(now) {
          table.entries := table.entries - {key};
          reply := NIL_REPLY;
        } else {
          reply := BulkText(data.data);
        }
      } else {
        reply := NIL_REPLY;
      }
    }

    method ExecuteKeys(pattern: string, now: Instant) returns (reply: string)
      requires Valid()
      ensures (View(), reply) == Execute(Keys(pattern), View(), now)
    {
      if !isPattern(pattern) {
        return REGEX_REPLY;
      }
      var table := admin.GetStringDataMap();
      var found := FilterKeys(pattern, listing(table.entries.Keys, now), isMatch);
      reply := PrintKeys(found);
    }

    method ExecuteIncr(key: string, ghost now: Instant) returns (reply: string)
      requires Valid()
      modifies admin.Current()
      ensures Valid()
      ensures (View(), reply) == Execute(Incr(key), old(View()), now)
    {
      hide ShowInt, ParseSigned;
      var table := admin.GetStringDataMap();
      ghost var before := table.entries;
      if key !in table.entries {
        table.entries := table.entries[key := StringData("0", None)];
      }
      var data := table.entries[key];
      assert table.entries == before[key := data];
      match ParseSigned(data.data, I64_MIN, I64_MAX)
      case Some(n) =>
        var num := n;
        if num < I64_MAX {
          num := num + 1;
        }
        assert num == Bump(n);
        var updated := data.(data := ShowInt(num));
        table.entries := table.entries[key := updated];
        assert table.entries == before[key := updated];
        reply := ":" + ShowInt(num) + CRLF;
      case None =>
        reply := NOT_INTEGER_REPLY;
    }

    method PrintInfo(sections: seq<InfoSection>) returns (reply: string)
      requires Valid()
      ensures reply == InfoReply(sections, View())
    {
      hide InfoBody, ReplicationText;
      var text := "";
      var cnt := 0;
      ghost var w := View();
      ghost var body := InfoBody(sections, w);
      assert sections[0..] == sections && "" + body == body;
      for i := 0 to |sections|
        invariant cnt == |text|
        invariant body == text + InfoBody(sections[i..], w)
      {
        var section := ReplicationText(info.role, info.masterReplid, info.masterReplOffset);
        InfoNext(text, sections[i..], w);
        assert sections[i..][1..] == sections[i + 1..];
        text := text + section;
        cnt := cnt + |section|;
      }
      InfoEnd(text, w);
      var popped := if text == "" then "" else text[..|text| - 1];
      reply := "$" + Show(Wrap64(cnt - 1)) + CRLF + (popped + CRLF);
    }

    /** `execute_multi_commands` */
    method ExecuteMultiCommands(commands: seq<Command>, isMulti: bool, clock: Clock, at: nat) returns (res: string)
      requires Valid()
      modifies admin.Current(), this`channel
      ensures Valid()
      ensures (View(), res) == ExecuteMulti(commands, isMulti, old(View()), clock, at)
    {
      hide Execute, ExecuteAll, ExecuteMulti, Prepend, ArrayHeader, Concat;
      ghost var start := View();
      var header := if isMulti then ArrayHeader(|commands|) else "";
      res := header;
      ghost var done: seq<string> := [];
      ghost var whole := ExecuteAll(commands, start, clock, at);
      PrependNone(whole);
      HeaderOnly(header);
      assert commands[0..] == commands;
      for i := 0 to |commands|
        invariant Valid()
        invariant res == header + Concat(done)
        invariant whole == Prepend(done, ExecuteAll(commands[i..], View(), clock, at + i))
      {
        ghost var before := View();
        ghost var rest := commands[i..];
        assert rest[0] == commands[i] && rest[1..] == commands[i + 1..];
        PrependNext(done, rest, before, clock, at + i);
        var reply := ExecuteCommand(commands[i], clock(at + i));
        RepliesNext(header, done, reply);
        res := res + reply;
        done := done + [reply];
      }
      PrependAll(done, View(), clock, at + |commands|);
      MultiIs(commands, isMulti, start, clock, at, View(), done);
    }

    /** One read of the replica loop: parse, execute, answer GETACK, count SET. */
    method ApplyBytes(bytes: string, clock: Clock, start: nat) returns (written: string, at: nat, alive: bool)
      requires Valid()
      modifies admin.Current(), this`channel, info`masterReplOffset
      ensures Valid()
      ensures Replica(View(), at, written, alive) == ApplyChunk(bytes, Replica(old(View()), start, "", true), clock)
    {
      written, at, alive := "", start, true;
      if bytes == "" {
        alive := false;
        return;
      }
      var parsed := Parser.ParseMultiArray(bytes);
      if parsed.Panic? {
        alive := false;
        return;
      }
      if !parsed.Ok? {
        return;
      }
      var values := parsed.value;
      ghost var first := Replica(View(), start, "", true);
      for i := 0 to |values|
        invariant Valid()
        invariant ApplyValues(values, first, clock) == ApplyValues(values[i..], Replica(View(), at, written, alive), clock)
      {
        hide ApplyValue;
        assert values[i..][0] == values[i] && values[i..][1..] == values[i + 1..];
        ghost var r := Replica(View(), at, written, alive);
        written, at := ApplyOne(values[i], clock, written, at);
      }
    }

    method ApplyOne(value: Value, clock: Clock, written0: string, at0: nat) returns (written: string, at: nat)
      requires Valid()
      modifies admin.Current(), this`channel, info`masterReplOffset
      ensures Valid()
      ensures Replica(View(), at, written, true) == ApplyValue(value, Replica(old(View()), at0, written0, true), clock)
    {
      written, at := written0, at0;
      if !value.Array? {
        return;
      }
      hide ApplyCommand, ParseCommand;
      var parsed := ParseCommand(value.items);
      if !parsed.Ok? {
        return;
      }
      written, at := ObeyReplicated(parsed.value, clock, written, at);
    }

    method ObeyReplicated(cmd: Command, clock: Clock, written0: string, at0: nat) returns (written: string, at: nat)
      requires Valid()
      modifies admin.Current(), this`channel, info`masterReplOffset
      ensures Valid()
      ensures Replica(View(), at, written, true) == ApplyCommand(cmd, Replica(old(View()), at0, written0, true), clock)
    {
      hide Execute, ExecuteMulti, CountedBytes, Wrap64;
      written, at := written0, at0 + 1;
      ExecuteOne(cmd, View(), clock, at0);
      var reply := ExecuteMultiCommands([cmd], false, clock, at0);
      match cmd
      case Replconf(Getack(_)) => written := written + reply;
      case Set(key, value, px) =>
        var length := CountSet(key, value, px);
        info.IncrementOffset(Wrap64(length));
        WrapCount(old(info.masterReplOffset), length);
      case _ =>
    }

    /** `handle_commands`, for the buffers that the client sends until it closes the connection. */
    method HandleCommands(buffers: seq<string>, clock: Clock, start: nat) returns (replies: seq<string>, at: nat, open: bool)
      requires Valid()
      modifies admin.Current(), this`channel
      ensures Valid()
      ensures var s := Timeline(Buffers(buffers), Session(FRESH, old(View()), start, [], true), clock, QUIET);
              s.world == View() && s.at == at && s.replies == replies && s.open == open
    {
      var isMulti := false;
      var queue: seq<Command> := [];
      replies, at, open := [], start, true;
      ghost var first := Session(FRESH, View(), start, [], true);
      var i := 0;
      while i < |buffers| && open
        invariant Valid() && i <= |buffers|
        invariant Timeline(Buffers(buffers), first, clock, QUIET)
               == Timeline(Buffers(buffers[i..]), Session(Conn(isMulti, queue), View(), at, replies, open), clock, QUIET)
      {
        hide Advance;
        ghost var s := Session(Conn(isMulti, queue), View(), at, replies, true);
        assert buffers[i..][0] == buffers[i] && buffers[i..][1..] == buffers[i + 1..];
        BuffersNext(buffers[i..], s, clock);
        isMulti, queue, at, replies, open := HandleBuffer(buffers[i], isMulti, queue, clock, at, replies);
        i := i + 1;
      }
      ClosedRest(Buffers(buffers[i..]), Session(Conn(isMulti, queue), View(), at, replies, open), clock);
    }

    /** One turn of the connection's loop. */
    method HandleBuffer(buffer: string, isMulti0: bool, queue0: seq<Command>, clock: Clock, at0: nat, replies0: seq<string>)
      returns (isMulti: bool, queue: seq<Command>, at: nat, replies: seq<string>, open: bool)
      requires Valid()
      modifies admin.Current(), this`channel
      ensures Valid()
      ensures Session(Conn(isMulti, queue), View(), at, replies, open)
           == Advance(Buffer(buffer), Session(Conn(isMulti0, queue0), old(View()), at0, replies0, true), clock, QUIET)
    {
      isMulti, queue, at, replies, open := isMulti0, queue0, at0, replies0, true;
      hide Obey, ParseCommand, RespSpec.Parse;
      var value := Parser.ParseValue(buffer);
      if !value.Ok? {
        open := false;
        return;
      }
      if !value.value.Array? {
        return;
      }
      var parsed := ParseCommand(value.value.items);
      if !parsed.Ok? {
        return;
      }
      isMulti, queue, at, replies, open := HandleCommand(parsed.value, isMulti, queue, clock, at, replies);
    }

    method HandleCommand(cmd: Command, isMulti0: bool, queue0: seq<Command>, clock: Clock, at0: nat, replies0: seq<string>)
      returns (isMulti: bool, queue: seq<Command>, at: nat, replies: seq<string>, open: bool)
      requires Valid()
      modifies admin.Current(), this`channel
      ensures Valid()
      ensures Session(Conn(isMulti, queue), View(), at, replies, open)
           == Obey(cmd, Session(Conn(isMulti0, queue0), old(View()), at0, replies0, true), clock, QUIET)
    {
      hide Execute, ExecuteAll, ExecuteAmong;
      isMulti, queue, at, replies, open := isMulti0, queue0, at0, replies0, true;
      match cmd
      case Psync(id, _) => open := id.Some?;
      case Multi =>
        isMulti := true;
        replies := replies + [OK_REPLY];
      case Exec =>
        if !isMulti {
          replies := replies + [EXEC_REFUSED];
        } else {
          QuietExecute(queue, View(), clock, at);
          var reply := ExecuteMultiCommands(queue, true, clock, at);
          at := at + |queue|;
          queue := [];
          isMulti := false;
          replies := replies + [reply];
        }
      case Discard =>
        if !isMulti {
          replies := replies + [DISCARD_REFUSED];
        } else {
          queue := [];
          isMulti := false;
          replies := replies + [OK_REPLY];
        }
      case other =>
        if !isMulti {
          var reply := ExecuteMultiCommands([other], false, clock, at);
          at := at + 1;
          replies := replies + [reply];
        } else {
          queue := queue + [other];
          replies := replies + [QUEUED_REPLY];
        }
    }
  }

  /** The byte count of the replica loop. */
  method CountSet(key: string, value: string, px: Option<u64>) returns (length: nat)
    ensures length == CountedBytes(key, value, px)
  {
    length := 4;
    length := length + |key| + |Show(|key|)| + 5;
    length := length + |value| + |Show(|value|)| + 5;
    if px.Some? {
      length := length + 8 + |Show(px.value)| + |Show(|Show(px.value)|)| + 5;
    }
  }

  lemma WrapCount(offset: u64, length: nat)
    ensures Wrap64(offset + Wrap64(length)) == Wrap64(offset + length)
  {
  }

  /** The loop over the map's keys that keeps those that match. */
  method FilterKeys(pattern: string, keys: seq<string>, isMatch: (string, string) -> bool) returns (found: seq<string>)
    ensures found == Matching(pattern, keys, isMatch)
  {
    found := [];
    ghost var all := Matching(pattern, keys, isMatch);
    assert keys[0..] == keys && [] + all == all;
    for i := 0 to |keys|
      invariant all == found + Matching(pattern, keys[i..], isMatch)
    {
      MatchNext(found, pattern, keys[i..], isMatch);
      assert keys[i..][1..] == keys[i + 1..];
      if isMatch(pattern, keys[i]) {
        found := found + [keys[i]];
      }
    }
    assert found + [] == found;
  }

  method PrintKeys(keys: seq<string>) returns (reply: string)
    ensures reply == KeysReply(keys)
  {
    var header := ArrayHeader(|keys|);
    reply := header;
    for i := 0 to |keys|
      invariant header + Concat(BulkTexts(keys)) == reply + Concat(BulkTexts(keys[i..]))
    {
      KeysNext(reply, keys[i..]);
      assert keys[i..][1..] == keys[i + 1..];
      reply := reply + BulkText(keys[i]);
    }
    assert reply + "" == reply;
  }

  lemma MatchNext(found: seq<string>, pattern: string, keys: seq<string>, isMatch: (string, string) -> bool)
    requires keys != []
    ensures found + Matching(pattern, keys, isMatch)
         == (if isMatch(pattern, keys[0]) then found + [keys[0]] else found) + Matching(pattern, keys[1..], isMatch)
  {
    var more := Matching(pattern, keys[1..], isMatch);
    assert found + ([keys[0]] + more) == (found + [keys[0]]) + more && [] + more == more;
  }

  lemma KeysNext(reply: string, keys: seq<string>)
    requires keys != []
    ensures reply + Concat(BulkTexts(keys)) == (reply + BulkText(keys[0])) + Concat(BulkTexts(keys[1..]))
  {
    ConcatCons(BulkText(keys[0]), BulkTexts(keys[1..]));
  }

  lemma InfoNext(text: string, sections: seq<InfoSection>, w: World)
    requires sections != []
    ensures text + InfoBody(sections, w) == (text + InfoSectionText(w)) + InfoBody(sections[1..], w)
  {
    hide InfoSectionText;
  }

  lemma InfoEnd(text: string, w: World)
    ensures text + InfoBody([], w) == text
  {
  }

  /** The replies so far, before those of the rest of the loop. */
  ghost function Prepend(done: seq<string>, rest: (World, seq<string>)): (World, seq<string>) {
    (rest.0, done + rest.1)
  }

  lemma PrependNone(rest: (World, seq<string>))
    ensures Prepend([], rest) == rest
  {
    assert [] + rest.1 == rest.1;
  }

  lemma HeaderOnly(header: string)
    ensures header == header + Concat([])
  {
  }

  lemma MultiIs(cmds: seq<Command>, isMulti: bool, w: World, clock: Clock, at: nat, end: World, replies: seq<string>)
    requires ExecuteAll(cmds, w, clock, at) == (end, replies)
    ensures ExecuteMulti(cmds, isMulti, w, clock, at)
         == (end, (if isMulti then ArrayHeader(|cmds|) else "") + Concat(replies))
  {
  }

  lemma PrependAll(done: seq<string>, w: World, clock: Clock, at: nat)
    ensures Prepend(done, ExecuteAll([], w, clock, at)) == (w, done)
  {
    assert done + [] == done;
  }

  lemma PrependNext(done: seq<string>, cmds: seq<Command>, w: World, clock: Clock, at: nat)
    requires cmds != []
    ensures var (w', reply) := Execute(cmds[0], w, clock(at));
            Prepend(done, ExecuteAll(cmds, w, clock, at))
              == Prepend(done + [reply], ExecuteAll(cmds[1..], w', clock, at + 1))
  {
    hide Execute;
    var (w', reply) := Execute(cmds[0], w, clock(at));
    var more := ExecuteAll(cmds[1..], w', clock, at + 1).1;
    assert done + ([reply] + more) == (done + [reply]) + more;
  }

  lemma RepliesNext(header: string, done: seq<string>, reply: string)
    ensures header + Concat(done + [reply]) == header + Concat(done) + reply
  {
    ConcatAppend(done, [reply]);
    ConcatCons(reply, []);
    assert [reply] + [] == [reply] && reply + "" == reply;
  }

  /** A list of one command outside a transaction is that command. */
  lemma ExecuteOne(cmd: Command, w: World, clock: Clock, at: nat)
    ensures ExecuteMulti([cmd], false, w, clock, at) == Execute(cmd, w, clock(at))
  {
    hide Execute;
    var (w', reply) := Execute(cmd, w, clock(at));
    assert [cmd][1..] == [];
    assert ExecuteAll([cmd], w, clock, at) == (w', [reply] + []);
    ConcatCons(reply, []);
    assert "" + (reply + "") == reply;
  }

  lemma BuffersNext(buffers: seq<string>, s: Session, clock: Clock)
    requires buffers != []
    ensures Timeline(Buffers(buffers), s, clock, QUIET)
         == Timeline(Buffers(buffers[1..]), Advance(Buffer(buffers[0]), s, clock, QUIET), clock, QUIET)
  {
    hide Advance;
    assert Buffers(buffers)[0] == Buffer(buffers[0]) && Buffers(buffers)[1..] == Buffers(buffers[1..]);
  }

  lemma {:induction false} ClosedRest(es: seq<Event>, s: Session, clock: Clock)
    requires !s.open || es == []
    ensures Timeline(es, s, clock, QUIET) == s
  {
    if es != [] {
      ClosedRest(es[1..], s, clock);
    }
  }
}
