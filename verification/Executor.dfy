/** `execute_multi_commands` as a function of the server's state and the clock readings. */
module Executor {
  import opened Basics
  import opened Text
  import opened Decimal
  import opened RespSpec
  import opened Commands
  import opened Printing

  /** A point in time, in nanoseconds since the epoch. */
  type Instant = nat
  const NANOS_PER_MILLI: nat := 1_000_000

  datatype StringData = StringData(data: string, expiration: Option<Instant>) {
    predicate IsExpired(now: Instant) {
      expiration.Some? && now >= expiration.value
    }
  }

  type Store = map<string, StringData>

  datatype Role = Master | Slave

  /** The state that commands read and write. `horizon` is the last instant the platform's clock type
      can hold. `isPattern` and `isMatch` stand for the regular expression library, and `listing` for
      the order in which a map visits its keys at some instant. */
  datatype World = World(
    store: Store,
    role: Role,
    replid: string,
    offset: u64,
    slaves: nat,
    sent: seq<string>,
    dir: Option<string>,
    dbfilename: Option<string>,
    horizon: Instant,
    isPattern: string -> bool,
    isMatch: (string, string) -> bool,
    listing: (set<string>, Instant) -> seq<string>)

  /** A map visits every key once. */
  ghost predicate Lists(w: World) {
    forall keys: set<string>, now: Instant :: multiset(w.listing(keys, now)) == multiset(keys)
  }

  const OK_REPLY := "+OK" + CRLF
  const NIL_REPLY := "$-1" + CRLF
  const OVERFLOW_REPLY := "-ERR Instant Addtion Error"
  const REGEX_REPLY := "-ERR Invalid Regex Format"
  const UNSUPPORTED_REPLY := "-ERR not supported command"
  const NOT_INTEGER := "ERR value is not an integer or out of range"
  const NOT_INTEGER_REPLY := "-" + NOT_INTEGER + CRLF

  /** When a SET's entry expires; no value when the clock type cannot hold the sum. */
  function Deadline(px: Option<u64>, now: Instant, horizon: Instant): Option<Option<Instant>> {
    match px
    case None => Some(None)
    case Some(millis) =>
      if now + millis * NANOS_PER_MILLI <= horizon then Some(Some(now + millis * NANOS_PER_MILLI)) else None
  }

  /** One more, but never past the largest i64. */
  function Bump(n: int): int {
    if n < I64_MAX then n + 1 else n
  }

  function ConfigReply(name: string, value: Option<string>): string {
    ArrayHeader(2) + BulkText(name) + if value.Some? then BulkText(value.value) else NIL_REPLY
  }

  function ReplicationText(role: Role, replid: string, offset: u64): string {
    "role:" + (if role == Master then "master" else "slave") + "\n"
    + "master_replid:" + replid + "\n"
    + "master_repl_offset:" + Show(offset) + "\n"
  }

  function InfoSectionText(w: World): string {
    ReplicationText(w.role, w.replid, w.offset)
  }

  function InfoBody(sections: seq<InfoSection>, w: World): string {
    if sections == [] then "" else InfoSectionText(w) + InfoBody(sections[1..], w)
  }

  /** The counted length is one less than the text before its last character is popped, so it wraps
      around when there is no section. */
  function InfoReply(sections: seq<InfoSection>, w: World): string {
    var body := InfoBody(sections, w);
    var popped := if body == "" then "" else body[..|body| - 1];
    "$" + Show(Wrap64(|body| - 1)) + CRLF + (popped + CRLF)
  }

  function AckReply(offset: u64): string {
    Encode(Array([BulkString("REPLCONF"), BulkString("ACK"), BulkString(Show(offset))]))
  }

  /** The keys that match, in the order visited. */
  function Matching(pattern: string, keys: seq<string>, isMatch: (string, string) -> bool): seq<string> {
    if keys == [] then []
    else (if isMatch(pattern, keys[0]) then [keys[0]] else []) + Matching(pattern, keys[1..], isMatch)
  }

  /** What KEYS finds in the map. */
  function Found(pattern: string, w: World, now: Instant): seq<string> {
    Matching(pattern, w.listing(w.store.Keys, now), w.isMatch)
  }

  function KeysReply(keys: seq<string>): string {
    ArrayHeader(|keys|) + Concat(BulkTexts(keys))
  }

  /** One command: the state after it and its reply. */
  function Execute(cmd: Command, w: World, now: Instant): (World, string) {
    match cmd
    case Ping => (w, "+PONG" + CRLF)
    case Echo(words) => (w, "+" + words + CRLF)
    case ConfigGet(Dir) => (w, ConfigReply("dir", w.dir))
    case ConfigGet(DbFilename) => (w, ConfigReply("dbfilename", w.dbfilename))
    case Set(key, value, px) =>
      (match Deadline(px, now, w.horizon)
       case None => (w, OVERFLOW_REPLY)
       case Some(expiration) =>
         var w' := w.(store := w.store[key := StringData(value, expiration)]);
         if w.role == Master && w.slaves != 0 then (w'.(sent := w.sent + [Resp(cmd)]), OK_REPLY)
         else (w', OK_REPLY))
    case Get(key) =>
      if key !in w.store then (w, NIL_REPLY)
      else if w.store[key].IsExpired(now) then (w.(store := w.store - {key}), NIL_REPLY)
      else (w, BulkText(w.store[key].data))
    case Keys(pattern) => (w, if w.isPattern(pattern) then KeysReply(Found(pattern, w, now)) else REGEX_REPLY)
    case Incr(key) =>
      var entry := if key in w.store then w.store[key] else StringData("0", None);
      (match ParseSigned(entry.data, I64_MIN, I64_MAX)
       case Some(n) =>
         (w.(store := w.store[key := entry.(data := ShowInt(Bump(n)))]), ":" + ShowInt(Bump(n)) + CRLF)
       case None => (w.(store := w.store[key := entry]), NOT_INTEGER_REPLY))
    case Info(sections) => (w, InfoReply(sections, w))
    case Replconf(ListeningPort(_)) => (w, OK_REPLY)
    case Replconf(Capa(_)) => (w, OK_REPLY)
    case Replconf(Getack(_)) => (w, AckReply(w.offset))
    case Replconf(Ack(_)) => (w, "")
    case _ => (w, UNSUPPORTED_REPLY)
  }

  /** A clock gives one reading for each command executed, in order. */
  type Clock = nat -> Instant

  ghost predicate Monotone(clock: Clock) {
    forall i: nat, j: nat | i <= j :: clock(i) <= clock(j)
  }

  /** Commands in order; the first one is executed at reading `at`. */
  function ExecuteAll(cmds: seq<Command>, w: World, clock: Clock, at: nat): (World, seq<string>)
  {
    if cmds == [] then (w, [])
    else
      var (w1, reply) := Execute(cmds[0], w, clock(at));
      var (w2, replies) := ExecuteAll(cmds[1..], w1, clock, at + 1);
      (w2, [reply] + replies)
  }

  /** `execute_multi_commands`: the array header only inside a transaction. */
  function ExecuteMulti(cmds: seq<Command>, isMulti: bool, w: World, clock: Clock, at: nat): (World, string) {
    var (w', replies) := ExecuteAll(cmds, w, clock, at);
    (w', (if isMulti then ArrayHeader(|cmds|) else "") + Concat(replies))
  }

  lemma {:induction false} ExecuteAllCount(cmds: seq<Command>, w: World, clock: Clock, at: nat)
    ensures |ExecuteAll(cmds, w, clock, at).1| == |cmds|
  {
    if cmds != [] {
      ExecuteAllCount(cmds[1..], Execute(cmds[0], w, clock(at)).0, clock, at + 1);
    }
  }

  /** Running two lists one after the other is running their concatenation. */
  lemma {:induction false} ExecuteAllAppend(a: seq<Command>, b: seq<Command>, w: World, clock: Clock, at: nat)
    ensures var (w1, r1) := ExecuteAll(a, w, clock, at);
            var (w2, r2) := ExecuteAll(b, w1, clock, at + |a|);
            ExecuteAll(a + b, w, clock, at) == (w2, r1 + r2)
  {
    hide Execute;
    if a == [] {
      assert a + b == b;
      assert [] + ExecuteAll(b, w, clock, at).1 == ExecuteAll(b, w, clock, at).1;
    } else {
      assert (a + b)[1..] == a[1..] + b;
      var (w0, r0) := Execute(a[0], w, clock(at));
      ExecuteAllAppend(a[1..], b, w0, clock, at + 1);
      var (w1, r1) := ExecuteAll(a[1..], w0, clock, at + 1);
      var (w2, r2) := ExecuteAll(b, w1, clock, at + |a|);
      assert [r0] + (r1 + r2) == ([r0] + r1) + r2;
    }
  }
}
