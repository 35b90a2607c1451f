/** The replies of the executor: line-cleanliness over runs, and exactly when the reply to EXEC is one
    well-formed array of its commands' replies. */
module Replies {
  import opened Basics
  import opened Text
  import opened Decimal
  import opened RespSpec
  import opened QuotaWords
  import opened Grouping
  import opened RoundTrip
  import opened Pipeline
  import opened Printing
  import opened Commands
  import opened Executor
  import opened Framing

  // ---------------------------------------------------------------- clean states

  ghost predicate CleanStore(store: Store) {
    forall k | k in store :: Clean(k) && Clean(store[k].data)
  }

  predicate CleanOption(s: Option<string>) {
    s.Some? ==> Clean(s.value)
  }

  /** The start-up configuration is line-clean, and matched keys are keys. */
  ghost predicate CleanConfig(w: World) {
    && CleanOption(w.dir) && CleanOption(w.dbfilename)
    && (forall i | 0 <= i < |w.replid| :: w.replid[i] != '\r')
    && Lists(w)
  }

  ghost predicate CleanWorld(w: World) {
    CleanStore(w.store) && CleanConfig(w)
  }

  lemma DigitsClean(n: int)
    ensures Clean(ShowInt(n))
  {
    ShowIntClean(n);
  }

  /** No command can put a CRLF into the store. */
  lemma ExecuteClean(cmd: Command, w: World, now: Instant)
    requires CleanWorld(w) && CleanCommand(cmd)
    ensures CleanWorld(Execute(cmd, w, now).0)
  {
    hide Clean, ShowInt, ParseSigned, Resp, InfoReply, AckReply, KeysReply, ConfigReply;
    if cmd.Incr? {
      var entry := if cmd.key in w.store then w.store[cmd.key] else StringData("0", None);
      assert Clean("0") by { ZeroClean(); }
      var parsed := ParseSigned(entry.data, I64_MIN, I64_MAX);
      if parsed.Some? {
        DigitsClean(Bump(parsed.value));
      }
    }
  }

  lemma ZeroClean()
    ensures Clean("0")
  {
    assert !CrlfAt("0", 0);
  }

  predicate CleanCommands(cmds: seq<Command>) {
    forall c | c in cmds :: CleanCommand(c)
  }

  lemma {:induction false} ExecuteAllClean(cmds: seq<Command>, w: World, clock: Clock, at: nat)
    requires CleanWorld(w) && CleanCommands(cmds)
    ensures CleanWorld(ExecuteAll(cmds, w, clock, at).0)
  {
    hide CleanWorld, CleanCommand, Execute;
    if cmds != [] {
      assert cmds[0] in cmds;
      ExecuteClean(cmds[0], w, clock(at));
      ExecuteAllClean(cmds[1..], Execute(cmds[0], w, clock(at)).0, clock, at + 1);
    }
  }

  /** From a clean state a successful GET replies with a correct length line and one data line. */
  lemma GetReplyLines(key: string, w: World, now: Instant)
    requires CleanWorld(w) && key in w.store && !w.store[key].IsExpired(now)
    ensures var data := w.store[key].data;
            Split(Execute(Get(key), w, now).1) == ["$" + Show(|data|), data, ""]
  {
    var data := w.store[key].data;
    EncodeBulk(data);
    assert CleanValue(BulkString(data));
    LinesClean(BulkString(data));
    SplitUnlines(Lines(BulkString(data)), "");
    SplitBlank("");
    assert Encode(BulkString(data)) + "" == Encode(BulkString(data));
  }

  // ---------------------------------------------------------------- single replies as frames

  lemma LineFrame(c: char, t: string)
    requires Clean(t) && c != '\r' && c != '$' && c != '*'
    ensures IsFrame([c] + t + CRLF)
  {
    HeaderClean(c, t);
    var l := [c] + t;
    assert AllClean([l]);
    LinesFrame([l]);
    UnlinesOne(l);
    assert Quota(l) == 0;
  }

  /** A text that does not end its last line is no frame. */
  lemma OpenEnd(t: string)
    requires t == "" || t[|t| - 1] != '\n'
    ensures !IsFrame(t)
  {
    if IsFrame(t) {
      FrameText(t);
      UnlinesEnd(FrameLines(t));
      assert false;
    }
  }

  /** The value that a reply prints, for the commands whose reply is a plain value. */
  function ReplyValue(cmd: Command, w: World, now: Instant): Option<Value> {
    match cmd
    case ConfigGet(Dir) => Some(ConfigValue("dir", w.dir))
    case ConfigGet(DbFilename) => Some(ConfigValue("dbfilename", w.dbfilename))
    case Get(key) =>
      Some(if key in w.store && !w.store[key].IsExpired(now) then BulkString(w.store[key].data) else Null)
    case Keys(pattern) => if w.isPattern(pattern) then Some(Array(Bulks(Found(pattern, w, now)))) else None
    case Info(sections) => if sections == [] then None else Some(BulkString(InfoText(sections, w)))
    case Replconf(Getack(_)) =>
      Some(Array([BulkString("REPLCONF"), BulkString("ACK"), BulkString(Show(w.offset))]))
    case _ => None
  }

  function ConfigValue(name: string, value: Option<string>): Value {
    Array([BulkString(name), if value.Some? then BulkString(value.value) else Null])
  }

  /** The text of INFO, without the last newline. */
  function InfoText(sections: seq<InfoSection>, w: World): string
    requires sections != []
  {
    var body := InfoBody(sections, w);
    assert body != "";
    body[..|body| - 1]
  }

  /** A text that prints as a bulk string of two lines and no more. */
  predicate Plain(t: string) {
    |t| <= I32_MAX && Quota(t) == 0
  }

  /** The commands whose reply is one frame, by the guards of the branches that break it. The texts that
      KEYS finds may cancel each other out, so they are judged together. */
  predicate Framed(cmd: Command, w: World, now: Instant) {
    match cmd
    case Ping => true
    case Echo(_) => true
    case Incr(_) => true
    case ConfigGet(Dir) => w.dir.Some? ==> Plain(w.dir.value)
    case ConfigGet(DbFilename) => w.dbfilename.Some? ==> Plain(w.dbfilename.value)
    case Set(_, _, px) => Deadline(px, now, w.horizon).Some?
    case Get(key) => key in w.store && !w.store[key].IsExpired(now) ==> Plain(w.store[key].data)
    case Keys(pattern) => w.isPattern(pattern) && Settled(Found(pattern, w, now))
    case Info(sections) => Wrap64(|InfoBody(sections, w)| - 1) <= I32_MAX
    case Replconf(sub) => !sub.Ack?
    case _ => false
  }

  // ---------------------------------------------------------------- replies print their values

  lemma EncodeNull()
    ensures Encode(Null) == NIL_REPLY
  {
    assert Lines(Null) == ["$-1"];
    UnlinesOne("$-1");
  }

  lemma EncodeTwo(a: Value, b: Value)
    ensures Encode(Array([a, b])) == ArrayHeader(2) + (Encode(a) + Encode(b))
  {
    var items := [a, b];
    EncodeArray(items);
    EncodeOne(b);
    assert items[1..] == [b];
    assert EncodeAll(items) == [Encode(a)] + EncodeAll([b]);
    ConcatCons(Encode(a), EncodeAll([b]));
  }

  lemma EncodeOne(b: Value)
    ensures EncodeAll([b]) == [Encode(b)] && Concat(EncodeAll([b])) == Encode(b)
  {
    assert [b][1..] == [];
    assert EncodeAll([b][1..]) == [];
    assert EncodeAll([b]) == [Encode(b)] + [];
    ConcatCons(Encode(b), []);
    assert Concat([]) == "" && Encode(b) + "" == Encode(b);
  }

  lemma ConfigEncodes(name: string, value: Option<string>)
    ensures ConfigReply(name, value) == Encode(ConfigValue(name, value))
  {
    var second := if value.Some? then BulkString(value.value) else Null;
    EncodeTwo(BulkString(name), second);
    EncodeBulk(name);
    EncodeNull();
    if value.Some? {
      EncodeBulk(value.value);
    }
    JoinThree(ArrayHeader(2), BulkText(name), Encode(second));
  }

  lemma JoinThree(a: string, b: string, c: string)
    ensures a + b + c == a + (b + c)
  {
  }

  lemma InfoEncodes(sections: seq<InfoSection>, w: World)
    requires sections != [] && |InfoText(sections, w)| <= U64_MAX
    ensures InfoReply(sections, w) == Encode(BulkString(InfoText(sections, w)))
  {
    var popped := InfoText(sections, w);
    EncodeBulk(popped);
    assert Wrap64(|InfoBody(sections, w)| - 1) == |popped|;
    JoinThree("$" + Show(|popped|) + CRLF, popped, CRLF);
  }

  /** The replies written with `format!` are the protocol encoding of the values they stand for; INFO as
      long as its length fits usize. */
  lemma ReplyEncodes(cmd: Command, w: World, now: Instant)
    requires ReplyValue(cmd, w, now).Some?
    requires cmd.Info? ==> |InfoText(cmd.sections, w)| <= U64_MAX
    ensures Execute(cmd, w, now).1 == Encode(ReplyValue(cmd, w, now).value)
  {
    hide InfoText, InfoReply, ConfigReply, AckReply, ConfigValue, Encode, BulkText, ParseSigned, Found;
    match cmd
    case ConfigGet(Dir) => ConfigEncodes("dir", w.dir);
    case ConfigGet(DbFilename) => ConfigEncodes("dbfilename", w.dbfilename);
    case Get(key) =>
      EncodeNull();
      if key in w.store {
        EncodeBulk(w.store[key].data);
      }
    case Keys(pattern) => KeysEncodes(Found(pattern, w, now));
    case Info(sections) => InfoEncodes(sections, w);
    case Replconf(Getack(_)) => AckEncodes(w.offset);
    case _ =>
  }

  lemma KeysEncodes(keys: seq<string>)
    ensures KeysReply(keys) == Encode(Array(Bulks(keys)))
  {
    EncodeArray(Bulks(keys));
    EncodeBulks(keys);
  }

  lemma AckEncodes(offset: u64)
    ensures AckReply(offset) == Encode(Array([BulkString("REPLCONF"), BulkString("ACK"), BulkString(Show(offset))]))
  {
  }

  // ---------------------------------------------------------------- their lines are clean

  lemma NoReturnClean(s: string)
    requires forall i | 0 <= i < |s| :: s[i] != '\r'
    ensures Clean(s)
  {
  }

  lemma {:induction false} InfoNoReturn(sections: seq<InfoSection>, w: World)
    requires CleanConfig(w)
    ensures forall i | 0 <= i < |InfoBody(sections, w)| :: InfoBody(sections, w)[i] != '\r'
    ensures sections != [] ==> InfoBody(sections, w)[0] == 'r'
  {
    if sections != [] {
      InfoNoReturn(sections[1..], w);
      SectionNoReturn(w);
    }
  }

  lemma SectionNoReturn(w: World)
    requires CleanConfig(w)
    ensures forall i | 0 <= i < |InfoSectionText(w)| :: InfoSectionText(w)[i] != '\r'
    ensures InfoSectionText(w) != "" && InfoSectionText(w)[0] == 'r'
  {
    var role := "role:" + (if w.role == Master then "master" else "slave") + "\n";
    var id := "master_replid:" + w.replid + "\n";
    var offset := "master_repl_offset:" + Show(w.offset) + "\n";
    ShowIntClean(w.offset);
    assert forall i | 0 <= i < |role| :: role[i] != '\r';
    assert forall i | 0 <= i < |id| :: id[i] != '\r';
    assert forall i | 0 <= i < |offset| :: offset[i] != '\r';
    JoinSection(role, "master_replid:", w.replid, "\n", "master_repl_offset:", Show(w.offset), "\n");
  }

  lemma JoinSection(r: string, a: string, b: string, c: string, d: string, e: string, f: string)
    ensures r + a + b + c + d + e + f == r + (a + b + c) + (d + e + f)
  {
    assert r + a + b + c == r + (a + b + c);
    assert r + (a + b + c) + d + e + f == r + (a + b + c) + (d + e + f);
  }

  lemma PlainQuota(t: string)
    requires t != "" && t[0] != '$' && t[0] != '*'
    ensures Quota(t) == 0
  {
  }

  lemma {:induction false} MatchingSome(pattern: string, keys: seq<string>, isMatch: (string, string) -> bool)
    ensures forall k :: k in Matching(pattern, keys, isMatch) <==> k in keys && isMatch(pattern, k)
  {
    if keys != [] {
      assert keys == [keys[0]] + keys[1..];
      MatchingSome(pattern, keys[1..], isMatch);
    }
  }

  /** KEYS finds exactly the keys of the map that match. */
  lemma FoundKeys(pattern: string, w: World, now: Instant)
    requires Lists(w)
    ensures forall k :: k in Found(pattern, w, now) <==> k in w.store && w.isMatch(pattern, k)
  {
    var keys := w.listing(w.store.Keys, now);
    MatchingSome(pattern, keys, w.isMatch);
    forall k
      ensures k in keys <==> k in w.store
    {
      assert multiset(keys) == multiset(w.store.Keys);
      assert k in keys <==> k in multiset(keys);
    }
  }

  // ---------------------------------------------------------------- the frames of printed replies

  lemma NullFrame()
    ensures IsFrame(NIL_REPLY)
  {
    EncodeNull();
    LinesClean(Null);
    ValueFrame(Null);
  }

  lemma TwoSettled(a: string, b: string)
    requires Plain(a)
    ensures Settled([a, b]) <==> Plain(b)
  {
    hide Quota, Congruent;
    var ts := [a, b];
    LoadTwo(a, b);
    assert ts[..0] == [] && ts[..1] == [a] && ts[..2] == ts && ts[1..] == [b] && [b][1..] == [] && [a][1..] == [];
    assert Owed(ts, 0) == 2 && Owed(ts, 1) == 1;
    assert Long([b]) == (if |b| > I32_MAX then 1 else 0);
    assert Owed(ts, 2) == Quota(b) - Long([b]);
    SmallCongruent(2);
    SmallCongruent(1);
    SmallCongruent(0);
    SmallCongruent(Quota(b));
    assert Unsettled(ts, 0);
    assert Unsettled(ts, 1) <==> |b| <= I32_MAX;
  }

  lemma ConfigFramed(name: string, value: Option<string>)
    requires Clean(name) && Plain(name) && CleanOption(value)
    ensures IsFrame(ConfigReply(name, value)) <==> (value.Some? ==> Plain(value.value))
  {
    hide IsFrame, Clean, Plain, Settled, Quota;
    ConfigEncodes(name, value);
    if value.Some? {
      TwoSettled(name, value.value);
      TwoBulks(name, value.value);
      BulksFrame([name, value.value]);
    } else {
      ConfigNull(name);
    }
  }

  lemma ConfigNull(name: string)
    requires Clean(name) && Plain(name)
    ensures IsFrame(Encode(ConfigValue(name, None)))
  {
    hide IsFrame, Clean, Quota, Congruent, OpenInside;
    NullFacts(BulkString(name));
    var v := ConfigValue(name, None);
    LinesClean(v);
    ValueFrame(v);
  }

  lemma NullFacts(first: Value)
    ensures var items := [first, Null];
            && CleanAll(items) == CleanValue(first) && WidthsAll(items) == Widths(first)
            && SurplusAll(items) == Surplus(first) && |LinesAll(items)| == |Lines(first)| + 1
  {
    var items := [first, Null];
    assert items[1..] == [Null] && [Null][1..] == [];
    assert CleanAll([Null]) && WidthsAll([Null]) && SurplusAll([Null]) == Surplus(Null) + SurplusAll([]);
    assert LinesAll([Null]) == Lines(Null) + LinesAll([]);
    assert CleanAll(items) == (CleanValue(first) && CleanAll([Null]));
    assert WidthsAll(items) == (Widths(first) && WidthsAll([Null]));
    assert SurplusAll(items) == Surplus(first) + SurplusAll([Null]);
    assert LinesAll(items) == Lines(first) + LinesAll([Null]);
  }

  lemma TwoBulks(a: string, b: string)
    ensures Bulks([a, b]) == [BulkString(a), BulkString(b)]
  {
    assert [a, b][1..] == [b] && [b][1..] == [];
    assert Bulks([b]) == [BulkString(b)] + Bulks([]);
  }

  lemma AckFramed(offset: u64)
    ensures IsFrame(AckReply(offset))
  {
    hide IsFrame, Clean, Quota, Settled;
    var digits := Show(offset);
    var ts := ["REPLCONF", "ACK", digits];
    ShowIntClean(offset);
    assert Clean("REPLCONF") && Quota("REPLCONF") == 0 by { NoReturnClean("REPLCONF"); PlainQuota("REPLCONF"); }
    assert Clean("ACK") && Quota("ACK") == 0 by { NoReturnClean("ACK"); PlainQuota("ACK"); }
    assert Quota(digits) == 0 by { PlainQuota(digits); }
    ShowLength(offset, 20, PowerOfTen(20)) by { TwentyDigits(); }
    ThreeBulks("REPLCONF", "ACK", digits);
    ThreeSettled("REPLCONF", "ACK", digits);
    BulksFrame(ts);
  }

  lemma ThreeSettled(a: string, b: string, c: string)
    requires Plain(a) && Plain(b) && Plain(c)
    ensures Settled([a, b, c])
  {
    hide Quota;
    var ts := [a, b, c];
    assert ts[1..] == [b, c] && [b, c][1..] == [c] && [c][1..] == [];
    assert Load([c]) == 0 && Load([b, c]) == 0 && Long([c]) == 0 && Long([b, c]) == 0;
    SettledPlain(ts);
  }

  lemma ThreeBulks(a: string, b: string, c: string)
    ensures Bulks([a, b, c]) == [BulkString(a), BulkString(b), BulkString(c)]
  {
    assert [a, b, c][1..] == [b, c] && [b, c][1..] == [c] && [c][1..] == [];
    assert Bulks([c]) == [BulkString(c)] + Bulks([]);
    assert Bulks([b, c]) == [BulkString(b)] + Bulks([c]);
  }

  /** INFO prints two lines, of which only the first can announce anything. */
  lemma InfoFramed(sections: seq<InfoSection>, w: World)
    requires CleanConfig(w)
    ensures IsFrame(InfoReply(sections, w)) <==> Wrap64(|InfoBody(sections, w)| - 1) <= I32_MAX
  {
    hide IsFrame, Quota, Congruent, InfoBody, InfoReply, Show, Clean, Wrap64;
    var length := Wrap64(|InfoBody(sections, w)| - 1);
    var header := "$" + Show(length);
    var popped := InfoParts(sections, w, header);
    LengthQuota(length);
    TwoLinesFrame(header, popped);
    SmallCongruent(Quota(header) + Quota(popped) - 1);
  }

  lemma InfoParts(sections: seq<InfoSection>, w: World, header: string) returns (popped: string)
    requires CleanConfig(w) && header == "$" + Show(Wrap64(|InfoBody(sections, w)| - 1))
    ensures Clean(header) && Clean(popped) && Quota(popped) == 0
    ensures InfoReply(sections, w) == Unlines([header, popped])
  {
    hide Wrap64, Show, Unlines, InfoSectionText;
    var body := InfoBody(sections, w);
    popped := if body == "" then "" else body[..|body| - 1];
    ShowIntClean(Wrap64(|body| - 1));
    HeaderClean('$', Show(Wrap64(|body| - 1)));
    InfoNoReturn(sections, w);
    NoReturnClean(popped);
    InfoLines(header, popped);
  }

  lemma InfoLines(header: string, popped: string)
    ensures header + CRLF + (popped + CRLF) == Unlines([header, popped])
  {
    UnlinesCons(header, [popped]);
    UnlinesOne(popped);
    assert [header, popped] == [header] + [popped];
  }

  // ---------------------------------------------------------------- the exact law

  /** INFO without a section prints a length that no parser reads. */
  lemma InfoEmpty(w: World)
    requires CleanConfig(w)
    ensures !IsFrame(InfoReply([], w))
  {
    InfoFramed([], w);
    assert InfoBody([], w) == "";
  }

  /** The reply to one command is one frame if and only if no branch that breaks it is taken. */
  lemma ReplyFramed(cmd: Command, w: World, now: Instant)
    requires CleanWorld(w) && CleanCommand(cmd)
    ensures IsFrame(Execute(cmd, w, now).1) <==> Framed(cmd, w, now)
  {
    hide IsFrame, Settled, Found, Plain, InfoReply, InfoBody, ConfigReply, AckReply, KeysReply, Clean, Wrap64, Encode;
    match cmd
    case ConfigGet(Dir) =>
      PlainWord("dir");
      ConfigFramed("dir", w.dir);
    case ConfigGet(DbFilename) =>
      PlainWord("dbfilename");
      ConfigFramed("dbfilename", w.dbfilename);
    case Get(key) =>
      NullFrame();
      if key in w.store {
        StoredFramed(w.store[key].data);
      }
    case Keys(pattern) =>
      OpenEnd(REGEX_REPLY);
      FoundKeys(pattern, w, now);
      KeysEncodes(Found(pattern, w, now));
      BulksFrame(Found(pattern, w, now));
    case Info(sections) => InfoFramed(sections, w);
    case Replconf(Getack(_)) => AckFramed(w.offset);
    case _ => PlainReplyFramed(cmd, w, now);
  }

  lemma PlainWord(t: string)
    requires t == "dir" || t == "dbfilename"
    ensures Clean(t) && Plain(t)
  {
    NoReturnClean(t);
  }

  lemma StoredFramed(data: string)
    requires Clean(data)
    ensures IsFrame(BulkText(data)) <==> Plain(data)
  {
    EncodeBulk(data);
    BulkFrame(data);
  }

  lemma PlainReplyFramed(cmd: Command, w: World, now: Instant)
    requires CleanCommand(cmd) && !cmd.ConfigGet? && !cmd.Get? && !cmd.Keys? && !cmd.Info?
    requires cmd.Replconf? ==> !cmd.sub.Getack?
    ensures IsFrame(Execute(cmd, w, now).1) <==> Framed(cmd, w, now)
  {
    hide IsFrame, InfoReply, ParseSigned, ShowInt, Clean;
    match cmd
    case Ping =>
      assert Clean("PONG") by { NoReturnClean("PONG"); }
      LineFrame('+', "PONG");
      assert "+" + "PONG" == "+PONG";
    case Echo(words) => LineFrame('+', words);
    case Set(_, _, px) =>
      OkFramed();
      OpenEnd(OVERFLOW_REPLY);
    case Incr(key) =>
      var entry := if key in w.store then w.store[key] else StringData("0", None);
      var parsed := ParseSigned(entry.data, I64_MIN, I64_MAX);
      if parsed.Some? {
        ShowIntClean(Bump(parsed.value));
        LineFrame(':', ShowInt(Bump(parsed.value)));
      } else {
        NotIntegerFramed();
      }
    case Replconf(sub) =>
      OkFramed();
      OpenEnd("");
    case _ => OpenEnd(UNSUPPORTED_REPLY);
  }

  lemma OkFramed()
    ensures IsFrame(OK_REPLY)
  {
    NoReturnClean("OK");
    LineFrame('+', "OK");
    assert "+" + "OK" == "+OK";
  }

  lemma NotIntegerFramed()
    ensures IsFrame(NOT_INTEGER_REPLY)
  {
    NoReturnClean(NOT_INTEGER);
    LineFrame('-', NOT_INTEGER);
  }

  /** Every reply in a run is framed. */
  predicate AllFramed(cmds: seq<Command>, w: World, clock: Clock, at: nat) {
    cmds != [] ==>
      && Framed(cmds[0], w, clock(at))
      && AllFramed(cmds[1..], Execute(cmds[0], w, clock(at)).0, clock, at + 1)
  }

  lemma {:induction false} RepliesFramed(cmds: seq<Command>, w: World, clock: Clock, at: nat)
    requires CleanWorld(w) && CleanCommands(cmds)
    ensures (forall r | r in ExecuteAll(cmds, w, clock, at).1 :: IsFrame(r)) <==> AllFramed(cmds, w, clock, at)
  {
    hide CleanWorld, CleanCommand, IsFrame, Framed, Execute;
    if cmds != [] {
      assert cmds[0] in cmds;
      ReplyFramed(cmds[0], w, clock(at));
      ExecuteClean(cmds[0], w, clock(at));
      var (w1, reply) := Execute(cmds[0], w, clock(at));
      RepliesFramed(cmds[1..], w1, clock, at + 1);
      var replies := ExecuteAll(cmds[1..], w1, clock, at + 1).1;
      assert ExecuteAll(cmds, w, clock, at).1 == [reply] + replies;
      assert forall r :: r in [reply] + replies <==> r == reply || r in replies;
    }
  }

  /** The reply to EXEC is `*n` and a body that the parser splits into exactly the n individual
      replies if and only if every command's reply is framed. */
  lemma ExecReplyExact(cmds: seq<Command>, w: World, clock: Clock, at: nat)
    requires CleanWorld(w) && CleanCommands(cmds)
    ensures var replies := ExecuteAll(cmds, w, clock, at).1;
            && ExecuteMulti(cmds, true, w, clock, at).1 == ArrayHeader(|cmds|) + Concat(replies)
            && (Children(|cmds|, Concat(replies)) == replies <==> AllFramed(cmds, w, clock, at))
  {
    var replies := ExecuteAll(cmds, w, clock, at).1;
    ExecuteAllCount(cmds, w, clock, at);
    RepliesFramed(cmds, w, clock, at);
    ChildrenExact(replies);
  }

  /** The repository's own parser reads a framed EXEC reply as the array of what it reads from the
      individual replies. */
  lemma ExecReplyParses(cmds: seq<Command>, w: World, clock: Clock, at: nat)
    requires CleanWorld(w) && CleanCommands(cmds)
    requires AllFramed(cmds, w, clock, at) && |cmds| <= I32_MAX
    ensures var r := ParseAll(ExecuteAll(cmds, w, clock, at).1);
            Parse(ExecuteMulti(cmds, true, w, clock, at).1)
              == (if r.Ok? then Ok(Array(r.value)) else r.PropagateFailure())
  {
    hide ExecuteAll, RespSpec.Parse, RespSpec.ParseAll, AllFramed, CleanWorld, CleanCommands, Children;
    ExecReplyExact(cmds, w, clock, at);
    ArrayReply(|cmds|, Concat(ExecuteAll(cmds, w, clock, at).1));
  }
}
