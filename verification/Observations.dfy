/** What clients observe of single commands and of short runs: replies, arithmetic and limits are written
    out, not taken from the executor. */
module Observations {
  import opened Basics
  import opened Text
  import opened Decimal
  import opened RespSpec
  import opened Printing
  import opened Commands
  import opened Executor
  import opened Expiry

  /** A bulk string as it goes over the wire. */
  function Wire(t: string): string {
    "$" + Show(|t|) + "\r\n" + t + "\r\n"
  }

  lemma WireIsValue(t: string)
    ensures BulkText(t) == Wire(t) && Wire(t) != "$-1\r\n"
  {
    assert IsDigit(Show(|t|)[0]);
    assert Wire(t)[1] == Show(|t|)[0];
  }

  // ---------------------------------------------------------------- SET, then GET

  /** When a SET with an expiry of `millis` at `t` ends, in nanoseconds. */
  function End(t: nat, millis: u64): nat {
    t + millis * 1_000_000
  }

  /** A SET that the clock can hold is answered with OK and read back by GET until its expiry and not
      from then on; without an expiry it is read back for ever. */
  lemma SetThenGet(key: string, value: string, px: Option<u64>, w: World, t: nat, u: nat)
    requires px.Some? ==> End(t, px.value) <= w.horizon
    ensures var (w1, reply) := Execute(Set(key, value, px), w, t);
            var (w2, answer) := Execute(Get(key), w1, u);
            && reply == "+OK\r\n"
            && answer == (if px.None? || u < End(t, px.value) then Wire(value) else "$-1\r\n")
            && (answer == Wire(value) <==> px.None? || u < End(t, px.value))
            && w2.store == (if px.None? || u < End(t, px.value) then w1.store else w1.store - {key})
  {
    hide Resp, Wire;
    WireIsValue(value);
  }

  /** A SET whose expiry the clock cannot hold is refused and changes nothing. */
  lemma SetOverflows(key: string, value: string, millis: u64, w: World, t: nat)
    ensures End(t, millis) > w.horizon <==>
              Execute(Set(key, value, Some(millis)), w, t) == (w, "-ERR Instant Addtion Error")
  {
    hide Resp;
    var w' := Execute(Set(key, value, Some(millis)), w, t);
    assert "+OK\r\n"[0] == '+' && "-ERR Instant Addtion Error"[0] == '-';
  }

  /** SET touches its key only, and is broadcast exactly if the server is a master with a replica. */
  lemma SetTouches(key: string, value: string, px: Option<u64>, w: World, t: nat)
    requires px.Some? ==> End(t, px.value) <= w.horizon
    ensures var w' := Execute(Set(key, value, px), w, t).0;
            && (forall k | k != key :: (k in w'.store <==> k in w.store) && (k in w.store ==> w'.store[k] == w.store[k]))
            && key in w'.store && w'.store[key].data == value
            && w'.store[key].expiration == (if px.None? then None else Some(End(t, px.value)))
            && w' == w.(store := w'.store, sent := w'.sent)
            && w'.sent == (if w.role == Master && w.slaves > 0 then w.sent + [Encode(SetValue(key, value, px))] else w.sent)
  {
    hide Encode;
  }

  // ---------------------------------------------------------------- GET and what it leaves

  /** GET is answered with nil exactly if the key is absent or has expired; then the key is gone, and
      otherwise nothing has changed. */
  lemma GetRemoves(key: string, w: World, now: nat)
    ensures var (w', reply) := Execute(Get(key), w, now);
            && (reply == "$-1\r\n" <==>
                  (key !in w.store || (w.store[key].expiration.Some? && w.store[key].expiration.value <= now)))
            && (reply == "$-1\r\n" ==> key !in w'.store && w' == w.(store := w.store - {key}))
            && (reply != "$-1\r\n" ==> key in w.store && reply == Wire(w.store[key].data) && w' == w)
  {
    hide Wire;
    if key in w.store {
      WireIsValue(w.store[key].data);
    } else {
      assert w.store - {key} == w.store;
    }
  }

  /** After a GET at the same reading an INCR of the key is never misled by an expired entry, and neither
      is a KEYS that matches only that key. */
  lemma GetThenIncr(key: string, lazy: World, timeless: World, now: nat)
    requires Lazy(lazy, timeless, now)
    ensures var lazy1, timeless1 := Execute(Get(key), lazy, now).0, Reference(Get(key), timeless, now).0;
            && Lazy(lazy1, timeless1, now) && Timely(Incr(key), lazy1, now)
            && Execute(Incr(key), lazy1, now).1 == Reference(Incr(key), timeless1, now).1
  {
    hide ShowInt, ParseSigned;
    var lazy1 := Execute(Get(key), lazy, now).0;
    LazyIncr(key, lazy1, timeless, now);
  }

  /** An expired counter that is read starts again from 1, without its expiry. */
  lemma ExpiredCounter(key: string, w: World, now: nat)
    requires key in w.store && w.store[key].expiration.Some? && w.store[key].expiration.value <= now
    ensures var w1 := Execute(Get(key), w, now).0;
            var (w2, reply) := Execute(Incr(key), w1, now);
            reply == ":1\r\n" && w2.store == w.store[key := StringData("1", None)]
  {
    var w1 := Execute(Get(key), w, now).0;
    assert w1.store == w.store - {key};
    ZeroParses();
    ShowOne();
    hide ParseSigned, ShowInt, Execute;
    IncrOnce(key, 0, w1, now);
  }

  lemma ShowOne()
    ensures ShowInt(1) == "1"
  {
  }

  // ---------------------------------------------------------------- INCR, with its limits

  /** INCR of a number below the largest i64 counts it up; at the largest it stays; anything that is no
      i64 is refused and left alone. */
  lemma IncrObserved(key: string, w: World, now: nat)
    ensures var data := if key in w.store then w.store[key].data else "0";
            var (w', reply) := Execute(Incr(key), w, now);
            && (forall n: int | Spells(data, n) && -9223372036854775808 <= n < 9223372036854775807 ::
                  w'.store[key].data == ShowInt(n + 1) && reply == ":" + ShowInt(n + 1) + "\r\n")
            && (Spells(data, 9223372036854775807) ==>
                  w'.store[key].data == ShowInt(9223372036854775807) && reply == ":" + ShowInt(9223372036854775807) + "\r\n")
            && ((forall n: int | -9223372036854775808 <= n <= 9223372036854775807 :: !Spells(data, n)) ==>
                  w' == w && reply == "-" + "ERR value is not an integer or out of range" + "\r\n")
  {
    var data := if key in w.store then w.store[key].data else "0";
    ZeroParses();
    NotInteger();
    hide ShowInt, Spells, ParseSigned;
    forall n: int
      ensures ParseSigned(data, I64_MIN, I64_MAX) == Some(n) <==> I64_MIN <= n <= I64_MAX && Spells(data, n)
    {
      ParseSignedExact(data, n, I64_MIN, I64_MAX);
    }
    if key in w.store {
      assert w.store[key := w.store[key]] == w.store;
    }
  }

  lemma NotInteger()
    ensures NOT_INTEGER_REPLY == "-" + "ERR value is not an integer or out of range" + "\r\n"
  {
  }

  /** INCR touches its key only, and keeps the expiry that is there. */
  lemma IncrTouches(key: string, w: World, now: nat)
    ensures var w' := Execute(Incr(key), w, now).0;
            && (forall k | k != key :: (k in w'.store <==> k in w.store) && (k in w.store ==> w'.store[k] == w.store[k]))
            && key in w'.store
            && w'.store[key].expiration == (if key in w.store then w.store[key].expiration else None)
            && w' == w.(store := w'.store)
  {
    hide ShowInt, ParseSigned;
  }

  // ---------------------------------------------------------------- INFO

  /** The three lines of the replication section. */
  function Section(w: World): string {
    (if w.role == Master then "role:master" else "role:slave") + "\n"
    + "master_replid:" + w.replid + "\n"
    + "master_repl_offset:" + Show(w.offset)
  }

  /** As many copies of the section as it was asked for, one to a paragraph. */
  function Sections(k: nat, w: World): string
    requires k > 0
  {
    if k == 1 then Section(w) else Section(w) + "\n" + Sections(k - 1, w)
  }

  lemma {:induction false} InfoBodyIs(sections: seq<InfoSection>, w: World)
    requires sections != []
    ensures InfoBody(sections, w) == Sections(|sections|, w) + "\n"
  {
    SectionText(w);
    hide Section, InfoSectionText;
    if |sections| > 1 {
      InfoBodyIs(sections[1..], w);
      Chain(Section(w), "\n", Sections(|sections| - 1, w), "\n");
    } else {
      assert InfoBody(sections[1..], w) == "" && InfoSectionText(w) + "" == InfoSectionText(w);
    }
  }

  lemma SectionText(w: World)
    ensures InfoSectionText(w) == Section(w) + "\n"
  {
    hide Show;
  }

  lemma Chain(a: string, b: string, c: string, d: string)
    ensures (a + b) + (c + d) == a + b + c + d
  {
  }

  /** The reply to INFO is one bulk string of the sections asked for. */
  lemma InfoObserved(sections: seq<InfoSection>, w: World, now: nat)
    requires sections != [] && |Sections(|sections|, w)| <= U64_MAX
    ensures Execute(Info(sections), w, now) == (w, Wire(Sections(|sections|, w)))
  {
    hide InfoBody, Sections, Show;
    InfoBodyIs(sections, w);
    var body, text := InfoBody(sections, w), Sections(|sections|, w);
    assert body[..|body| - 1] == text && Wrap64(|body| - 1) == |text|;
    assert "$" + Show(|text|) + CRLF + (text + CRLF) == Wire(text);
  }

  // ---------------------------------------------------------------- the other commands

  /** Everything but SET, GET and INCR leaves the server as it is. */
  lemma OthersLeave(cmd: Command, w: World, now: nat)
    requires !cmd.Set? && !cmd.Get? && !cmd.Incr?
    ensures Execute(cmd, w, now).0 == w
  {
    hide InfoReply, AckReply, KeysReply, ConfigReply, Found;
  }

  /** The fixed replies, and ECHO's. */
  lemma FixedReplies(w: World, now: nat)
    ensures Execute(Ping, w, now).1 == "+PONG\r\n"
    ensures forall words: string :: Execute(Echo(words), w, now).1 == "+" + words + "\r\n"
    ensures forall port: nat :: Execute(Replconf(ListeningPort(port)), w, now).1 == "+OK\r\n"
    ensures forall options: seq<CapaOption> :: Execute(Replconf(Capa(options)), w, now).1 == "+OK\r\n"
    ensures forall offset: u64 :: Execute(Replconf(Ack(offset)), w, now).1 == ""
    ensures forall pattern: string :: !w.isPattern(pattern) ==>
              Execute(Keys(pattern), w, now).1 == "-ERR Invalid Regex Format"
    ensures Execute(Multi, w, now).1 == "-ERR not supported command"
  {
    hide InfoReply, AckReply, KeysReply, ConfigReply, Found, ShowInt, ParseSigned;
  }

  /** CONFIG GET answers with the parameter's name and its value, or nil if it was not given. */
  lemma ConfigObserved(w: World, now: nat)
    ensures Execute(ConfigGet(Dir), w, now).1 ==
              "*2\r\n" + Wire("dir") + if w.dir.Some? then Wire(w.dir.value) else "$-1\r\n"
    ensures Execute(ConfigGet(DbFilename), w, now).1 ==
              "*2\r\n" + Wire("dbfilename") + if w.dbfilename.Some? then Wire(w.dbfilename.value) else "$-1\r\n"
  {
    assert ArrayHeader(2) == "*2\r\n";
    WireIsValue("dir");
    WireIsValue("dbfilename");
    hide Wire, BulkText, ArrayHeader;
    if w.dir.Some? {
      WireIsValue(w.dir.value);
    }
    if w.dbfilename.Some? {
      WireIsValue(w.dbfilename.value);
    }
  }

  /** GETACK is answered with the offset. */
  lemma AckObserved(arg: string, w: World, now: nat)
    ensures Execute(Replconf(Getack(arg)), w, now).1 ==
              "*3\r\n" + (Wire("REPLCONF") + Wire("ACK") + Wire(Show(w.offset)))
  {
    EncodeThree("REPLCONF", "ACK", Show(w.offset));
    assert ArrayHeader(3) == "*3\r\n";
    WireIsValue("REPLCONF");
    WireIsValue("ACK");
    WireIsValue(Show(w.offset));
    hide Wire, BulkText, Show;
  }

  // ---------------------------------------------------------------- KEYS

  lemma {:induction false} MatchingAppend(pattern: string, a: seq<string>, b: seq<string>,
                                          isMatch: (string, string) -> bool)
    ensures Matching(pattern, a + b, isMatch) == Matching(pattern, a, isMatch) + Matching(pattern, b, isMatch)
  {
    if a == [] {
      assert a + b == b;
    } else {
      assert (a + b)[1..] == a[1..] + b;
      MatchingAppend(pattern, a[1..], b, isMatch);
    }
  }

  /** KEYS lists the matching keys in the order in which the map visits them. */
  lemma KeysInOrder(pattern: string, w: World, now: nat, before: seq<string>, key: string, after: seq<string>)
    requires w.listing(w.store.Keys, now) == before + [key] + after
    ensures Found(pattern, w, now) ==
              Matching(pattern, before, w.isMatch) + (if w.isMatch(pattern, key) then [key] else [])
              + Matching(pattern, after, w.isMatch)
  {
    hide Matching;
    MatchingAppend(pattern, before + [key], after, w.isMatch);
    MatchingAppend(pattern, before, [key], w.isMatch);
    MatchingOne(pattern, key, w.isMatch);
  }

  lemma MatchingOne(pattern: string, key: string, isMatch: (string, string) -> bool)
    ensures Matching(pattern, [key], isMatch) == if isMatch(pattern, key) then [key] else []
  {
    assert [key][1..] == [];
  }
}
