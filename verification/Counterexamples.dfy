/** Inputs on which the plain laws fail: the other sides of the exact ones. */
module Counterexamples {
  import opened Basics
  import opened Text
  import opened Decimal
  import opened RespSpec
  import opened QuotaWords
  import opened Grouping
  import opened RoundTrip
  import opened Pipeline
  import opened Commands
  import opened Executor
  import opened Framing
  import opened Expiry
  import opened Stream
  import opened StreamExact
  import opened Replication

  /** Two clean bulk strings, the first of which looks like a header: they do not come back. */
  lemma HeaderLikePayload()
    ensures var v := Array([BulkString("$1"), BulkString("x")]);
            CleanValue(v) && Widths(v) && Parse(Encode(v)) != Ok(v)
  {
    var v := Array([BulkString("$1"), BulkString("x")]);
    LengthOne();
    TwoFacts("$1", "x");
    assert Clean("$1") && Clean("x") by { ShortClean("$1"); ShortClean("x"); }
    if Parse(Encode(v)) == Ok(v) {
      ComesBackSurvives(v);
    }
  }

  lemma LengthOne()
    ensures Quota("$1") == 1 && Quota("*1") == 1
  {
    ShowDigit(1);
    HeaderQuota(1);
    assert "$" + Show(1) == "$1" && "*" + Show(1) == "*1";
  }

  lemma ShortClean(s: string)
    requires forall i | 0 <= i < |s| :: s[i] != '\r'
    ensures Clean(s)
  {
  }

  /** The same payload at the very end comes back. */
  lemma HeaderLikeLast()
    ensures var v := Array([BulkString("x"), BulkString("$1")]);
            Parse(Encode(v)) == Ok(v) && Parse(Encode(v) + ("*" + Show(2) + CRLF)) != Ok(v)
  {
    var v := Array([BulkString("x"), BulkString("$1")]);
    LengthOne();
    TwoFacts("x", "$1");
    assert Clean("$1") && Clean("x") && Quota("x") == 0 by { ShortClean("$1"); ShortClean("x"); }
    hide RespSpec.Parse, Encode, Quota, Clean;
    RoundTripAlone(v);
    LastSurplusFails(v.items);
  }

  /** A SET whose value holds `*1` is cut inside it: the replica does not do what the master did. */
  lemma StarInValue(r: Replica, clock: Clock)
    requires r.alive
    ensures var item := SetItem("k", "a*1", None);
            ApplyChunk(Bytes([item]), r, clock) != RunItem(item, r, clock)
  {
    var item := SetItem("k", "a*1", None);
    assert StarDigit("a*1"[1..], 0) && "a*1"[1..] == "*1";
    assert Stars("a*1") == 1;
    SetSize("k", "a*1", None);
    BulkSize("k");
    BulkSize("a*1");
    ShowDigit(1);
    ShowDigit(3);
    SetItemSafe("k", "a*1", None);
    hide ApplyChunk, RunItem, Encode, Bytes;
    SetStreamExact(item, r, clock);
  }

  /** Keys whose announcements add up to the counter's width settle although none of them is plain: after
      the first the counter is negative, after the second -1, after the third 0. */
  lemma AnnouncementsCancel(a: string, b: string, c: string)
    requires |a| <= I32_MAX && |b| <= I32_MAX && |c| <= I32_MAX
    requires Quota(a) == Quota(b) == I32_MAX && Quota(c) == 2
    ensures Settled([a, b, c])
  {
    hide Quota, Congruent;
    var ts := [a, b, c];
    assert ts[..0] == [] && ts[..1] == [a] && ts[..2] == [a, b] && ts[..3] == ts;
    LoadTwo(a, b);
    LoadAppend([a, b], [c]);
    LoadTwo(c, c);
    assert [a, b] + [c] == ts;
    ShortTexts(a, b, c);
    assert Owed(ts, 0) == 3 && Owed(ts, 1) == I32_MAX + 2 && Owed(ts, 2) == WIDTH_32 - 1 && Owed(ts, 3) == WIDTH_32;
    SmallCongruent(3);
    SmallCongruent(I32_MAX + 2);
    SmallCongruent(WIDTH_32 - 1);
    FullCongruent();
  }

  lemma FullCongruent()
    ensures Congruent(WIDTH_32, 0)
  {
  }

  lemma ShortTexts(a: string, b: string, c: string)
    requires |a| <= I32_MAX && |b| <= I32_MAX && |c| <= I32_MAX
    ensures Long([]) == 0 && Long([a]) == 0 && Long([a, b]) == 0 && Long([a, b, c]) == 0
  {
    assert [a, b, c][1..] == [b, c] && [b, c][1..] == [c] && [c][1..] == [] && [a, b][1..] == [b] && [b][1..] == [];
    assert Long([b]) == 0 && Long([c]) == 0 && Long([b, c]) == 0;
  }

  /** Such keys exist: KEYS over these three replies with one frame. */
  lemma KeysCancel()
    ensures var ts := ["*" + Show(I32_MAX), "*+" + Show(I32_MAX), "*" + Show(2)];
            Settled(ts) && Quota(ts[0]) > 0 && Quota(ts[1]) > 0 && Quota(ts[2]) > 0
  {
    var a, b, c := "*" + Show(I32_MAX), "*+" + Show(I32_MAX), "*" + Show(2);
    hide Quota, Show, Settled, PowerOfTen;
    HeaderQuota(I32_MAX);
    HeaderQuota(2);
    PlusQuota(I32_MAX);
    assert |Show(I32_MAX)| <= 20 && |Show(2)| <= 20 by {
      TwentyDigits();
      ShowLength(I32_MAX, 20, PowerOfTen(20));
      ShowLength(2, 20, PowerOfTen(20));
    }
    AnnouncementsCancel(a, b, c);
  }

  lemma PlusQuota(n: nat)
    requires n <= I32_MAX
    ensures Quota("*+" + Show(n)) == n && "*" + Show(n) != "*+" + Show(n)
  {
    NatOfShow(n);
    var digits := Show(n);
    assert IsDigit(digits[0]);
    hide Show, NatOf;
    var s := "*+" + digits;
    assert s[1..] == "+" + digits && s[1..][1..] == digits;
    assert ("*" + digits)[1] == digits[0] && s[1] == '+';
  }

  /** An entry that expired after a millisecond and was not read since: INCR counts on from it, where the
      store that never deletes starts again from 0. */
  lemma StaleIncr(w: World)
    requires w.store == map[] && NANOS_PER_MILLI <= w.horizon
    ensures var lazy := Execute(Set("k", "5", Some(1)), w, 0).0;
            var now := 2 * NANOS_PER_MILLI;
            Stale(lazy, "k", now) && Execute(Incr("k"), lazy, now).1 != Reference(Incr("k"), lazy, now).1
  {
    var lazy := Execute(Set("k", "5", Some(1)), w, 0).0;
    var now := 2 * NANOS_PER_MILLI;
    assert lazy.store == map["k" := StringData("5", Some(NANOS_PER_MILLI))];
    assert lazy.store - {"k"} == map[];
    assert Reference(Incr("k"), lazy, now) == Execute(Incr("k"), lazy.(store := map[]), now);
    hide Execute, Reference, ParseSigned, ShowInt;
    ShowDigit(5);
    FiveParses();
    ZeroParses();
    IncrOnce("k", 5, lazy, now);
    IncrOnce("k", 0, lazy.(store := map[]), now);
    DifferentReplies();
  }

  lemma FiveParses()
    ensures ParseSigned("5", I64_MIN, I64_MAX) == Some(5)
  {
    ShowDigit(5);
    ParseShowInt(5, I64_MIN, I64_MAX);
  }

  lemma DifferentReplies()
    ensures ":" + ShowInt(6) + CRLF != ":" + ShowInt(1) + CRLF
  {
    ShowDigit(6);
    ShowDigit(1);
    assert (":" + ShowInt(6) + CRLF)[1] == '6' && (":" + ShowInt(1) + CRLF)[1] == '1';
  }

  /** One SET and one INCR of the same key: replicas keep what the SET wrote. */
  lemma CountedOnMaster(start: Store)
    ensures Drifted(start, [Put(SetItem("k", "5", None)), Count("k")], "k")
    ensures !Drifted(start, [Count("k"), Put(SetItem("k", "5", None))], "k")
  {
    ShowDigit(5);
    ShowDigit(6);
    ParseShowInt(5, I64_MIN, I64_MAX);
    var put := Put(SetItem("k", "5", None));
    assert [put, Count("k")] == [put] + [Count("k")] && [put][..0] == [];
    MeaningNext(start, [], put, "k");
    assert [] + [put] == [put];
    assert BumpText("5") == "6";
    assert [put, Count("k")][..1] == [put];
  }
}
