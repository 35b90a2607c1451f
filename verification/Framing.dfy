/** When a text is exactly one frame of the parser's quota rule, and when the reply to EXEC is. */
module Framing {
  import opened Basics
  import opened Text
  import opened Decimal
  import opened RespSpec
  import opened QuotaWords
  import opened Grouping
  import opened RoundTrip
  import opened Printing

  /** The text ends in CRLF, and the quota loop closes a child exactly at its end. */
  predicate IsFrame(t: string) {
    var ps := Split(t);
    ps[|ps| - 1] == "" && Closes(ps[..|ps| - 1], 1)
  }

  /** The lines of a frame. */
  function FrameLines(t: string): seq<string> {
    Split(t)[..|Split(t)| - 1]
  }

  lemma FrameText(t: string)
    requires IsFrame(t)
    ensures AllClean(FrameLines(t)) && Unlines(FrameLines(t)) == t
  {
    hide Clean, Closes, Split;
    var ps := Split(t);
    SplitClean(t);
    SplitJoin(t);
    var ls := FrameLines(t);
    assert ps == ls + [""];
    UnlinesAppend(ls, [""]);
    UnlinesOne("");
    assert Unlines(ls) + CRLF == t + CRLF;
    assert (Unlines(ls) + CRLF)[..|t|] == Unlines(ls) && (t + CRLF)[..|t|] == t;
  }

  lemma LinesFrame(ls: seq<string>)
    requires AllClean(ls)
    ensures IsFrame(Unlines(ls)) <==> Closes(ls, 1)
    ensures FrameLines(Unlines(ls)) == ls
  {
    SplitUnlines(ls, "");
    SplitBlank("");
    assert Unlines(ls) + "" == Unlines(ls);
    assert (ls + [""])[..|ls|] == ls;
  }

  /** When a printed value is a frame: what its payloads announce must be a multiple of the counter's
      width, and no part of the value may bring the counter to such a multiple before the end. It is
      enough, and below the width necessary, that no payload looks like a header. */
  lemma ValueFrame(v: Value)
    requires AllClean(Lines(v)) && Widths(v)
    ensures IsFrame(Encode(v)) <==> Congruent(Surplus(v), 0) && OpenInside(Lines(v), 1)
    ensures Surplus(v) == 0 && Short(v) ==> IsFrame(Encode(v))
    ensures 0 < Surplus(v) < WIDTH_32 ==> !IsFrame(Encode(v))
  {
    hide IsFrame, Closes, Congruent, OpenInside, Quota, Clean;
    LinesFrame(Lines(v));
    LinesBalance(v);
    ClosesExact(Lines(v), 1);
    assert 1 + Balance(Lines(v)) == Surplus(v);
    SmallCongruent(Surplus(v));
    if Surplus(v) == 0 && Short(v) {
      AboveCloses(Lines(v), 1);
    }
  }

  lemma SmallCongruent(n: int)
    requires -WIDTH_32 < n
    ensures n < WIDTH_32 ==> (Congruent(n, 0) <==> n == 0)
  {
  }

  lemma LengthQuota(n: nat)
    ensures Quota("$" + Show(n)) == (if n <= I32_MAX then 1 else 0)
    ensures Quota("*" + Show(n)) == (if n <= I32_MAX then n else 0)
  {
    if n <= I32_MAX {
      HeaderQuota(n);
    } else {
      NatOfShow(n);
      assert ("$" + Show(n))[1..] == Show(n) && ("*" + Show(n))[1..] == Show(n);
      assert IsDigit(Show(n)[0]);
    }
  }

  /** A printed bulk string is a frame exactly if its length fits and it looks like no header. */
  lemma BulkFrame(t: string)
    requires Clean(t)
    ensures IsFrame(Encode(BulkString(t))) <==> |t| <= I32_MAX && Quota(t) == 0
  {
    hide IsFrame, Quota, Congruent, Clean, Show;
    LinesClean(BulkString(t));
    var header := "$" + Show(|t|);
    assert Clean(header) by { assert header in Lines(BulkString(t)); }
    TwoLinesFrame(header, t);
    LengthQuota(|t|);
    SmallCongruent(Quota(t));
  }

  /** Two lines are a frame exactly if the first announces what the second takes away. */
  lemma TwoLinesFrame(header: string, t: string)
    requires Clean(header) && Clean(t)
    ensures IsFrame(Unlines([header, t])) <==> Quota(header) != 0 && Congruent(Quota(header) + Quota(t) - 1, 0)
  {
    LinesFrame([header, t]);
    ClosesExact([header, t], 1);
    LoadTwo(header, t);
    hide Quota;
    assert [header, t][..1] == [header];
  }

  // ---------------------------------------------------------------- arrays of bulk strings

  /** How many of the strings are too long for the parser to read their length. */
  function Long(ts: seq<string>): nat {
    if ts == [] then 0 else (if |ts[0]| > I32_MAX then 1 else 0) + Long(ts[1..])
  }

  /** The children still missing when the first `i` strings of an array have been read: those not yet
      read, and what the strings read have announced. */
  function Owed(ts: seq<string>, i: nat): int
    requires i <= |ts|
  {
    |ts| + Balance(ts[..i]) - Long(ts[..i])
  }

  /** The announcements of the strings cancel out modulo the counter's width at the end, and never
      before. */
  predicate Settled(ts: seq<string>) {
    && |ts| <= I32_MAX && Congruent(Owed(ts, |ts|), 0)
    && forall i | 0 <= i < |ts| :: Unsettled(ts, i)
  }

  predicate Unsettled(ts: seq<string>, i: nat)
    requires i < |ts|
  {
    !Congruent(Owed(ts, i), 0) && (|ts[i]| > I32_MAX ==> !Congruent(Owed(ts, i) - 1, 0))
  }

  /** While no length and no announcement is out of range, settled means that no string looks like a
      header. */
  lemma SettledPlain(ts: seq<string>)
    requires |ts| <= I32_MAX && Long(ts) == 0 && |ts| + Load(ts) < WIDTH_32
    ensures Settled(ts) <==> Load(ts) == 0
  {
    hide Quota, Congruent, Unsettled;
    assert ts[..|ts|] == ts;
    SmallCongruent(Load(ts));
    forall i | 0 <= i < |ts|
      ensures Unsettled(ts, i)
    {
      UnsettledPlain(ts, i);
    }
  }

  lemma UnsettledPlain(ts: seq<string>, i: nat)
    requires i < |ts| && Long(ts) == 0 && |ts| + Load(ts) < WIDTH_32
    ensures Unsettled(ts, i)
  {
    hide Quota, Congruent, Load, Long;
    assert ts == ts[..i] + ts[i..];
    LoadAppend(ts[..i], ts[i..]);
    LongAppend(ts[..i], ts[i..]);
    LongMember(ts, i);
    SmallCongruent(Owed(ts, i));
  }

  lemma {:induction false} LongAppend(a: seq<string>, b: seq<string>)
    ensures Long(a + b) == Long(a) + Long(b)
  {
    if a == [] {
      assert a + b == b;
    } else {
      assert (a + b)[1..] == a[1..] + b;
      LongAppend(a[1..], b);
    }
  }

  lemma {:induction false} LongMember(ts: seq<string>, i: nat)
    requires i < |ts| && Long(ts) == 0
    ensures |ts[i]| <= I32_MAX
  {
    if i > 0 {
      LongMember(ts[1..], i - 1);
    }
  }

  /** Two lines for each string. */
  lemma BulkCons(ts: seq<string>)
    requires ts != []
    ensures LinesAll(Bulks(ts)) == ["$" + Show(|ts[0]|), ts[0]] + LinesAll(Bulks(ts[1..]))
  {
    hide Show;
    assert Bulks(ts)[0] == BulkString(ts[0]) && Bulks(ts)[1..] == Bulks(ts[1..]);
  }

  lemma {:induction false} BulkAt(ts: seq<string>, i: nat)
    requires i <= |ts|
    ensures |LinesAll(Bulks(ts))| == 2 * |ts|
    ensures i < |ts| ==> LinesAll(Bulks(ts))[2 * i] == "$" + Show(|ts[i]|)
    decreases |ts|
  {
    hide Show, Bulks, RespSpec.LinesAll;
    if ts == [] {
      NoBulks();
    } else {
      BulkCons(ts);
      BulkAt(ts[1..], if i == 0 then 0 else i - 1);
    }
  }

  lemma NoBulks()
    ensures LinesAll(Bulks([])) == []
  {
  }

  lemma {:induction false} BulkLines(ts: seq<string>, i: nat)
    requires i <= |ts|
    ensures |LinesAll(Bulks(ts))| == 2 * |ts|
    ensures Balance(LinesAll(Bulks(ts))[..2 * i]) == Balance(ts[..i]) - Long(ts[..i])
    decreases |ts|
  {
    hide Quota, Show, Bulks, RespSpec.LinesAll;
    BulkAt(ts, i);
    if i > 0 {
      var t, rest := ts[0], ts[1..];
      var first, more := ["$" + Show(|t|), t], LinesAll(Bulks(rest));
      BulkCons(ts);
      BulkLines(rest, i - 1);
      assert ts[..i][1..] == rest[..i - 1];
      assert (first + more)[..2 * i] == first + more[..2 * (i - 1)];
      LoadAppend(first, more[..2 * (i - 1)]);
      LoadTwo("$" + Show(|t|), t);
      LengthQuota(|t|);
    }
  }

  /** The exact law for a printed array of bulk strings. */
  lemma BulksFrame(ts: seq<string>)
    requires forall t | t in ts :: Clean(t)
    ensures IsFrame(Encode(Array(Bulks(ts)))) <==> Settled(ts)
  {
    hide IsFrame, Closes, Owed, Unsettled, Clean, Quota, Congruent;
    var v := Array(Bulks(ts));
    BulksClean(ts);
    LinesClean(v);
    LinesFrame(Lines(v));
    LengthQuota(|ts|);
    if |ts| > I32_MAX {
      FirstStep(Lines(v));
      BulkLines(ts, 0);
      TooManySettle(ts);
    } else {
      ClosesExact(Lines(v), 1);
      ArrayLines(Bulks(ts));
      BulksPrefix(ts, Lines(v), |ts|);
      assert Lines(v)[..1 + 2 * |ts|] == Lines(v);
      BulksInside(ts, Lines(v));
    }
  }

  lemma TooManySettle(ts: seq<string>)
    requires |ts| > I32_MAX
    ensures !Settled(ts)
  {
  }

  lemma {:induction false} BalanceNext(ls: seq<string>, k: nat)
    requires k < |ls|
    ensures Balance(ls[..k + 1]) == Balance(ls[..k]) + Quota(ls[k]) - 1
  {
    hide Quota;
    assert ls[..k + 1] == ls[..k] + [ls[k]];
    LoadAppend(ls[..k], [ls[k]]);
    LoadTwo(ls[k], ls[k]);
  }

  lemma ArrayLines(items: seq<Value>)
    ensures Lines(Array(items)) == ["*" + Show(|items|)] + LinesAll(items)
  {
  }

  lemma HeaderBalance(n: nat, all: seq<string>, k: nat)
    requires n <= I32_MAX && k <= |all|
    ensures 1 + Balance((["*" + Show(n)] + all)[..1 + k]) == n + Balance(all[..k])
  {
    hide Quota, Show;
    var header := ["*" + Show(n)];
    LengthQuota(n);
    assert (header + all)[..1 + k] == header + all[..k];
    LoadAppend(header, all[..k]);
    LoadTwo(header[0], header[0]);
  }

  lemma PrefixOwed(ts: seq<string>, all: seq<string>, ls: seq<string>, i: nat, k: nat)
    requires |ts| <= I32_MAX && i <= |ts| && k <= |all| && ls == ["*" + Show(|ts|)] + all
    requires Balance(all[..k]) == Balance(ts[..i]) - Long(ts[..i])
    ensures |ls| == 1 + |all| && 1 + Balance(ls[..1 + k]) == Owed(ts, i)
  {
    hide Balance, Long, Show;
    HeaderBalance(|ts|, all, k);
  }

  /** The lines of a printed array of bulk strings, after its header. */
  predicate BulkWord(ts: seq<string>, ls: seq<string>) {
    ls == ["*" + Show(|ts|)] + LinesAll(Bulks(ts))
  }

  lemma BulksPrefix(ts: seq<string>, ls: seq<string>, i: nat)
    requires i <= |ts| <= I32_MAX && BulkWord(ts, ls)
    ensures |ls| == 1 + 2 * |ts| && 1 + Balance(ls[..1 + 2 * i]) == Owed(ts, i)
  {
    hide Balance, Show, Owed, Bulks, RespSpec.LinesAll;
    BulkLines(ts, i);
    PrefixOwed(ts, LinesAll(Bulks(ts)), ls, i, 2 * i);
  }

  lemma BulksMiddle(ts: seq<string>, ls: seq<string>, i: nat)
    requires i < |ts| <= I32_MAX && BulkWord(ts, ls)
    ensures |ls| == 1 + 2 * |ts|
    ensures 1 + Balance(ls[..2 + 2 * i]) == Owed(ts, i) - if |ts[i]| > I32_MAX then 1 else 0
  {
    hide Quota, Show, Bulks, RespSpec.LinesAll, Owed, Balance;
    BulksPrefix(ts, ls, i);
    BulkAt(ts, i);
    assert ls[1 + 2 * i] == LinesAll(Bulks(ts))[2 * i];
    BalanceNext(ls, 1 + 2 * i);
    LengthQuota(|ts[i]|);
  }

  lemma BulksInside(ts: seq<string>, ls: seq<string>)
    requires |ts| <= I32_MAX && BulkWord(ts, ls)
    ensures OpenInside(ls, 1) <==> forall i | 0 <= i < |ts| :: Unsettled(ts, i)
  {
    hide *;
    if forall i | 0 <= i < |ts| :: Unsettled(ts, i) {
      UnsettledOpen(ts, ls);
    }
    if OpenInside(ls, 1) {
      forall i | 0 <= i < |ts|
        ensures Unsettled(ts, i)
      {
        InsideAt(ts, ls, i);
        OpenAt(ls, 1 + 2 * i);
        OpenAt(ls, 2 + 2 * i);
      }
    }
  }

  lemma OpenAt(ls: seq<string>, j: nat)
    requires OpenInside(ls, 1) && 0 < j < |ls|
    ensures !Congruent(1 + Balance(ls[..j]), 0)
  {
    hide Congruent, Balance;
  }

  lemma UnsettledOpen(ts: seq<string>, ls: seq<string>)
    requires |ts| <= I32_MAX && BulkWord(ts, ls)
    requires forall i | 0 <= i < |ts| :: Unsettled(ts, i)
    ensures OpenInside(ls, 1)
  {
    hide Congruent, Balance, Unsettled, Owed, BulkWord, Quota;
    BulksPrefix(ts, ls, 0);
    forall j | 0 < j < |ls|
      ensures !Congruent(1 + Balance(ls[..j]), 0)
    {
      var i := (j - 1) / 2;
      InsideAt(ts, ls, i);
      assert j == 1 + 2 * i || j == 2 + 2 * i;
    }
  }

  lemma InsideAt(ts: seq<string>, ls: seq<string>, i: nat)
    requires i < |ts| <= I32_MAX && BulkWord(ts, ls)
    ensures |ls| == 1 + 2 * |ts|
    ensures Unsettled(ts, i) <==>
              !Congruent(1 + Balance(ls[..1 + 2 * i]), 0) && !Congruent(1 + Balance(ls[..2 + 2 * i]), 0)
  {
    hide Owed, Congruent, Balance, BulkWord;
    BulksPrefix(ts, ls, i);
    BulksMiddle(ts, ls, i);
  }

  lemma {:induction false} BulksClean(ts: seq<string>)
    requires forall t | t in ts :: Clean(t)
    ensures CleanAll(Bulks(ts))
  {
    if ts != [] {
      assert ts[0] in ts;
      BulksClean(ts[1..]);
      assert Bulks(ts)[1..] == Bulks(ts[1..]);
    }
  }

  // ---------------------------------------------------------------- children of an array reply

  /** The child texts that the parser collects from an array of `n` replies. */
  function Children(n: nat, body: string): seq<string> {
    Regroup(Split(body), n, 1, "")
  }

  /** Whatever the lines, every child that the loop collects is a frame. */
  lemma RegroupYieldsFrames(lines: seq<string>, left: nat)
    requires AllClean(lines)
    ensures forall c | c in Regroup(lines, left, 1, "") :: IsFrame(c)
  {
    hide IsFrame, Closes, Clean, RespSpec.Regroup;
    assert Unlines([]) == "" by { NoLines(); }
    assert Pending([], 1, 1) by { PendingStart(); }
    GroupsTexts(lines, left, 1, []);
    GroupsClose(lines, left, 1, []);
    TextsFrames(Groups(lines, left, 1, []));
  }

  lemma {:induction false} TextsFrames(gs: seq<seq<string>>)
    requires AllGroups(gs)
    ensures forall c | c in Texts(gs) :: IsFrame(c)
  {
    hide IsFrame, Closes, Clean;
    if gs != [] {
      assert Group(gs[0]);
      LinesFrame(gs[0]);
      TextsFrames(gs[1..]);
    }
  }

  /** Consecutive frames are collected one by one. */
  lemma {:induction false} FramesAreChildren(ts: seq<string>, tail: seq<string>)
    requires forall t | t in ts :: IsFrame(t)
    ensures Regroup(AllFrameLines(ts) + tail, |ts|, 1, "") == ts
  {
    hide RespSpec.Regroup, IsFrame;
    if ts == [] {
      RegroupNone(AllFrameLines(ts) + tail);
    } else {
      var t := ts[0];
      assert t in ts;
      var more := AllFrameLines(ts[1..]) + tail;
      assert AllFrameLines(ts) + tail == FrameLines(t) + more;
      FrameIsChild(t, more, |ts|);
      FramesAreChildren(ts[1..], tail);
      assert [t] + ts[1..] == ts;
    }
  }

  lemma FrameIsChild(t: string, more: seq<string>, left: nat)
    requires IsFrame(t) && left >= 1
    ensures Regroup(FrameLines(t) + more, left, 1, "") == [t] + Regroup(more, left - 1, 1, "")
  {
    hide RespSpec.Regroup;
    FrameText(t);
    RegroupFrame(FrameLines(t), more, left, 1, "");
    assert "" + t == t;
  }

  function AllFrameLines(ts: seq<string>): seq<string> {
    if ts == [] then [] else FrameLines(ts[0]) + AllFrameLines(ts[1..])
  }

  lemma {:induction false} ConcatFrames(ts: seq<string>)
    requires forall t | t in ts :: IsFrame(t)
    ensures AllClean(AllFrameLines(ts)) && Unlines(AllFrameLines(ts)) == Concat(ts)
  {
    if ts != [] {
      assert ts[0] in ts;
      FrameText(ts[0]);
      ConcatFrames(ts[1..]);
      UnlinesAppend(FrameLines(ts[0]), AllFrameLines(ts[1..]));
    }
  }

  /** The parser splits concatenated replies into exactly those replies if and only if each one is a
      frame. */
  lemma ChildrenExact(replies: seq<string>)
    ensures Children(|replies|, Concat(replies)) == replies <==> forall r | r in replies :: IsFrame(r)
  {
    SplitClean(Concat(replies));
    RegroupYieldsFrames(Split(Concat(replies)), |replies|);
    if forall r | r in replies :: IsFrame(r) {
      ConcatFrames(replies);
      SplitUnlines(AllFrameLines(replies), "");
      assert Concat(replies) + "" == Concat(replies);
      FramesAreChildren(replies, Split(""));
    }
  }

  /** The header of the reply is read back as the number of commands, and the rest are its children. */
  lemma ArrayReply(n: nat, body: string)
    requires n <= I32_MAX
    ensures var r := ParseAll(Children(n, body));
            Parse(ArrayHeader(n) + body) == (if r.Ok? then Ok(Array(r.value)) else r.PropagateFailure())
  {
    hide RespSpec.Regroup, RespSpec.ParseAll, RespSpec.Parse;
    var header := "*" + Show(n);
    ShowIntClean(n);
    HeaderClean('*', Show(n));
    assert AllClean([header]);
    assert [header] + [] == [header];
    FrontPiece(header, [], body);
    UnlinesOne(header);
    var s := ArrayHeader(n) + body;
    assert Split(s)[1..] == Split(body);
    HeaderParses(s, n);
  }
}
