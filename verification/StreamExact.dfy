/** What one SET does to a replica, safe or not: it has its effect exactly if it is safe. */
module StreamExact {
  import opened Basics
  import opened Text
  import opened Decimal
  import opened RespSpec
  import opened QuotaWords
  import opened RoundTrip
  import opened Pipeline
  import opened Printing
  import opened Commands
  import opened Executor
  import opened Framing
  import opened Stream

  // ---------------------------------------------------------------- which commands a read executes

  /** The commands among parsed values. */
  function Executed(vs: seq<Value>): seq<Command> {
    if vs == [] then []
    else (if vs[0].Array? && ParseCommand(vs[0].items).Ok? then [ParseCommand(vs[0].items).value] else [])
         + Executed(vs[1..])
  }

  function ApplyCommands(cmds: seq<Command>, r: Replica, clock: Clock): Replica {
    if cmds == [] then r else ApplyCommands(cmds[1..], ApplyCommand(cmds[0], r, clock), clock)
  }

  lemma {:induction false} ApplyExecuted(vs: seq<Value>, r: Replica, clock: Clock)
    ensures ApplyValues(vs, r, clock) == ApplyCommands(Executed(vs), r, clock)
  {
    hide ApplyCommand, ParseCommand;
    if vs != [] {
      ApplyExecuted(vs[1..], ApplyValue(vs[0], r, clock), clock);
      var more := Executed(vs[1..]);
      if vs[0].Array? && ParseCommand(vs[0].items).Ok? {
        var cmd := ParseCommand(vs[0].items).value;
        assert ([cmd] + more)[1..] == more;
      } else {
        assert [] + more == more;
      }
    }
  }

  lemma {:induction false} ReadingsTaken(cmds: seq<Command>, r: Replica, clock: Clock)
    ensures ApplyCommands(cmds, r, clock).at == r.at + |cmds|
  {
    hide Execute;
    if cmds != [] {
      ReadingsTaken(cmds[1..], ApplyCommand(cmds[0], r, clock), clock);
    }
  }

  lemma {:induction false} ExecutedFrom(vs: seq<Value>, cmd: Command) returns (i: nat)
    requires cmd in Executed(vs)
    ensures i < |vs| && vs[i].Array? && ParseCommand(vs[i].items) == Ok(cmd)
  {
    hide ParseCommand;
    if vs[0].Array? && ParseCommand(vs[0].items) == Ok(cmd) {
      i := 0;
    } else {
      i := ExecutedFrom(vs[1..], cmd);
      i := i + 1;
    }
  }

  /** Only SET moves the offset, by the bytes it counts. */
  lemma OffsetMoves(cmd: Command, r: Replica, clock: Clock)
    ensures ApplyCommand(cmd, r, clock).world.offset ==
              if cmd.Set? then Wrap64(r.world.offset + CountedBytes(cmd.key, cmd.value, cmd.px)) else r.world.offset
  {
    hide Resp, ShowInt, ParseSigned, CountedBytes, Wrap64;
  }

  lemma WrapDiffers(offset: u64, a: nat, b: nat)
    requires a < U64_MAX && b < U64_MAX && Wrap64(offset + a) == Wrap64(offset + b)
    ensures a == b
  {
  }

  // ---------------------------------------------------------------- how long a command's text must be

  lemma {:induction false} ShowMonotone(a: nat, b: nat)
    requires a <= b
    ensures |Show(a)| <= |Show(b)|
  {
    if b >= 10 && a >= 10 {
      ShowMonotone(a / 10, b / 10);
    }
  }

  lemma {:induction false} NatOfBound(s: string)
    requires AllDigits(s)
    ensures NatOf(s) < PowerOfTen(|s|)
  {
    if s != "" {
      NatOfBound(s[..|s| - 1]);
    }
  }

  /** A number prints no longer than the digits it was read from. */
  lemma ShowShorter(s: string)
    requires s != "" && AllDigits(s)
    ensures |Show(NatOf(s))| <= |s|
  {
    NatOfBound(s);
    ShowLength(NatOf(s), |s|, PowerOfTen(|s|));
  }

  /** A child that is a frame is at least as long as the bulk string read from it prints. */
  lemma BulkCost(c: string, t: string)
    requires IsFrame(c) && Parse(c) == Ok(BulkString(t))
    ensures |Encode(BulkString(t))| <= |c|
  {
    FrameText(c);
    var g := FrameLines(c);
    hide Closes, Clean, Unlines;
    BulkGroupLength(g, t);
    FirstCharacter(g);
    BulkRead(c, g, t);
    UnlinesTwo(g);
    EncodeBulk(t);
  }

  lemma UnlinesTwo(g: seq<string>)
    requires |g| >= 2
    ensures |Unlines(g)| >= |g[0]| + 2 + |g[1]| + 2
  {
    assert Unlines(g) == g[0] + CRLF + (g[1] + CRLF + Unlines(g[1..][1..]));
  }

  lemma BulkRead(c: string, g: seq<string>, t: string)
    requires |g| >= 2 && AllClean(g) && c == Unlines(g) && c != "" && c[0] == '$' && Parse(c) == Ok(BulkString(t))
    ensures |t| <= |g[1]| && 1 + |Show(|t|)| <= |g[0]|
  {
    hide Clean, Unlines;
    SplitGroup(g);
    assert Split(c)[0] == g[0] && Split(c)[1] == g[1];
    FirstPiece(c);
    var digits := g[0][1..];
    assert Parse(c) == ParseBulkString(c);
    assert ParseI32(digits) == Ok(|t|);
    var bare := if digits[0] == '+' || digits[0] == '-' then digits[1..] else digits;
    if digits[0] == '-' {
      assert |t| == 0;
      ShowMonotone(0, NatOf(bare));
    }
    ShowShorter(bare);
  }

  /** What the bulk strings among values cost to print. */
  function Cost(vs: seq<Value>): nat {
    if vs == [] then 0 else (if vs[0].BulkString? then |Encode(vs[0])| else 0) + Cost(vs[1..])
  }

  lemma {:induction false} CostBound(ts: seq<string>, vs: seq<Value>)
    requires ParseAll(ts) == Ok(vs) && forall t | t in ts :: IsFrame(t)
    ensures |ts| == |vs| && Cost(vs) <= TotalLength(ts)
  {
    hide IsFrame, RespSpec.Parse, Encode;
    if vs != [] {
      ParseAllAt(ts, vs, 0);
      assert ts[0] in ts;
      ParseAllCons(ts[0], ts[1..]);
      assert ts == [ts[0]] + ts[1..];
      CostBound(ts[1..], vs[1..]);
      if vs[0].BulkString? {
        BulkCost(ts[0], vs[0].text);
      }
    } else {
      assert ts == [] by { NoTexts(ts); }
    }
  }

  lemma NoTexts(ts: seq<string>)
    requires ParseAll(ts) == Ok([])
    ensures ts == []
  {
  }

  lemma BulkSize(t: string)
    ensures |Encode(BulkString(t))| == |t| + |Show(|t|)| + 5
  {
    EncodeBulk(t);
  }

  lemma UpperLength(s: string)
    ensures |Upper(s)| == |s|
  {
  }

  /** The option loop reads a PX from a word and a number that print no shorter. */
  lemma {:induction false} OptionsCost(vs: seq<Value>, px: Option<u64>)
    requires SetOptions(vs, px).Ok?
    ensures SetOptions(vs, px).value == px || PxCost(SetOptions(vs, px).value) <= Cost(vs)
  {
    hide ParseUnsigned, Show, Encode, Upper;
    if vs != [] {
      if Upper(vs[0].text) == "PX" {
        UpperLength(vs[0].text);
        BulkSize(vs[0].text);
        var n := ParseNumber(vs[1].text, U64_MAX).value;
        OptionsCost(vs[2..], Some(n));
        NumberCost(vs[1].text, n);
        assert Cost(vs) == |Encode(vs[0])| + (|Encode(vs[1])| + Cost(vs[2..])) by {
          assert vs[1..][1..] == vs[2..];
        }
        ShowTwo();
      } else {
        OptionsCost(vs[1..], px);
      }
    }
  }

  lemma ShowTwo()
    ensures |Show(2)| == 1 && |Show(3)| == 1
  {
  }

  lemma NumberCost(s: string, n: u64)
    requires ParseUnsigned(s, U64_MAX) == Some(n)
    ensures |Encode(BulkString(Show(n)))| <= |Encode(BulkString(s))|
  {
    var t := if s != "" && s[0] == '+' then s[1..] else s;
    ShowShorter(t);
    BulkSize(Show(n));
    BulkSize(s);
    ShowMonotone(|Show(n)|, |s|);
  }

  function PxCost(px: Option<u64>): nat {
    if px.None? then 0 else 8 + |Encode(BulkString(Show(px.value)))|
  }

  lemma SetSize(key: string, value: string, px: Option<u64>)
    ensures |Encode(SetValue(key, value, px))|
         == 4 + 9 + |Encode(BulkString(key))| + |Encode(BulkString(value))| + PxCost(px)
  {
    BulkSize("set");
    BulkSize("px");
    EncodeBulk("set");
    EncodeBulk("px");
    EncodeBulk(key);
    EncodeBulk(value);
    if px.Some? {
      EncodeBulk(Show(px.value));
      EncodeFive("set", key, value, "px", Show(px.value));
    } else {
      EncodeThree("set", key, value);
    }
  }

  /** A SET that was read prints no longer than the bulk strings it was read from, with a header. */
  lemma CommandCost(vs: seq<Value>, key: string, value: string, px: Option<u64>)
    requires ParseCommand(vs) == Ok(Set(key, value, px))
    ensures |vs| >= 3 && vs[1] == BulkString(key) && vs[2] == BulkString(value)
    ensures |Encode(SetValue(key, value, px))| <= 4 + Cost(vs)
  {
    SetParts(vs, key, value, px);
    NameSize(vs[0].text);
    hide ParseCommand, Encode, SetOptions, Show, Upper, SetValue, Cost, PxCost;
    OptionsCost(vs[3..], None);
    NoPxCost();
    SetSize(key, value, px);
    CostThree(vs);
  }

  lemma NameSize(name: string)
    requires |Upper(name)| == 3
    ensures |Encode(BulkString(name))| == 9
  {
    UpperLength(name);
    BulkSize(name);
    ShowTwo();
  }

  lemma NoPxCost()
    ensures PxCost(None) == 0
  {
  }

  lemma CostThree(vs: seq<Value>)
    requires |vs| >= 3 && vs[0].BulkString? && vs[1].BulkString? && vs[2].BulkString?
    ensures Cost(vs) == |Encode(vs[0])| + |Encode(vs[1])| + |Encode(vs[2])| + Cost(vs[3..])
  {
    hide Encode;
    assert vs[1..][1..] == vs[2..] && vs[2..][1..] == vs[3..];
    assert Cost(vs[2..]) == |Encode(vs[2])| + Cost(vs[3..]);
    assert Cost(vs[1..]) == |Encode(vs[1])| + Cost(vs[2..]);
  }

  lemma SetParts(vs: seq<Value>, key: string, value: string, px: Option<u64>)
    requires ParseCommand(vs) == Ok(Set(key, value, px))
    ensures |vs| >= 3 && vs[0].BulkString? && Upper(vs[0].text) == "SET"
    ensures vs[1] == BulkString(key) && vs[2] == BulkString(value) && SetOptions(vs[3..], None) == Ok(px)
  {
    hide Upper, SetOptions, CapaOptions, InfoSections, GlobPattern, ParseUnsigned;
    assert |vs| >= 3 ==> vs[1..][2..] == vs[3..];
  }

  // ---------------------------------------------------------------- how frames and children are read

  /** How an array was read from a text. */
  lemma ArrayRead(s: string, vs: seq<Value>) returns (left: nat, ts: seq<string>)
    requires Parse(s) == Ok(Array(vs))
    ensures s != "" && s[0] == '*' && ParseI32(Split(s)[0][1..]) == Ok(left)
    ensures ts == Regroup(Split(s)[1..], left, 1, "") && ParseAll(ts) == Ok(vs) && forall t | t in ts :: IsFrame(t)
    ensures |ts| == |vs| <= left && TotalLength(ts) + |Split(s)[0]| <= |s| && |Split(s)[0]| >= 2
  {
    FirstPiece(s);
    assert Parse(s) == ParseArray(s);
    left := ParseI32(Split(s)[0][1..]).value;
    ts := Regroup(Split(s)[1..], left, 1, "");
    hide RespSpec.Parse, RespSpec.Regroup, Split, IsFrame, RespSpec.ParseAll;
    RegroupLength(Split(s)[1..], left, 1, "");
    SplitClean(s);
    SplitJoin(s);
    UnlinesFirst(Split(s));
    RegroupYieldsFrames(Split(s)[1..], left);
    ParsedCount(ts, vs);
  }

  lemma UnlinesFirst(ls: seq<string>)
    requires ls != []
    ensures |Unlines(ls)| == |ls[0]| + 2 + |Unlines(ls[1..])|
  {
  }

  /** A SET read from a text prints at most two bytes longer than the text. */
  lemma ReadSize(s: string, vs: seq<Value>, key: string, value: string, px: Option<u64>)
    requires Parse(s) == Ok(Array(vs)) && ParseCommand(vs) == Ok(Set(key, value, px))
    ensures |Encode(SetValue(key, value, px))| <= |s| + 2
  {
    hide RespSpec.Parse, RespSpec.Regroup, Split, IsFrame, RespSpec.ParseAll, ParseCommand, Encode, SetValue;
    var left, ts := ArrayRead(s, vs);
    CostBound(ts, vs);
    CommandCost(vs, key, value, px);
  }

  lemma {:induction false} RegroupKeeps(lines: seq<string>, left: nat, q: i32, tmp: string)
    requires Regroup(lines, left, q, tmp) != []
    ensures tmp <= Regroup(lines, left, q, tmp)[0]
    decreases |lines|
  {
    hide Step;
    var q', tmp' := Step(q, lines[0]), tmp + lines[0] + CRLF;
    if q' != 0 {
      RegroupKeeps(lines[1..], left, q', tmp');
    }
  }

  /** A child that begins with the header of a bulk string holds the next line too, and one line more if
      that line announces anything. */
  lemma ChildBegins(header: string, line: string, more: seq<string>, left: nat)
    requires Quota(header) == 1 && Regroup([header, line] + more, left, 1, "") != []
    ensures header + CRLF + line + CRLF <= Regroup([header, line] + more, left, 1, "")[0]
    ensures Quota(line) != 0 && more != [] ==>
              header + CRLF + line + CRLF + more[0] + CRLF <= Regroup([header, line] + more, left, 1, "")[0]
    ensures Quota(line) == 0 ==>
              Regroup([header, line] + more, left, 1, "")
                == [header + CRLF + line + CRLF] + Regroup(more, left - 1, 1, "")
  {
    hide Quota, Step;
    var lines := [header, line] + more;
    assert lines[1..] == [line] + more && lines[1..][1..] == more && lines[1..][0] == line;
    StepExact(1, header);
    StepExact(1, line);
    var one := "" + header + CRLF;
    assert one == header + CRLF;
    var two := one + line + CRLF;
    assert Regroup(lines, left, 1, "") == Regroup(lines[1..], left, 1, one);
    if Quota(line) == 0 {
      assert Regroup(lines[1..], left, 1, one) == [two] + Regroup(more, left - 1, 1, "");
    } else {
      assert Regroup(lines[1..], left, 1, one) == Regroup(more, left, Quota(line), two);
      RegroupKeeps(more, left, Quota(line), two);
      if more != [] {
        LineKept(more, left, Quota(line), two);
      }
    }
  }

  lemma LineKept(lines: seq<string>, left: nat, q: i32, tmp: string)
    requires lines != [] && Regroup(lines, left, q, tmp) != []
    ensures tmp + lines[0] + CRLF <= Regroup(lines, left, q, tmp)[0]
  {
    hide Step;
    var q', tmp' := Step(q, lines[0]), tmp + lines[0] + CRLF;
    if q' != 0 {
      RegroupKeeps(lines[1..], left, q', tmp');
    }
  }

  /** What a text that begins with a bulk string's header and one line parses to. */
  lemma BulkBegins(n: nat, line: string, s: string)
    requires n <= I32_MAX && Clean(line) && "$" + Show(n) + CRLF + line + CRLF <= s
    ensures Parse(s) == if n <= |line| then Ok(BulkString(line[..n])) else Panic
  {
    hide Clean, Show, Split;
    var header := "$" + Show(n);
    var rest := s[|header| + 2 + |line| + 2..];
    var tail := line + CRLF + rest;
    assert s == header + CRLF + tail;
    ShowIntClean(n);
    HeaderClean('$', Show(n));
    SplitLine(header, tail);
    SplitLine(line, rest);
    ParseShowInt(n, I32_MIN, I32_MAX);
    assert header[1..] == ShowInt(n);
    assert Split(s) == [header] + ([line] + Split(rest));
    BulkDispatch(s);
  }

  lemma BulkDispatch(s: string)
    requires s != "" && s[0] == '$'
    ensures Parse(s) == ParseBulkString(s)
  {
  }

  /** A length that does not fit is read as a child of its own, which does not parse. */
  lemma LongBegins(n: nat, more: seq<string>, left: nat)
    requires n > I32_MAX && left >= 1
    ensures !ParseAll(Regroup(["$" + Show(n)] + more, left, 1, "")).Ok?
  {
    var header := "$" + Show(n);
    LengthQuota(n);
    hide Quota, Show, RespSpec.Parse, Split;
    StepExact(1, header);
    assert ([header] + more)[1..] == more && "" + header + CRLF == header + CRLF;
    var ts := Regroup(more, left - 1, 1, "");
    assert Regroup([header] + more, left, 1, "") == [header + CRLF] + ts;
    LongFails(n);
    ParseAllCons(header + CRLF, ts);
  }

  lemma LongFails(n: nat)
    requires n > I32_MAX
    ensures !Parse("$" + Show(n) + CRLF).Ok?
  {
    hide Split;
    var header := "$" + Show(n);
    var s := header + CRLF;
    ShowIntClean(n);
    HeaderClean('$', Show(n));
    SplitLine(header, "");
    assert s + "" == s;
    BulkDispatch(s);
    NatOfShow(n);
    assert header[1..] == Show(n) && IsDigit(Show(n)[0]);
  }

  lemma FirstLine(t: string, rest: string)
    ensures Clean(Split(t + CRLF + rest)[0])
    ensures Clean(t) ==> Split(t + CRLF + rest) == [t] + Split(rest)
    ensures !Clean(t) ==> |Split(t + CRLF + rest)[0]| < |t|
  {
    var s := t + CRLF + rest;
    SplitClean(s);
    if Clean(t) {
      SplitLine(t, rest);
    } else {
      var i :| 0 <= i < |t| && CrlfAt(t, i);
      assert CrlfAt(s, i);
    }
  }

  /** One bulk string of the printed SET, at the front of the lines still to be grouped: if it is read as
      a bulk string, it is that very one; if it looks like a header, its child holds another line. */
  lemma BulkChild(t: string, rest: string, left: nat, vs: seq<Value>)
    requires vs != [] && vs[0].BulkString?
    requires ParseAll(Regroup(["$" + Show(|t|)] + Split(t + CRLF + rest), left, 1, "")) == Ok(vs)
    ensures |t| <= I32_MAX && Clean(t) && vs[0] == BulkString(t)
    ensures var ts := Regroup(["$" + Show(|t|)] + Split(t + CRLF + rest), left, 1, "");
            && |ts| == |vs| && left >= 1
            && (Quota(t) == 0 ==> ts[1..] == Regroup(Split(rest), left - 1, 1, "") && ParseAll(ts[1..]) == Ok(vs[1..]))
            && (Quota(t) != 0 ==> |ts[0]| >= |Encode(BulkString(t))| + |Split(rest)[0]| + 2)
  {
    hide RespSpec.Parse, RespSpec.Regroup, Split, Clean, Quota, Show, Encode;
    var header, pieces := "$" + Show(|t|), Split(t + CRLF + rest);
    var lines := [header] + pieces;
    var ts := Regroup(lines, left, 1, "");
    ParsedCount(ts, vs);
    LeftOver(lines, left);
    if |t| > I32_MAX {
      LongBegins(|t|, pieces, left);
    }
    LengthQuota(|t|);
    FirstLine(t, rest);
    assert lines == [header, pieces[0]] + pieces[1..];
    ChildBegins(header, pieces[0], pieces[1..], left);
    BulkBegins(|t|, pieces[0], ts[0]);
    ParseAllAt(ts, vs, 0);
    assert pieces[0] == t && pieces[1..] == Split(rest);
    assert t[..|t|] == t;
    BulkSize(t);
    ParseAllCons(ts[0], ts[1..]);
    assert ts == [ts[0]] + ts[1..] && vs == [vs[0]] + vs[1..];
  }

  lemma LeftOver(lines: seq<string>, left: nat)
    requires Regroup(lines, left, 1, "") != []
    ensures left >= 1
  {
  }

  function PxText(px: Option<u64>): string {
    if px.None? then "" else Unlines(["$2", "px", "$" + Show(|Show(px.value)|), Show(px.value)])
  }

  function ValueText(value: string, px: Option<u64>): string {
    "$" + Show(|value|) + CRLF + (value + CRLF + PxText(px))
  }

  function SetCountOf(px: Option<u64>): nat {
    if px.None? then 3 else 5
  }

  lemma FourLines(a: string, b: string, c: string, d: string)
    ensures Unlines([a, b, c, d]) == (a + CRLF) + ((b + CRLF) + ((c + CRLF) + (d + CRLF)))
  {
    UnlinesCons(a, [b, c, d]);
    UnlinesCons(b, [c, d]);
    UnlinesCons(c, [d]);
    UnlinesOne(d);
    assert [a] + [b, c, d] == [a, b, c, d] && [b] + [c, d] == [b, c, d] && [c] + [d] == [c, d];
  }

  lemma SetText(key: string, value: string, px: Option<u64>)
    ensures Encode(SetValue(key, value, px))
         == ArrayHeader(SetCountOf(px)) + ("$" + Show(3) + CRLF + ("set" + CRLF
            + ("$" + Show(|key|) + CRLF + (key + CRLF + ValueText(value, px)))))
  {
    hide Show, Encode, BulkText, ArrayHeader, PxText, SetValue;
    var k, v, p := BulkText(key), BulkText(value), PxText(px);
    SetBulks(key, value, px);
    Regrouped(ArrayHeader(SetCountOf(px)), BulkText("set"), k, v, p);
    BulkSplit("set", k + (v + p));
    BulkSplit(key, v + p);
    BulkSplit(value, p);
  }

  lemma SetBulks(key: string, value: string, px: Option<u64>)
    ensures Encode(SetValue(key, value, px))
         == ArrayHeader(SetCountOf(px)) + (BulkText("set") + BulkText(key) + BulkText(value) + PxText(px))
  {
    hide Show, Encode, BulkText;
    if px.Some? {
      EncodeFive("set", key, value, "px", Show(px.value));
      PxBulks(px.value);
    } else {
      EncodeThree("set", key, value);
      var all := BulkText("set") + BulkText(key) + BulkText(value);
      assert all + "" == all;
    }
  }

  lemma PxBulks(px: u64)
    ensures PxText(Some(px)) == BulkText("px") + BulkText(Show(px))
  {
    hide Show, Unlines;
    var digits := Show(px);
    var header := "$" + Show(|digits|);
    FourLines("$2", "px", header, digits);
    ShowDigit(2);
    Reassociate("$2" + CRLF, "px", CRLF, (header + CRLF) + (digits + CRLF));
    Reassociate("$2" + CRLF, "px", CRLF, BulkText(digits));
    Reassociate(header + CRLF, digits, CRLF, "");
    assert BulkText(digits) == (header + CRLF) + (digits + CRLF);
    assert BulkText("px") == ("$2" + CRLF) + ("px" + CRLF);
  }

  lemma ShowDigit(n: nat)
    requires n < 10
    ensures Show(n) == [Digit(n)]
  {
  }

  lemma Regrouped(h: string, a: string, b: string, c: string, d: string)
    ensures h + (a + b + c + d) == h + (a + (b + (c + d)))
    ensures h + (a + b + c + d) == h + (a + b + c) + d
  {
  }

  lemma Reassociate(a: string, b: string, c: string, d: string)
    ensures a + b + c + d == a + (b + c + d)
    ensures a + b + c == a + (b + c)
  {
  }

  lemma BulkSplit(t: string, more: string)
    ensures BulkText(t) + more == "$" + Show(|t|) + CRLF + (t + CRLF + more)
  {
    hide Show;
    Reassociate("$" + Show(|t|) + CRLF, t, CRLF, more);
  }

  lemma {:induction false} CostSlack(ts: seq<string>, vs: seq<Value>, i: nat, extra: nat)
    requires ParseAll(ts) == Ok(vs) && forall t | t in ts :: IsFrame(t)
    requires i < |ts| == |vs| && vs[i].BulkString? && |Encode(vs[i])| + extra <= |ts[i]|
    ensures Cost(vs) + extra <= TotalLength(ts)
  {
    hide IsFrame, RespSpec.Parse, Encode;
    ParseAllAt(ts, vs, 0);
    ParseAllCons(ts[0], ts[1..]);
    assert ts[0] in ts && ts == [ts[0]] + ts[1..];
    if i == 0 {
      CostBound(ts[1..], vs[1..]);
    } else {
      if vs[0].BulkString? {
        BulkCost(ts[0], vs[0].text);
      }
      CostSlack(ts[1..], vs[1..], i - 1, extra);
    }
  }

  lemma HeaderPiece(n: nat, more: string)
    requires n <= I32_MAX
    ensures var s := ArrayHeader(n) + more;
            && Split(s) == ["*" + Show(n)] + Split(more)
            && ParseI32(Split(s)[0][1..]) == Ok(n) && Quota("*" + Show(n)) == n
  {
    ShowIntClean(n);
    HeaderClean('*', Show(n));
    SplitLine("*" + Show(n), more);
    ParseShowInt(n, I32_MIN, I32_MAX);
    assert ("*" + Show(n))[1..] == ShowInt(n);
    HeaderQuota(n);
  }

  lemma LengthPiece(n: nat, more: string)
    ensures Split("$" + Show(n) + CRLF + more) == ["$" + Show(n)] + Split(more)
  {
    ShowIntClean(n);
    HeaderClean('$', Show(n));
    SplitLine("$" + Show(n), more);
  }

  lemma SetWord()
    ensures Clean("set") && Quota("set") == 0 && |"set"| == 3
  {
    WordInert("set");
  }

  /** The first piece of what follows the value. */
  lemma PxPiece(px: Option<u64>)
    ensures px.None? ==> Split(PxText(px)) == [""]
    ensures px.Some? ==> Split(PxText(px))[0] == "$2"
  {
    if px.Some? {
      var ls := ["$2", "px", "$" + Show(|Show(px.value)|), Show(px.value)];
      UnlinesCons("$2", ls[1..]);
      assert ls == ["$2"] + ls[1..];
      assert Clean("$2") by { PlainTwo(); }
      SplitLine("$2", Unlines(ls[1..]));
    }
  }

  lemma PlainTwo()
    ensures Clean("$2")
  {
    assert !CrlfAt("$2", 0) && !CrlfAt("$2", 1);
  }

  /** A SET printed in one frame and read as a SET of the same size was read child by child. */
  lemma SetRead(key: string, value: string, px: Option<u64>, vs: seq<Value>, k: string, v: string, p: Option<u64>)
    requires Parse(Encode(SetValue(key, value, px))) == Ok(Array(vs)) && ParseCommand(vs) == Ok(Set(k, v, p))
    requires |Encode(SetValue(key, value, px))| <= |Encode(SetValue(k, v, p))|
    ensures |key| <= I32_MAX && |value| <= I32_MAX && Clean(key) && Clean(value)
    ensures Quota(key) == 0 && (px.Some? ==> Quota(value) == 0)
    ensures px.None? ==> vs == SetValue(key, value, px).items
  {
    hide RespSpec.Parse, RespSpec.Regroup, Split, IsFrame, RespSpec.ParseAll, ParseCommand, Encode, SetValue, Clean, Quota,
         Show, ParseI32, Unlines, ArrayHeader, PxText;
    var s := Encode(SetValue(key, value, px));
    var left, ts := ArrayRead(s, vs);
    CommandCost(vs, k, v, p);
    CostBound(ts, vs);
    var rest2 := ValueText(value, px);
    var rest1 := "$" + Show(|key|) + CRLF + (key + CRLF + rest2);
    SetText(key, value, px);
    HeaderPiece(SetCountOf(px), "$" + Show(3) + CRLF + ("set" + CRLF + rest1));
    LengthPiece(3, "set" + CRLF + rest1);
    assert Split(s)[1..] == ["$" + Show(|"set"|)] + Split("set" + CRLF + rest1);
    CommandIsBulk(vs, k, v, p);
    BulkChild("set", rest1, left, vs);
    SetWord();
    LengthPiece(|key|, key + CRLF + rest2);
    BulkChild(key, rest2, left - 1, vs[1..]);
    LengthPiece(|value|, value + CRLF + PxText(px));
    if Quota(key) != 0 {
      CostSlack(ts, vs, 1, 4);
    }
    BulkChild(value, PxText(px), left - 2, vs[2..]);
    PxPiece(px);
    if px.Some? && Quota(value) != 0 {
      CostSlack(ts, vs, 2, 4);
    }
    if px.None? {
      assert vs == [BulkString("set"), BulkString(key), BulkString(value)];
      ThreeItems(key, value);
    }
  }

  lemma CommandIsBulk(vs: seq<Value>, k: string, v: string, p: Option<u64>)
    requires ParseCommand(vs) == Ok(Set(k, v, p))
    ensures |vs| >= 3 && vs[0].BulkString? && vs[1].BulkString? && vs[2].BulkString?
    ensures vs[1..][0] == vs[1] && vs[2..][0] == vs[2] && vs[1..][1..] == vs[2..]
  {
    SetParts(vs, k, v, p);
  }

  lemma ThreeItems(key: string, value: string)
    ensures SetValue(key, value, None).items == [BulkString("set"), BulkString(key), BulkString(value)]
  {
  }

  // ---------------------------------------------------------------- frames of one printed SET

  /** After its first place, a text that ends in CRLF is cut into frames that are each shorter by a whole
      header, or not cut at all. */
  lemma {:induction false} FramesShorter(s: string, i: nat, pre: nat)
    requires pre <= i <= |s| && 4 <= i && (pre == 0 || pre >= 4)
    requires s[|s| - 2..] == CRLF
    ensures Frames(s, i, pre, false) == [s] || forall f | f in Frames(s, i, pre, false) :: |f| <= |s| - 4
    ensures pre >= 4 ==> forall f | f in Frames(s, i, pre, false) :: |f| <= |s| - 4
    decreases |s| - i
  {
    if i == |s| {
      assert s[0..] == s;
    } else if StarDigit(s, i) {
      assert s[|s| - 2] == '\r' && s[|s| - 1] == '\n';
      FramesShorter(s, i + 1, i);
    } else {
      FramesShorter(s, i + 1, pre);
    }
  }

  /** A printed SET begins with the place of its own header, and the next one comes after it. */
  lemma SetFrames(key: string, value: string, px: Option<u64>)
    ensures var s := Encode(SetValue(key, value, px));
            && |s| >= 13 && s[|s| - 2..] == CRLF && s[|s| - 1] != '*'
            && Frames(s, 0, 0, true) == Frames(s, 4, 0, false)
            && |Frames(s, 0, 0, true)| == StarCount(SetValue(key, value, px))
  {
    var v := SetValue(key, value, px);
    var s := Encode(v);
    EncodedStars(v);
    UnlinesCrlf(Lines(v));
    SetStart(key, value, px);
    hide SetValue, Encode, Lines, Stars;
    FramesSkip(s, 1, 4, 0, false);
    FramesCount(s, 0, 0, true);
    assert s[0..] == s;
    assert Stars(s) > 0 by { StarsPositive(s); }
  }

  lemma SetStart(key: string, value: string, px: Option<u64>)
    ensures var s := Encode(SetValue(key, value, px));
            && |s| >= 13 && StarDigit(s, 0) && !StarDigit(s, 1) && !StarDigit(s, 2) && !StarDigit(s, 3)
  {
    SetText(key, value, px);
    SetSize(key, value, px);
    var n := SetCountOf(px);
    ShowDigit(n);
    hide SetValue, Encode, Show, ValueText;
    var s := Encode(SetValue(key, value, px));
    assert s[0] == '*' && s[1] == Digit(n) && s[2] == '\r' && s[3] == '\n';
  }

  lemma StarsPositive(s: string)
    requires StarDigit(s, 0)
    ensures Stars(s) > 0
  {
  }

  lemma {:induction false} UnlinesCrlf(ls: seq<string>)
    requires ls != []
    ensures |Unlines(ls)| >= 2 && Unlines(ls)[|Unlines(ls)| - 2..] == CRLF
  {
    if |ls| > 1 {
      UnlinesCrlf(ls[1..]);
    } else {
      assert ls[1..] == [];
    }
  }

  // ---------------------------------------------------------------- the exact law

  /** What a replica that behaves as after one SET must have read. */
  lemma SetEffectRead(item: Item, r: Replica, clock: Clock)
    returns (vs: seq<Value>, i: nat, k: string, v: string, p: Option<u64>)
    requires item.SetItem? && r.alive && |Encode(item.Wire())| <= I64_MAX
    requires ApplyChunk(Encode(item.Wire()), r, clock) == RunItem(item, r, clock)
    ensures ParseMulti(Encode(item.Wire())) == Ok(vs) && i < |vs| && vs[i].Array?
    ensures ParseCommand(vs[i].items) == Ok(Set(k, v, p))
    ensures |Encode(SetValue(k, v, p))| <= |Encode(item.Wire())| + 2 ==>
              |Encode(SetValue(k, v, p))| == |Encode(item.Wire())|
  {
    hide ParseMulti, ParseCommand, ApplyValues, ApplyCommand, Execute, Encode, CountedBytes, Wrap64, SetValue;
    var s := Encode(item.Wire());
    SetFrames(item.key, item.value, item.px);
    vs := ParseMulti(s).value;
    ApplyExecuted(vs, r, clock);
    ReadingsTaken(Executed(vs), r, clock);
    var cmd := Executed(vs)[0];
    assert Executed(vs) == [cmd];
    OneCommand(cmd, r, clock);
    OffsetMoves(cmd, r, clock);
    KeepsOffset(item, r.world, clock(r.at));
    MovesIt(r.world.offset, |s| - 9);
    assert cmd.Set?;
    k, v, p := cmd.key, cmd.value, cmd.px;
    CountedIsFrame(k, v, p);
    i := ExecutedFrom(vs, cmd);
    if CountedBytes(k, v, p) < U64_MAX {
      WrapDiffers(r.world.offset, CountedBytes(k, v, p), |s| - 9);
    }
  }

  lemma OneCommand(cmd: Command, r: Replica, clock: Clock)
    ensures ApplyCommands([cmd], r, clock) == ApplyCommand(cmd, r, clock)
  {
    assert [cmd][1..] == [];
  }

  lemma MovesIt(offset: u64, n: nat)
    requires 0 < n <= I64_MAX
    ensures Wrap64(offset + n) != offset
  {
  }

  /** One SET that a replica reads has exactly its own effect if and only if it is safe: otherwise the
      text is dropped, the replica's loop ends, or other commands run. The bound is the length of the
      longest string that the source's language can hold. */
  lemma SetStreamExact(item: Item, r: Replica, clock: Clock)
    requires item.SetItem? && r.alive && |Encode(item.Wire())| <= I64_MAX
    ensures ApplyChunk(Bytes([item]), r, clock) == RunItem(item, r, clock) <==> item.Safe()
  {
    OneItem(item, r, clock);
    if item.Safe() {
      ChunkRefines([item], r, clock);
    } else if ApplyChunk(Bytes([item]), r, clock) == RunItem(item, r, clock) {
      var vs, i, k, v, p := SetEffectRead(item, r, clock);
      EffectIsSafe(item, vs, i, k, v, p);
    }
  }

  lemma OneItem(item: Item, r: Replica, clock: Clock)
    ensures Bytes([item]) == Encode(item.Wire()) && RunItems([item], r, clock) == RunItem(item, r, clock)
  {
    hide RunItem, Encode;
    assert [item][1..] == [] && Wires([item]) == [item.Wire()] + Wires([]) == [item.Wire()];
    assert [item.Wire()][1..] == [];
    ConcatCons(Encode(item.Wire()), []);
    assert EncodeAll([item.Wire()]) == [Encode(item.Wire())] + EncodeAll([]);
    assert Encode(item.Wire()) + "" == Encode(item.Wire());
  }

  lemma EffectIsSafe(item: Item, vs: seq<Value>, i: nat, k: string, v: string, p: Option<u64>)
    requires item.SetItem? && ParseMulti(Encode(item.Wire())) == Ok(vs) && i < |vs| && vs[i].Array?
    requires ParseCommand(vs[i].items) == Ok(Set(k, v, p))
    requires |Encode(SetValue(k, v, p))| <= |Encode(item.Wire())| + 2 ==>
               |Encode(SetValue(k, v, p))| == |Encode(item.Wire())|
    ensures item.Safe()
  {
    hide RespSpec.Parse, RespSpec.ParseAll, ParseCommand, Encode, SetValue, Frames, Clean, Quota, Stars;
    var s := Encode(item.Wire());
    var frames := Frames(s, 0, 0, true);
    SetFrames(item.key, item.value, item.px);
    FramesShorter(s, 4, 0);
    ParseAllAt(frames, vs, i);
    ReadSize(frames[i], vs[i].items, k, v, p);
    assert frames[i] in frames;
    assert frames == [s];
    SetRead(item.key, item.value, item.px, vs[i].items, k, v, p);
    SetItemSafe(item.key, item.value, item.px);
    SetStars(item.key, item.value, item.px);
    if item.px.None? {
      SameValue(item, vs[i].items);
      ComesBackSurvives(item.Wire());
    }
  }

  lemma SameValue(item: Item, vs: seq<Value>)
    requires item.SetItem? && vs == SetValue(item.key, item.value, item.px).items
    ensures Array(vs) == item.Wire()
  {
  }

  lemma SetStars(key: string, value: string, px: Option<u64>)
    ensures StarCount(SetValue(key, value, px)) == 1 + Stars(key) + Stars(value)
  {
    var fixed := [BulkString("set"), BulkString(key), BulkString(value)];
    WordInert("set");
    ThreeFacts("set", key, value);
    if px.Some? {
      WordInert("px");
      DigitsInert(px.value);
      TwoFacts("px", Show(px.value));
      AppendFacts(fixed, [BulkString("px"), BulkString(Show(px.value))]);
    }
    hide Stars;
  }
}
