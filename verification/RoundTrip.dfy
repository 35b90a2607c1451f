/** Printing and parsing values: what the parser returns, and exactly which values survive. */
module RoundTrip {
  import opened Basics
  import opened Text
  import opened Decimal
  import opened RespSpec
  import opened QuotaWords
  import opened Grouping

  // ---------------------------------------------------------------- what comes out is line-clean

  /** No string leaf that the parser returns contains CRLF, at any depth, whatever the input. */
  lemma {:induction false} ParseYieldsClean(s: string)
    requires Parse(s).Ok?
    ensures CleanValue(Parse(s).value)
    decreases |s|, 0
  {
    SplitClean(s);
    if s[0] == '*' {
      var pieces := Split(s);
      FirstPiece(s);
      var left := ParseI32(pieces[0][1..]).value;
      if left >= 0 {
        RegroupLength(pieces[1..], left, 1, "");
        ParseAllYieldsClean(Regroup(pieces[1..], left, 1, ""));
      }
    } else if s[0] == '$' {
      FirstPiece(s);
      var pieces := Split(s);
      if Parse(s).value.BulkString? {
        PrefixClean(pieces[1], |Parse(s).value.text|);
      }
    } else if s[0] == '+' {
      var line := s[1..FindCrlf(s).value];
      forall i | 0 <= i < |line|
        ensures !CrlfAt(line, i)
      {
        assert !CrlfAt(s, i + 1);
      }
    }
  }

  lemma {:induction false} ParseAllYieldsClean(ts: seq<string>)
    requires ParseAll(ts).Ok?
    ensures CleanAll(ParseAll(ts).value)
    decreases TotalLength(ts), 1, |ts|
  {
    if ts != [] {
      ParseYieldsClean(ts[0]);
      ParseAllYieldsClean(ts[1..]);
    }
  }

  lemma PrefixClean(s: string, n: nat)
    requires Clean(s) && n <= |s|
    ensures Clean(s[..n])
  {
    forall i | 0 <= i < n
      ensures !CrlfAt(s[..n], i)
    {
      assert !CrlfAt(s, i);
    }
  }

  // ---------------------------------------------------------------- what goes in comes back

  lemma {:induction false} SurplusZeroRobust(v: Value)
    requires Surplus(v) == 0
    ensures Robust(v)
    decreases v
  {
    if v.Array? {
      SurplusZeroRobustAll(v.items);
    }
  }

  lemma {:induction false} SurplusZeroRobustAll(vs: seq<Value>)
    requires SurplusAll(vs) == 0
    ensures RobustAll(vs)
    decreases vs
  {
    if vs != [] {
      SurplusZeroRobust(vs[0]);
      SurplusZeroRobustAll(vs[1..]);
    }
  }

  lemma {:induction false} RobustSurplus(v: Value)
    requires Robust(v)
    ensures Surplus(v) <= 1
    decreases v
  {
    if v.Array? {
      RobustSurplusAll(v.items);
    }
  }

  lemma {:induction false} RobustSurplusAll(vs: seq<Value>)
    requires RobustAll(vs)
    ensures SurplusAll(vs) <= 1
    decreases vs
  {
    if |vs| == 1 {
      RobustSurplus(vs[0]);
      assert SurplusAll(vs[1..]) == 0;
    } else if vs != [] {
      RobustSurplusAll(vs[1..]);
    }
  }

  /** What the loop collects for each child: its own lines, plus one empty line when its last payload
      announces one more line. */
  function ChildText(v: Value): string {
    Encode(v) + if Surplus(v) == 0 then "" else CRLF
  }

  function ChildTexts(vs: seq<Value>): seq<string> {
    if vs == [] then [] else [ChildText(vs[0])] + ChildTexts(vs[1..])
  }

  /** One child without surplus is collected as it stands. */
  lemma RegroupValue(v: Value, more: seq<string>, left: nat, tmp: string)
    requires Fits(v) && Surplus(v) == 0 && left >= 1
    ensures Regroup(Lines(v) + more, left, 1, tmp) == [tmp + Encode(v)] + Regroup(more, left - 1, 1, "")
  {
    QuotaWord(v, 0);
    RegroupFrame(Lines(v), more, left, 1, tmp);
  }

  /** A child with surplus 1 is still open after its last line. */
  lemma RegroupOpen(v: Value, more: seq<string>, left: nat)
    requires Fits(v) && Surplus(v) == 1 && left >= 1
    ensures Regroup(Lines(v) + more, left, 1, "") == Regroup(more, left, 1, Encode(v))
  {
    LinesBalance(v);
    RegroupThrough(Lines(v), more, left, 1, "");
    assert "" + Unlines(Lines(v)) == Encode(v);
  }

  lemma FitsSplit(vs: seq<Value>)
    requires vs != [] && FitsAll(vs)
    ensures Fits(vs[0]) && FitsAll(vs[1..])
  {
  }

  /** An empty line closes a child that waits for one line. */
  lemma RegroupBlank(tail: seq<string>, left: nat, tmp: string)
    requires tail != [] && tail[0] == "" && left >= 1
    ensures Regroup(tail, left, 1, tmp) == [tmp + CRLF] + Regroup(tail[1..], left - 1, 1, "")
  {
    assert tmp + "" + CRLF == tmp + CRLF;
  }

  /** The loop recovers the children of an array: with any lines after it when no payload looks like
      a header, and with an empty line after it when only the last payload does. */
  lemma {:induction false} RegroupItems(vs: seq<Value>, tail: seq<string>)
    requires RobustAll(vs) && FitsAll(vs)
    requires SurplusAll(vs) == 0 || (tail != [] && tail[0] == "")
    ensures Regroup(LinesAll(vs) + tail, |vs|, 1, "") == ChildTexts(vs)
  {
    hide RespSpec.Regroup;
    if vs == [] {
      assert LinesAll(vs) + tail == tail;
      RegroupNone(tail);
    } else if Surplus(vs[0]) == 0 {
      RegroupFirst(vs, tail, |vs|);
      SurplusZeroRobust(vs[0]);
      RegroupItems(vs[1..], tail);
    } else {
      RegroupLast(vs[0], tail);
      assert vs == [vs[0]] && vs[1..] == [];
      assert LinesAll(vs) == Lines(vs[0]) + LinesAll(vs[1..]) == Lines(vs[0]);
      assert ChildTexts(vs) == [ChildText(vs[0])] + ChildTexts(vs[1..]) == [ChildText(vs[0])];
    }
  }

  lemma LinesAllTail(vs: seq<Value>, tail: seq<string>)
    requires vs != []
    ensures LinesAll(vs) + tail == Lines(vs[0]) + (LinesAll(vs[1..]) + tail)
  {
  }

  lemma RegroupFirst(vs: seq<Value>, tail: seq<string>, left: nat)
    requires vs != [] && FitsAll(vs) && Surplus(vs[0]) == 0 && left >= 1
    ensures Regroup(LinesAll(vs) + tail, left, 1, "")
         == [ChildText(vs[0])] + Regroup(LinesAll(vs[1..]) + tail, left - 1, 1, "")
  {
    hide RespSpec.Regroup;
    FitsSplit(vs);
    LinesAllTail(vs, tail);
    RegroupValue(vs[0], LinesAll(vs[1..]) + tail, left, "");
    assert "" + Encode(vs[0]) == ChildText(vs[0]);
  }

  lemma RegroupLast(v: Value, tail: seq<string>)
    requires Fits(v) && Robust(v) && Surplus(v) > 0 && tail != [] && tail[0] == ""
    ensures Regroup(Lines(v) + tail, 1, 1, "") == [ChildText(v)]
  {
    RobustSurplus(v);
    RegroupOpen(v, tail, 1);
    RegroupBlank(tail, 1, Encode(v));
  }

  lemma RegroupNone(lines: seq<string>)
    ensures Regroup(lines, 0, 1, "") == []
  {
  }

  /** The text that may follow a value if it is to survive there. */
  predicate MayFollow(v: Value, rest: string) {
    v.Array? ==> Surplus(v) == 0 || (Robust(v) && (rest == "" || rest == CRLF))
  }

  lemma FrontPiece(header: string, ls: seq<string>, rest: string)
    requires header != "" && AllClean([header] + ls)
    ensures var s := Unlines([header] + ls) + rest;
            s != "" && s[0] == header[0] && Split(s) == [header] + (ls + Split(rest))
  {
    hide Text.Split, Text.Clean;
    SplitUnlines([header] + ls, rest);
    assert [header] + ls + Split(rest) == [header] + (ls + Split(rest));
    UnlinesCons(header, ls);
  }

  lemma ParseLine(c: char, t: string, rest: string)
    requires Clean([c] + t)
    ensures var s := Unlines([[c] + t]) + rest;
            s != "" && s[0] == c && FindCrlf(s) == Some(|t| + 1) && s[1..|t| + 1] == t
  {
    var l := [c] + t;
    assert [l][1..] == [];
    assert Unlines([l]) + rest == l + CRLF + rest;
    FindAfterLine(l, rest);
  }

  lemma ParseEncodeBulk(t: string, rest: string)
    requires Clean(t) && |t| <= I32_MAX
    ensures Parse(Encode(BulkString(t)) + rest) == Ok(BulkString(t))
  {
    var header := "$" + Show(|t|);
    LinesClean(BulkString(t));
    assert [header] + [t] == Lines(BulkString(t));
    FrontPiece(header, [t], rest);
    ParseShowInt(|t|, I32_MIN, I32_MAX);
    assert header[1..] == ShowInt(|t|);
    assert t[..|t|] == t;
  }

  lemma ParseEncodeNull(rest: string)
    ensures Parse(Encode(Null) + rest) == Ok(Null)
  {
    LinesClean(Null);
    assert ["$-1"] + [] == Lines(Null);
    FrontPiece("$-1", [], rest);
    ParseShowInt(-1, I32_MIN, I32_MAX);
    assert "$-1"[1..] == ShowInt(-1);
  }

  /** What `parse_array` does once it has read the header of a printed array. */
  lemma ParseHeader(items: seq<Value>, rest: string)
    requires CleanAll(items) && |items| <= I32_MAX
    ensures var r := ParseAll(Regroup(LinesAll(items) + Split(rest), |items|, 1, ""));
            Parse(Encode(Array(items)) + rest) == (if r.Ok? then Ok(Array(r.value)) else r.PropagateFailure())
  {
    hide RespSpec.Regroup, RespSpec.ParseAll, RespSpec.Parse, Show, Text.Split, Text.Clean;
    var header := "*" + Show(|items|);
    LinesClean(Array(items));
    FrontPiece(header, LinesAll(items), rest);
    var s := Encode(Array(items)) + rest;
    assert Split(s)[1..] == LinesAll(items) + Split(rest);
    HeaderParses(s, |items|);
  }

  /** A text whose first line is an array header goes through the quota loop. */
  lemma HeaderParses(s: string, n: nat)
    requires n <= I32_MAX && s != "" && s[0] == '*' && Split(s)[0] == "*" + Show(n)
    ensures var r := ParseAll(Regroup(Split(s)[1..], n, 1, ""));
            Parse(s) == (if r.Ok? then Ok(Array(r.value)) else r.PropagateFailure())
  {
    hide RespSpec.Regroup, RespSpec.ParseAll, Text.Split;
    ParseShowInt(n, I32_MIN, I32_MAX);
    assert ("*" + Show(n))[1..] == ShowInt(n);
    assert Parse(s) == ParseArray(s);
  }

  /** Parsing undoes printing, at any nesting depth. */
  lemma {:induction false} ParseEncode(v: Value, rest: string)
    requires CleanValue(v) && Fits(v) && MayFollow(v, rest)
    ensures Parse(Encode(v) + rest) == Ok(v)
    decreases v, 1
  {
    LinesClean(v);
    match v
    case SimpleString(t) =>
      ParseLine('+', t, rest);
    case Integer(n) =>
      ParseLine(':', ShowInt(n), rest);
      ParseShowInt(n, I32_MIN, I32_MAX);
    case BulkString(t) => ParseEncodeBulk(t, rest);
    case Null => ParseEncodeNull(rest);
    case Array(items) =>
      ParseHeader(items, rest);
      SplitBlank(rest);
      if Surplus(v) == 0 {
        SurplusZeroRobust(v);
      }
      RegroupItems(items, Split(rest));
      ParseChildren(items);
  }

  lemma {:induction false} ParseChildren(vs: seq<Value>)
    requires CleanAll(vs) && FitsAll(vs) && RobustAll(vs)
    ensures ParseAll(ChildTexts(vs)) == Ok(vs)
    decreases vs, 0
  {
    if vs != [] {
      FitsSplit(vs);
      ParseChild(vs[0]);
      if |vs| > 1 {
        ParseChildren(vs[1..]);
      }
      ParseAllCons(ChildText(vs[0]), ChildTexts(vs[1..]));
      assert vs == [vs[0]] + vs[1..];
    }
  }

  lemma {:induction false} ParseChild(v: Value)
    requires CleanValue(v) && Fits(v) && (Surplus(v) == 0 || Robust(v))
    ensures Parse(ChildText(v)) == Ok(v)
    decreases v, 2
  {
    if Surplus(v) == 0 {
      ParseEncode(v, "");
      assert Encode(v) + "" == ChildText(v);
    } else {
      RobustSurplus(v);
      ParseEncode(v, CRLF);
    }
  }

  lemma ParseAllCons(t: string, ts: seq<string>)
    ensures var p, ps := Parse(t), ParseAll(ts);
            ParseAll([t] + ts) ==
              if !p.Ok? then p.PropagateFailure()
              else if !ps.Ok? then ps.PropagateFailure()
              else Ok([p.value] + ps.value)
  {
    assert ([t] + ts)[1..] == ts;
  }

  lemma {:induction false} ParseAllAt(ts: seq<string>, vs: seq<Value>, i: nat)
    requires ParseAll(ts) == Ok(vs) && i < |vs|
    ensures |ts| == |vs| && Parse(ts[i]) == Ok(vs[i])
  {
    hide RespSpec.Parse;
    ParseAllCons(ts[0], ts[1..]);
    assert ts == [ts[0]] + ts[1..];
    if i > 0 {
      ParseAllAt(ts[1..], vs[1..], i - 1);
    }
  }

  lemma ParseAllNone()
    ensures ParseAll([]) == Ok([])
  {
  }

  lemma SplitBlank(rest: string)
    ensures rest == "" ==> Split(rest) == [""]
    ensures rest == CRLF ==> Split(rest) == ["", ""]
  {
    if rest == CRLF {
      assert rest == "" + CRLF + "";
      SplitLine("", "");
    }
  }

  // ---------------------------------------------------------------- nothing else comes back

  /** Whatever the parser returns declared lengths that fit its i32. */
  lemma {:induction false} ParseYieldsWidths(s: string)
    requires Parse(s).Ok?
    ensures Widths(Parse(s).value)
    decreases |s|, 0
  {
    if s[0] == '*' {
      var pieces := Split(s);
      FirstPiece(s);
      var left := ParseI32(pieces[0][1..]).value;
      if left >= 0 {
        RegroupLength(pieces[1..], left, 1, "");
        ParseAllYieldsWidths(Regroup(pieces[1..], left, 1, ""));
      }
    } else if s[0] == '$' {
      FirstPiece(s);
    }
  }

  lemma {:induction false} ParseAllYieldsWidths(ts: seq<string>)
    requires ParseAll(ts).Ok?
    ensures WidthsAll(ParseAll(ts).value)
    decreases TotalLength(ts), 1, |ts|
  {
    if ts != [] {
      ParseYieldsWidths(ts[0]);
      ParseAllYieldsWidths(ts[1..]);
    }
  }

  lemma SplitGroup(g: seq<string>)
    requires AllClean(g)
    ensures Split(Unlines(g)) == g + [""]
  {
    SplitUnlines(g, "");
    SplitBlank("");
    assert Unlines(g) + "" == Unlines(g);
  }

  /** The first character of a text decides what it can parse to. */
  lemma FirstCharacter(g: seq<string>)
    requires g != [] && Parse(Unlines(g)).Ok?
    ensures g[0] != "" && Unlines(g)[0] == g[0][0]
    ensures var v := Parse(Unlines(g)).value;
            && (v.Array? ==> g[0][0] == '*') && (v.BulkString? ==> g[0][0] == '$')
  {
    assert Unlines(g) == g[0] + CRLF + Unlines(g[1..]);
  }

  /** How an array was read: the groups of its lines and of the empty piece after the last CRLF. Lines
      that close by themselves cannot lend that empty piece to a child. */
  lemma ArrayGroups(g: seq<string>, items: seq<Value>) returns (gs: seq<seq<string>>)
    requires g != [] && AllClean(g) && Parse(Unlines(g)) == Ok(Array(items))
    ensures |gs| == |items| <= Quota(g[0]) && AllGroups(gs) && ParseAll(Texts(gs)) == Ok(items)
    ensures Flat(gs) <= g[1..] + [""]
    ensures Closes(g, 1) ==> Flat(gs) <= g[1..]
  {
    hide RespSpec.Regroup, RespSpec.ParseAll, RespSpec.Parse, Closes, Clean;
    var lines := g[1..] + [""];
    HeaderRead(g, items);
    var left: nat := Quota(g[0]);
    gs := Groups(lines, left, 1, []);
    assert Pending([], 1, 1) by { PendingStart(); }
    NoReturn();
    GroupsClose(lines, left, 1, []);
    GroupsFlat(lines, left, 1, []);
    assert [] + lines == lines;
    assert Unlines([]) == "" by { NoLines(); }
    GroupsTexts(lines, left, 1, []);
    if Closes(g, 1) {
      TailNotLent(g, gs);
    }
    assert |Flat(gs)| < |lines| ==> Flat(gs) <= lines[..|lines| - 1] == g[1..];
  }

  lemma NoReturn()
    ensures Clean("")
  {
  }

  lemma HeaderRead(g: seq<string>, items: seq<Value>)
    requires g != [] && AllClean(g) && Parse(Unlines(g)) == Ok(Array(items))
    ensures ParseAll(Regroup(g[1..] + [""], Quota(g[0]), 1, "")) == Ok(items)
  {
    hide RespSpec.Regroup, RespSpec.ParseAll, Clean;
    FirstCharacter(g);
    SplitGroup(g);
    var s := Unlines(g);
    assert s != "" && s[0] == '*';
    assert Parse(s) == ParseArray(s);
    assert Split(s)[0] == g[0] && Split(s)[1..] == g[1..] + [""];
  }

  lemma TailNotLent(g: seq<string>, gs: seq<seq<string>>)
    requires g != [] && Closes(g, 1) && AllGroups(gs) && |gs| <= Quota(g[0])
    ensures Flat(gs) != g[1..] + [""]
  {
    hide Closes, Quota, Clean, Congruent, AllGroups;
    ClosesBalance(g, 1);
    GroupsBalance(gs);
    LoadAppend(g[1..], [""]);
    LoadTwo("", "");
    assert Quota("") == 0 by { EmptyQuota(); }
    NotBoth(1 + Balance(g), |gs| + Balance(Flat(gs)), Quota(g[0]), |gs|);
  }

  lemma NotBoth(a: int, b: int, quota: i32, count: nat)
    requires Congruent(a, 0) && Congruent(b, 0) && count <= quota
    ensures a - quota != b - count + 1
  {
  }

  lemma EmptyQuota()
    ensures Quota("") == 0
  {
  }

  /** A value takes at least as many lines to read as to print. */
  lemma {:induction false} GroupLength(g: seq<string>, v: Value)
    requires Group(g) && Parse(Unlines(g)) == Ok(v)
    ensures |Lines(v)| <= |g|
    decreases v
  {
    match v
    case BulkString(t) => BulkGroupLength(g, t);
    case Array(items) =>
      var gs := ArrayGroups(g, items);
      GroupsLength(gs, items);
    case _ =>
  }

  lemma BulkGroupLength(g: seq<string>, t: string)
    requires Group(g) && Parse(Unlines(g)) == Ok(BulkString(t))
    ensures |g| >= 2
  {
    BulkHeader(g, t);
    hide Quota, RespSpec.Parse, Clean;
    StepExact(1, g[0]);
  }

  lemma BulkHeader(g: seq<string>, t: string)
    requires g != [] && AllClean(g) && Parse(Unlines(g)) == Ok(BulkString(t))
    ensures Quota(g[0]) == 1
  {
    hide Clean, Closes;
    FirstCharacter(g);
    SplitGroup(g);
    var s := Unlines(g);
    assert Parse(s) == ParseBulkString(s);
    assert Split(s)[0] == g[0];
  }

  lemma {:induction false} GroupsLength(gs: seq<seq<string>>, vs: seq<Value>)
    requires AllGroups(gs) && ParseAll(Texts(gs)) == Ok(vs)
    ensures |LinesAll(vs)| <= |Flat(gs)|
    decreases vs
  {
    hide Clean, Closes, RespSpec.Parse;
    if vs != [] {
      GroupsCons(gs, vs);
      GroupLength(gs[0], vs[0]);
      GroupsLength(gs[1..], vs[1..]);
    }
  }

  lemma GroupsCons(gs: seq<seq<string>>, vs: seq<Value>)
    requires AllGroups(gs) && ParseAll(Texts(gs)) == Ok(vs) && vs != []
    ensures |gs| == |vs| && Group(gs[0]) && AllGroups(gs[1..])
    ensures Parse(Unlines(gs[0])) == Ok(vs[0]) && ParseAll(Texts(gs[1..])) == Ok(vs[1..])
  {
    hide Clean, Closes, RespSpec.Parse;
    assert |Texts(gs)| == |vs|;
    assert gs[0] in gs;
    ParseAllCons(Unlines(gs[0]), Texts(gs[1..]));
    assert Texts(gs) == [Unlines(gs[0])] + Texts(gs[1..]);
    assert vs == [vs[0]] + vs[1..];
  }

  // ---------------------------------------------------------------- shifted by one line

  /** No list of values is read from its own lines shifted by one. */
  lemma {:induction false} ShiftedFails(gs: seq<seq<string>>, vs: seq<Value>)
    requires AllGroups(gs) && ParseAll(Texts(gs)) == Ok(vs) && vs != []
    ensures Flat(gs) != (LinesAll(vs) + [""])[1..]
    decreases vs, 0
  {
    hide Clean, Closes, RespSpec.Parse, RespSpec.ParseAll;
    var v, rest := vs[0], vs[1..];
    GroupsCons(gs, vs);
    GroupLength(gs[0], v);
    GroupsLength(gs[1..], rest);
    var n := |Lines(v)|;
    assert LinesAll(vs) == Lines(v) + LinesAll(rest);
    if rest == [] {
      ShiftedOne(gs[0], v);
      assert gs[1..] == [] && Flat(gs) == gs[0];
    } else {
      ShiftedFails(gs[1..], rest);
      if |gs[0]| == n {
        assert Flat(gs)[n..] == Flat(gs[1..]);
        assert (LinesAll(vs) + [""])[1..][n..] == (LinesAll(rest) + [""])[1..];
      }
    }
  }

  lemma {:induction false} ShiftedOne(g: seq<string>, v: Value)
    requires Group(g) && Parse(Unlines(g)) == Ok(v)
    ensures g != Lines(v)[1..] + [""]
    decreases v, 1
  {
    FirstCharacter(g);
    match v
    case BulkString(t) => SplitGroup(g);
    case Array(items) =>
      if items != [] {
        var gs := ArrayGroups(g, items);
        var rest := g[1..];
        GroupsLength(gs, items);
        if |rest| == |LinesAll(items)| {
          assert Flat(gs) == rest;
        }
        ShiftedFails(gs, items);
      }
    case _ =>
  }

  // ---------------------------------------------------------------- what came back was robust

  /** Children that came back from their own lines look like no header; if the last one also took an
      empty line, its last payload announced one. */
  lemma {:induction false} ItemsRobust(gs: seq<seq<string>>, vs: seq<Value>, extra: bool)
    requires AllGroups(gs) && ParseAll(Texts(gs)) == Ok(vs)
    requires Flat(gs) == LinesAll(vs) + if extra then [""] else []
    ensures if extra then RobustAll(vs) && SurplusAll(vs) == 1 else SurplusAll(vs) == 0
    decreases vs, 2
  {
    hide Clean, Closes, RespSpec.Parse, RespSpec.ParseAll;
    var more := if extra then [""] else [];
    if vs == [] {
      assert |gs| == 0 by { NoneParsed(gs); }
    } else {
      var v, rest := vs[0], vs[1..];
      GroupsCons(gs, vs);
      GroupLength(gs[0], v);
      GroupsLength(gs[1..], rest);
      var n := |Lines(v)|;
      assert Flat(gs) == gs[0] + Flat(gs[1..]) == Lines(v) + (LinesAll(rest) + more);
      if |gs[0]| == n {
        assert gs[0] == Flat(gs)[..n] == Lines(v);
        assert Flat(gs[1..]) == Flat(gs)[n..] == LinesAll(rest) + more;
        ClosedNotSurplus(v);
        ItemsRobust(gs[1..], rest, extra);
      } else {
        assert extra && |gs[0]| == n + 1;
        if rest == [] {
          assert gs[1..] == [] && Flat(gs[1..]) == [] && LinesAll(rest) == [];
          assert gs[0] == gs[0] + [] == Lines(v) + ([] + more) == Lines(v) + [""];
          OpenSurplus(v);
          assert SurplusAll(vs) == Surplus(v) + SurplusAll(rest);
        } else {
          assert Flat(gs[1..]) == Flat(gs)[n + 1..] == (LinesAll(rest) + [""])[1..];
          ShiftedFails(gs[1..], rest);
        }
      }
    }
  }

  lemma NoneParsed(gs: seq<seq<string>>)
    requires ParseAll(Texts(gs)) == Ok([])
    ensures gs == []
  {
  }

  /** The balance of an array's lines, whatever its payloads announce. */
  lemma ArrayBalance(items: seq<Value>, more: seq<string>)
    requires |items| <= I32_MAX
    ensures Balance(Lines(Array(items)) + more) == |items| - 1 + Balance(LinesAll(items)) + Balance(more)
  {
    HeaderQuota(|items|);
    LoadAppend(Lines(Array(items)), more);
    assert Lines(Array(items))[1..] == LinesAll(items);
  }

  /** A value that closes by itself and comes back has no surplus. */
  lemma {:induction false} ClosedNotSurplus(v: Value)
    requires Group(Lines(v)) && Parse(Unlines(Lines(v))) == Ok(v)
    ensures Surplus(v) == 0
    decreases v, 1
  {
    ParseYieldsWidths(Unlines(Lines(v)));
    match v
    case BulkString(t) => ClosedBulk(t);
    case Array(items) =>
      var gs := ArrayGroups(Lines(v), items);
      GroupsLength(gs, items);
      assert Flat(gs) == LinesAll(items) == LinesAll(items) + [];
      ItemsRobust(gs, items, false);
    case _ =>
  }

  /** One that needs an empty line to close has a surplus of one, at its very end. */
  lemma {:induction false} OpenSurplus(v: Value)
    requires Group(Lines(v) + [""]) && Parse(Unlines(Lines(v) + [""])) == Ok(v)
    ensures Robust(v) && Surplus(v) == 1
    decreases v, 1
  {
    var g := Lines(v) + [""];
    ParseYieldsWidths(Unlines(g));
    match v
    case BulkString(t) => OpenBulk(t);
    case Array(items) =>
      hide Closes, Clean, RespSpec.Parse, RespSpec.ParseAll;
      var gs := ArrayGroups(g, items);
      GroupsLength(gs, items);
      assert g[1..] == LinesAll(items) + [""];
      OneMoreTaken(items, gs);
      ItemsRobust(gs, items, true);
    case _ =>
      NoQuota(v);
      FirstStep(g);
  }

  /** A first line that announces nothing closes at once. */
  lemma FirstStep(g: seq<string>)
    requires g != [] && Quota(g[0]) == 0
    ensures Closes(g, 1) ==> |g| == 1
  {
  }

  lemma ClosedBulk(t: string)
    requires |t| <= I32_MAX && Closes(Lines(BulkString(t)), 1)
    ensures Quota(t) == 0
  {
    var ls := Lines(BulkString(t));
    HeaderQuota(|t|);
    hide Quota, Step;
    assert ls[1..] == [t];
    StepExact(1, ls[0]);
    StepExact(1, t);
  }

  lemma OpenBulk(t: string)
    requires |t| <= I32_MAX && Closes(Lines(BulkString(t)) + [""], 1)
    ensures Quota(t) == 1
  {
    var g := Lines(BulkString(t)) + [""];
    HeaderQuota(|t|);
    EmptyQuota();
    hide Quota, Step;
    assert g[0] == Lines(BulkString(t))[0] && g[1..] == [t, ""] && [t, ""][1..] == [""];
    StepExact(1, g[0]);
    StepExact(1, t);
    assert Closes([t, ""], 1) && Closes([""], Quota(t));
    StepExact(Quota(t), "");
  }

  /** The children of an array that needs an empty line to close have taken that line. */
  lemma OneMoreTaken(items: seq<Value>, gs: seq<seq<string>>)
    requires Closes(Lines(Array(items)) + [""], 1) && AllGroups(gs) && |gs| == |items| <= I32_MAX
    requires Flat(gs) <= LinesAll(items) + [""] && |LinesAll(items)| <= |Flat(gs)|
    ensures Flat(gs) == LinesAll(items) + [""]
  {
    hide Closes, AllGroups, Quota, Congruent;
    if |Flat(gs)| == |LinesAll(items)| {
      assert Flat(gs) == LinesAll(items);
      GroupsBalance(gs);
      ClosesBalance(Lines(Array(items)) + [""], 1);
      ArrayBalance(items, [""]);
      LoadTwo("", "");
      assert Quota("") == 0 by { EmptyQuota(); }
      NotBoth(|items| + Balance(LinesAll(items)), 1 + Balance(Lines(Array(items)) + [""]), 0, 0);
    }
  }

  lemma NoQuota(v: Value)
    requires v.SimpleString? || v.SimpleError? || v.Integer? || v.Null?
    ensures Quota(Lines(v)[0]) == 0
  {
    NullQuota();
  }

  /** An array whose misleading payloads are not just the one at the very end does not come back. */
  lemma MisplacedSurplus(vs: seq<Value>, tail: seq<string>)
    requires CleanAll(vs) && !RobustAll(vs)
    requires tail == [""] || (tail == ["", ""] && SurplusAll(vs) == 1)
    ensures ParseAll(Regroup(LinesAll(vs) + tail, |vs|, 1, "")) != Ok(vs)
  {
    hide Closes, Clean, RespSpec.Parse, RespSpec.ParseAll, RespSpec.Regroup;
    var lines := LinesAll(vs) + tail;
    if ParseAll(Regroup(lines, |vs|, 1, "")) == Ok(vs) {
      NoReturn();
      var gs := OwnGroups(vs, tail);
      var c := |Flat(gs)| - |LinesAll(vs)|;
      assert Flat(gs) == LinesAll(vs) + tail[..c];
      if c == 0 {
        ItemsRobust(gs, vs, false);
        SurplusZeroRobustAll(vs);
      } else if c == 1 {
        assert tail[..c] == [""];
        ItemsRobust(gs, vs, true);
      } else {
        assert tail[..c] == ["", ""];
        TwoMoreTaken(gs, vs);
      }
    }
  }

  /** The groups behind children that came back from their own lines. */
  lemma OwnGroups(vs: seq<Value>, tail: seq<string>) returns (gs: seq<seq<string>>)
    requires CleanAll(vs) && AllClean(tail)
    requires ParseAll(Regroup(LinesAll(vs) + tail, |vs|, 1, "")) == Ok(vs)
    ensures AllGroups(gs) && ParseAll(Texts(gs)) == Ok(vs) && WidthsAll(vs) && |gs| == |vs|
    ensures Flat(gs) <= LinesAll(vs) + tail && |LinesAll(vs)| <= |Flat(gs)|
  {
    hide Closes, Clean, RespSpec.Parse, RespSpec.ParseAll, RespSpec.Regroup;
    var lines := LinesAll(vs) + tail;
    gs := Groups(lines, |vs|, 1, []);
    LinesAllClean(vs);
    assert Pending([], 1, 1) by { PendingStart(); }
    assert Unlines([]) == "" by { NoLines(); }
    GroupsClose(lines, |vs|, 1, []);
    GroupsFlat(lines, |vs|, 1, []);
    assert [] + lines == lines;
    GroupsTexts(lines, |vs|, 1, []);
    GroupsLength(gs, vs);
    ParseAllYieldsWidths(Texts(gs));
    assert |Texts(gs)| == |vs| by { ParsedCount(Texts(gs), vs); }
  }

  lemma ParsedCount(ts: seq<string>, vs: seq<Value>)
    requires ParseAll(ts) == Ok(vs)
    ensures |ts| == |vs|
  {
  }

  lemma TwoMoreTaken(gs: seq<seq<string>>, vs: seq<Value>)
    requires AllGroups(gs) && WidthsAll(vs) && SurplusAll(vs) == 1 && |gs| == |vs|
    ensures Flat(gs) != LinesAll(vs) + ["", ""]
  {
    hide AllGroups, Quota, Congruent;
    GroupsBalance(gs);
    LinesAllBalance(vs);
    LoadAppend(LinesAll(vs), ["", ""]);
    LoadTwo("", "");
    assert Quota("") == 0 by { EmptyQuota(); }
    assert !Congruent(-1, 0) by { MinusOne(); }
  }

  lemma MinusOne()
    ensures !Congruent(-1, 0)
  {
  }

  lemma NotRobustFails(items: seq<Value>, rest: string)
    requires CleanAll(items) && !RobustAll(items)
    requires rest == "" || (rest == CRLF && SurplusAll(items) == 1)
    ensures Parse(Encode(Array(items)) + rest) != Ok(Array(items))
  {
    hide RespSpec.Regroup, RespSpec.Parse, RespSpec.ParseAll;
    if |items| > I32_MAX {
      if Parse(Encode(Array(items)) + rest) == Ok(Array(items)) {
        ParseYieldsWidths(Encode(Array(items)) + rest);
      }
    } else {
      ParseHeader(items, rest);
      SplitBlank(rest);
      MisplacedSurplus(items, Split(rest));
    }
  }

  /** A value that comes back survives: no bound on its size or on what its payloads announce. */
  lemma ComesBackSurvives(v: Value)
    requires Parse(Encode(v)) == Ok(v)
    ensures SurvivesAlone(v)
  {
    ParseYieldsClean(Encode(v));
    ParseYieldsWidths(Encode(v));
    assert Encode(v) + "" == Encode(v);
    if v.Array? && !RobustAll(v.items) {
      NotRobustFails(v.items, "");
    }
  }

  /** Any surplus at all is found out: if not by the array alone, then by a header that follows. */
  lemma SurplusFails(items: seq<Value>)
    requires CleanAll(items) && Short(Array(items)) && SurplusAll(items) > 0
    ensures Parse(Encode(Array(items))) != Ok(Array(items))
         || Parse(Encode(Array(items)) + ("*" + Show(2) + CRLF)) != Ok(Array(items))
  {
    hide RespSpec.Parse;
    if Parse(Encode(Array(items))) == Ok(Array(items)) {
      ComesBackSurvives(Array(items));
      LastSurplusFails(items);
    }
  }

  lemma LastSurplusFails(items: seq<Value>)
    requires CleanAll(items) && Fits(Array(items)) && RobustAll(items) && SurplusAll(items) > 0
    ensures Parse(Encode(Array(items)) + ("*" + Show(2) + CRLF)) != Ok(Array(items))
  {
    hide RespSpec.Regroup, RespSpec.Parse, RespSpec.ParseAll;
    var header := "*" + Show(2);
    var rest := header + CRLF;
    ShowIntClean(2);
    HeaderClean('*', Show(2));
    SplitLine(header, "");
    SplitBlank("");
    assert header + CRLF + "" == rest;
    HeaderQuota(2);
    LoadTwo(header, "");
    RobustSurplusAll(items);
    assert Above([""], 2) && [header, ""][1..] == [""];
    assert Split(rest) == [header, ""];
    ParseHeader(items, rest);
    TooMuchSurplus(items, [header, ""]);
  }

  /** More lines announced than there are: the array comes back with too few children. */
  lemma TooMuchSurplus(items: seq<Value>, tail: seq<string>)
    requires WidthsAll(items) && |items| >= 1 && Above(tail, SurplusAll(items))
    requires SurplusAll(items) + Balance(tail) > 0
    requires |LinesAll(items)| + SurplusAll(items) + Load(tail) <= I32_MAX
    ensures |Regroup(LinesAll(items) + tail, |items|, 1, "")| < |items|
  {
    LinesAllBalance(items);
    LoadAppend(LinesAll(items), tail);
    AboveAppend(LinesAll(items), tail, |items|);
    RegroupShort(LinesAll(items) + tail, |items|, 1, "");
  }

  // ---------------------------------------------------------------- the exact laws

  /** A printed value parses back to itself if and only if its leaves are single lines, its declared
      lengths fit the parser's i32 and, inside an array, no payload looks like a header, except that the
      very last one may announce one line. */
  lemma RoundTripAlone(v: Value)
    requires Short(v)
    ensures Parse(Encode(v)) == Ok(v) <==> SurvivesAlone(v)
  {
    if SurvivesAlone(v) {
      assert Encode(v) + "" == Encode(v);
      ParseEncode(v, "");
    } else if Parse(Encode(v)) == Ok(v) {
      ComesBackSurvives(v);
    }
  }

  /** It does so before every following text if and only if, inside an array, no payload at all looks
      like a header. */
  lemma RoundTripAnywhere(v: Value)
    requires Short(v)
    ensures (forall rest :: Parse(Encode(v) + rest) == Ok(v)) <==> SurvivesAnywhere(v)
  {
    if SurvivesAnywhere(v) {
      forall rest
        ensures Parse(Encode(v) + rest) == Ok(v)
      {
        ParseEncode(v, rest);
      }
    } else {
      assert Encode(v) + "" == Encode(v);
      RoundTripAlone(v);
      if SurvivesAlone(v) {
        SurplusFails(v.items);
      }
    }
  }
}
