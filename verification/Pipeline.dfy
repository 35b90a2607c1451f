/** `parse_multi_array`: cutting a byte stream into frames at every `*` that is followed by a digit. */
module Pipeline {
  import opened Basics
  import opened Text
  import opened Decimal
  import opened RespSpec
  import opened RoundTrip

  predicate StarDigit(s: string, i: int) {
    0 <= i && i + 1 < |s| && s[i] == '*' && IsDigit(s[i + 1])
  }

  /** The frames cut from position `i` on, when the current frame began at `pre`. */
  function Frames(s: string, i: nat, pre: nat, first: bool): seq<string>
    requires pre <= i <= |s|
    decreases |s| - i
  {
    if i == |s| then [s[pre..]]
    else if !StarDigit(s, i) then Frames(s, i + 1, pre, first)
    else if first then Frames(s, i + 1, pre, false)
    else [s[pre..i]] + Frames(s, i + 1, i, false)
  }

  /** A stream that ends in `*` is read past its end, after its last frame has been parsed. */
  function ParseMulti(s: string): Outcome<seq<Value>> {
    if s == "" then Ok([])
    else
      var vs :- ParseAll(Frames(s, 0, 0, true));
      if s[|s| - 1] == '*' then Panic else Ok(vs)
  }

  /** How many places a text offers for cutting. */
  function Stars(s: string): nat {
    if |s| < 2 then 0 else (if StarDigit(s, 0) then 1 else 0) + Stars(s[1..])
  }

  /** The places that a printed value offers: one for each array header, and those in its leaves. */
  function StarCount(v: Value): nat
    decreases v
  {
    match v
    case SimpleString(t) => Stars(t)
    case SimpleError(t) => Stars(t)
    case BulkString(t) => Stars(t)
    case Array(items) => 1 + StarCountAll(items)
    case _ => 0
  }

  function StarCountAll(vs: seq<Value>): nat
    decreases vs
  {
    if vs == [] then 0 else StarCount(vs[0]) + StarCountAll(vs[1..])
  }

  // ---------------------------------------------------------------- counting places

  lemma {:induction false} StarsAppend(a: string, b: string)
    requires b == "" || !IsDigit(b[0])
    ensures Stars(a + b) == Stars(a) + Stars(b)
  {
    if a == "" {
      assert a + b == b;
    } else {
      assert (a + b)[1..] == a[1..] + b;
      StarsAppend(a[1..], b);
      assert |a| >= 2 ==> StarDigit(a + b, 0) == StarDigit(a, 0);
      assert |a| == 1 ==> !StarDigit(a + b, 0);
    }
  }

  lemma {:induction false} StarsNone(s: string)
    requires Stars(s) == 0
    ensures forall i | 0 <= i < |s| :: !StarDigit(s, i)
  {
    if |s| >= 2 {
      StarsNone(s[1..]);
      forall i | 0 <= i < |s|
        ensures !StarDigit(s, i)
      {
        assert i > 0 ==> StarDigit(s, i) == StarDigit(s[1..], i - 1);
      }
    }
  }

  lemma {:induction false} DigitsHaveNone(s: string)
    requires forall i | 0 <= i < |s| :: s[i] != '*'
    ensures Stars(s) == 0
  {
    if |s| >= 2 {
      DigitsHaveNone(s[1..]);
    }
  }

  lemma {:induction false} StarsLines(ls: seq<string>)
    ensures Stars(Unlines(ls)) == StarsAll(ls)
  {
    if ls != [] {
      StarsLines(ls[1..]);
      var tail := CRLF + Unlines(ls[1..]);
      assert Unlines(ls) == ls[0] + tail;
      StarsAppend(ls[0], tail);
      assert tail[1..] == "\n" + Unlines(ls[1..]) && tail[1..][1..] == Unlines(ls[1..]);
      assert !StarDigit(tail, 0) && !StarDigit(tail[1..], 0);
      assert |Unlines(ls[1..])| == 0 ==> Stars(tail) == 0;
    }
  }

  function StarsAll(ls: seq<string>): nat {
    if ls == [] then 0 else Stars(ls[0]) + StarsAll(ls[1..])
  }

  lemma {:induction false} StarsAllAppend(a: seq<string>, b: seq<string>)
    ensures StarsAll(a + b) == StarsAll(a) + StarsAll(b)
  {
    if a == [] {
      assert a + b == b;
    } else {
      assert (a + b)[1..] == a[1..] + b;
      StarsAllAppend(a[1..], b);
    }
  }

  lemma PrefixedStars(c: char, t: string)
    ensures Stars([c] + t) == Stars(t) + if c == '*' && t != "" && IsDigit(t[0]) then 1 else 0
  {
    assert ([c] + t)[1..] == t;
  }

  /** The places a printed value offers are those of its parts. */
  lemma {:induction false} StarsOfValue(v: Value)
    ensures StarsAll(Lines(v)) == StarCount(v)
    decreases v
  {
    match v
    case SimpleString(t) => PrefixedStars('+', t); StarsOne("+" + t);
    case SimpleError(t) => PrefixedStars('-', t); StarsOne("-" + t);
    case Integer(n) =>
      ShowIntClean(n);
      DigitsHaveNone(":" + ShowInt(n));
      StarsOne(":" + ShowInt(n));
    case BulkString(t) =>
      ShowIntClean(|t|);
      DigitsHaveNone("$" + Show(|t|));
      StarsAllAppend(["$" + Show(|t|)], [t]);
      StarsOne("$" + Show(|t|));
      StarsOne(t);
      assert Lines(v) == ["$" + Show(|t|)] + [t];
    case Null =>
      DigitsHaveNone("$-1");
      StarsOne("$-1");
    case Array(items) =>
      var digits := Show(|items|);
      DigitsHaveNone(digits);
      PrefixedStars('*', digits);
      StarsOne("*" + digits);
      StarsAllAppend(["*" + digits], LinesAll(items));
      StarsOfValues(items);
  }

  lemma StarsOne(l: string)
    ensures StarsAll([l]) == Stars(l)
  {
    assert [l][1..] == [];
  }

  lemma {:induction false} StarsOfValues(vs: seq<Value>)
    ensures StarsAll(LinesAll(vs)) == StarCountAll(vs)
    decreases vs
  {
    if vs != [] {
      StarsOfValue(vs[0]);
      StarsOfValues(vs[1..]);
      StarsAllAppend(Lines(vs[0]), LinesAll(vs[1..]));
    }
  }

  // ---------------------------------------------------------------- cutting at the places

  lemma {:induction false} FramesSkip(s: string, i: nat, j: nat, pre: nat, first: bool)
    requires pre <= i <= j <= |s|
    requires forall k | i <= k < j :: !StarDigit(s, k)
    ensures Frames(s, i, pre, first) == Frames(s, j, pre, first)
    decreases j - i
  {
    if i < j {
      FramesSkip(s, i + 1, j, pre, first);
    }
  }

  /** Cutting loses nothing and changes no order. */
  lemma {:induction false} FramesJoin(s: string, i: nat, pre: nat, first: bool)
    requires pre <= i <= |s|
    ensures Concat(Frames(s, i, pre, first)) == s[pre..]
    decreases |s| - i
  {
    if i == |s| {
      assert Concat([s[pre..]]) == s[pre..] + Concat([s[pre..]][1..]) == s[pre..];
    } else if !StarDigit(s, i) {
      FramesJoin(s, i + 1, pre, first);
    } else if first {
      FramesJoin(s, i + 1, pre, false);
    } else {
      var more := Frames(s, i + 1, i, false);
      FramesJoin(s, i + 1, i, false);
      assert ([s[pre..i]] + more)[1..] == more;
      assert s[pre..i] + s[i..] == s[pre..];
    }
  }

  /** A stream that is read is its frames in order, one for each place, each read by itself. */
  lemma StreamRead(s: string, vs: seq<Value>)
    requires s != "" && ParseMulti(s) == Ok(vs)
    ensures s[|s| - 1] != '*'
    ensures var fs := Frames(s, 0, 0, true);
            && Concat(fs) == s && |fs| == |vs| == (if Stars(s) == 0 then 1 else Stars(s))
            && forall i | 0 <= i < |vs| :: Parse(fs[i]) == Ok(vs[i])
  {
    hide RespSpec.Parse;
    FramesJoin(s, 0, 0, true);
    FramesCount(s, 0, 0, true);
    assert s[0..] == s;
    var fs := Frames(s, 0, 0, true);
    ParsedCount(fs, vs);
    forall i | 0 <= i < |vs|
      ensures Parse(fs[i]) == Ok(vs[i])
    {
      ParseAllAt(fs, vs, i);
    }
  }

  /** The outcome of a whole stream: its frames are parsed in order, but a stream that ends in `*` panics
      even if all of them parse. */
  lemma StreamOutcome(s: string)
    requires s != ""
    ensures s[|s| - 1] != '*' ==> ParseMulti(s) == ParseAll(Frames(s, 0, 0, true))
    ensures s[|s| - 1] == '*' ==>
              ParseMulti(s) == if ParseAll(Frames(s, 0, 0, true)).Ok? then Panic else ParseAll(Frames(s, 0, 0, true))
  {
  }

  /** As many frames as places, and one frame when there is no place. */
  lemma {:induction false} FramesCount(s: string, i: nat, pre: nat, first: bool)
    requires pre <= i <= |s|
    ensures |Frames(s, i, pre, first)|
         == 1 + Stars(s[i..]) - if first && Stars(s[i..]) > 0 then 1 else 0
    decreases |s| - i
  {
    if i < |s| {
      assert s[i..][1..] == s[i + 1..];
      assert StarDigit(s, i) == StarDigit(s[i..], 0);
      FramesCount(s, i + 1, if StarDigit(s, i) && !first then i else pre, first && !StarDigit(s, i));
    }
  }

  /** A frame begins at a place and offers no other. */
  predicate Frame(f: string) {
    StarDigit(f, 0) && Stars(f) == 1
  }

  lemma FrameInside(f: string)
    requires Frame(f)
    ensures forall i | 0 < i < |f| :: !StarDigit(f, i)
  {
    StarsNone(f[1..]);
    forall i | 0 < i < |f|
      ensures !StarDigit(f, i)
    {
      assert StarDigit(f, i) == StarDigit(f[1..], i - 1);
    }
  }

  /** From the start of one frame on, cutting gives that frame and all that follow. */
  lemma {:induction false} FramesFrom(s: string, pre: nat, f: string, fs: seq<string>)
    requires pre <= |s| && s[pre..] == f + Concat(fs)
    requires Frame(f) && forall g | g in fs :: Frame(g)
    ensures pre + 1 <= |s| && Frames(s, pre + 1, pre, false) == [f] + fs
    decreases |fs|
  {
    FrameInside(f);
    var end := pre + |f|;
    assert end <= |s| && s[pre..end] == f;
    forall k | pre + 1 <= k < end
      ensures !StarDigit(s, k)
    {
      assert !StarDigit(f, k - pre);
      assert k < end - 1 ==> s[k] == f[k - pre] && s[k + 1] == f[k - pre + 1];
      if k == end - 1 && k + 1 < |s| {
        assert s[k + 1] == s[pre..][k + 1 - pre] == Concat(fs)[0];
        assert fs[0] in fs && Concat(fs)[0] == fs[0][0] == '*';
      }
    }
    FramesSkip(s, pre + 1, end, pre, false);
    if fs == [] {
      assert s[pre..] == f;
    } else {
      assert fs[0] in fs;
      assert s[end..] == fs[0] + Concat(fs[1..]);
      assert s[end] == fs[0][0] && s[end + 1] == fs[0][1];
      FramesFrom(s, end, fs[0], fs[1..]);
      assert [fs[0]] + fs[1..] == fs;
    }
  }

  /** Cutting undoes concatenation of frames. */
  lemma FramesOfConcat(fs: seq<string>)
    requires fs != [] && forall f | f in fs :: Frame(f)
    ensures Concat(fs) != "" && Frames(Concat(fs), 0, 0, true) == fs
  {
    var s := Concat(fs);
    assert fs[0] in fs;
    assert s == fs[0] + Concat(fs[1..]) && s[0] == fs[0][0] && s[1] == fs[0][1];
    assert s[0..] == s;
    FramesFrom(s, 0, fs[0], fs[1..]);
    assert [fs[0]] + fs[1..] == fs;
  }

  // ---------------------------------------------------------------- pipelined values

  predicate AllShort(vs: seq<Value>) {
    forall v | v in vs :: v.Array? && Short(v)
  }

  /** The values that survive pipelining: they survive alone, and nothing inside offers a cut. */
  predicate Pipelinable(v: Value) {
    SurvivesAlone(v) && StarCount(v) == 1
  }

  lemma EncodedStars(v: Value)
    ensures Stars(Encode(v)) == StarCount(v)
    ensures v.Array? ==> StarDigit(Encode(v), 0)
    ensures Encode(v) != "" && Encode(v)[|Encode(v)| - 1] == '\n'
  {
    StarsLines(Lines(v));
    StarsOfValue(v);
    UnlinesEnd(Lines(v));
    if v.Array? {
      UnlinesCons("*" + Show(|v.items|), LinesAll(v.items));
    }
  }

  lemma {:induction false} UnlinesEnd(ls: seq<string>)
    requires ls != []
    ensures Unlines(ls) != "" && Unlines(ls)[|Unlines(ls)| - 1] == '\n'
  {
    if |ls| > 1 {
      UnlinesEnd(ls[1..]);
    } else {
      assert ls[1..] == [];
    }
  }

  lemma {:induction false} ConcatEncoded(vs: seq<Value>)
    requires vs != [] && forall v | v in vs :: v.Array?
    ensures var s := Concat(EncodeAll(vs)); s != "" && s[0] == '*' && s[|s| - 1] == '\n'
    ensures Stars(Concat(EncodeAll(vs))) == StarCountAll(vs) >= |vs|
    ensures StarCountAll(vs) == |vs| ==> forall v | v in vs :: StarCount(v) == 1
  {
    EncodedStars(vs[0]);
    assert vs[0] in vs;
    if |vs| > 1 {
      ConcatEncoded(vs[1..]);
    } else {
      assert EncodeAll(vs[1..]) == [] && Concat([]) == "";
    }
    assert EncodeAll(vs)[1..] == EncodeAll(vs[1..]);
    StarsAppend(Encode(vs[0]), Concat(EncodeAll(vs[1..])));
  }

  lemma {:induction false} EncodedFrames(vs: seq<Value>)
    requires forall v | v in vs :: v.Array? && StarCount(v) == 1
    ensures forall f | f in EncodeAll(vs) :: Frame(f)
  {
    if vs != [] {
      assert vs[0] in vs;
      EncodedStars(vs[0]);
      EncodedFrames(vs[1..]);
    }
  }

  lemma {:induction false} ParseAllEncoded(vs: seq<Value>)
    requires AllShort(vs)
    ensures ParseAll(EncodeAll(vs)) == Ok(vs) <==> forall v | v in vs :: SurvivesAlone(v)
  {
    if vs != [] {
      assert vs[0] in vs && vs == [vs[0]] + vs[1..];
      ParseAllEncoded(vs[1..]);
      RoundTripAlone(vs[0]);
      ParseAllCons(Encode(vs[0]), EncodeAll(vs[1..]));
      assert EncodeAll(vs) == [Encode(vs[0])] + EncodeAll(vs[1..]);
    }
  }

  /** Pipelined arrays come back as they were, in order, if and only if each survives alone and none
      has a `*` followed by a digit inside. */
  lemma PipelineExact(vs: seq<Value>)
    requires AllShort(vs)
    ensures ParseMulti(Concat(EncodeAll(vs))) == Ok(vs) <==> forall v | v in vs :: Pipelinable(v)
  {
    if vs != [] {
      var s := Concat(EncodeAll(vs));
      ConcatEncoded(vs);
      ParseAllEncoded(vs);
      FramesCount(s, 0, 0, true);
      assert s[0..] == s;
      assert StarCountAll(vs) != |vs| ==> |Frames(s, 0, 0, true)| != |vs|;
      if StarCountAll(vs) == |vs| {
        EncodedFrames(vs);
        FramesOfConcat(EncodeAll(vs));
      } else {
        StarCountsAreOne(vs);
      }
    }
  }

  lemma {:induction false} StarCountsAreOne(vs: seq<Value>)
    requires StarCountAll(vs) != |vs|
    ensures exists v :: v in vs && StarCount(v) != 1
  {
    if StarCount(vs[0]) == 1 {
      StarCountsAreOne(vs[1..]);
    } else {
      assert vs[0] in vs;
    }
  }

  lemma {:induction false} ParseAllAppend(ts: seq<string>, t: string)
    ensures var a, p := ParseAll(ts), Parse(t);
            ParseAll(ts + [t]) ==
              if !a.Ok? then a.PropagateFailure()
              else if !p.Ok? then p.PropagateFailure()
              else Ok(a.value + [p.value])
  {
    if ts == [] {
      assert ts + [t] == [t] + [] == [t];
      ParseAllCons(t, []);
      ParseAllNone();
      var w := Parse(t);
      assert w.Ok? ==> [w.value] + [] == [] + [w.value];
    } else {
      assert ts + [t] == [ts[0]] + (ts[1..] + [t]) && ts == [ts[0]] + ts[1..];
      ParseAllAppend(ts[1..], t);
      ParseAllCons(ts[0], ts[1..] + [t]);
      ParseAllCons(ts[0], ts[1..]);
      var v, vs, w := Parse(ts[0]), ParseAll(ts[1..]), Parse(t);
      assert v.Ok? && vs.Ok? && w.Ok? ==> [v.value] + (vs.value + [w.value]) == ([v.value] + vs.value) + [w.value];
    }
  }

  /** The first text that does not parse decides the outcome, whatever follows. */
  lemma {:induction false} ParseAllStuck(ts: seq<string>, more: seq<string>)
    requires !ParseAll(ts).Ok?
    ensures ParseAll(ts + more) == ParseAll(ts)
  {
    assert (ts + more)[1..] == ts[1..] + more;
    if Parse(ts[0]).Ok? {
      ParseAllStuck(ts[1..], more);
    }
  }
}
