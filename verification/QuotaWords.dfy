/** The quota counter over lists of lines: which lists close a frame, and what the loop then does. */
module QuotaWords {
  import opened Basics
  import opened Text
  import opened Decimal
  import opened RespSpec

  function Load(ls: seq<string>): nat {
    if ls == [] then 0 else Quota(ls[0]) + Load(ls[1..])
  }

  /** What a list of lines does to the counter, over unbounded integers. */
  function Balance(ls: seq<string>): int {
    Load(ls) - |ls|
  }

  /** Starting from `q`, the counter is positive before every line. */
  predicate Above(ls: seq<string>, q: int) {
    ls == [] || (q > 0 && Above(ls[1..], q + Quota(ls[0]) - 1))
  }

  /** The counter as the loop keeps it, in i32. */
  function Run(ls: seq<string>, q: i32): i32 {
    if ls == [] then q else Run(ls[1..], Step(q, ls[0]))
  }

  /** The i32 counter first reaches 0 at the end of the list: the lines are exactly one frame. */
  predicate Closes(ls: seq<string>, q: i32) {
    ls != [] &&
    (if |ls| == 1 then Step(q, ls[0]) == 0
     else Step(q, ls[0]) != 0 && Closes(ls[1..], Step(q, ls[0])))
  }

  lemma LoadTwo(l: string, m: string)
    ensures Load([l]) == Quota(l) && Load([l, m]) == Quota(l) + Quota(m)
  {
    assert [l][1..] == [] && [l, m][1..] == [m] && [m][1..] == [];
  }

  lemma {:induction false} LoadAppend(a: seq<string>, b: seq<string>)
    ensures Load(a + b) == Load(a) + Load(b)
  {
    if a == [] {
      assert a + b == b;
    } else {
      assert (a + b)[1..] == a[1..] + b;
      LoadAppend(a[1..], b);
    }
  }

  lemma {:induction false} AboveAppend(a: seq<string>, b: seq<string>, q: int)
    requires Above(a, q) && Above(b, q + Balance(a))
    ensures Above(a + b, q)
  {
    if a == [] {
      assert a + b == b;
    } else {
      assert (a + b)[1..] == a[1..] + b;
      AboveAppend(a[1..], b, q + Quota(a[0]) - 1);
    }
  }

  lemma {:induction false} AboveMore(ls: seq<string>, q: int, p: int)
    requires Above(ls, q) && q <= p
    ensures Above(ls, p)
  {
    if ls != [] {
      AboveMore(ls[1..], q + Quota(ls[0]) - 1, p + Quota(ls[0]) - 1);
    }
  }

  /** Where the result is inside i32 a turn of the loop is plain arithmetic. */
  lemma StepExact(q: i32, line: string)
    requires I32_MIN <= q + Quota(line) - 1 <= I32_MAX
    ensures Step(q, line) == q + Quota(line) - 1
  {
  }

  lemma UnlinesTmp(tmp: string, ls: seq<string>)
    requires ls != []
    ensures (tmp + ls[0] + CRLF) + Unlines(ls[1..]) == tmp + Unlines(ls)
  {
  }

  /** Lines that keep the counter positive only extend the child being collected. */
  lemma {:induction false} RegroupThrough(ls: seq<string>, more: seq<string>, left: nat, q: i32, tmp: string)
    requires left >= 1 && q > 0 && Above(ls, q) && q + Balance(ls) > 0
    requires q + Load(ls) <= I32_MAX
    ensures Regroup(ls + more, left, q, tmp) == Regroup(more, left, q + Balance(ls), tmp + Unlines(ls))
  {
    hide Quota, Step;
    if ls == [] {
      assert ls + more == more;
      assert tmp + Unlines(ls) == tmp;
    } else {
      assert (ls + more)[1..] == ls[1..] + more;
      StepExact(q, ls[0]);
      var q' := q + Quota(ls[0]) - 1;
      var tmp' := tmp + ls[0] + CRLF;
      RegroupThrough(ls[1..], more, left, q', tmp');
      UnlinesTmp(tmp, ls);
    }
  }

  /** Lines that form one frame become one child. */
  lemma {:induction false} RegroupFrame(ls: seq<string>, more: seq<string>, left: nat, q: i32, tmp: string)
    requires left >= 1 && Closes(ls, q)
    ensures Regroup(ls + more, left, q, tmp) == [tmp + Unlines(ls)] + Regroup(more, left - 1, 1, "")
  {
    var ext := ls + more;
    assert ext[0] == ls[0] && ext[1..] == ls[1..] + more;
    var tmp' := tmp + ls[0] + CRLF;
    UnlinesTmp(tmp, ls);
    if |ls| == 1 {
      assert ls[1..] == [] && ext[1..] == more;
      assert tmp' + Unlines(ls[1..]) == tmp';
    } else {
      RegroupFrame(ls[1..], more, left, Step(q, ls[0]), tmp');
    }
  }

  /** The counter cannot overflow on lines that close over the integers, because it never exceeds
      the number of lines still to come. */
  lemma {:induction false} AboveCloses(ls: seq<string>, q: i32)
    requires ls != [] && Above(ls, q) && q + Balance(ls) == 0 && |ls| <= I32_MAX
    ensures Closes(ls, q)
  {
    hide Quota, Step;
    StepExact(q, ls[0]);
    if |ls| == 1 {
      assert Load(ls[1..]) == 0;
    } else {
      AboveCloses(ls[1..], q + Quota(ls[0]) - 1);
    }
  }

  /** Too much demand: the loop runs out of lines before it has `left` children. */
  lemma {:induction false} RegroupShort(ls: seq<string>, left: nat, q: i32, tmp: string)
    requires left >= 1 && q >= 1 && q + Load(ls) <= I32_MAX
    requires Above(ls, left - 1 + q) && left - 1 + q + Balance(ls) > 0
    ensures |Regroup(ls, left, q, tmp)| < left
  {
    hide Quota, Step;
    if ls != [] {
      StepExact(q, ls[0]);
      var q' := q + Quota(ls[0]) - 1;
      if q' == 0 {
        RegroupShort(ls[1..], left - 1, 1, "");
      } else {
        RegroupShort(ls[1..], left, q', tmp + ls[0] + CRLF);
      }
    }
  }

  // ---------------------------------------------------------------- lines of a value

  lemma HeaderQuota(n: nat)
    requires n <= I32_MAX
    ensures Quota("$" + Show(n)) == 1 && Quota("*" + Show(n)) == n
  {
    ParseShowInt(n, I32_MIN, I32_MAX);
    assert ("$" + Show(n))[1..] == ShowInt(n) && ("*" + Show(n))[1..] == ShowInt(n);
  }

  lemma NullQuota()
    ensures Quota("$-1") == 0
  {
    ParseShowInt(-1, I32_MIN, I32_MAX);
    assert "$-1"[1..] == ShowInt(-1);
  }

  lemma {:induction false} LinesBalance(v: Value)
    requires Widths(v)
    ensures Balance(Lines(v)) == Surplus(v) - 1
    ensures Above(Lines(v), 1)
    decreases v
  {
    match v
    case BulkString(s) =>
      HeaderQuota(|s|);
      LoadTwo("$" + Show(|s|), s);
      assert ["$" + Show(|s|), s][1..] == [s] && [s][1..] == [];
      assert Above([s], 1);
    case Array(items) =>
      HeaderQuota(|items|);
      LinesAllBalance(items);
      assert Lines(v)[1..] == LinesAll(items);
    case Null =>
      NullQuota();
      LoadTwo("$-1", "$-1");
    case _ =>
      var l := Lines(v)[0];
      assert Lines(v) == [l] && Quota(l) == 0;
      LoadTwo(l, l);
      assert Above([l], 1);
  }

  lemma {:induction false} LinesAllBalance(vs: seq<Value>)
    requires WidthsAll(vs)
    ensures Balance(LinesAll(vs)) == SurplusAll(vs) - |vs|
    ensures Above(LinesAll(vs), |vs|)
    decreases vs
  {
    if vs != [] {
      LinesBalance(vs[0]);
      LinesAllBalance(vs[1..]);
      LoadAppend(Lines(vs[0]), LinesAll(vs[1..]));
      AboveMore(Lines(vs[0]), 1, |vs|);
      AboveMore(LinesAll(vs[1..]), |vs| - 1, |vs| + Balance(Lines(vs[0])));
      AboveAppend(Lines(vs[0]), LinesAll(vs[1..]), |vs|);
    }
  }

  lemma {:induction false} LinesClean(v: Value)
    requires CleanValue(v)
    ensures AllClean(Lines(v))
    decreases v
  {
    match v
    case Array(items) =>
      LinesAllClean(items);
      ShowIntClean(|items|);
      HeaderClean('*', Show(|items|));
    case BulkString(s) =>
      ShowIntClean(|s|);
      HeaderClean('$', Show(|s|));
    case SimpleString(s) => HeaderClean('+', s);
    case Integer(n) =>
      ShowIntClean(n);
      HeaderClean(':', ShowInt(n));
    case Null => assert !CrlfAt("$-1", 0) && !CrlfAt("$-1", 1);
  }

  lemma {:induction false} LinesAllClean(vs: seq<Value>)
    requires CleanAll(vs)
    ensures AllClean(LinesAll(vs))
    decreases vs
  {
    if vs != [] {
      LinesClean(vs[0]);
      LinesAllClean(vs[1..]);
    }
  }

  lemma HeaderClean(c: char, s: string)
    requires c != '\r' && Clean(s)
    ensures Clean([c] + s)
  {
    forall i | 0 <= i < |[c] + s|
      ensures !CrlfAt([c] + s, i)
    {
      assert i > 0 ==> CrlfAt([c] + s, i) ==> CrlfAt(s, i - 1);
    }
  }

  /** The word property behind the flat counter: over the lines of a value without surplus the i32
      counter starts at 1, stays positive and at most the number of lines still to come, and reaches
      0 exactly on the last line. */
  lemma {:induction false} QuotaWord(v: Value, i: nat)
    requires Fits(v) && Surplus(v) == 0 && i <= |Lines(v)|
    ensures 0 <= Run(Lines(v)[..i], 1) <= |Lines(v)| - i
    ensures Run(Lines(v)[..i], 1) == 0 <==> i == |Lines(v)|
    ensures Closes(Lines(v), 1)
  {
    LinesBalance(v);
    AboveCloses(Lines(v), 1);
    RunPrefix(Lines(v), 1, i);
  }

  lemma {:induction false} RunPrefix(ls: seq<string>, q: i32, i: nat)
    requires i <= |ls| <= I32_MAX && Above(ls, q) && q + Balance(ls) == 0
    ensures 0 <= Run(ls[..i], q) <= |ls| - i
    ensures Run(ls[..i], q) == 0 <==> i == |ls|
  {
    hide Quota, Step;
    if i > 0 {
      StepExact(q, ls[0]);
      assert ls[..i][1..] == ls[1..][..i - 1];
      RunPrefix(ls[1..], q + Quota(ls[0]) - 1, i - 1);
    } else if ls != [] {
      AboveCloses(ls, q);
    }
  }
}
