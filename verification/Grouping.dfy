/** The groups of lines that the quota loop makes, and what its wrapping counter says about them: no
    bound on what payloads announce is needed here. */
module Grouping {
  import opened Basics
  import opened Text
  import opened RespSpec
  import opened QuotaWords

  /** The lines of each child that the loop collects; `acc` are those of the child it is at. */
  function Groups(lines: seq<string>, left: nat, q: i32, acc: seq<string>): (gs: seq<seq<string>>)
    ensures |gs| <= left
    decreases |lines|
  {
    if lines == [] || left == 0 then []
    else
      var q' := Step(q, lines[0]);
      var acc' := acc + [lines[0]];
      if q' == 0 then [acc'] + Groups(lines[1..], left - 1, 1, [])
      else Groups(lines[1..], left, q', acc')
  }

  function Texts(gs: seq<seq<string>>): (ts: seq<string>)
    ensures |ts| == |gs|
  {
    if gs == [] then [] else [Unlines(gs[0])] + Texts(gs[1..])
  }

  function Flat(gs: seq<seq<string>>): seq<string> {
    if gs == [] then [] else gs[0] + Flat(gs[1..])
  }

  predicate Group(g: seq<string>) {
    AllClean(g) && Closes(g, 1)
  }

  predicate AllGroups(gs: seq<seq<string>>) {
    forall g | g in gs :: Group(g)
  }

  lemma UnlinesSnoc(acc: seq<string>, l: string)
    ensures Unlines(acc + [l]) == Unlines(acc) + l + CRLF
  {
    UnlinesAppend(acc, [l]);
    UnlinesCons(l, []);
    assert [l] == [l] + [] && l + CRLF + "" == l + CRLF;
    assert Unlines(acc) + (l + CRLF) == Unlines(acc) + l + CRLF;
  }

  /** The children's texts are their groups, joined. */
  lemma {:induction false} GroupsTexts(lines: seq<string>, left: nat, q: i32, acc: seq<string>)
    ensures Regroup(lines, left, q, Unlines(acc)) == Texts(Groups(lines, left, q, acc))
    decreases |lines|
  {
    hide Step, Unlines;
    if lines != [] && left != 0 {
      var q', acc' := Step(q, lines[0]), acc + [lines[0]];
      UnlinesSnoc(acc, lines[0]);
      if q' == 0 {
        assert Unlines([]) == "" by { NoLines(); }
        GroupsTexts(lines[1..], left - 1, 1, []);
        assert ([acc'] + Groups(lines[1..], left - 1, 1, []))[1..] == Groups(lines[1..], left - 1, 1, []);
      } else {
        GroupsTexts(lines[1..], left, q', acc');
      }
    }
  }

  lemma NoLines()
    ensures Unlines([]) == ""
  {
  }

  /** The groups take the lines in order, leaving out only some at the end. */
  lemma {:induction false} GroupsFlat(lines: seq<string>, left: nat, q: i32, acc: seq<string>)
    ensures Flat(Groups(lines, left, q, acc)) <= acc + lines
    decreases |lines|
  {
    hide Step;
    if lines != [] && left != 0 {
      var q', acc' := Step(q, lines[0]), acc + [lines[0]];
      assert acc' + lines[1..] == acc + lines;
      if q' == 0 {
        GroupsFlat(lines[1..], left - 1, 1, []);
        assert [] + lines[1..] == lines[1..];
        assert ([acc'] + Groups(lines[1..], left - 1, 1, []))[1..] == Groups(lines[1..], left - 1, 1, []);
      } else {
        GroupsFlat(lines[1..], left, q', acc');
      }
    }
  }

  // ---------------------------------------------------------------- every group closes

  /** Lines that have started a child: the counter went from `p` to `q` without reaching 0. */
  predicate Pending(acc: seq<string>, p: i32, q: i32) {
    if acc == [] then p == q else Step(p, acc[0]) != 0 && Pending(acc[1..], Step(p, acc[0]), q)
  }

  lemma {:induction false} PendingNext(acc: seq<string>, p: i32, q: i32, l: string)
    requires Pending(acc, p, q)
    ensures Step(q, l) == 0 ==> Closes(acc + [l], p)
    ensures Step(q, l) != 0 ==> Pending(acc + [l], p, Step(q, l))
  {
    hide Step;
    if acc == [] {
      assert acc + [l] == [l] && [l][1..] == [];
    } else {
      assert (acc + [l])[1..] == acc[1..] + [l];
      PendingNext(acc[1..], Step(p, acc[0]), q, l);
    }
  }

  /** Whatever the lines, every group closes the counter at its end and not before. */
  lemma {:induction false} GroupsClose(lines: seq<string>, left: nat, q: i32, acc: seq<string>)
    requires AllClean(lines) && AllClean(acc) && Pending(acc, 1, q)
    ensures AllGroups(Groups(lines, left, q, acc))
    decreases |lines|
  {
    hide Step, Pending, Closes, Clean;
    if lines != [] && left != 0 {
      var l := lines[0];
      PendingNext(acc, 1, q, l);
      assert AllClean(acc + [l]);
      if Step(q, l) == 0 {
        assert Pending([], 1, 1) by { PendingStart(); }
        GroupsClose(lines[1..], left - 1, 1, []);
        assert Group(acc + [l]);
      } else {
        GroupsClose(lines[1..], left, Step(q, l), acc + [l]);
      }
    }
  }

  lemma PendingStart()
    ensures Pending([], 1, 1)
  {
  }

  // ---------------------------------------------------------------- the counter modulo its width

  predicate Congruent(a: int, b: int) {
    (a - b) % WIDTH_32 == 0
  }

  lemma StepCongruent(q: i32, line: string)
    ensures Congruent(Step(q, line), q + Quota(line) - 1)
  {
  }

  /** Wrapping loses multiples of the width and nothing else. */
  lemma {:induction false} RunBalance(ls: seq<string>, q: i32)
    ensures Congruent(Run(ls, q), q + Balance(ls))
  {
    hide Step, Quota;
    if ls != [] {
      StepCongruent(q, ls[0]);
      RunBalance(ls[1..], Step(q, ls[0]));
    }
  }

  lemma {:induction false} ClosesRun(ls: seq<string>, q: i32)
    requires Closes(ls, q)
    ensures Run(ls, q) == 0
  {
    if |ls| > 1 {
      ClosesRun(ls[1..], Step(q, ls[0]));
    } else {
      assert ls[1..] == [];
    }
  }

  lemma ClosesBalance(ls: seq<string>, q: i32)
    requires Closes(ls, q)
    ensures Congruent(q + Balance(ls), 0)
  {
    hide Closes, Balance, Run, Congruent;
    ClosesRun(ls, q);
    RunBalance(ls, q);
    CongruentTurn(0, q + Balance(ls));
  }

  lemma CongruentTurn(a: int, b: int)
    requires Congruent(a, b)
    ensures Congruent(b, a)
  {
  }

  /** No proper prefix brings the counter to a multiple of the width. */
  predicate OpenInside(ls: seq<string>, q: int) {
    forall i | 0 < i < |ls| :: !Congruent(q + Balance(ls[..i]), 0)
  }

  /** A list closes exactly if its balance vanishes modulo the width at its end and nowhere before. */
  lemma {:induction false} ClosesExact(ls: seq<string>, q: i32)
    ensures Closes(ls, q) <==> ls != [] && Congruent(q + Balance(ls), 0) && OpenInside(ls, q)
  {
    hide Step, Quota, Congruent, OpenInside;
    if ls != [] {
      var q' := Step(q, ls[0]);
      StepCongruent(q, ls[0]);
      ZeroCongruent(q');
      CongruentShift(q', q + Quota(ls[0]) - 1, Balance(ls[1..]));
      if |ls| == 1 {
        assert Balance(ls[1..]) == 0;
        OpenOne(ls, q);
      } else {
        ClosesExact(ls[1..], q');
        OpenCons(ls, q, q');
      }
    }
  }

  lemma OpenOne(ls: seq<string>, q: int)
    requires |ls| == 1
    ensures OpenInside(ls, q)
  {
  }

  lemma OpenCons(ls: seq<string>, q: int, q': int)
    requires |ls| >= 2 && Congruent(q', q + Quota(ls[0]) - 1)
    ensures OpenInside(ls, q) <==> !Congruent(q', 0) && OpenInside(ls[1..], q')
  {
    hide Quota, Congruent;
    var rest := ls[1..];
    forall i | 0 < i < |ls|
      ensures Congruent(q + Balance(ls[..i]), 0) <==> Congruent(q' + Balance(rest[..i - 1]), 0)
    {
      assert ls[..i][1..] == rest[..i - 1];
      CongruentShift(q', q + Quota(ls[0]) - 1, Balance(rest[..i - 1]));
    }
    assert Balance(rest[..0]) == 0;
    if OpenInside(ls, q) {
      assert !Congruent(q + Balance(ls[..1]), 0);
      forall j | 0 < j < |rest|
        ensures !Congruent(q' + Balance(rest[..j]), 0)
      {
        assert !Congruent(q + Balance(ls[..j + 1]), 0);
      }
    }
  }

  lemma ZeroCongruent(q: i32)
    ensures Congruent(q, 0) <==> q == 0
  {
  }

  lemma CongruentShift(a: int, b: int, c: int)
    requires Congruent(a, b)
    ensures Congruent(a + c, 0) <==> Congruent(b + c, 0)
  {
  }

  lemma {:induction false} GroupsBalance(gs: seq<seq<string>>)
    requires AllGroups(gs)
    ensures Congruent(|gs| + Balance(Flat(gs)), 0)
  {
    hide Closes, Clean, Quota, Congruent;
    if gs == [] {
      ZeroCongruent(0);
    } else {
      assert Group(gs[0]);
      ClosesBalance(gs[0], 1);
      GroupsBalance(gs[1..]);
      LoadAppend(gs[0], Flat(gs[1..]));
      CongruentSum(1 + Balance(gs[0]), |gs[1..]| + Balance(Flat(gs[1..])));
    }
  }

  lemma CongruentSum(a: int, b: int)
    requires Congruent(a, 0) && Congruent(b, 0)
    ensures Congruent(a + b, 0)
  {
  }
}
