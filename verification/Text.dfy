/** ASCII text as the source handles it: searching for CRLF and splitting on it. */
module Text {
  import opened Basics

  const CRLF: string := "\r\n"

  predicate CrlfAt(s: string, i: int) {
    0 <= i && i + 1 < |s| && s[i] == '\r' && s[i + 1] == '\n'
  }

  /** No CRLF anywhere: the text is one protocol line. */
  predicate Clean(s: string) {
    forall i | 0 <= i < |s| :: !CrlfAt(s, i)
  }

  /** `s.find("\r\n")`, searching from `from`. */
  function FindCrlf(s: string, from: nat := 0): (r: Option<nat>)
    requires from <= |s|
    ensures r.None? ==> forall i | from <= i < |s| :: !CrlfAt(s, i)
    ensures r.Some? ==> from <= r.value < |s| && CrlfAt(s, r.value)
    ensures r.Some? ==> forall i | from <= i < r.value :: !CrlfAt(s, i)
    decreases |s| - from
  {
    if from == |s| then None
    else if CrlfAt(s, from) then Some(from)
    else FindCrlf(s, from + 1)
  }

  /** Every line followed by CRLF. */
  function Unlines(ls: seq<string>): string {
    if ls == [] then "" else ls[0] + CRLF + Unlines(ls[1..])
  }

  function Concat(ts: seq<string>): string {
    if ts == [] then "" else ts[0] + Concat(ts[1..])
  }

  function TotalLength(ts: seq<string>): nat {
    if ts == [] then 0 else |ts[0]| + TotalLength(ts[1..])
  }

  /** `s.split("\r\n")`: the pieces between consecutive CRLFs, in order. */
  function Split(s: string): (ps: seq<string>)
    ensures ps != []
    decreases |s|
  {
    var at := FindCrlf(s);
    if at.None? then [s] else [s[..at.value]] + Split(s[at.value + 2..])
  }

  /** Every piece is one line. */
  lemma {:induction false} SplitClean(s: string)
    ensures AllClean(Split(s))
    decreases |s|
  {
    var at := FindCrlf(s);
    if at.Some? {
      var head := s[..at.value];
      forall i | 0 <= i < |head|
        ensures !CrlfAt(head, i)
      {
        assert !CrlfAt(s, i);
      }
      SplitClean(s[at.value + 2..]);
    }
  }

  /** Joining the pieces again gives the text, with one more CRLF. */
  lemma {:induction false} SplitJoin(s: string)
    ensures Unlines(Split(s)) == s + CRLF
    decreases |s|
  {
    var at := FindCrlf(s);
    if at.None? {
      assert Unlines([s]) == s + CRLF + Unlines([]);
    } else {
      var head, tail := s[..at.value], s[at.value + 2..];
      SplitJoin(tail);
      UnlinesCons(head, Split(tail));
      assert s == head + CRLF + tail;
    }
  }

  lemma UnlinesCons(l: string, ls: seq<string>)
    ensures Unlines([l] + ls) == l + CRLF + Unlines(ls)
  {
    assert ([l] + ls)[0] == l && ([l] + ls)[1..] == ls;
  }

  lemma FindFirst(s: string, from: nat, at: nat)
    requires from <= at && CrlfAt(s, at)
    requires forall i | from <= i < at :: !CrlfAt(s, i)
    ensures FindCrlf(s, from) == Some(at)
  {
    var r := FindCrlf(s, from);
    assert r.Some? && r.value <= at;
  }

  /** The first CRLF of a clean line followed by CRLF is that one. */
  lemma FindAfterLine(line: string, rest: string)
    requires Clean(line)
    ensures FindCrlf(line + CRLF + rest) == Some(|line|)
  {
    var s := line + CRLF + rest;
    assert s[|line|] == '\r' && s[|line| + 1] == '\n';
    forall i | 0 <= i < |line|
      ensures !CrlfAt(s, i)
    {
      assert !CrlfAt(line, i);
    }
    FindFirst(s, 0, |line|);
  }

  lemma SplitLine(line: string, rest: string)
    requires Clean(line)
    ensures Split(line + CRLF + rest) == [line] + Split(rest)
  {
    FindAfterLine(line, rest);
    var s := line + CRLF + rest;
    assert s[..|line|] == line;
    assert s[|line| + 2..] == rest;
  }

  predicate AllClean(ls: seq<string>) {
    forall l | l in ls :: Clean(l)
  }

  /** Splitting undoes joining, whatever text follows. */
  lemma {:induction false} SplitUnlines(ls: seq<string>, rest: string)
    requires AllClean(ls)
    ensures Split(Unlines(ls) + rest) == ls + Split(rest)
  {
    hide Split;
    if ls == [] {
      assert Unlines(ls) + rest == rest;
      assert ls + Split(rest) == Split(rest);
    } else {
      var l, more := ls[0], Unlines(ls[1..]) + rest;
      assert l in ls;
      SplitLine(l, more);
      SplitUnlines(ls[1..], rest);
      assert Unlines(ls) + rest == l + CRLF + more;
      assert [l] + (ls[1..] + Split(rest)) == ls + Split(rest);
    }
  }

  lemma {:induction false} UnlinesAppend(a: seq<string>, b: seq<string>)
    ensures Unlines(a + b) == Unlines(a) + Unlines(b)
  {
    if a == [] {
      assert a + b == b;
    } else {
      assert (a + b)[1..] == a[1..] + b;
      UnlinesAppend(a[1..], b);
    }
  }

  lemma {:induction false} ConcatAppend(a: seq<string>, b: seq<string>)
    ensures Concat(a + b) == Concat(a) + Concat(b)
  {
    if a == [] {
      assert a + b == b;
    } else {
      assert (a + b)[1..] == a[1..] + b;
      ConcatAppend(a[1..], b);
    }
  }
}
