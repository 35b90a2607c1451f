/** What `parse` makes of every text, well formed or not. */
module ParseOutcomes {
  import opened Basics
  import opened Text
  import opened Decimal
  import opened RespSpec
  import opened QuotaWords
  import opened Grouping

  /** A number that the parser's i32 holds. */
  ghost predicate Number(t: string, n: int) {
    -2147483648 <= n <= 2147483647 && Spells(t, n)
  }

  ghost predicate NoNumber(t: string) {
    forall n: int :: !Number(t, n)
  }

  lemma ReadNumber(t: string)
    ensures forall n: int :: ParseI32(t) == Ok(n) <==> Number(t, n)
    ensures NoNumber(t) ==> ParseI32(t) == Err(BadInteger)
  {
    hide ParseSigned, Spells;
    forall n: int
      ensures ParseI32(t) == Ok(n) <==> Number(t, n)
    {
      ParseSignedExact(t, n, I32_MIN, I32_MAX);
    }
    if ParseI32(t).Ok? {
      assert Number(t, ParseI32(t).value);
    }
  }

  /** A line announces something only as a header: one line for a bulk string, its children for an array. */
  lemma QuotaExact(line: string, t: string, n: int)
    requires Number(t, n)
    ensures line == "$" + t ==> Quota(line) == if n < 0 then 0 else 1
    ensures line == "*" + t ==> Quota(line) == if n < 0 then 0 else n
  {
    ReadNumber(t);
    assert ("$" + t)[1..] == t && ("*" + t)[1..] == t;
    assert t != "" by { NumberThere(t, n); }
    hide ParseSigned, Spells;
  }

  lemma NumberThere(t: string, n: int)
    requires Spells(t, n)
    ensures t != ""
  {
    var k: nat :| SpellsWith(t, n, k);
  }

  lemma QuotaNone(line: string)
    requires line == "" || (line[0] != '$' && line[0] != '*') || NoNumber(line[1..])
    ensures Quota(line) == 0
  {
    hide ParseSigned, Spells;
    if line != "" {
      ReadNumber(line[1..]);
    }
  }

  /** A text without one of the four symbols in front is refused. */
  lemma NoSymbol(s: string)
    requires s == "" || s[0] !in {'+', ':', '$', '*'}
    ensures Parse(s) == Err(InvalidProtocol)
  {
  }

  /** Outside arrays a line must be ended, and a bulk string must have a second line. */
  lemma Unended(s: string)
    requires s != "" && s[0] in {'+', ':', '$'} && Clean(s)
    ensures Parse(s) == Err(InvalidProtocol)
  {
  }

  lemma SimpleOutcome(t: string, rest: string)
    requires Clean(t)
    ensures Parse("+" + t + CRLF + rest) == Ok(SimpleString(t))
  {
    LineOf('+', t, rest);
  }

  lemma LineOf(c: char, t: string, rest: string)
    requires Clean(t) && c != '\r'
    ensures var s := [c] + t + CRLF + rest;
            s[0] == c && FindCrlf(s) == Some(|t| + 1) && s[1..|t| + 1] == t
  {
    HeaderClean(c, t);
    FindAfterLine([c] + t, rest);
  }

  lemma IntegerOutcome(t: string, rest: string)
    requires Clean(t)
    ensures forall n: i32 :: Parse(":" + t + CRLF + rest) == Ok(Integer(n)) <==> Number(t, n)
    ensures NoNumber(t) ==> Parse(":" + t + CRLF + rest) == Err(BadInteger)
  {
    LineOf(':', t, rest);
    ReadNumber(t);
    hide ParseI32, Spells, FindCrlf;
  }

  /** The declared length cuts a piece off the second line; -1 is null, less is refused, and more than
      there is panics. */
  lemma BulkOutcome(s: string, t: string)
    requires |Split(s)| >= 2 && Split(s)[0] == "$" + t
    ensures forall n: int | Number(t, n) ::
              Parse(s) == if n == -1 then Ok(Null)
                          else if n < -1 then Err(InvalidProtocol)
                          else if n > |Split(s)[1]| then Panic
                          else Ok(BulkString(Split(s)[1][..n]))
    ensures NoNumber(t) ==> Parse(s) == Err(BadInteger)
  {
    FirstOfSplit(s, '$', t);
    ReadNumber(t);
    hide Number, ParseI32, Split;
    assert Parse(s) == ParseBulkString(s);
    assert Split(s)[0][1..] == t;
  }

  lemma FirstOfSplit(s: string, c: char, t: string)
    requires Split(s)[0] == [c] + t
    ensures s != "" && s[0] == c
  {
    NoReturnFirst(s);
    SplitJoin(s);
    assert Unlines(Split(s)) == Split(s)[0] + CRLF + Unlines(Split(s)[1..]);
    assert (s + CRLF)[0] == c;
  }

  lemma NoReturnFirst(s: string)
    ensures s == "" ==> Split(s)[0] == ""
  {
  }

  /** What an array is read as: -1 is null, less is refused; otherwise the groups of the other lines, at
      most the declared number, are read one by one. */
  lemma ArrayOutcome(s: string, t: string)
    requires Split(s)[0] == "*" + t
    ensures forall n: int | Number(t, n) ::
              && (n == -1 ==> Parse(s) == Ok(Null))
              && (n < -1 ==> Parse(s) == Err(InvalidProtocol))
              && (n >= 0 ==> var r := ParseAll(Texts(Groups(Split(s)[1..], n, 1, [])));
                             Parse(s) == if r.Ok? then Ok(Array(r.value)) else r.PropagateFailure())
    ensures NoNumber(t) ==> Parse(s) == Err(BadInteger)
  {
    FirstOfSplit(s, '*', t);
    ReadNumber(t);
    hide Number, ParseI32, Split, RespSpec.Regroup, RespSpec.ParseAll, Groups;
    assert Parse(s) == ParseArray(s);
    assert Split(s)[0][1..] == t;
    assert Unlines([]) == "" by { NoLines(); }
    if ParseI32(t).Ok? && ParseI32(t).value >= 0 {
      GroupsTexts(Split(s)[1..], ParseI32(t).value, 1, []);
    }
  }

  /** Children are read in order, and the first that fails decides. */
  lemma {:induction false} FirstFailure(ts: seq<string>) returns (i: nat)
    requires !ParseAll(ts).Ok?
    ensures i < |ts| && (forall j | 0 <= j < i :: Parse(ts[j]).Ok?)
    ensures !Parse(ts[i]).Ok? && ParseAll(ts) == Parse(ts[i]).PropagateFailure()
  {
    hide RespSpec.Parse;
    if !Parse(ts[0]).Ok? {
      i := 0;
    } else {
      i := FirstFailure(ts[1..]);
      i := i + 1;
    }
  }
}
