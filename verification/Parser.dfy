/** src/parser.rs in its own form: loops over mutable locals, each proved against its function. */
module Parser {
  import opened Basics
  import opened Text
  import opened RespSpec
  import opened Pipeline
  import Decimal

  method ParseValue(protocol: string) returns (r: Outcome<Value>)
    ensures r == Parse(protocol)
    decreases |protocol|, 0, 1
  {
    if protocol == "" {
      return Err(InvalidProtocol);
    }
    match protocol[0]
    case '+' => r := ParseSimpleString(protocol);
    case ':' => r := ParseInteger(protocol);
    case '$' => r := ParseBulkString(protocol);
    case '*' => r := ParseArrayValue(protocol);
    case _ => r := Err(InvalidProtocol);
  }

  method ParseArrayValue(protocol: string) returns (r: Outcome<Value>)
    requires protocol != "" && protocol[0] == '*'
    ensures r == ParseArray(protocol)
    decreases |protocol|, 0, 0
  {
    var pieces := Split(protocol);
    FirstPiece(protocol);
    var length := ParseI32(pieces[0][1..]);
    if !length.Ok? {
      return length.PropagateFailure();
    }
    var left := length.value;
    if left == -1 {
      return Ok(Null);
    } else if left < -1 {
      return Err(InvalidProtocol);
    }
    RegroupLength(pieces[1..], left, 1, "");
    var protocolVec := GroupLines(pieces[1..], left);
    var items := ParseEach(protocolVec);
    r := if items.Ok? then Ok(Array(items.value)) else items.PropagateFailure();
  }

  /** The quota loop of `parse_array`. */
  method GroupLines(lines: seq<string>, count: nat) returns (protocolVec: seq<string>)
    ensures protocolVec == Regroup(lines, count, 1, "")
  {
    hide Grouped, RespSpec.Quota, Wrap32;
    protocolVec := [];
    var left := count;
    var tmp := "";
    var qoda: i32 := 1;
    var next := 0;
    GroupedStart(lines, count);
    while next < |lines|
      invariant next <= |lines|
      invariant Grouped(lines, count, protocolVec, next, left, qoda, tmp)
    {
      if left == 0 {
        break;
      }
      var p := lines[next];
      GroupedTurn(lines, count, protocolVec, next, left, qoda, tmp);
      next := next + 1;
      qoda := Wrap32(qoda + Quota(p));
      tmp := tmp + p + CRLF;
      qoda := Wrap32(qoda - 1);
      if qoda == 0 {
        if tmp != "" {
          protocolVec := protocolVec + [tmp];
          tmp := "";
          left := left - 1;
        }
        qoda := 1;
      }
    }
    GroupedEnd(lines, count, protocolVec, next, left, qoda, tmp);
  }

  /** The children collected so far, and those that the rest of the loop will collect. */
  ghost predicate Grouped(lines: seq<string>, count: nat, done: seq<string>, next: nat, left: nat, q: i32, tmp: string) {
    next <= |lines| && Regroup(lines, count, 1, "") == done + Regroup(lines[next..], left, q, tmp)
  }

  lemma GroupedStart(lines: seq<string>, count: nat)
    ensures Grouped(lines, count, [], 0, count, 1, "")
  {
    assert lines[0..] == lines;
  }

  lemma GroupedTurn(lines: seq<string>, count: nat, done: seq<string>, next: nat, left: nat, q: i32, tmp: string)
    requires next < |lines| && left > 0 && Grouped(lines, count, done, next, left, q, tmp)
    ensures var q' := Wrap32(Wrap32(q + Quota(lines[next])) - 1);
            var tmp' := tmp + lines[next] + CRLF;
            && tmp' != ""
            && (q' == 0 ==> Grouped(lines, count, done + [tmp'], next + 1, left - 1, 1, ""))
            && (q' != 0 ==> Grouped(lines, count, done, next + 1, left, q', tmp'))
  {
    assert lines[next..][0] == lines[next] && lines[next..][1..] == lines[next + 1..];
    var tmp' := tmp + lines[next] + CRLF;
    var more := Regroup(lines[next + 1..], left - 1, 1, "");
    assert done + ([tmp'] + more) == (done + [tmp']) + more;
  }

  lemma GroupedEnd(lines: seq<string>, count: nat, done: seq<string>, next: nat, left: nat, q: i32, tmp: string)
    requires Grouped(lines, count, done, next, left, q, tmp) && (next == |lines| || left == 0)
    ensures done == Regroup(lines, count, 1, "")
  {
    assert Regroup(lines[next..], left, q, tmp) == [];
  }

  /** The loop of `parse_array` over the texts of its children. */
  method ParseEach(texts: seq<string>) returns (r: Outcome<seq<Value>>)
    ensures r == ParseAll(texts)
    decreases TotalLength(texts), 1, |texts|
  {
    var items: seq<Value> := [];
    var i := 0;
    while i < |texts|
      invariant 0 <= i <= |texts|
      invariant ParseAll(texts[..i]) == Ok(items)
    {
      hide RespSpec.ParseAll, RespSpec.Parse;
      LengthAt(texts, i);
      var item := ParseValue(texts[i]);
      ParseAllAppend(texts[..i], texts[i]);
      assert texts[..i + 1] == texts[..i] + [texts[i]];
      if !item.Ok? {
        ParseAllStuck(texts[..i + 1], texts[i + 1..]);
        assert texts[..i + 1] + texts[i + 1..] == texts;
        return item.PropagateFailure();
      }
      items := items + [item.value];
      i := i + 1;
    }
    assert texts[..i] == texts;
    r := Ok(items);
  }

  lemma {:induction false} LengthAt(ts: seq<string>, i: nat)
    requires i < |ts|
    ensures |ts[i]| <= TotalLength(ts)
  {
    if i > 0 {
      LengthAt(ts[1..], i - 1);
    }
  }

  /** The frames already passed, and those that the rest of the loop will cut. */
  ghost predicate Passed(protocol: string, passed: seq<string>, values: seq<Value>, idx: nat, pre: nat, first: bool) {
    && pre <= idx <= |protocol|
    && ParseAll(passed) == Ok(values)
    && passed + Frames(protocol, idx, pre, first) == Frames(protocol, 0, 0, true)
  }

  method ParseMultiArray(protocol: string) returns (r: Outcome<seq<Value>>)
    ensures r == ParseMulti(protocol)
  {
    var first := true;
    var resVec: seq<Value> := [];
    var pre := 0;
    ghost var passed: seq<string> := [];

    for idx := 0 to |protocol|
      invariant protocol == "" ==> resVec == []
      invariant idx < |protocol| ==> Passed(protocol, passed, resVec, idx, pre, first)
      invariant 0 < idx == |protocol| ==> ParseMulti(protocol) == Ok(resVec)
    {
      if idx == |protocol| - 1 {
        var value := ParseValue(protocol[pre..]);
        ParseAllAppend(passed, protocol[pre..]);
        assert Frames(protocol, idx, pre, first) == Frames(protocol, idx + 1, pre, first) == [protocol[pre..]];
        if !value.Ok? {
          return value.PropagateFailure();
        }
        resVec := resVec + [value.value];
      }

      if protocol[idx] == '*' {
        if idx + 1 >= |protocol| {
          return Panic;
        }
        if Decimal.IsDigit(protocol[idx + 1]) {
          if first {
            first := false;
          } else {
            var value := ParseValue(protocol[pre..idx]);
            CutFrame(protocol, passed, resVec, idx, pre);
            if !value.Ok? {
              return value.PropagateFailure();
            }
            resVec := resVec + [value.value];
            passed := passed + [protocol[pre..idx]];
            pre := idx;
          }
        }
      }
    }
    r := Ok(resVec);
  }

  /** What one cut does to the frames already passed. */
  lemma CutFrame(protocol: string, passed: seq<string>, values: seq<Value>, idx: nat, pre: nat)
    requires Passed(protocol, passed, values, idx, pre, false) && StarDigit(protocol, idx)
    ensures var p := Parse(protocol[pre..idx]);
            if p.Ok? then Passed(protocol, passed + [protocol[pre..idx]], values + [p.value], idx + 1, idx, false)
            else ParseMulti(protocol) == p.PropagateFailure()
  {
    hide RespSpec.ParseAll, RespSpec.Parse;
    var t := protocol[pre..idx];
    var more := Frames(protocol, idx + 1, idx, false);
    ParseAllAppend(passed, t);
    assert passed + [t] + more == passed + ([t] + more);
    if !Parse(t).Ok? {
      ParseAllStuck(passed + [t], more);
    }
  }
}
