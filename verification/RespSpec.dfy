/** What src/parser.rs computes, as functions: one RESP value from the front of a text. */
module RespSpec {
  import opened Basics
  import opened Text
  import opened Decimal

  datatype Value =
    | SimpleString(text: string)
    | SimpleError(text: string)
    | Integer(n: i32)
    | BulkString(text: string)
    | Array(items: seq<Value>)
    | Null

  function ParseI32(s: string): (r: Outcome<i32>) {
    match ParseSigned(s, I32_MIN, I32_MAX)
    case Some(n) => Ok(n)
    case None => Err(BadInteger)
  }

  function ParseSimpleString(s: string): Outcome<Value>
    requires s != "" && s[0] != '\r'
  {
    var crlf := FindCrlf(s);
    if crlf.None? then Err(InvalidProtocol) else Ok(SimpleString(s[1..crlf.value]))
  }

  function ParseInteger(s: string): Outcome<Value>
    requires s != "" && s[0] != '\r'
  {
    var crlf := FindCrlf(s);
    if crlf.None? then Err(InvalidProtocol) else
      var n :- ParseI32(s[1..crlf.value]);
      Ok(Integer(n))
  }

  /** The payload is cut out of the second line by the declared length; a longer length panics. */
  function ParseBulkString(s: string): Outcome<Value>
    requires s != "" && s[0] != '\r'
  {
    var pieces := Split(s);
    FirstPiece(s);
    if |pieces| < 2 then Err(InvalidProtocol) else
      var length :- ParseI32(pieces[0][1..]);
      if length == -1 then Ok(Null)
      else if length < -1 then Err(InvalidProtocol)
      else if length > |pieces[1]| then Panic
      else Ok(BulkString(pieces[1][..length]))
  }

  lemma FirstPiece(s: string)
    requires s != "" && s[0] != '\r'
    ensures Split(s)[0] != "" && Split(s)[0][0] == s[0]
    ensures |Unlines(Split(s)[1..])| < |s|
  {
    var ps := Split(s);
    SplitJoin(s);
    assert Unlines(ps) == ps[0] + CRLF + Unlines(ps[1..]);
    assert Unlines(ps)[0] == s[0];
  }

  /** `count_qoda`: how many further lines or frames a line announces. */
  function Quota(line: string): (n: i32)
    ensures n >= 0
  {
    if |line| < 2 || (line[0] != '$' && line[0] != '*') then 0
    else
      match ParseSigned(line[1..], I32_MIN, I32_MAX)
      case None => 0
      case Some(n) => if n < 0 then 0 else if line[0] == '$' then 1 else n
  }

  /** One turn of the quota loop: add what the line announces, then count the line itself. */
  function Step(q: i32, line: string): i32 {
    Wrap32(Wrap32(q + Quota(line)) - 1)
  }

  /** The quota loop of `parse_array`: groups lines into the texts of at most `left` children. */
  function Regroup(lines: seq<string>, left: nat, q: i32, tmp: string): (children: seq<string>)
    decreases |lines|
  {
    if lines == [] || left == 0 then []
    else
      var q' := Step(q, lines[0]);
      var tmp' := tmp + lines[0] + CRLF;
      if q' == 0 then [tmp'] + Regroup(lines[1..], left - 1, 1, "")
      else Regroup(lines[1..], left, q', tmp')
  }

  lemma {:induction false} RegroupLength(lines: seq<string>, left: nat, q: i32, tmp: string)
    ensures |Regroup(lines, left, q, tmp)| <= left
    ensures TotalLength(Regroup(lines, left, q, tmp)) <= |tmp| + |Unlines(lines)|
    decreases |lines|
  {
    if lines != [] && left != 0 {
      var q' := Step(q, lines[0]);
      var tmp' := tmp + lines[0] + CRLF;
      if q' == 0 {
        RegroupLength(lines[1..], left - 1, 1, "");
      } else {
        RegroupLength(lines[1..], left, q', tmp');
      }
    }
  }

  function ParseArray(s: string): Outcome<Value>
    requires s != "" && s[0] != '\r'
    decreases |s|, 0, 0
  {
    var pieces := Split(s);
    FirstPiece(s);
    var left :- ParseI32(pieces[0][1..]);
    if left == -1 then Ok(Null)
    else if left < -1 then Err(InvalidProtocol)
    else
      RegroupLength(pieces[1..], left, 1, "");
      var items :- ParseAll(Regroup(pieces[1..], left, 1, ""));
      Ok(Array(items))
  }

  function Parse(s: string): Outcome<Value>
    decreases |s|, 0, 1
  {
    if s == "" then Err(InvalidProtocol)
    else if s[0] == '+' then ParseSimpleString(s)
    else if s[0] == ':' then ParseInteger(s)
    else if s[0] == '$' then ParseBulkString(s)
    else if s[0] == '*' then ParseArray(s)
    else Err(InvalidProtocol)
  }

  /** Parses texts in order; the first failure is the outcome. */
  function ParseAll(ts: seq<string>): (r: Outcome<seq<Value>>)
    ensures r.Ok? ==> |r.value| == |ts|
    decreases TotalLength(ts), 1, |ts|
  {
    if ts == [] then Ok([])
    else
      var v :- Parse(ts[0]);
      var vs :- ParseAll(ts[1..]);
      Ok([v] + vs)
  }

  // ---------------------------------------------------------------- the protocol's printer

  /** The protocol lines of a value (RESP2: simple strings, integers, bulk strings, arrays, null). */
  function Lines(v: Value): (ls: seq<string>)
    ensures ls != []
    decreases v
  {
    match v
    case SimpleString(s) => ["+" + s]
    case SimpleError(s) => ["-" + s]
    case Integer(n) => [":" + ShowInt(n)]
    case BulkString(s) => ["$" + Show(|s|), s]
    case Null => ["$-1"]
    case Array(items) => ["*" + Show(|items|)] + LinesAll(items)
  }

  function LinesAll(vs: seq<Value>): (ls: seq<string>)
    ensures |ls| >= |vs|
    decreases vs
  {
    if vs == [] then [] else Lines(vs[0]) + LinesAll(vs[1..])
  }

  function Encode(v: Value): string {
    Unlines(Lines(v))
  }

  function EncodeAll(vs: seq<Value>): seq<string> {
    if vs == [] then [] else [Encode(vs[0])] + EncodeAll(vs[1..])
  }

  // ---------------------------------------------------------------- measures of a value

  /** What the payload lines of a value add to the quota by looking like headers. */
  function Surplus(v: Value): nat
    decreases v
  {
    match v
    case BulkString(s) => Quota(s)
    case Array(items) => SurplusAll(items)
    case _ => 0
  }

  function SurplusAll(vs: seq<Value>): nat
    decreases vs
  {
    if vs == [] then 0 else Surplus(vs[0]) + SurplusAll(vs[1..])
  }

  /** Every string leaf is one line, and no leaf is an error (which the parser does not read). */
  predicate CleanValue(v: Value)
    decreases v
  {
    match v
    case SimpleString(s) => Clean(s)
    case BulkString(s) => Clean(s)
    case SimpleError(_) => false
    case Array(items) => CleanAll(items)
    case _ => true
  }

  predicate CleanAll(vs: seq<Value>)
    decreases vs
  {
    vs == [] || (CleanValue(vs[0]) && CleanAll(vs[1..]))
  }

  /** Every declared length fits the parser's i32. */
  predicate Widths(v: Value)
    decreases v
  {
    match v
    case BulkString(s) => |s| <= I32_MAX
    case Array(items) => |items| <= I32_MAX && WidthsAll(items)
    case _ => true
  }

  predicate WidthsAll(vs: seq<Value>)
    decreases vs
  {
    vs == [] || (Widths(vs[0]) && WidthsAll(vs[1..]))
  }

  /** No payload looks like a header, except that the very last one may announce one more line. */
  predicate Robust(v: Value)
    decreases v
  {
    match v
    case BulkString(s) => Quota(s) <= 1
    case Array(items) => RobustAll(items)
    case _ => true
  }

  predicate RobustAll(vs: seq<Value>)
    decreases vs
  {
    vs == [] ||
    (if |vs| == 1 then Robust(vs[0]) else Surplus(vs[0]) == 0 && RobustAll(vs[1..]))
  }

  /** The values that survive printing and parsing on their own; a lone bulk string needs no quota. */
  predicate SurvivesAlone(v: Value) {
    CleanValue(v) && Widths(v) && (v.Array? ==> Robust(v))
  }

  /** The values that survive whatever text follows them. */
  predicate SurvivesAnywhere(v: Value) {
    CleanValue(v) && Widths(v) && (v.Array? ==> Surplus(v) == 0)
  }

  /** So few lines that counting them cannot leave i32: the laws below say nothing of texts that have
      about 2^31 lines or more. */
  predicate Short(v: Value) {
    |Lines(v)| < I32_MAX - 2
  }

  predicate Fits(v: Value) {
    Widths(v) && Short(v)
  }

  predicate FitsAll(vs: seq<Value>) {
    WidthsAll(vs) && |LinesAll(vs)| < I32_MAX - 2
  }
}
