/** The loops of src/command_parser.rs and the printer of src/utils.rs, in their own form. */
module CommandParser {
  import opened Basics
  import opened Text
  import opened Decimal
  import opened RespSpec
  import opened Commands
  import opened CommandExact
  import opened Printing

  method ParseSetCommand(iter: seq<Value>) returns (r: Outcome<Command>)
    ensures r == ParseSet(iter)
  {
    var key := BulkAt(iter, 0);
    var value := BulkAt(iter, 1);
    if !key.Ok? || !value.Ok? {
      return Err(BadCommand);
    }
    var px: Option<u64> := None;
    var next := 2;
    while next < |iter|
      invariant 2 <= next <= |iter|
      invariant SetOptions(iter[2..], None) == SetOptions(iter[next..], px)
    {
      assert iter[next..][0] == iter[next] && iter[next..][1..] == iter[next + 1..];
      if !iter[next].BulkString? {
        return Err(BadCommand);
      }
      var s := Upper(iter[next].text);
      next := next + 1;
      if s == "PX" {
        if next == |iter| || !iter[next].BulkString? {
          return Err(BadCommand);
        }
        assert iter[next - 1..][1] == iter[next] && iter[next - 1..][2..] == iter[next + 1..];
        var millis := ParseNumber(iter[next].text, U64_MAX);
        if !millis.Ok? {
          return Err(BadInteger);
        }
        px := Some(millis.value);
        next := next + 1;
      }
    }
    r := Ok(Set(key.value, value.value, px));
  }

  method ParseReplconfCapaCommand(iter: seq<Value>) returns (r: Outcome<ReplconfSubcommand>)
    ensures r == (match CapaOptions(iter, [])
                  case Ok(options) => if options == [] then Err(BadCommand) else Ok(Capa(options))
                  case Err(e) => Err(e)
                  case Panic => Panic)
  {
    var options: seq<CapaOption> := [];
    var next := 0;
    assert iter[0..] == iter;
    while next < |iter|
      invariant next <= |iter|
      invariant CapaOptions(iter, []) == CapaOptions(iter[next..], options)
    {
      assert iter[next..][0] == iter[next] && iter[next..][1..] == iter[next + 1..];
      if !iter[next].BulkString? {
        return Err(BadCommand);
      }
      assert options + [] == options;
      var s := Upper(iter[next].text);
      if s == "EOF" {
        options := options + [Eof];
      } else if s == "PSYNC2" {
        options := options + [Psync2];
      }
      next := next + 1;
    }
    r := if |options| == 0 then Err(BadCommand) else Ok(Capa(options));
  }

  method ParseInfoCommand(iter: seq<Value>) returns (r: Outcome<Command>)
    ensures r == (match InfoSections(iter, [])
                  case Ok(sections) => Ok(Info(sections))
                  case Err(e) => Err(e)
                  case Panic => Panic)
  {
    var sections: seq<InfoSection> := [];
    var next := 0;
    assert iter[0..] == iter;
    while next < |iter|
      invariant next <= |iter|
      invariant InfoSections(iter, []) == InfoSections(iter[next..], sections)
    {
      assert iter[next..][0] == iter[next] && iter[next..][1..] == iter[next + 1..];
      if !iter[next].BulkString? {
        return Err(BadCommand);
      }
      assert sections + [] == sections;
      if Upper(iter[next].text) == "REPLICATION" {
        sections := sections + [Replication];
      }
      next := next + 1;
    }
    r := Ok(Info(sections));
  }

  method ParseKeysPattern(pattern: string) returns (newPattern: string)
    ensures newPattern == GlobPattern(pattern) && Rewritten(pattern, newPattern)
  {
    hide Rewritten, GlobPattern;
    GlobEnds(pattern);
    newPattern := "";
    for i := 0 to |pattern|
      invariant GlobPattern(pattern) == newPattern + GlobPattern(pattern[i..])
    {
      GlobNext(newPattern, pattern[i..]);
      assert pattern[i..][1..] == pattern[i + 1..];
      if pattern[i] == '*' {
        newPattern := newPattern + ".*";
      } else {
        newPattern := newPattern + [pattern[i]];
      }
    }
    GlobExact(pattern, newPattern);
  }

  lemma GlobEnds(pattern: string)
    ensures GlobPattern(pattern) == "" + GlobPattern(pattern[0..])
    ensures forall done: string :: done + GlobPattern(pattern[|pattern|..]) == done
  {
    assert pattern[0..] == pattern;
  }

  lemma GlobNext(done: string, rest: string)
    requires rest != ""
    ensures done + GlobPattern(rest)
         == (if rest[0] == '*' then done + ".*" else done + [rest[0]]) + GlobPattern(rest[1..])
  {
    hide GlobPattern;
    var head, more := if rest[0] == '*' then ".*" else [rest[0]], GlobPattern(rest[1..]);
    GlobHead(rest);
    Reassociate(done, head, more);
  }

  lemma GlobHead(rest: string)
    requires rest != ""
    ensures GlobPattern(rest) == (if rest[0] == '*' then ".*" else [rest[0]]) + GlobPattern(rest[1..])
  {
  }

  lemma Reassociate(a: string, b: string, c: string)
    ensures a + (b + c) == (a + b) + c
  {
  }

  /** What is broadcast for a SET is the protocol encoding of its three or five bulk strings. */
  method GenerateResp(cmd: Command) returns (resp: string)
    ensures cmd.Set? ==> resp == Encode(SetValue(cmd.key, cmd.value, cmd.px))
    ensures resp == Resp(cmd)
  {
    match cmd
    case Set(key, value, px) =>
      var text := "$3" + CRLF + "set" + CRLF + "$" + Show(|key|) + CRLF + key + CRLF
                  + "$" + Show(|value|) + CRLF + value + CRLF;
      var length := 3;
      SetText(key, value);
      if px.Some? {
        var millis := Show(px.value);
        text := text + ("$2" + CRLF + "px" + CRLF + "$" + Show(|millis|) + CRLF + millis + CRLF);
        length := length + 2;
        PxText(millis);
        EncodeFive("set", key, value, "px", millis);
      } else {
        EncodeThree("set", key, value);
      }
      resp := "*" + Show(length) + CRLF + text;
    case _ =>
      resp := "$0" + CRLF + CRLF;
  }

  lemma SetText(key: string, value: string)
    ensures "$3" + CRLF + "set" + CRLF + "$" + Show(|key|) + CRLF + key + CRLF
            + "$" + Show(|value|) + CRLF + value + CRLF
         == BulkText("set") + BulkText(key) + BulkText(value)
  {
    SetWord();
    JoinBulk("$3" + CRLF + "set" + CRLF, key);
    JoinBulk(BulkText("set") + BulkText(key), value);
  }

  lemma PxText(millis: string)
    ensures "$2" + CRLF + "px" + CRLF + "$" + Show(|millis|) + CRLF + millis + CRLF == BulkText("px") + BulkText(millis)
  {
    PxOption();
    JoinBulk("$2" + CRLF + "px" + CRLF, millis);
  }

  lemma SetWord()
    ensures BulkText("set") == "$3" + CRLF + "set" + CRLF
  {
    assert Show(3) == "3";
    assert "$" + "3" == "$3";
  }

  lemma PxOption()
    ensures BulkText("px") == "$2" + CRLF + "px" + CRLF
  {
    assert Show(2) == "2";
    assert "$" + "2" == "$2";
  }

  lemma JoinBulk(front: string, t: string)
    ensures front + "$" + Show(|t|) + CRLF + t + CRLF == front + BulkText(t)
  {
    JoinFive(front, "$", Show(|t|), CRLF, t, CRLF);
  }

  lemma JoinFive(f: string, a: string, b: string, c: string, d: string, e: string)
    ensures f + a + b + c + d + e == f + (a + b + c + d + e)
  {
    assert f + a + b == f + (a + b);
    assert f + (a + b) + c == f + (a + b + c);
    assert f + (a + b + c) + d == f + (a + b + c + d);
    assert f + (a + b + c + d) + e == f + (a + b + c + d + e);
  }
}
