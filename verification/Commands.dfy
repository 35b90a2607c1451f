/** src/command_parser.rs and src/utils.rs as functions: from parsed values to commands and back. */
module Commands {
  import opened Basics
  import opened Text
  import opened Decimal
  import opened RespSpec

  datatype CapaOption = Eof | Psync2
  datatype InfoSection = Replication
  datatype ConfigGetOption = Dir | DbFilename
  datatype ReplconfSubcommand =
    | ListeningPort(port: nat)
    | Capa(options: seq<CapaOption>)
    | Getack(arg: string)
    | Ack(offset: u64)

  datatype Command =
    | Set(key: string, value: string, px: Option<u64>)
    | Get(key: string)
    | Ping
    | Echo(words: string)
    | ConfigGet(option: ConfigGetOption)
    | Keys(pattern: string)
    | Incr(key: string)
    | Multi
    | Exec
    | Discard
    | Info(sections: seq<InfoSection>)
    | Replconf(sub: ReplconfSubcommand)
    | Psync(id: Option<string>, replOffset: Option<u64>)

  function UpperChar(c: char): char {
    if 'a' <= c <= 'z' then (c - 'a') + 'A' else c
  }

  /** `to_uppercase` on ASCII text. */
  function Upper(s: string): string {
    if s == "" then "" else [UpperChar(s[0])] + Upper(s[1..])
  }

  /** The text of the next value, which must be there and must be a bulk string. */
  function BulkAt(vs: seq<Value>, i: nat): Outcome<string> {
    if i < |vs| && vs[i].BulkString? then Ok(vs[i].text) else Err(BadCommand)
  }

  function ParseNumber(s: string, max: u64): (r: Outcome<u64>)
    ensures r.Ok? ==> r.value <= max
  {
    match ParseUnsigned(s, max)
    case Some(n) => Ok(n)
    case None => Err(BadInteger)
  }

  /** The option loop of SET: the last PX wins and unknown options are skipped. */
  function SetOptions(vs: seq<Value>, px: Option<u64>): Outcome<Option<u64>> {
    if vs == [] then Ok(px)
    else
      var option :- BulkAt(vs, 0);
      if Upper(option) == "PX" then
        var millis :- BulkAt(vs, 1);
        var n :- ParseNumber(millis, U64_MAX);
        SetOptions(vs[2..], Some(n))
      else SetOptions(vs[1..], px)
  }

  function CapaOptions(vs: seq<Value>, options: seq<CapaOption>): Outcome<seq<CapaOption>> {
    if vs == [] then Ok(options)
    else
      var option :- BulkAt(vs, 0);
      CapaOptions(vs[1..], options +
        if Upper(option) == "EOF" then [Eof] else if Upper(option) == "PSYNC2" then [Psync2] else [])
  }

  function InfoSections(vs: seq<Value>, sections: seq<InfoSection>): Outcome<seq<InfoSection>> {
    if vs == [] then Ok(sections)
    else
      var section :- BulkAt(vs, 0);
      InfoSections(vs[1..], sections + if Upper(section) == "REPLICATION" then [Replication] else [])
  }

  /** The regular expression for a glob: `*` becomes `.*`. */
  function GlobPattern(s: string): string {
    if s == "" then "" else (if s[0] == '*' then ".*" else [s[0]]) + GlobPattern(s[1..])
  }

  function ParseReplconf(vs: seq<Value>): Outcome<ReplconfSubcommand> {
    var sub :- BulkAt(vs, 0);
    var name := Upper(sub);
    if name == "LISTENING-PORT" then
      var port :- BulkAt(vs, 1);
      var n :- ParseNumber(port, U16_MAX);
      Ok(ListeningPort(n))
    else if name == "CAPA" then
      var options :- CapaOptions(vs[1..], []);
      if options == [] then Err(BadCommand) else Ok(Capa(options))
    else if name == "GETACK" then
      var arg :- BulkAt(vs, 1);
      Ok(Getack(arg))
    else if name == "ACK" then
      var offset :- BulkAt(vs, 1);
      var n :- ParseNumber(offset, U64_MAX);
      Ok(Ack(n))
    else Err(BadCommand)
  }

  function ParseConfig(vs: seq<Value>): Outcome<Command> {
    var sub :- BulkAt(vs, 0);
    if Upper(sub) != "GET" then Err(BadCommand) else
      var parameter :- BulkAt(vs, 1);
      if Upper(parameter) == "DIR" then Ok(ConfigGet(Dir))
      else if Upper(parameter) == "DBFILENAME" then Ok(ConfigGet(DbFilename))
      else Err(BadCommand)
  }

  function ParsePsync(vs: seq<Value>): Outcome<Command> {
    var id :- BulkAt(vs, 0);
    var offset :- BulkAt(vs, 1);
    var n := ParseNumber(offset, U64_MAX);
    Ok(Psync(if |id| != 40 then None else Some(id), if n.Ok? then Some(n.value) else None))
  }

  function ParseSet(vs: seq<Value>): Outcome<Command> {
    var key :- BulkAt(vs, 0);
    var value :- BulkAt(vs, 1);
    var px :- SetOptions(vs[2..], None);
    Ok(Set(key, value, px))
  }

  function ParseCommand(vs: seq<Value>): Outcome<Command> {
    var command :- BulkAt(vs, 0);
    Dispatch(Upper(command), vs[1..])
  }

  function Dispatch(name: string, rest: seq<Value>): Outcome<Command> {
    if name == "SET" then ParseSet(rest)
    else if name == "GET" then
      var key :- BulkAt(rest, 0);
      Ok(Get(key))
    else if name == "PING" then Ok(Ping)
    else if name == "ECHO" then
      var words :- BulkAt(rest, 0);
      Ok(Echo(words))
    else if name == "CONFIG" then ParseConfig(rest)
    else if name == "KEYS" then
      var pattern :- BulkAt(rest, 0);
      Ok(Keys(GlobPattern(pattern)))
    else if name == "INCR" then
      var key :- BulkAt(rest, 0);
      Ok(Incr(key))
    else if name == "MULTI" then Ok(Multi)
    else if name == "EXEC" then Ok(Exec)
    else if name == "DISCARD" then Ok(Discard)
    else if name == "INFO" then
      var sections :- InfoSections(rest, []);
      Ok(Info(sections))
    else if name == "REPLCONF" then
      var sub :- ParseReplconf(rest);
      Ok(Replconf(sub))
    else if name == "PSYNC" then ParsePsync(rest)
    else Err(BadCommand)
  }

  // ---------------------------------------------------------------- the command stream to replicas

  /** The protocol value of a SET command. */
  function SetValue(key: string, value: string, px: Option<u64>): (v: Value)
    ensures v.Array? && |v.items| == if px.None? then 3 else 5
  {
    var fixed := [BulkString("set"), BulkString(key), BulkString(value)];
    Array(if px.None? then fixed else fixed + [BulkString("px"), BulkString(Show(px.value))])
  }

  function GetackValue(arg: string): Value {
    Array([BulkString("REPLCONF"), BulkString("GETACK"), BulkString(arg)])
  }

  /** `generate_resp`: only SET is ever broadcast. */
  function Resp(cmd: Command): string {
    match cmd
    case Set(key, value, px) => Encode(SetValue(key, value, px))
    case _ => "$0\r\n\r\n"
  }

  lemma UpperSet()
    ensures Upper("set") == "SET" && Upper("px") == "PX"
  {
    assert "set"[1..] == "et" && "et"[1..] == "t" && "t"[1..] == "";
    assert "px"[1..] == "x" && "x"[1..] == "";
  }

  lemma {:induction false} UpperFixed(s: string)
    requires forall i | 0 <= i < |s| :: UpperChar(s[i]) == s[i]
    ensures Upper(s) == s
  {
    if s != "" {
      UpperFixed(s[1..]);
    }
  }

  lemma SetOptionsPx(px: u64)
    ensures SetOptions([BulkString("px"), BulkString(Show(px))], None) == Ok(Some(px))
  {
    var options := [BulkString("px"), BulkString(Show(px))];
    UpperSet();
    ParseShow(px, U64_MAX);
    assert options[2..] == [];
    assert SetOptions(options[2..], Some(px)) == Ok(Some(px));
  }

  /** A printed SET parses back to the same command, px included. */
  lemma ParseSetValue(key: string, value: string, px: Option<u64>)
    ensures ParseCommand(SetValue(key, value, px).items) == Ok(Set(key, value, px))
  {
    var vs := SetValue(key, value, px).items;
    assert vs[1..][0] == BulkString(key) && vs[1..][1] == BulkString(value);
    var options := vs[1..][2..];
    if px.Some? {
      assert options == [BulkString("px"), BulkString(Show(px.value))];
      SetOptionsPx(px.value);
    } else {
      assert options == [];
    }
    UpperSet();
    hide SetOptions, Upper;
    assert Dispatch("SET", vs[1..]) == ParseSet(vs[1..]);
  }

  lemma ParseGetack(vs: seq<Value>, arg: string)
    requires vs == [BulkString("GETACK"), BulkString(arg)]
    ensures ParseReplconf(vs) == Ok(Getack(arg))
  {
    UpperFixed("GETACK");
    hide Upper, CapaOptions;
  }

  lemma ParseGetackValue(arg: string)
    ensures ParseCommand(GetackValue(arg).items) == Ok(Replconf(Getack(arg)))
  {
    hide Upper, ParseReplconf, Dispatch;
    UpperReplconf();
    var vs := GetackValue(arg).items;
    assert vs[1..] == [BulkString("GETACK"), BulkString(arg)];
    ParseGetack(vs[1..], arg);
    DispatchReplconf(vs[1..]);
  }

  lemma UpperReplconf()
    ensures Upper("REPLCONF") == "REPLCONF"
  {
    UpperFixed("REPLCONF");
  }

  lemma DispatchReplconf(rest: seq<Value>)
    ensures ParseReplconf(rest).Ok? ==> Dispatch("REPLCONF", rest) == Ok(Replconf(ParseReplconf(rest).value))
  {
    hide ParseReplconf, Upper, InfoSections;
  }

  // ---------------------------------------------------------------- clean arguments

  predicate CleanCommand(cmd: Command) {
    match cmd
    case Set(key, value, _) => Clean(key) && Clean(value)
    case Get(key) => Clean(key)
    case Incr(key) => Clean(key)
    case Echo(words) => Clean(words)
    case Keys(pattern) => Clean(pattern)
    case Replconf(Getack(arg)) => Clean(arg)
    case Psync(id, _) => id.Some? ==> Clean(id.value)
    case _ => true
  }

  /** Rewriting stars joins no two characters of the pattern. */
  lemma {:induction false} GlobClean(s: string)
    requires Clean(s)
    ensures Clean(GlobPattern(s))
    ensures s != "" ==> GlobPattern(s) != "" && GlobPattern(s)[0] == if s[0] == '*' then '.' else s[0]
  {
    if s != "" {
      forall i | 0 <= i < |s[1..]|
        ensures !CrlfAt(s[1..], i)
      {
        assert !CrlfAt(s, i + 1);
      }
      GlobClean(s[1..]);
      var first, more := if s[0] == '*' then ".*" else [s[0]], GlobPattern(s[1..]);
      assert !CrlfAt(s, 0);
      assert |s| == 1 ==> more == "";
      forall i | 0 <= i < |first + more|
        ensures !CrlfAt(first + more, i)
      {
        assert i >= |first| ==> (CrlfAt(first + more, i) ==> CrlfAt(more, i - |first|));
      }
    }
  }

  /** Commands read from parsed values carry only single-line arguments. */
  lemma ParsedCommandClean(vs: seq<Value>)
    requires CleanAll(vs) && ParseCommand(vs).Ok?
    ensures CleanCommand(ParseCommand(vs).value)
  {
    hide Upper, SetOptions, CapaOptions, InfoSections, GlobPattern, ParseUnsigned, Clean;
    if |vs| > 1 {
      CleanAt(vs, 1);
      if vs[1].BulkString? {
        GlobClean(vs[1].text);
      }
    }
    if |vs| > 2 {
      CleanAt(vs, 2);
    }
  }

  lemma {:induction false} CleanAt(vs: seq<Value>, i: nat)
    requires CleanAll(vs) && i < |vs|
    ensures CleanValue(vs[i])
  {
    if i > 0 {
      CleanAt(vs[1..], i - 1);
    }
  }
}
