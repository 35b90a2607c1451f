/** Every command has a spelling that `parse_command` reads back, in any letter case of its name. */
module CommandWords {
  import opened Basics
  import opened Decimal
  import opened RespSpec
  import opened Printing
  import opened Commands
  import opened CommandExact

  function CapaWord(option: CapaOption): string {
    if option == Eof then "EOF" else "PSYNC2"
  }

  function CapaWords(options: seq<CapaOption>): seq<string> {
    if options == [] then [] else [CapaWord(options[0])] + CapaWords(options[1..])
  }

  function SectionWords(sections: seq<InfoSection>): seq<string> {
    if sections == [] then [] else [SECTION_WORD] + SectionWords(sections[1..])
  }

  const PORT_WORD := "LISTENING-PORT"
  const SECTION_WORD := "REPLICATION"

  function Name(cmd: Command): string {
    match cmd
    case Set(_, _, _) => "SET"
    case Get(_) => "GET"
    case Ping => "PING"
    case Echo(_) => "ECHO"
    case ConfigGet(_) => "CONFIG"
    case Keys(_) => "KEYS"
    case Incr(_) => "INCR"
    case Multi => "MULTI"
    case Exec => "EXEC"
    case Discard => "DISCARD"
    case Info(_) => "INFO"
    case Replconf(_) => "REPLCONF"
    case Psync(_, _) => "PSYNC"
  }

  function Arguments(cmd: Command): seq<string> {
    match cmd
    case Set(key, value, px) => [key, value] + if px.Some? then ["PX", Show(px.value)] else []
    case Get(key) => [key]
    case Echo(words) => [words]
    case ConfigGet(option) => ["GET", if option == Dir then "DIR" else "DBFILENAME"]
    case Keys(pattern) => [pattern]
    case Incr(key) => [key]
    case Info(sections) => SectionWords(sections)
    case Replconf(ListeningPort(port)) => [PORT_WORD, Show(port)]
    case Replconf(Capa(options)) => ["CAPA"] + CapaWords(options)
    case Replconf(Getack(arg)) => ["GETACK", arg]
    case Replconf(Ack(offset)) => ["ACK", Show(offset)]
    case Psync(id, offset) => [if id.Some? then id.value else "?", if offset.Some? then Show(offset.value) else "-1"]
    case _ => []
  }

  /** Commands that have a spelling: a KEYS pattern is rewritten and has none unless it has no star. */
  predicate Spellable(cmd: Command) {
    match cmd
    case Keys(pattern) => forall i | 0 <= i < |pattern| :: pattern[i] != '*'
    case Replconf(ListeningPort(port)) => port <= U16_MAX
    case Replconf(Capa(options)) => options != []
    case Psync(id, _) => id.Some? ==> |id.value| == 40
    case _ => true
  }

  lemma {:induction false} GlobPlain(s: string)
    requires forall i | 0 <= i < |s| :: s[i] != '*'
    ensures GlobPattern(s) == s
  {
    if s != "" {
      GlobPlain(s[1..]);
    }
  }

  lemma {:induction false} ReadCapa(options: seq<CapaOption>, before: seq<CapaOption>)
    ensures CapaOptions(Bulks(CapaWords(options)), before) == Ok(before + options)
  {
    if options == [] {
      assert before + [] == before;
    } else {
      var words := CapaWords(options);
      assert words[1..] == CapaWords(options[1..]);
      assert Bulks(words)[0] == BulkString(words[0]) && Bulks(words)[1..] == Bulks(words[1..]);
      CapaUpper(options[0]);
      hide Upper;
      ReadCapa(options[1..], before + [options[0]]);
      assert before + [options[0]] + options[1..] == before + options;
    }
  }

  lemma CapaUpper(option: CapaOption)
    ensures Upper(CapaWord(option)) == CapaWord(option)
    ensures CapaWord(option) == "EOF" <==> option == Eof
  {
    UpperFixed(CapaWord(option));
  }

  lemma SectionUpper()
    ensures Upper(SECTION_WORD) == "REPLICATION"
  {
    SectionPieces();
    hide Upper;
    UpperAppend("REPLI", "CATION");
    assert SECTION_WORD == "REPLI" + "CATION";
  }

  lemma SectionPieces()
    ensures Upper("REPLI") == "REPLI" && Upper("CATION") == "CATION"
  {
    assert Upper("REPLI") == "REPLI" by { UpperFixed("REPLI"); }
    assert Upper("CATION") == "CATION" by { UpperFixed("CATION"); }
  }

  lemma {:induction false} ReadSections(sections: seq<InfoSection>, before: seq<InfoSection>)
    ensures InfoSections(Bulks(SectionWords(sections)), before) == Ok(before + sections)
  {
    hide SECTION_WORD, Upper;
    if sections == [] {
      assert before + [] == before;
    } else {
      var words := SectionWords(sections);
      assert words[1..] == SectionWords(sections[1..]);
      assert Bulks(words)[0] == BulkString(words[0]) && Bulks(words)[1..] == Bulks(words[1..]);
      assert sections[0] == Replication;
      SectionUpper();
      ReadSections(sections[1..], before + [Replication]);
      assert before + [sections[0]] + sections[1..] == before + sections;
    }
  }

  lemma OneBulk(a: string)
    ensures Bulks([a]) == [BulkString(a)]
  {
    assert [a][1..] == [] && Bulks([a][1..]) == [];
  }

  lemma TwoBulks(a: string, b: string)
    ensures Bulks([a, b]) == [BulkString(a), BulkString(b)]
  {
    OneBulk(b);
    assert [a, b][1..] == [b];
  }

  lemma {:induction false} BulksAppend(a: seq<string>, b: seq<string>)
    ensures Bulks(a + b) == Bulks(a) + Bulks(b)
  {
    if a == [] {
      assert a + b == b;
    } else {
      assert (a + b)[1..] == a[1..] + b;
      BulksAppend(a[1..], b);
    }
  }

  lemma DispatchSet(key: string, value: string, px: Option<u64>)
    ensures ParseSet(Bulks(Arguments(Set(key, value, px)))) == Ok(Set(key, value, px))
  {
    TwoBulks(key, value);
    var vs := Bulks(Arguments(Set(key, value, px)));
    if px.Some? {
      var options := [BulkString("PX"), BulkString(Show(px.value))];
      BulksAppend([key, value], ["PX", Show(px.value)]);
      TwoBulks("PX", Show(px.value));
      assert vs[2..] == options;
      UpperFixed("PX");
      ParseShow(px.value, U64_MAX);
      hide Upper, ParseUnsigned;
      assert options[2..] == [];
      assert SetOptions(options[2..], Some(px.value)) == Ok(Some(px.value));
    } else {
      assert [key, value] + [] == [key, value];
      assert vs[2..] == [];
    }
  }

  lemma ReadConfig(option: ConfigGetOption)
    ensures ParseConfig(Bulks(Arguments(ConfigGet(option)))) == Ok(ConfigGet(option))
  {
    var word := if option == Dir then "DIR" else "DBFILENAME";
    TwoBulks("GET", word);
    UpperFixed("GET");
    UpperFixed(word);
    hide Upper;
  }

  lemma ReadReplconf(sub: ReplconfSubcommand)
    requires Spellable(Replconf(sub))
    ensures ParseReplconf(Bulks(Arguments(Replconf(sub)))) == Ok(sub)
  {
    hide ParseReplconf;
    match sub
    case ListeningPort(port) => ReadPort(port);
    case Capa(options) => ReadCapaCommand(options);
    case Getack(arg) =>
      TwoBulks("GETACK", arg);
      ParseGetack(Bulks(["GETACK", arg]), arg);
    case Ack(offset) => ReadAck(offset);
  }

  lemma ReadPort(port: nat)
    requires port <= U16_MAX
    ensures ParseReplconf(Bulks([PORT_WORD, Show(port)])) == Ok(ListeningPort(port))
  {
    hide PORT_WORD, Upper, ParseUnsigned, Show;
    TwoBulks(PORT_WORD, Show(port));
    ParseShow(port, U16_MAX);
    PortUpper();
    ReadPortWord(PORT_WORD, Show(port));
  }

  lemma ReadPortWord(word: string, digits: string)
    requires Upper(word) == "LISTENING-PORT"
    ensures ParseReplconf([BulkString(word), BulkString(digits)]) ==
              var n := ParseNumber(digits, U16_MAX);
              if n.Ok? then Ok(ListeningPort(n.value)) else Err(BadInteger)
  {
    hide Upper, ParseUnsigned, CapaOptions;
  }

  lemma PortUpper()
    ensures Upper(PORT_WORD) == "LISTENING-PORT"
  {
    hide Upper;
    PortPieces();
    UpperAppend("LISTEN", "ING-PORT");
    assert PORT_WORD == "LISTEN" + "ING-PORT";
  }

  lemma PortPieces()
    ensures Upper("LISTEN") == "LISTEN" && Upper("ING-PORT") == "ING-PORT"
  {
    assert Upper("LISTEN") == "LISTEN" by { UpperFixed("LISTEN"); }
    assert Upper("ING-PORT") == "ING-PORT" by { UpperFixed("ING-PORT"); }
  }

  lemma {:induction false} UpperAppend(a: string, b: string)
    ensures Upper(a + b) == Upper(a) + Upper(b)
  {
    if a == "" {
      assert a + b == b;
    } else {
      assert (a + b)[1..] == a[1..] + b;
      UpperAppend(a[1..], b);
    }
  }

  lemma ReadCapaCommand(options: seq<CapaOption>)
    requires options != []
    ensures ParseReplconf(Bulks(["CAPA"] + CapaWords(options))) == Ok(Capa(options))
  {
    BulksAppend(["CAPA"], CapaWords(options));
    OneBulk("CAPA");
    ReadCapa(options, []);
    UpperFixed("CAPA");
    hide Upper, CapaOptions;
    var vs := Bulks(["CAPA"] + CapaWords(options));
    assert vs[1..] == Bulks(CapaWords(options)) && [] + options == options;
  }

  lemma ReadAck(offset: u64)
    ensures ParseReplconf(Bulks(["ACK", Show(offset)])) == Ok(Ack(offset))
  {
    TwoBulks("ACK", Show(offset));
    ParseShow(offset, U64_MAX);
    UpperFixed("ACK");
    hide Upper, ParseUnsigned, CapaOptions, Show;
  }

  lemma ReadPsync(id: Option<string>, offset: Option<u64>)
    requires id.Some? ==> |id.value| == 40
    ensures ParsePsync(Bulks(Arguments(Psync(id, offset)))) == Ok(Psync(id, offset))
  {
    hide Show, ParseUnsigned;
    var a := if id.Some? then id.value else "?";
    var b := if offset.Some? then Show(offset.value) else "-1";
    TwoBulks(a, b);
    if offset.Some? {
      ParseShow(offset.value, U64_MAX);
    } else {
      MinusOne();
    }
  }

  lemma MinusOne()
    ensures ParseUnsigned("-1", U64_MAX).None?
  {
    assert !IsDigit("-1"[0]);
  }

  lemma DispatchInverse(cmd: Command)
    requires Spellable(cmd)
    ensures Dispatch(Name(cmd), Bulks(Arguments(cmd))) == Ok(cmd)
  {
    hide Upper, SetOptions, CapaOptions, InfoSections, ParseReplconf, ParseConfig, ParsePsync, ParseSet, Show;
    match cmd
    case Set(key, value, px) => DispatchSet(key, value, px);
    case Get(key) => OneBulk(key);
    case Echo(words) => OneBulk(words);
    case ConfigGet(option) => ReadConfig(option);
    case Keys(pattern) =>
      OneBulk(pattern);
      GlobPlain(pattern);
    case Incr(key) => OneBulk(key);
    case Info(sections) =>
      ReadSections(sections, []);
      assert [] + sections == sections;
    case Replconf(sub) => ReadReplconf(sub);
    case Psync(id, offset) => ReadPsync(id, offset);
    case _ =>
  }

  lemma NameCapital(cmd: Command)
    ensures NoSmall(Name(cmd))
  {
  }

  /** Reading undoes spelling, for every command and every letter case of its name. */
  lemma ParseSpelled(cmd: Command, name: string)
    requires Spellable(cmd) && SameLetters(name, Name(cmd))
    ensures ParseCommand([BulkString(name)] + Bulks(Arguments(cmd))) == Ok(cmd)
  {
    NameCapital(cmd);
    hide Upper, Dispatch, Name, Arguments, SameLetters;
    UpperExact(name, Name(cmd));
    DispatchInverse(cmd);
    assert ([BulkString(name)] + Bulks(Arguments(cmd)))[1..] == Bulks(Arguments(cmd));
  }

  // ---------------------------------------------------------------- the options of SET

  /** The last PX wins over whatever options came before it. */
  lemma {:induction false} LastPxWins(options: seq<Value>, px: Option<u64>, word: string, millis: string)
    requires SetOptions(options, px).Ok? && SameLetters(word, "PX")
    ensures var n := ParseNumber(millis, U64_MAX);
            SetOptions(options + [BulkString(word), BulkString(millis)], px)
              == if n.Ok? then Ok(Some(n.value)) else Err(BadInteger)
  {
    hide Upper, SameLetters, ParseUnsigned;
    UpperExact(word, "PX");
    var last := [BulkString(word), BulkString(millis)];
    if options == [] {
      assert options + last == last && last[2..] == [];
      var n := ParseNumber(millis, U64_MAX);
      if n.Ok? {
        assert SetOptions(last[2..], Some(n.value)) == Ok(Some(n.value));
      }
    } else {
      var all := options + last;
      assert all[0] == options[0] && all[1..] == options[1..] + last;
      if Upper(options[0].text) == "PX" {
        assert all[1] == options[1] && all[2..] == options[2..] + last;
        LastPxWins(options[2..], Some(ParseNumber(options[1].text, U64_MAX).value), word, millis);
      } else {
        LastPxWins(options[1..], px, word, millis);
      }
    }
  }

  /** An option that is not PX changes nothing, wherever it stands among the others. */
  lemma {:induction false} UnknownOptionSkipped(before: seq<Value>, after: seq<Value>, px: Option<u64>, word: string)
    requires SetOptions(before, px).Ok? && !SameLetters(word, "PX")
    ensures SetOptions(before + [BulkString(word)] + after, px) == SetOptions(before + after, px)
  {
    hide Upper, SameLetters, ParseUnsigned;
    UpperExact(word, "PX");
    var all := before + [BulkString(word)] + after;
    if before == [] {
      assert all[0] == BulkString(word) && all[1..] == after && before + after == after;
    } else {
      var some := before + after;
      assert all[0] == before[0] == some[0];
      if Upper(before[0].text) == "PX" {
        assert all[1] == before[1] == some[1];
        assert all[2..] == before[2..] + [BulkString(word)] + after && some[2..] == before[2..] + after;
        UnknownOptionSkipped(before[2..], after, Some(ParseNumber(before[1].text, U64_MAX).value), word);
      } else {
        assert all[1..] == before[1..] + [BulkString(word)] + after && some[1..] == before[1..] + after;
        UnknownOptionSkipped(before[1..], after, px, word);
      }
    }
  }
}
