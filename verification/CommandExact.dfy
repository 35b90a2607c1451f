/** Exactly which parsed values `parse_command` reads as which command, without reference to upper-casing
    or to the parser's own loops. */
module CommandExact {
  import opened Basics
  import opened Decimal
  import opened RespSpec
  import opened Commands

  // ---------------------------------------------------------------- words in any letter case

  /** The same character, or a small letter for its capital. */
  predicate SameLetter(c: char, capital: char) {
    c == capital || ('A' <= capital <= 'Z' && c as int == capital as int + 32)
  }

  predicate SameLetters(s: string, name: string) {
    |s| == |name| && forall i | 0 <= i < |s| :: SameLetter(s[i], name[i])
  }

  predicate NoSmall(name: string) {
    forall i | 0 <= i < |name| :: !('a' <= name[i] <= 'z')
  }

  lemma {:induction false} UpperAt(s: string)
    ensures |Upper(s)| == |s| && forall i | 0 <= i < |s| :: Upper(s)[i] == UpperChar(s[i])
  {
    if s != "" {
      UpperAt(s[1..]);
    }
  }

  lemma UpperOne(c: char, capital: char)
    requires !('a' <= capital <= 'z')
    ensures UpperChar(c) == capital <==> SameLetter(c, capital)
  {
  }

  /** Upper-casing gives a name exactly if the letters are the same. */
  lemma UpperExact(s: string, name: string)
    requires NoSmall(name)
    ensures Upper(s) == name <==> SameLetters(s, name)
  {
    UpperAt(s);
    hide UpperChar, SameLetter, Upper;
    forall i | 0 <= i < |s| && |s| == |name|
      ensures UpperChar(s[i]) == name[i] <==> SameLetter(s[i], name[i])
    {
      UpperOne(s[i], name[i]);
    }
    if SameLetters(s, name) {
      assert forall i | 0 <= i < |s| :: Upper(s)[i] == name[i];
    }
  }

  predicate Word(vs: seq<Value>, i: nat, name: string) {
    i < |vs| && vs[i].BulkString? && SameLetters(vs[i].text, name)
  }

  predicate Argument(vs: seq<Value>, i: nat, text: string) {
    i < |vs| && vs[i] == BulkString(text)
  }

  /** A number that an unsigned type with this largest value can hold. */
  ghost predicate Numeral(vs: seq<Value>, i: nat, n: nat, max: nat) {
    i < |vs| && vs[i].BulkString? && n <= max && Spells(vs[i].text, n) && '-' !in vs[i].text
  }

  predicate AllBulk(vs: seq<Value>) {
    forall v | v in vs :: v.BulkString?
  }

  // ---------------------------------------------------------------- the grammar of SET's options

  datatype Choice = Px(word: string, digits: string, millis: u64) | Other(word: string) {
    ghost predicate Legal() {
      match this
      case Px(word, digits, millis) => SameLetters(word, "PX") && Spells(digits, millis) && '-' !in digits
      case Other(word) => !SameLetters(word, "PX")
    }

    function Values(): seq<Value> {
      match this
      case Px(word, digits, _) => [BulkString(word), BulkString(digits)]
      case Other(word) => [BulkString(word)]
    }
  }

  ghost predicate ChoicesLegal(cs: seq<Choice>) {
    forall c | c in cs :: c.Legal()
  }

  function ChoicesValues(cs: seq<Choice>): seq<Value> {
    if cs == [] then [] else cs[0].Values() + ChoicesValues(cs[1..])
  }

  /** The expiry of the last PX. */
  function LastPx(cs: seq<Choice>): Option<u64> {
    if cs == [] then None
    else if cs[|cs| - 1].Px? then Some(cs[|cs| - 1].millis)
    else LastPx(cs[..|cs| - 1])
  }

  ghost predicate Options(vs: seq<Value>, px: Option<u64>) {
    exists cs :: OptionsWith(vs, px, cs)
  }

  ghost predicate OptionsWith(vs: seq<Value>, px: Option<u64>, cs: seq<Choice>) {
    ChoicesLegal(cs) && ChoicesValues(cs) == vs && LastPx(cs) == px
  }

  lemma NumeralExact(s: string, n: nat, max: nat)
    ensures ParseUnsigned(s, max) == Some(n) <==> n <= max && Spells(s, n) && '-' !in s
  {
    ParseUnsignedExact(s, n, max);
    if Spells(s, n) {
      SignOnlyFirst(s, n);
    }
  }

  lemma SignOnlyFirst(s: string, n: int)
    requires Spells(s, n)
    ensures s != "" && ('-' in s <==> s[0] == '-')
  {
    var k: nat :| SpellsWith(s, n, k);
    hide Show, Zeros;
    var m := if n < 0 then -n else n;
    assert forall i | 0 <= i < |Zeros(k) + Show(m)| :: IsDigit((Zeros(k) + Show(m))[i]);
    if s[0] != '-' {
      forall i | 0 <= i < |s|
        ensures s[i] != '-'
      {
      }
    }
  }

  lemma {:induction false} LastPxCons(c: Choice, cs: seq<Choice>)
    ensures LastPx([c] + cs) == if LastPx(cs).Some? then LastPx(cs) else if c.Px? then Some(c.millis) else None
  {
    if cs == [] {
      assert [c] + cs == [c] && [c][..0] == [];
    } else {
      assert ([c] + cs)[..|cs|] == [c] + cs[..|cs| - 1];
      LastPxCons(c, cs[..|cs| - 1]);
    }
  }

  /** The loop reads the choices. */
  lemma {:induction false} OptionsRead(cs: seq<Choice>, px: Option<u64>)
    requires ChoicesLegal(cs)
    ensures SetOptions(ChoicesValues(cs), px) == Ok(if LastPx(cs).Some? then LastPx(cs) else px)
  {
    hide ParseUnsigned, Upper, Spells, SameLetters;
    if cs != [] {
      var c, rest := cs[0], cs[1..];
      assert c.Legal() && cs == [c] + rest;
      UpperExact(c.word, "PX");
      LastPxCons(c, rest);
      var vs := ChoicesValues(cs);
      if c.Px? {
        NumeralExact(c.digits, c.millis, U64_MAX);
        OptionsRead(rest, Some(c.millis));
        assert vs[0] == BulkString(c.word) && vs[1] == BulkString(c.digits) && vs[2..] == ChoicesValues(rest);
      } else {
        OptionsRead(rest, px);
        assert vs[0] == BulkString(c.word) && vs[1..] == ChoicesValues(rest);
      }
    }
  }

  /** Whatever the loop reads was written as choices. */
  lemma {:induction false} OptionsDerived(vs: seq<Value>, px: Option<u64>) returns (cs: seq<Choice>)
    requires SetOptions(vs, px).Ok?
    ensures ChoicesLegal(cs) && ChoicesValues(cs) == vs
    ensures SetOptions(vs, px).value == if LastPx(cs).Some? then LastPx(cs) else px
  {
    hide ParseUnsigned, Upper, Spells, SameLetters;
    if vs == [] {
      cs := [];
    } else {
      var word := vs[0].text;
      UpperExact(word, "PX");
      var c: Choice;
      if Upper(word) == "PX" {
        var digits := vs[1].text;
        var n := ParseNumber(digits, U64_MAX).value;
        NumeralExact(digits, n, U64_MAX);
        c := Px(word, digits, n);
        cs := OptionsDerived(vs[2..], Some(n));
        assert vs == [BulkString(word), BulkString(digits)] + vs[2..];
      } else {
        c := Other(word);
        cs := OptionsDerived(vs[1..], px);
        assert vs == [BulkString(word)] + vs[1..];
      }
      assert c.Legal();
      LastPxCons(c, cs);
      assert ([c] + cs)[1..] == cs;
      cs := [c] + cs;
    }
  }

  lemma OptionsExact(vs: seq<Value>, px: Option<u64>)
    ensures SetOptions(vs, None) == Ok(px) <==> Options(vs, px)
  {
    hide ParseUnsigned, Upper, Spells, SameLetters;
    if SetOptions(vs, None) == Ok(px) {
      var cs := OptionsDerived(vs, None);
      assert OptionsWith(vs, px, cs);
    }
    if Options(vs, px) {
      var cs :| OptionsWith(vs, px, cs);
      OptionsRead(cs, None);
    }
  }

  // ---------------------------------------------------------------- patterns

  function Join(pieces: seq<string>, glue: string): string
    requires pieces != []
  {
    if |pieces| == 1 then pieces[0] else pieces[0] + glue + Join(pieces[1..], glue)
  }

  predicate StarFree(pieces: seq<string>) {
    forall p | p in pieces :: '*' !in p
  }

  /** The pattern is the text with `.*` for every star. */
  ghost predicate Rewritten(text: string, pattern: string) {
    exists pieces: seq<string> :: RewrittenWith(text, pattern, pieces)
  }

  predicate RewrittenWith(text: string, pattern: string, pieces: seq<string>) {
    pieces != [] && StarFree(pieces) && text == Join(pieces, "*") && pattern == Join(pieces, ".*")
  }

  lemma {:induction false} GlobAppend(a: string, b: string)
    ensures GlobPattern(a + b) == GlobPattern(a) + GlobPattern(b)
  {
    if a == "" {
      assert a + b == b;
    } else {
      assert (a + b)[1..] == a[1..] + b;
      GlobAppend(a[1..], b);
    }
  }

  /** One star becomes a dot and a star; the texts around it are rewritten by themselves. */
  lemma GlobStar(a: string, b: string)
    ensures GlobPattern(a + "*" + b) == GlobPattern(a) + ".*" + GlobPattern(b)
  {
    GlobAppend(a + "*", b);
    GlobAppend(a, "*");
    assert GlobPattern("*") == ".*" + GlobPattern("*"[1..]) == ".*" + "" == ".*";
  }

  lemma {:induction false} GlobFree(s: string)
    requires '*' !in s
    ensures GlobPattern(s) == s
  {
    if s != "" {
      GlobFree(s[1..]);
    }
  }

  lemma {:induction false} GlobJoin(pieces: seq<string>)
    requires pieces != [] && StarFree(pieces)
    ensures GlobPattern(Join(pieces, "*")) == Join(pieces, ".*")
  {
    assert pieces[0] in pieces;
    GlobFree(pieces[0]);
    if |pieces| > 1 {
      GlobJoin(pieces[1..]);
      GlobStar(pieces[0], Join(pieces[1..], "*"));
    }
  }

  lemma {:induction false} Pieces(s: string) returns (pieces: seq<string>)
    ensures pieces != [] && StarFree(pieces) && s == Join(pieces, "*")
  {
    if s == "" {
      pieces := [""];
    } else {
      pieces := Pieces(s[1..]);
      if s[0] == '*' {
        assert ([""] + pieces)[1..] == pieces;
        pieces := [""] + pieces;
      } else {
        var first := [s[0]] + pieces[0];
        assert ([first] + pieces[1..])[1..] == pieces[1..];
        assert s == first + Join(pieces, "*")[|pieces[0]|..];
        pieces := [first] + pieces[1..];
      }
    }
  }

  lemma GlobExact(text: string, pattern: string)
    ensures GlobPattern(text) == pattern <==> Rewritten(text, pattern)
  {
    if GlobPattern(text) == pattern {
      var pieces := Pieces(text);
      GlobJoin(pieces);
      assert RewrittenWith(text, pattern, pieces);
    }
    if Rewritten(text, pattern) {
      var pieces: seq<string> :| RewrittenWith(text, pattern, pieces);
      GlobJoin(pieces);
    }
  }

  // ---------------------------------------------------------------- lists of words

  /** The capabilities among words, in order. */
  function Capabilities(vs: seq<Value>): seq<CapaOption> {
    if vs == [] then []
    else
      Capabilities(vs[..|vs| - 1])
      + if Word(vs, |vs| - 1, "EOF") then [Eof] else if Word(vs, |vs| - 1, "PSYNC2") then [Psync2] else []
  }

  /** How many of the words ask for replication. */
  function Asked(vs: seq<Value>): nat {
    if vs == [] then 0 else Asked(vs[..|vs| - 1]) + if Word(vs, |vs| - 1, "REPLICATION") then 1 else 0
  }

  lemma {:induction false} CapabilitiesCons(v: Value, vs: seq<Value>)
    ensures Capabilities([v] + vs) == Capabilities([v]) + Capabilities(vs)
  {
    hide SameLetters;
    var all := [v] + vs;
    if vs == [] {
      assert all == [v];
    } else {
      assert all[..|all| - 1] == [v] + vs[..|vs| - 1] && all[|all| - 1] == vs[|vs| - 1];
      CapabilitiesCons(v, vs[..|vs| - 1]);
    }
  }

  lemma {:induction false} AskedCons(v: Value, vs: seq<Value>)
    ensures Asked([v] + vs) == Asked([v]) + Asked(vs)
  {
    hide SameLetters;
    var all := [v] + vs;
    if vs == [] {
      assert all == [v];
    } else {
      assert all[..|all| - 1] == [v] + vs[..|vs| - 1] && all[|all| - 1] == vs[|vs| - 1];
      AskedCons(v, vs[..|vs| - 1]);
    }
  }

  lemma {:induction false} CapaExact(vs: seq<Value>, before: seq<CapaOption>)
    ensures CapaOptions(vs, before) == if AllBulk(vs) then Ok(before + Capabilities(vs)) else Err(BadCommand)
  {
    hide Upper, SameLetters;
    if vs == [] {
      assert before + [] == before;
    } else {
      var v, rest := vs[0], vs[1..];
      assert vs == [v] + rest && v in vs;
      if v.BulkString? {
        UpperExact(v.text, "EOF");
        UpperExact(v.text, "PSYNC2");
        var one := if Upper(v.text) == "EOF" then [Eof] else if Upper(v.text) == "PSYNC2" then [Psync2] else [];
        assert [v][..0] == [] && Capabilities([v]) == [] + one == one;
        CapabilitiesCons(v, rest);
        CapaExact(rest, before + one);
        assert before + one + Capabilities(rest) == before + Capabilities(vs);
        assert AllBulk(vs) == AllBulk(rest);
      }
    }
  }

  lemma {:induction false} InfoExact(vs: seq<Value>, before: seq<InfoSection>)
    ensures AllBulk(vs) <==> InfoSections(vs, before).Ok?
    ensures AllBulk(vs) ==> |InfoSections(vs, before).value| == |before| + Asked(vs)
    ensures !AllBulk(vs) ==> InfoSections(vs, before) == Err(BadCommand)
  {
    hide Upper, SameLetters;
    if vs != [] {
      var v, rest := vs[0], vs[1..];
      assert vs == [v] + rest && v in vs;
      if v.BulkString? {
        UpperExact(v.text, "REPLICATION");
        assert [v][..0] == [];
        AskedCons(v, rest);
        InfoExact(rest, before + if Upper(v.text) == "REPLICATION" then [Replication] else []);
        assert AllBulk(vs) == AllBulk(rest);
      }
    }
  }

  lemma {:induction false} SectionsEqual(a: seq<InfoSection>, b: seq<InfoSection>)
    requires |a| == |b|
    ensures a == b
  {
    forall i | 0 <= i < |a|
      ensures a[i] == b[i]
    {
      assert a[i] == Replication && b[i] == Replication;
    }
  }

  // ---------------------------------------------------------------- what each command's words are

  ghost predicate Denotes(vs: seq<Value>, cmd: Command) {
    match cmd
    case Set(key, value, px) =>
      Word(vs, 0, "SET") && Argument(vs, 1, key) && Argument(vs, 2, value) && Options(vs[3..], px)
    case Get(key) => Word(vs, 0, "GET") && Argument(vs, 1, key)
    case Ping => Word(vs, 0, "PING")
    case Echo(words) => Word(vs, 0, "ECHO") && Argument(vs, 1, words)
    case ConfigGet(option) =>
      && Word(vs, 0, "CONFIG") && Word(vs, 1, "GET")
      && (match option case Dir => Word(vs, 2, "DIR") case DbFilename => Word(vs, 2, "DBFILENAME"))
    case Keys(pattern) => Word(vs, 0, "KEYS") && |vs| > 1 && vs[1].BulkString? && Rewritten(vs[1].text, pattern)
    case Incr(key) => Word(vs, 0, "INCR") && Argument(vs, 1, key)
    case Multi => Word(vs, 0, "MULTI")
    case Exec => Word(vs, 0, "EXEC")
    case Discard => Word(vs, 0, "DISCARD")
    case Info(sections) => Word(vs, 0, "INFO") && AllBulk(vs[1..]) && |sections| == Asked(vs[1..])
    case Replconf(sub) => Word(vs, 0, "REPLCONF") && DenotesSub(vs, sub)
    case Psync(id, offset) => Word(vs, 0, "PSYNC") && DenotesPsync(vs, id, offset)
  }

  ghost predicate DenotesSub(vs: seq<Value>, sub: ReplconfSubcommand) {
    match sub
    case ListeningPort(port) => Word(vs, 1, "LISTENING-PORT") && Numeral(vs, 2, port, 65535)
    case Capa(options) => Word(vs, 1, "CAPA") && AllBulk(vs[2..]) && options == Capabilities(vs[2..]) && options != []
    case Getack(arg) => Word(vs, 1, "GETACK") && Argument(vs, 2, arg)
    case Ack(offset) => Word(vs, 1, "ACK") && Numeral(vs, 2, offset, 18446744073709551615)
  }

  /** An id is anything of forty characters, and an offset anything that is no u64 is none. */
  ghost predicate DenotesPsync(vs: seq<Value>, id: Option<string>, offset: Option<u64>) {
    && |vs| > 2 && vs[1].BulkString? && vs[2].BulkString?
    && (if |vs[1].text| == 40 then id == Some(vs[1].text) else id == None)
    && (match offset
        case Some(n) => Numeral(vs, 2, n, 18446744073709551615)
        case None => forall n: u64 :: !Numeral(vs, 2, n, 18446744073709551615))
  }

  // ---------------------------------------------------------------- the exact law

  /** The words after the command's name, counted from the name. */
  lemma Shift(vs: seq<Value>, i: nat, name: string)
    requires vs != []
    ensures Word(vs, i + 1, name) == Word(vs[1..], i, name) && Argument(vs, i + 1, name) == Argument(vs[1..], i, name)
  {
  }

  lemma SetExact(vs: seq<Value>, key: string, value: string, px: Option<u64>)
    requires vs != []
    ensures ParseSet(vs[1..]) == Ok(Set(key, value, px)) <==>
              Argument(vs, 1, key) && Argument(vs, 2, value) && Options(vs[3..], px)
  {
    hide SetOptions, Options;
    if |vs| >= 3 {
      assert vs[1..][2..] == vs[3..];
      OptionsExact(vs[3..], px);
    }
  }

  lemma SetIsSet(vs: seq<Value>)
    ensures ParseSet(vs).Ok? ==> ParseSet(vs).value.Set?
  {
  }

  lemma ConfigExact(vs: seq<Value>, cmd: Command)
    requires vs != []
    ensures ParseConfig(vs[1..]) == Ok(cmd) <==>
              && cmd.ConfigGet? && Word(vs, 1, "GET")
              && (match cmd.option case Dir => Word(vs, 2, "DIR") case DbFilename => Word(vs, 2, "DBFILENAME"))
  {
    hide Upper, SameLetters;
    if |vs| > 1 && vs[1].BulkString? {
      UpperExact(vs[1].text, "GET");
    }
    if |vs| > 2 && vs[2].BulkString? {
      UpperExact(vs[2].text, "DIR");
      UpperExact(vs[2].text, "DBFILENAME");
    }
  }

  lemma KeysExactly(vs: seq<Value>, pattern: string)
    requires |vs| > 1 && vs[1].BulkString?
    ensures GlobPattern(vs[1].text) == pattern <==> Rewritten(vs[1].text, pattern)
  {
    GlobExact(vs[1].text, pattern);
  }

  lemma NumberExact(vs: seq<Value>, i: nat, n: nat, max: u64)
    requires i < |vs| && vs[i].BulkString? && n <= U64_MAX
    ensures ParseNumber(vs[i].text, max) == Ok(n) <==> Numeral(vs, i, n, max)
  {
    hide ParseUnsigned, Spells;
    NumeralExact(vs[i].text, n, max);
  }

  lemma ReplconfExact(vs: seq<Value>, sub: ReplconfSubcommand)
    requires vs != []
    ensures ParseReplconf(vs[1..]) == Ok(sub) <==> DenotesSub(vs, sub)
  {
    hide Upper, SameLetters, ParseNumber, Numeral, CapaOptions, Capabilities, AllBulk;
    if |vs| > 1 && vs[1].BulkString? {
      var name := vs[1].text;
      assert NoSmall("LISTENING-PORT") && NoSmall("CAPA") && NoSmall("GETACK") && NoSmall("ACK");
      UpperExact(name, "LISTENING-PORT");
      UpperExact(name, "CAPA");
      UpperExact(name, "GETACK");
      UpperExact(name, "ACK");
      assert vs[1..][1..] == vs[2..];
      CapaExact(vs[2..], []);
      assert [] + Capabilities(vs[2..]) == Capabilities(vs[2..]);
      if |vs| > 2 && vs[2].BulkString? {
        if sub.ListeningPort? {
          PortExact(vs, sub.port);
        }
        if sub.Ack? {
          NumberExact(vs, 2, sub.offset, U64_MAX);
        }
      } else {
        NoNumeral(vs);
      }
    }
  }

  lemma PortExact(vs: seq<Value>, port: nat)
    requires |vs| > 2 && vs[2].BulkString?
    ensures ParseNumber(vs[2].text, U16_MAX) == Ok(port as int) <==> Numeral(vs, 2, port, 65535)
  {
    hide ParseUnsigned, Spells;
    NumeralExact(vs[2].text, port, U16_MAX);
  }

  lemma NoNumeral(vs: seq<Value>)
    requires |vs| <= 2 || !vs[2].BulkString?
    ensures forall n: nat, max: nat :: !Numeral(vs, 2, n, max)
  {
  }

  lemma PsyncExact(vs: seq<Value>, cmd: Command)
    requires vs != []
    ensures ParsePsync(vs[1..]) == Ok(cmd) <==> cmd.Psync? && DenotesPsync(vs, cmd.id, cmd.replOffset)
  {
    hide ParseNumber, Numeral;
    if |vs| > 2 && vs[1].BulkString? && vs[2].BulkString? {
      forall n: u64
        ensures ParseNumber(vs[2].text, U64_MAX) == Ok(n) <==> Numeral(vs, 2, n, 18446744073709551615)
      {
        NumberExact(vs, 2, n, U64_MAX);
      }
      var r := ParseNumber(vs[2].text, U64_MAX);
      assert r.Ok? ==> Numeral(vs, 2, r.value, 18446744073709551615);
    }
  }

  /** The names, each against what upper-casing gives. */
  lemma NamesExact(s: string)
    ensures Upper(s) == "SET" <==> SameLetters(s, "SET")
    ensures Upper(s) == "GET" <==> SameLetters(s, "GET")
    ensures Upper(s) == "PING" <==> SameLetters(s, "PING")
    ensures Upper(s) == "ECHO" <==> SameLetters(s, "ECHO")
    ensures Upper(s) == "CONFIG" <==> SameLetters(s, "CONFIG")
    ensures Upper(s) == "KEYS" <==> SameLetters(s, "KEYS")
    ensures Upper(s) == "INCR" <==> SameLetters(s, "INCR")
    ensures Upper(s) == "MULTI" <==> SameLetters(s, "MULTI")
    ensures Upper(s) == "EXEC" <==> SameLetters(s, "EXEC")
    ensures Upper(s) == "DISCARD" <==> SameLetters(s, "DISCARD")
    ensures Upper(s) == "INFO" <==> SameLetters(s, "INFO")
    ensures Upper(s) == "REPLCONF" <==> SameLetters(s, "REPLCONF")
    ensures Upper(s) == "PSYNC" <==> SameLetters(s, "PSYNC")
  {
    hide Upper, SameLetters;
    UpperExact(s, "SET");
    UpperExact(s, "GET");
    UpperExact(s, "PING");
    UpperExact(s, "ECHO");
    UpperExact(s, "CONFIG");
    UpperExact(s, "KEYS");
    UpperExact(s, "INCR");
    UpperExact(s, "MULTI");
    UpperExact(s, "EXEC");
    UpperExact(s, "DISCARD");
    UpperExact(s, "INFO");
    UpperExact(s, "REPLCONF");
    UpperExact(s, "PSYNC");
  }

  /** Values are read as a command if and only if they denote it: the right words in any letter case, the
      arguments as they stand, numbers in decimal that fit, the last PX, the pattern rewritten. */
  lemma ParseCommandExact(vs: seq<Value>, cmd: Command)
    ensures ParseCommand(vs) == Ok(cmd) <==> Denotes(vs, cmd)
  {
    hide Upper, SameLetters, ParseSet, ParseConfig, ParseReplconf, ParsePsync, InfoSections, Options, DenotesSub,
         DenotesPsync, GlobPattern, Rewritten, AllBulk, Asked;
    if vs != [] && vs[0].BulkString? {
      NamesExact(vs[0].text);
      SetIsSet(vs[1..]);
      ConfigExact(vs, cmd);
      PsyncExact(vs, cmd);
      InfoExact(vs[1..], []);
      match cmd
      case Set(key, value, px) => SetExact(vs, key, value, px);
      case Keys(pattern) =>
        if |vs| > 1 && vs[1].BulkString? {
          KeysExactly(vs, pattern);
        }
      case Info(sections) =>
        var read := InfoSections(vs[1..], []);
        if read.Ok? && |read.value| == |sections| {
          SectionsEqual(read.value, sections);
        }
      case Replconf(sub) => ReplconfExact(vs, sub);
      case Get(_) =>
      case Echo(_) =>
      case Incr(_) =>
      case Psync(_, _) =>
      case ConfigGet(_) =>
      case Ping =>
      case Multi =>
      case Exec =>
      case Discard =>
    }
  }

  /** A list of values that denotes nothing is refused, with an error and never with a panic. */
  lemma ParseCommandRefuses(vs: seq<Value>)
    ensures ParseCommand(vs).Ok? || ParseCommand(vs) == Err(BadCommand) || ParseCommand(vs) == Err(BadInteger)
  {
    hide Upper, GlobPattern, ParseUnsigned;
    if |vs| >= 3 {
      OptionsRefuse(vs[1..][2..], None);
    }
    if |vs| >= 2 {
      CapaExact(vs[1..][1..], []);
      InfoExact(vs[1..], []);
    } else if |vs| == 1 {
      InfoExact(vs[1..], []);
    }
  }

  lemma {:induction false} OptionsRefuse(vs: seq<Value>, px: Option<u64>)
    ensures SetOptions(vs, px).Ok? || SetOptions(vs, px) == Err(BadCommand) || SetOptions(vs, px) == Err(BadInteger)
  {
    hide Upper, ParseUnsigned;
    if vs != [] && vs[0].BulkString? {
      if Upper(vs[0].text) == "PX" {
        if |vs| > 1 && vs[1].BulkString? && ParseNumber(vs[1].text, U64_MAX).Ok? {
          OptionsRefuse(vs[2..], Some(ParseNumber(vs[1].text, U64_MAX).value));
        }
      } else {
        OptionsRefuse(vs[1..], px);
      }
    }
  }
}
