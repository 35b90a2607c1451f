/** src/rdb_file_reader.rs in its own form: an iterator consumed by loops, and the loop over phases. */
module RdbReader {
  import opened Basics
  import opened Decimal
  import opened Executor
  import opened RdbSpec
  import RdbLanguage

  /** The little-endian loops: each byte is shifted to its place and added. */
  method ReadLittle(iter: Bytes, n: nat) returns (r: Outcome<(nat, Bytes)>)
    ensures r == TakeLittle(iter, n)
  {
    var res: nat := 0;
    var rest := iter;
    for i := 0 to n
      invariant i <= |iter| && rest == iter[i..] && res == Little(iter[..i])
    {
      if rest == [] {
        return Err(BadRdb);
      }
      LittleSnoc(iter[..i], iter[i]);
      assert iter[..i + 1] == iter[..i] + [iter[i]];
      res := res + rest[0] * RdbLanguage.Power256(i);
      rest := rest[1..];
    }
    r := Ok((res, rest));
  }

  lemma {:induction false} LittleSnoc(bs: Bytes, b: byte)
    ensures Little(bs + [b]) == Little(bs) + b * RdbLanguage.Power256(|bs|)
  {
    if bs != [] {
      assert (bs + [b])[1..] == bs[1..] + [b];
      LittleSnoc(bs[1..], b);
      var p := RdbLanguage.Power256(|bs| - 1);
      assert 256 * (b * p) == b * (256 * p);
    }
  }

  /** The big-endian loop: the result so far is shifted and the byte added. */
  method ReadBig(iter: Bytes, n: nat) returns (r: Outcome<(nat, Bytes)>)
    ensures r == TakeBig(iter, n)
  {
    var res: nat := 0;
    var rest := iter;
    for i := 0 to n
      invariant i <= |iter| && rest == iter[i..] && res == Big(iter[..i])
    {
      if rest == [] {
        return Err(BadRdb);
      }
      assert iter[..i + 1][..i] == iter[..i];
      res := 256 * res + rest[0];
      rest := rest[1..];
    }
    r := Ok((res, rest));
  }

  method DecodeLength(iter: Bytes) returns (r: Outcome<(nat, Bytes)>)
    ensures r == RdbSpec.DecodeLength(iter)
  {
    if iter == [] {
      return Err(BadRdb);
    }
    var first, rest := iter[0], iter[1..];
    if first / 64 == 3 {
      match first % 64
      case 0 => r := ReadLittle(rest, 1);
      case 1 => r := ReadLittle(rest, 2);
      case 2 => r := ReadLittle(rest, 4);
      case _ => r := Err(BadRdb);
    } else if first / 64 == 2 {
      r := ReadBig(rest, 4);
    } else if first / 64 == 1 {
      if rest == [] {
        return Err(BadRdb);
      }
      var high: nat := first % 64;
      r := Ok((high * 256 + rest[0], rest[1..]));
    } else {
      r := Ok((first % 64, rest));
    }
  }

  method DecodeString(iter: Bytes) returns (r: Outcome<(string, Bytes)>)
    ensures r == RdbSpec.DecodeString(iter)
  {
    if iter == [] {
      return Err(BadRdb);
    }
    var length := DecodeLength(iter);
    if !length.Ok? {
      return length.PropagateFailure();
    }
    var (n, after) := length.value;
    if iter[0] / 64 == 3 {
      return Ok((Show(n), after));
    }
    var res := "";
    var rest := after;
    for i := 0 to n
      invariant i <= |after| && rest == after[i..] && res == Latin(after[..i])
    {
      if rest == [] {
        return Err(BadRdb);
      }
      LatinSnoc(after[..i], after[i]);
      assert after[..i + 1] == after[..i] + [after[i]];
      res := res + [rest[0] as char];
      rest := rest[1..];
    }
    r := Ok((res, rest));
  }

  lemma {:induction false} LatinSnoc(bs: Bytes, b: byte)
    ensures Latin(bs + [b]) == Latin(bs) + [b as char]
  {
    if bs != [] {
      assert (bs + [b])[1..] == bs[1..] + [b];
      LatinSnoc(bs[1..], b);
    }
  }

  method ParseData(iter: Bytes, expiration: Option<Instant>) returns (r: Outcome<(Pair, Bytes)>)
    ensures r == RdbSpec.ParseData(iter, expiration)
  {
    if iter == [] || iter[0] != 0x00 {
      return Err(BadRdb);
    }
    var key := DecodeString(iter[1..]);
    if !key.Ok? {
      return key.PropagateFailure();
    }
    var value := DecodeString(key.value.1);
    if !value.Ok? {
      return value.PropagateFailure();
    }
    r := Ok((Pair(key.value.0, value.value.0, expiration), value.value.1));
  }

  /** One turn of the loop over a table's entries. */
  method ReadEntry(iter: Bytes) returns (r: Outcome<(Pair, Bytes)>)
    ensures r == ReadPair(iter)
  {
    if iter == [] {
      return Err(BadRdb);
    }
    match iter[0]
    case 0xfd =>
      var seconds := ReadLittle(iter[1..], 4);
      if !seconds.Ok? {
        return seconds.PropagateFailure();
      }
      r := ParseData(seconds.value.1, Some(seconds.value.0 * NANOS_PER_SECOND));
    case 0xfc =>
      var millis := ReadLittle(iter[1..], 8);
      if !millis.Ok? {
        return millis.PropagateFailure();
      }
      r := ParseData(millis.value.1, Some(millis.value.0 * NANOS_PER_MILLI));
    case _ =>
      r := ParseData(iter, None);
  }

  /** A database after its 0xfe flag. */
  method ReadTable(iter: Bytes) returns (r: Outcome<(seq<Pair>, Bytes)>)
    ensures r == ReadDatabase(iter)
  {
    var index := DecodeLength(iter);
    if !index.Ok? {
      return index.PropagateFailure();
    }
    var normal := DecodeLength(Skip(index.value.1));
    if !normal.Ok? {
      return normal.PropagateFailure();
    }
    var expiring := DecodeLength(normal.value.1);
    if !expiring.Ok? {
      return expiring.PropagateFailure();
    }
    r := ReadEntries(Max(normal.value.0, expiring.value.0), expiring.value.1);
  }

  /** The loop over a table's entries. */
  method ReadEntries(count: nat, iter: Bytes) returns (r: Outcome<(seq<Pair>, Bytes)>)
    ensures r == ReadPairs(count, iter)
  {
    hide ReadPair, After, ReadPairs;
    var pairs: seq<Pair> := [];
    var rest := iter;
    AfterNone(ReadPairs(count, iter));
    for i := 0 to count
      invariant ReadPairs(count, iter) == After(pairs, ReadPairs(count - i, rest))
    {
      var entry := ReadEntry(rest);
      AfterOne(pairs, count - i, rest);
      if !entry.Ok? {
        return entry.PropagateFailure();
      }
      pairs := pairs + [entry.value.0];
      rest := entry.value.1;
    }
    AfterAll(pairs, rest);
    r := Ok((pairs, rest));
  }

  /** What the rest of the loop adds to the pairs already read. */
  function After(pairs: seq<Pair>, more: Outcome<(seq<Pair>, Bytes)>): Outcome<(seq<Pair>, Bytes)> {
    match more
    case Ok(m) => Ok((pairs + m.0, m.1))
    case _ => more
  }

  lemma AfterNone(more: Outcome<(seq<Pair>, Bytes)>)
    ensures After([], more) == more
  {
    assert more.Ok? ==> [] + more.value.0 == more.value.0;
  }

  lemma AfterOne(pairs: seq<Pair>, n: nat, rest: Bytes)
    requires n > 0
    ensures var entry := ReadPair(rest);
            After(pairs, ReadPairs(n, rest)) ==
              if entry.Ok? then After(pairs + [entry.value.0], ReadPairs(n - 1, entry.value.1))
              else entry.PropagateFailure()
  {
    hide ReadPair;
    var entry := ReadPair(rest);
    if entry.Ok? {
      var more := ReadPairs(n - 1, entry.value.1);
      assert more.Ok? ==> pairs + ([entry.value.0] + more.value.0) == pairs + [entry.value.0] + more.value.0;
    }
  }

  lemma AfterAll(pairs: seq<Pair>, rest: Bytes)
    ensures After(pairs, ReadPairs(0, rest)) == Ok((pairs, rest))
  {
    assert pairs + [] == pairs;
  }

  datatype Phase = Header | Metadata | Database | CheckSum {
    function Rank(): nat {
      match this
      case Header => 3
      case Metadata => 2
      case Database => 1
      case CheckSum => 0
    }
  }

  datatype State = State(phase: Phase, iter: Bytes, version: Bytes, aux: seq<(string, string)>, datasets: seq<seq<Pair>>) {

    /** The outcome of the loop from this state on. */
    function Remaining(): Outcome<(RdbFile, Bytes)> {
      match phase
      case Header => RdbSpec.ReadRdb(iter)
      case Metadata =>
        var m :- ReadMetadata(iter);
        Ok((RdbFile(version, aux + m.0, datasets + m.1), m.2))
      case Database =>
        var m :- ReadDatabases(iter);
        Ok((RdbFile(version, aux, datasets + m.0), m.1))
      case CheckSum => Ok((RdbFile(version, aux, datasets), iter))
    }
  }

  /** The loop over phases. Changing phase consumes nothing, so it ends because the bytes left and then
      the phase's rank decrease. */
  method ReadRdb(bytes: Bytes) returns (r: Outcome<RdbFile>)
    ensures r.Ok? ==> RdbSpec.ReadRdb(bytes).Ok? && RdbSpec.ReadRdb(bytes).value.0 == r.value
    ensures !r.Ok? ==> RdbSpec.ReadRdb(bytes) == r.PropagateFailure()
  {
    var phase := Header;
    var iter := bytes;
    var version: Bytes := [];
    var aux: seq<(string, string)> := [];
    var datasets: seq<seq<Pair>> := [];

    while phase != CheckSum
      invariant phase == Header ==> aux == [] && datasets == []
      invariant State(phase, iter, version, aux, datasets).Remaining() == RdbSpec.ReadRdb(bytes)
      decreases |iter|, phase.Rank()
    {
      hide State.Remaining, RdbSpec.ReadRdb, RdbSpec.DecodeString, ReadDatabase;
      ghost var s := State(phase, iter, version, aux, datasets);
      match phase
      case Header =>
        HeaderTurn(s);
        if |iter| < 9 || iter[..5] != MAGIC {
          return Err(BadRdb);
        }
        version := iter[5..9];
        iter := iter[9..];
        phase := Metadata;
      case Metadata =>
        FlagTurn(s);
        if iter == [] {
          return Err(BadRdb);
        }
        if iter[0] == 0xfa {
          AuxTurn(s);
          var key := DecodeString(iter[1..]);
          if !key.Ok? {
            return key.PropagateFailure();
          }
          var value := DecodeString(key.value.1);
          if !value.Ok? {
            return value.PropagateFailure();
          }
          aux := aux + [(key.value.0, value.value.0)];
          iter := value.value.1;
        } else if iter[0] == 0xfe {
          phase := Database;
        } else if iter[0] == 0xff {
          phase := CheckSum;
        } else {
          return Err(BadRdb);
        }
      case Database =>
        FlagTurn(s);
        if iter == [] {
          return Err(BadRdb);
        }
        if iter[0] == 0xfe {
          TableTurn(s);
          var table := ReadTable(iter[1..]);
          if !table.Ok? {
            return table.PropagateFailure();
          }
          datasets := datasets + [table.value.0];
          iter := table.value.1;
        } else if iter[0] == 0xff {
          phase := CheckSum;
        } else {
          return Err(BadRdb);
        }
    }
    r := Ok(RdbFile(version, aux, datasets));
  }

  lemma HeaderTurn(s: State)
    requires s.phase == Header && s.aux == [] && s.datasets == []
    ensures if |s.iter| < 9 || s.iter[..5] != MAGIC then s.Remaining() == Err(BadRdb)
            else s.(phase := Metadata, iter := s.iter[9..], version := s.iter[5..9]).Remaining() == s.Remaining()
  {
    hide ReadMetadata;
    if |s.iter| >= 9 {
      var m := ReadMetadata(s.iter[9..]);
      assert m.Ok? ==> [] + m.value.0 == m.value.0 && [] + m.value.1 == m.value.1;
    }
  }

  /** What the flag byte alone decides. */
  lemma FlagTurn(s: State)
    requires s.phase == Metadata || s.phase == Database
    ensures s.iter == [] ==> s.Remaining() == Err(BadRdb)
    ensures s.iter != [] && s.iter[0] == 0xff ==> s.(phase := CheckSum).Remaining() == s.Remaining()
    ensures s.iter != [] && s.iter[0] == 0xfe && s.phase == Metadata ==> s.(phase := Database).Remaining() == s.Remaining()
    ensures s.iter != [] && s.iter[0] != 0xff && s.iter[0] != 0xfe && (s.iter[0] != 0xfa || s.phase == Database) ==>
              s.Remaining() == Err(BadRdb)
  {
    hide ReadDatabase, RdbSpec.DecodeString;
    assert s.aux + [] == s.aux && s.datasets + [] == s.datasets;
  }

  lemma AuxTurn(s: State)
    requires s.phase == Metadata && s.iter != [] && s.iter[0] == 0xfa
    ensures var key := RdbSpec.DecodeString(s.iter[1..]);
            if !key.Ok? then s.Remaining() == key.PropagateFailure()
            else
              var value := RdbSpec.DecodeString(key.value.1);
              if !value.Ok? then s.Remaining() == value.PropagateFailure()
              else s.(iter := value.value.1, aux := s.aux + [(key.value.0, value.value.0)]).Remaining() == s.Remaining()
  {
    hide RdbSpec.DecodeString;
    var key := RdbSpec.DecodeString(s.iter[1..]);
    if key.Ok? {
      var value := RdbSpec.DecodeString(key.value.1);
      if value.Ok? {
        var m := ReadMetadata(value.value.1);
        assert m.Ok? ==> s.aux + ([(key.value.0, value.value.0)] + m.value.0) == s.aux + [(key.value.0, value.value.0)] + m.value.0;
      }
    }
  }

  lemma TableTurn(s: State)
    requires s.phase == Database && s.iter != [] && s.iter[0] == 0xfe
    ensures var table := ReadDatabase(s.iter[1..]);
            if !table.Ok? then s.Remaining() == table.PropagateFailure()
            else s.(iter := table.value.1, datasets := s.datasets + [table.value.0]).Remaining() == s.Remaining()
  {
    hide ReadDatabase;
    var table := ReadDatabase(s.iter[1..]);
    if table.Ok? {
      var m := ReadDatabases(table.value.1);
      assert m.Ok? ==> s.datasets + ([table.value.0] + m.value.0) == s.datasets + [table.value.0] + m.value.0;
    }
  }
}
