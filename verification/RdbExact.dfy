/** Every byte string that the reader accepts comes from a tree, and what follows from that. */
module RdbExact {
  import opened Basics
  import opened Decimal
  import opened Executor
  import opened RdbSpec
  import opened RdbLanguage

  // ---------------------------------------------------------------- from bytes back to trees

  lemma DeriveLittle(first: byte, bs: Bytes, k: nat)
    requires TakeLittle(bs, k).Ok?
    ensures var (n, rest) := TakeLittle(bs, k).value;
            n < Power256(k) && [first] + bs == [first] + LittleBytes(n, k) + rest
  {
    BytesOfLittle(bs[..k]);
    assert bs == bs[..k] + bs[k..];
    Assoc([first], bs[..k], bs[k..]);
  }

  lemma DeriveLength(bs: Bytes) returns (code: LengthCode)
    requires DecodeLength(bs).Ok?
    ensures code.Legal() && code.n == DecodeLength(bs).value.0
    ensures bs == code.Text() + DecodeLength(bs).value.1
    ensures code.Special() <==> bs[0] / 64 == 3
  {
    var first, rest := bs[0], bs[1..];
    var n := DecodeLength(bs).value.0;
    assert bs == [first] + rest;
    if first / 64 == 3 {
      if first % 64 == 0 {
        DeriveLittle(first, rest, 1);
        code := Int8(n);
      } else if first % 64 == 1 {
        DeriveLittle(first, rest, 2);
        code := Int16(n);
      } else {
        DeriveLittle(first, rest, 4);
        code := Int32(n);
      }
    } else if first / 64 == 2 {
      BytesOfBig(rest[..4]);
      code := ThirtyTwo(first % 64, n);
      assert rest == rest[..4] + rest[4..];
      Assoc([first], rest[..4], rest[4..]);
    } else if first / 64 == 1 {
      code := Fourteen(n);
      assert n / 256 == first % 64 && n % 256 == rest[0];
      assert bs == [first, rest[0]] + rest[1..];
    } else {
      code := Six(n);
    }
  }

  lemma DeriveString(bs: Bytes) returns (code: StringCode)
    requires DecodeString(bs).Ok?
    ensures code.Legal() && code.Meaning() == DecodeString(bs).value.0
    ensures bs == code.Text() + DecodeString(bs).value.1
  {
    hide DecodeLength, LengthCode.Text, LengthCode.Legal;
    var length := DeriveLength(bs);
    var rest := DecodeLength(bs).value.1;
    if length.Special() {
      code := Number(length);
    } else {
      var n := length.n;
      code := Raw(length, rest[..n]);
      assert rest == rest[..n] + rest[n..];
      Assoc(length.Text(), rest[..n], rest[n..]);
    }
  }

  lemma DeriveData(bs: Bytes, deadline: ExpiryCode) returns (code: PairCode)
    requires ParseData(bs, deadline.Meaning()).Ok? && deadline.Legal()
    ensures code.Legal() && code.Meaning() == ParseData(bs, deadline.Meaning()).value.0
    ensures deadline.Text() + bs == code.Text() + ParseData(bs, deadline.Meaning()).value.1
  {
    hide DecodeString, StringCode.Text, StringCode.Legal, StringCode.Meaning;
    var key := DeriveString(bs[1..]);
    var r1 := DecodeString(bs[1..]).value.1;
    var value := DeriveString(r1);
    var r2 := DecodeString(r1).value.1;
    code := PairCode(deadline, key, value);
    var k, v, d := key.Text(), value.Text(), deadline.Text();
    assert bs == [0] + bs[1..];
    Assoc(k, v, r2);
    Assoc([0], k + v, r2);
    Assoc(d, [0] + (k + v), r2);
  }

  lemma DerivePair(bs: Bytes) returns (code: PairCode)
    requires ReadPair(bs).Ok?
    ensures code.Legal() && code.Meaning() == ReadPair(bs).value.0
    ensures bs == code.Text() + ReadPair(bs).value.1
  {
    hide ParseData, PairCode.Legal, PairCode.Text, PairCode.Meaning;
    if bs[0] == 0xfd {
      DeriveLittle(0xfd, bs[1..], 4);
      var (n, rest) := TakeLittle(bs[1..], 4).value;
      hide TakeLittle;
      code := DeriveData(rest, Seconds(n));
      assert bs == [0xfd] + bs[1..];
    } else if bs[0] == 0xfc {
      DeriveLittle(0xfc, bs[1..], 8);
      var (n, rest) := TakeLittle(bs[1..], 8).value;
      hide TakeLittle;
      code := DeriveData(rest, Millis(n));
      assert bs == [0xfc] + bs[1..];
    } else {
      code := DeriveData(bs, Never);
      assert [] + bs == bs;
    }
  }

  lemma {:induction false} DerivePairs(n: nat, bs: Bytes) returns (ps: seq<PairCode>)
    requires ReadPairs(n, bs).Ok?
    ensures AllLegal(ps) && |ps| == n && PairsMeaning(ps) == ReadPairs(n, bs).value.0
    ensures bs == PairsText(ps) + ReadPairs(n, bs).value.1
  {
    hide ReadPair, PairCode.Legal, PairCode.Text, PairCode.Meaning;
    if n == 0 {
      ps := [];
      assert [] + bs == bs;
    } else {
      var p := DerivePair(bs);
      var r1 := ReadPair(bs).value.1;
      var more := DerivePairs(n - 1, r1);
      ps := [p] + more;
      assert ps[0] == p && ps[1..] == more;
      Assoc(p.Text(), PairsText(more), ReadPairs(n - 1, r1).value.1);
    }
  }

  lemma DeriveDatabase(bs: Bytes) returns (d: DatabaseCode)
    requires ReadDatabase(bs).Ok?
    ensures d.Legal() && PairsMeaning(d.pairs) == ReadDatabase(bs).value.0
    ensures [0xfe] + bs == d.Text() + ReadDatabase(bs).value.1
  {
    hide DecodeLength, ReadPairs, LengthCode.Legal, LengthCode.Text, AllLegal, PairsText, PairsMeaning;
    var index := DeriveLength(bs);
    var r1 := DecodeLength(bs).value.1;
    NotEmpty(Skip(r1));
    assert r1 == [r1[0]] + Skip(r1);
    var normal := DeriveLength(Skip(r1));
    var r2 := DecodeLength(Skip(r1)).value.1;
    var expiring := DeriveLength(r2);
    var r3 := DecodeLength(r2).value.1;
    var pairs := DerivePairs(Max(normal.n, expiring.n), r3);
    var r4 := ReadPairs(Max(normal.n, expiring.n), r3).value.1;
    d := DatabaseCode(index, r1[0], normal, expiring, pairs);
    var i, n, e, ps := index.Text(), normal.Text(), expiring.Text(), PairsText(pairs);
    Assoc(e, ps, r4);
    Assoc(n, e + ps, r4);
    Assoc([r1[0]], n + (e + ps), r4);
    Assoc(i, [r1[0]] + (n + (e + ps)), r4);
    Assoc([0xfe], i + ([r1[0]] + (n + (e + ps))), r4);
  }

  lemma NotEmpty(bs: Bytes)
    requires DecodeLength(bs).Ok?
    ensures bs != []
  {
  }

  lemma {:induction false} DeriveDatabases(bs: Bytes) returns (ds: seq<DatabaseCode>)
    requires ReadDatabases(bs).Ok?
    ensures DatabasesLegal(ds) && DatabasesMeaning(ds) == ReadDatabases(bs).value.0
    ensures var rest := ReadDatabases(bs).value.1;
            bs == DatabasesText(ds) + rest && rest != [] && rest[0] == 0xff
    decreases |bs|
  {
    hide ReadDatabase, DatabaseCode.Legal, DatabaseCode.Text, PairsMeaning;
    if bs[0] == 0xfe {
      var d := DeriveDatabase(bs[1..]);
      var r1 := ReadDatabase(bs[1..]).value.1;
      var more := DeriveDatabases(r1);
      ds := [d] + more;
      assert ds[0] == d && ds[1..] == more && bs == [0xfe] + bs[1..];
      Assoc(d.Text(), DatabasesText(more), ReadDatabases(r1).value.1);
    } else {
      ds := [];
      assert [] + bs == bs;
    }
  }

  lemma {:induction false} DeriveMetadata(bs: Bytes) returns (aux: seq<AuxCode>, ds: seq<DatabaseCode>)
    requires ReadMetadata(bs).Ok?
    ensures AuxLegal(aux) && DatabasesLegal(ds)
    ensures AuxMeaning(aux) == ReadMetadata(bs).value.0 && DatabasesMeaning(ds) == ReadMetadata(bs).value.1
    ensures var rest := ReadMetadata(bs).value.2;
            bs == AuxText(aux) + (DatabasesText(ds) + rest) && rest != [] && rest[0] == 0xff
    decreases |bs|
  {
    hide DecodeString, ReadDatabases, StringCode.Legal, StringCode.Text, StringCode.Meaning, DatabasesLegal, DatabasesText, DatabasesMeaning;
    if bs[0] == 0xfa {
      var key := DeriveString(bs[1..]);
      var r1 := DecodeString(bs[1..]).value.1;
      var value := DeriveString(r1);
      var r2 := DecodeString(r1).value.1;
      var more;
      more, ds := DeriveMetadata(r2);
      aux := [(key, value)] + more;
      assert aux[0] == (key, value) && aux[1..] == more && bs == [0xfa] + bs[1..];
      var tail := DatabasesText(ds) + ReadMetadata(r2).value.2;
      var k, v, t := key.Text(), value.Text(), AuxText(more);
      Assoc(v, t, tail);
      Assoc(k, v + t, tail);
      Assoc([0xfa], k + (v + t), tail);
    } else {
      aux := [];
      ds := DeriveDatabases(bs);
      assert [] + bs == bs;
    }
  }

  lemma DeriveRdb(bs: Bytes) returns (f: FileCode)
    requires ReadRdb(bs).Ok?
    ensures f.Legal() && f.Meaning() == ReadRdb(bs).value.0
    ensures var rest := ReadRdb(bs).value.1;
            bs == f.Text() + rest && rest != [] && rest[0] == 0xff
  {
    hide ReadMetadata, AuxLegal, AuxText, AuxMeaning, DatabasesLegal, DatabasesText, DatabasesMeaning;
    var aux, ds := DeriveMetadata(bs[9..]);
    var rest := ReadMetadata(bs[9..]).value.2;
    f := FileCode(bs[5..9], aux, ds);
    var a, d := AuxText(aux), DatabasesText(ds);
    assert bs == MAGIC + (bs[5..9] + bs[9..]);
    Assoc(a, d, rest);
    Assoc(bs[5..9], a + d, rest);
    Assoc(MAGIC, bs[5..9] + (a + d), rest);
  }

  // ---------------------------------------------------------------- the exact language

  /** The reader accepts a byte string, with this file and this remainder, if and only if it is a legal
      text of that file followed by a remainder that begins with the final flag. */
  lemma ReadRdbExact(bs: Bytes, file: RdbFile, rest: Bytes)
    ensures ReadRdb(bs) == Ok((file, rest)) <==>
              rest != [] && rest[0] == 0xff
              && exists f: FileCode :: f.Legal() && f.Meaning() == file && bs == f.Text() + rest
  {
    if ReadRdb(bs) == Ok((file, rest)) {
      var f := DeriveRdb(bs);
    }
    forall f: FileCode | rest != [] && rest[0] == 0xff && f.Legal() && f.Meaning() == file && bs == f.Text() + rest
      ensures ReadRdb(bs) == Ok((file, rest))
    {
      ReadRdbText(f, rest);
    }
  }

  /** Bytes after an accepted string change nothing but the remainder. */
  lemma AppendStable(bs: Bytes, more: Bytes)
    requires ReadRdb(bs).Ok?
    ensures ReadRdb(bs + more) == Ok((ReadRdb(bs).value.0, ReadRdb(bs).value.1 + more))
  {
    hide ReadRdb, FileCode.Legal, FileCode.Text, FileCode.Meaning;
    var f := DeriveRdb(bs);
    var rest := ReadRdb(bs).value.1;
    Assoc(f.Text(), rest, more);
    ReadRdbText(f, rest + more);
  }

  /** Only the final flag matters: whatever follows it may change. */
  lemma TrailerIgnored(bs: Bytes, trailer: Bytes)
    requires ReadRdb(bs).Ok?
    ensures var (file, rest) := ReadRdb(bs).value;
            && |rest| <= |bs|
            && ReadRdb(bs[..|bs| - |rest|] + ([0xff] + trailer)) == Ok((file, [0xff] + trailer))
  {
    hide ReadRdb, FileCode.Legal, FileCode.Text, FileCode.Meaning;
    var f := DeriveRdb(bs);
    var rest := ReadRdb(bs).value.1;
    assert bs[..|bs| - |rest|] == f.Text();
    ReadRdbText(f, [0xff] + trailer);
  }

  lemma RemainderGrows(bs: Bytes, more: Bytes)
    ensures ReadRdb(bs).Ok? ==> ReadRdb(bs + more).Ok? && |ReadRdb(bs + more).value.1| > |more|
  {
    if ReadRdb(bs).Ok? {
      AppendStable(bs, more);
      var f := DeriveRdb(bs);
    }
  }

  /** Every prefix that stops before the final flag is rejected with an error. */
  lemma PrefixRejected(bs: Bytes, n: nat)
    requires ReadRdb(bs).Ok? && n + |ReadRdb(bs).value.1| <= |bs|
    ensures ReadRdb(bs[..n]) == Err(BadRdb)
  {
    hide ReadRdb;
    OnlyErrors(bs[..n]);
    assert bs[..n] + bs[n..] == bs;
    RemainderGrows(bs[..n], bs[n..]);
  }

  // ---------------------------------------------------------------- the only error

  lemma OnlyErrors(bs: Bytes)
    ensures ReadRdb(bs).Ok? || ReadRdb(bs) == Err(BadRdb)
  {
    if |bs| >= 9 {
      MetadataErrors(bs[9..]);
    }
  }

  lemma LengthErrors(bs: Bytes)
    ensures DecodeLength(bs).Ok? || DecodeLength(bs) == Err(BadRdb)
    ensures DecodeString(bs).Ok? || DecodeString(bs) == Err(BadRdb)
  {
  }

  lemma DataErrors(bs: Bytes, expiration: Option<Instant>)
    ensures ParseData(bs, expiration).Ok? || ParseData(bs, expiration) == Err(BadRdb)
  {
    hide DecodeString;
    if bs != [] {
      LengthErrors(bs[1..]);
      if DecodeString(bs[1..]).Ok? {
        LengthErrors(DecodeString(bs[1..]).value.1);
      }
    }
  }

  lemma {:induction false} PairsErrors(n: nat, bs: Bytes)
    ensures ReadPairs(n, bs).Ok? || ReadPairs(n, bs) == Err(BadRdb)
  {
    hide ParseData;
    if n > 0 && bs != [] {
      DataErrors(bs, None);
      if |bs| >= 5 {
        DataErrors(bs[1..][4..], Some(Little(bs[1..][..4]) * NANOS_PER_SECOND));
      }
      if |bs| >= 9 {
        DataErrors(bs[1..][8..], Some(Little(bs[1..][..8]) * NANOS_PER_MILLI));
      }
      if ReadPair(bs).Ok? {
        PairsErrors(n - 1, ReadPair(bs).value.1);
      }
    }
  }

  lemma DatabaseErrors(bs: Bytes)
    ensures ReadDatabase(bs).Ok? || ReadDatabase(bs) == Err(BadRdb)
  {
    hide DecodeLength, ReadPairs;
    LengthErrors(bs);
    if DecodeLength(bs).Ok? {
      var r1 := Skip(DecodeLength(bs).value.1);
      LengthErrors(r1);
      if DecodeLength(r1).Ok? {
        var r2 := DecodeLength(r1).value.1;
        LengthErrors(r2);
        if DecodeLength(r2).Ok? {
          PairsErrors(Max(DecodeLength(r1).value.0, DecodeLength(r2).value.0), DecodeLength(r2).value.1);
        }
      }
    }
  }

  lemma {:induction false} DatabasesErrors(bs: Bytes)
    ensures ReadDatabases(bs).Ok? || ReadDatabases(bs) == Err(BadRdb)
    decreases |bs|
  {
    hide ReadDatabase;
    if bs != [] && bs[0] == 0xfe {
      DatabaseErrors(bs[1..]);
      if ReadDatabase(bs[1..]).Ok? {
        DatabasesErrors(ReadDatabase(bs[1..]).value.1);
      }
    }
  }

  lemma {:induction false} MetadataErrors(bs: Bytes)
    ensures ReadMetadata(bs).Ok? || ReadMetadata(bs) == Err(BadRdb)
    decreases |bs|
  {
    hide DecodeString, ReadDatabases;
    DatabasesErrors(bs);
    if bs != [] {
      LengthErrors(bs[1..]);
      if DecodeString(bs[1..]).Ok? {
        var r1 := DecodeString(bs[1..]).value.1;
        LengthErrors(r1);
        if DecodeString(r1).Ok? {
          MetadataErrors(DecodeString(r1).value.1);
        }
      }
    }
  }

  // ---------------------------------------------------------------- bounds on the output

  function PairCount(datasets: seq<seq<Pair>>): nat {
    if datasets == [] then 0 else |datasets[0]| + PairCount(datasets[1..])
  }

  function PairsLength(pairs: seq<Pair>): nat {
    if pairs == [] then 0 else |pairs[0].key| + |pairs[0].value| + PairsLength(pairs[1..])
  }

  function DatasetsLength(datasets: seq<seq<Pair>>): nat {
    if datasets == [] then 0 else PairsLength(datasets[0]) + DatasetsLength(datasets[1..])
  }

  function AuxLength(aux: seq<(string, string)>): nat {
    if aux == [] then 0 else |aux[0].0| + |aux[0].1| + AuxLength(aux[1..])
  }

  lemma StringBound(code: StringCode)
    requires code.Legal()
    ensures |code.Text()| >= 1 && |code.Meaning()| <= 2 * |code.Text()|
  {
    match code
    case Raw(_, _) =>
    case Number(Int8(n)) => ShowLength(n, 3, PowerOfTen(3));
    case Number(Int16(n)) => ShowLength(n, 5, PowerOfTen(5));
    case Number(Int32(n)) => ShowLength(n, 10, PowerOfTen(10));
  }

  lemma {:induction false} PairsBound(ps: seq<PairCode>)
    requires AllLegal(ps)
    ensures |PairsMeaning(ps)| == |ps| && 3 * |ps| <= |PairsText(ps)|
    ensures PairsLength(PairsMeaning(ps)) <= 2 * |PairsText(ps)|
  {
    hide StringCode.Text, StringCode.Meaning, StringCode.Legal;
    if ps != [] {
      StringBound(ps[0].key);
      StringBound(ps[0].value);
      PairsBound(ps[1..]);
      assert PairsMeaning(ps)[1..] == PairsMeaning(ps[1..]);
    }
  }

  lemma {:induction false} DatabasesBound(ds: seq<DatabaseCode>)
    requires DatabasesLegal(ds)
    ensures 3 * PairCount(DatabasesMeaning(ds)) <= |DatabasesText(ds)|
    ensures DatasetsLength(DatabasesMeaning(ds)) <= 2 * |DatabasesText(ds)|
  {
    hide PairsText, PairsMeaning, AllLegal, LengthCode.Text;
    if ds != [] {
      PairsBound(ds[0].pairs);
      DatabasesBound(ds[1..]);
      assert DatabasesMeaning(ds)[1..] == DatabasesMeaning(ds[1..]);
    }
  }

  lemma {:induction false} AuxBound(aux: seq<AuxCode>)
    requires AuxLegal(aux)
    ensures AuxLength(AuxMeaning(aux)) <= 2 * |AuxText(aux)|
  {
    hide StringCode.Text, StringCode.Meaning, StringCode.Legal;
    if aux != [] {
      StringBound(aux[0].0);
      StringBound(aux[0].1);
      AuxBound(aux[1..]);
      assert AuxMeaning(aux)[1..] == AuxMeaning(aux[1..]);
    }
  }

  /** The output is bounded by the input: at most a third as many pairs as bytes, and at most two
      characters of text for each byte, although a number may print longer than it is stored. */
  lemma OutputBound(bs: Bytes)
    requires ReadRdb(bs).Ok?
    ensures var file := ReadRdb(bs).value.0;
            && 3 * PairCount(file.datasets) <= |bs|
            && AuxLength(file.aux) + DatasetsLength(file.datasets) <= 2 * |bs|
  {
    var f := DeriveRdb(bs);
    hide ReadRdb;
    AuxBound(f.aux);
    DatabasesBound(f.databases);
  }
}
