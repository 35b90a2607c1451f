/** The byte strings that the RDB reader accepts, generated from trees that record every choice of
    encoding, and the proof that the reader inverts the generator and accepts nothing else. */
module RdbLanguage {
  import opened Basics
  import opened Decimal
  import opened Executor
  import opened RdbSpec

  // ---------------------------------------------------------------- numbers as bytes

  function Power256(k: nat): nat {
    if k == 0 then 1 else 256 * Power256(k - 1)
  }

  function LittleBytes(n: nat, k: nat): (bs: Bytes)
    ensures |bs| == k
  {
    if k == 0 then [] else [n % 256] + LittleBytes(n / 256, k - 1)
  }

  function BigBytes(n: nat, k: nat): (bs: Bytes)
    ensures |bs| == k
  {
    if k == 0 then [] else BigBytes(n / 256, k - 1) + [n % 256]
  }

  lemma {:induction false} LittleOfBytes(n: nat, k: nat)
    requires n < Power256(k)
    ensures Little(LittleBytes(n, k)) == n
  {
    if k > 0 {
      LittleOfBytes(n / 256, k - 1);
    }
  }

  lemma {:induction false} BytesOfLittle(bs: Bytes)
    ensures Little(bs) < Power256(|bs|) && LittleBytes(Little(bs), |bs|) == bs
  {
    if bs != [] {
      BytesOfLittle(bs[1..]);
      assert Little(bs) % 256 == bs[0] && Little(bs) / 256 == Little(bs[1..]);
    }
  }

  lemma {:induction false} BigOfBytes(n: nat, k: nat)
    requires n < Power256(k)
    ensures Big(BigBytes(n, k)) == n
  {
    if k > 0 {
      BigOfBytes(n / 256, k - 1);
      assert BigBytes(n, k)[..k - 1] == BigBytes(n / 256, k - 1);
    }
  }

  lemma {:induction false} BytesOfBig(bs: Bytes)
    ensures Big(bs) < Power256(|bs|) && BigBytes(Big(bs), |bs|) == bs
  {
    if bs != [] {
      var init, last := bs[..|bs| - 1], bs[|bs| - 1];
      BytesOfBig(init);
      assert Big(bs) % 256 == last && Big(bs) / 256 == Big(init);
      assert bs == init + [last];
    }
  }

  // ---------------------------------------------------------------- the trees

  /** A number with the width it is written in. The last three are the special encodings. */
  datatype LengthCode =
    | Six(n: nat) | Fourteen(n: nat) | ThirtyTwo(low: nat, n: nat)
    | Int8(n: nat) | Int16(n: nat) | Int32(n: nat) {

    predicate Special() {
      Int8? || Int16? || Int32?
    }

    predicate Legal() {
      match this
      case Six(n) => n < 64
      case Fourteen(n) => n < 64 * 256
      case ThirtyTwo(low, n) => low < 64 && n < Power256(4)
      case Int8(n) => n < Power256(1)
      case Int16(n) => n < Power256(2)
      case Int32(n) => n < Power256(4)
    }

    function Text(): Bytes
      requires Legal()
    {
      match this
      case Six(n) => [n]
      case Fourteen(n) => [0x40 + n / 256, n % 256]
      case ThirtyTwo(low, n) => [0x80 + low] + BigBytes(n, 4)
      case Int8(n) => [0xc0] + LittleBytes(n, 1)
      case Int16(n) => [0xc1] + LittleBytes(n, 2)
      case Int32(n) => [0xc2] + LittleBytes(n, 4)
    }
  }

  datatype StringCode = Raw(length: LengthCode, bytes: Bytes) | Number(code: LengthCode) {

    predicate Legal() {
      match this
      case Raw(length, bytes) => length.Legal() && !length.Special() && length.n == |bytes|
      case Number(code) => code.Legal() && code.Special()
    }

    function Text(): Bytes
      requires Legal()
    {
      match this
      case Raw(length, bytes) => length.Text() + bytes
      case Number(code) => code.Text()
    }

    function Meaning(): string {
      match this
      case Raw(_, bytes) => seq(|bytes|, i requires 0 <= i < |bytes| => bytes[i] as char)
      case Number(code) => Show(code.n)
    }
  }

  datatype ExpiryCode = Never | Seconds(n: nat) | Millis(n: nat) {

    predicate Legal() {
      match this
      case Never => true
      case Seconds(n) => n < Power256(4)
      case Millis(n) => n < Power256(8)
    }

    function Text(): Bytes
    {
      match this
      case Never => []
      case Seconds(n) => [0xfd] + LittleBytes(n, 4)
      case Millis(n) => [0xfc] + LittleBytes(n, 8)
    }

    function Meaning(): Option<Instant> {
      match this
      case Never => None
      case Seconds(n) => Some(n * 1_000_000_000)
      case Millis(n) => Some(n * 1_000_000)
    }
  }

  datatype PairCode = PairCode(deadline: ExpiryCode, key: StringCode, value: StringCode) {

    predicate Legal() {
      deadline.Legal() && key.Legal() && value.Legal()
    }

    function Text(): Bytes
      requires Legal()
    {
      deadline.Text() + ([0] + (key.Text() + value.Text()))
    }

    function Meaning(): Pair {
      Pair(key.Meaning(), value.Meaning(), deadline.Meaning())
    }
  }

  predicate AllLegal(ps: seq<PairCode>) {
    ps == [] || (ps[0].Legal() && AllLegal(ps[1..]))
  }

  function PairsText(ps: seq<PairCode>): Bytes
    requires AllLegal(ps)
  {
    if ps == [] then [] else ps[0].Text() + PairsText(ps[1..])
  }

  function PairsMeaning(ps: seq<PairCode>): seq<Pair> {
    if ps == [] then [] else [ps[0].Meaning()] + PairsMeaning(ps[1..])
  }

  /** `skipped` is the flag byte that the reader does not look at. */
  datatype DatabaseCode = DatabaseCode(index: LengthCode, skipped: byte, normal: LengthCode, expiring: LengthCode,
                                       pairs: seq<PairCode>) {

    /** As many pairs as one of the sizes, and no fewer than the other. */
    predicate Legal() {
      && index.Legal() && normal.Legal() && expiring.Legal() && AllLegal(pairs)
      && normal.n <= |pairs| && expiring.n <= |pairs| && (|pairs| == normal.n || |pairs| == expiring.n)
    }

    function Text(): Bytes
      requires Legal()
    {
      [0xfe] + (index.Text() + ([skipped] + (normal.Text() + (expiring.Text() + PairsText(pairs)))))
    }
  }

  predicate DatabasesLegal(ds: seq<DatabaseCode>) {
    ds == [] || (ds[0].Legal() && DatabasesLegal(ds[1..]))
  }

  function DatabasesText(ds: seq<DatabaseCode>): Bytes
    requires DatabasesLegal(ds)
  {
    if ds == [] then [] else ds[0].Text() + DatabasesText(ds[1..])
  }

  function DatabasesMeaning(ds: seq<DatabaseCode>): seq<seq<Pair>> {
    if ds == [] then [] else [PairsMeaning(ds[0].pairs)] + DatabasesMeaning(ds[1..])
  }

  type AuxCode = (StringCode, StringCode)

  predicate AuxLegal(aux: seq<AuxCode>) {
    aux == [] || (aux[0].0.Legal() && aux[0].1.Legal() && AuxLegal(aux[1..]))
  }

  function AuxText(aux: seq<AuxCode>): Bytes
    requires AuxLegal(aux)
  {
    if aux == [] then [] else [0xfa] + (aux[0].0.Text() + (aux[0].1.Text() + AuxText(aux[1..])))
  }

  function AuxMeaning(aux: seq<AuxCode>): seq<(string, string)> {
    if aux == [] then [] else [(aux[0].0.Meaning(), aux[0].1.Meaning())] + AuxMeaning(aux[1..])
  }

  datatype FileCode = FileCode(version: Bytes, aux: seq<AuxCode>, databases: seq<DatabaseCode>) {

    predicate Legal() {
      |version| == 4 && AuxLegal(aux) && DatabasesLegal(databases)
    }

    function Text(): Bytes
      requires Legal()
    {
      ['R' as byte, 'E' as byte, 'D' as byte, 'I' as byte, 'S' as byte]
      + (version + (AuxText(aux) + DatabasesText(databases)))
    }

    function Meaning(): RdbFile {
      RdbFile(version, AuxMeaning(aux), DatabasesMeaning(databases))
    }
  }

  // ---------------------------------------------------------------- the reader inverts the generator

  lemma TakeFront(a: Bytes, b: Bytes)
    ensures (a + b)[..|a|] == a && (a + b)[|a|..] == b
  {
  }

  lemma Assoc(a: Bytes, b: Bytes, c: Bytes)
    ensures (a + b) + c == a + (b + c)
  {
  }

  lemma Cons(flag: byte, t: Bytes)
    ensures ([flag] + t)[0] == flag && ([flag] + t)[1..] == t
  {
  }

  lemma DecodeLengthText(code: LengthCode, rest: Bytes)
    requires code.Legal()
    ensures DecodeLength(code.Text() + rest) == Ok((code.n, rest))
    ensures code.Text() != [] && (code.Special() <==> code.Text()[0] / 64 == 3)
  {
    var bs := code.Text() + rest;
    match code
    case Six(n) => assert bs[1..] == rest;
    case Fourteen(n) => assert bs[1..][0] == n % 256 && bs[1..][1..] == rest;
    case ThirtyTwo(_, n) =>
      assert bs[1..] == BigBytes(n, 4) + rest;
      TakeFront(BigBytes(n, 4), rest);
      BigOfBytes(n, 4);
    case Int8(n) => DecodeSpecial(0xc0, n, 1, rest);
    case Int16(n) => DecodeSpecial(0xc1, n, 2, rest);
    case Int32(n) => DecodeSpecial(0xc2, n, 4, rest);
  }

  lemma DecodeSpecial(first: byte, n: nat, k: nat, rest: Bytes)
    requires n < Power256(k)
    ensures ([first] + LittleBytes(n, k) + rest)[1..] == LittleBytes(n, k) + rest
    ensures TakeLittle(LittleBytes(n, k) + rest, k) == Ok((n, rest))
  {
    TakeFront(LittleBytes(n, k), rest);
    LittleOfBytes(n, k);
    assert [first] + LittleBytes(n, k) + rest == [first] + (LittleBytes(n, k) + rest);
  }

  lemma DecodeStringText(code: StringCode, rest: Bytes)
    requires code.Legal()
    ensures DecodeString(code.Text() + rest) == Ok((code.Meaning(), rest))
  {
    match code
    case Raw(length, bytes) =>
      DecodeLengthText(length, bytes + rest);
      assert code.Text() + rest == length.Text() + (bytes + rest);
      TakeFront(bytes, rest);
      assert code.Meaning() == Latin(bytes);
    case Number(c) => DecodeLengthText(c, rest);
  }

  lemma ParseDataText(key: StringCode, value: StringCode, expiration: Option<Instant>, rest: Bytes)
    requires key.Legal() && value.Legal()
    ensures ParseData([0] + (key.Text() + value.Text()) + rest, expiration)
         == Ok((Pair(key.Meaning(), value.Meaning(), expiration), rest))
  {
    hide DecodeString, StringCode.Text, StringCode.Legal;
    var k, v := key.Text(), value.Text();
    Assoc([0], k + v, rest);
    Assoc(k, v, rest);
    Cons(0, k + (v + rest));
    DecodeStringText(key, v + rest);
    DecodeStringText(value, rest);
  }

  lemma ReadPairText(code: PairCode, rest: Bytes)
    requires code.Legal()
    ensures code.Text() != [] && ReadPair(code.Text() + rest) == Ok((code.Meaning(), rest))
  {
    hide ParseData, TakeLittle, StringCode.Text, StringCode.Legal;
    var data := [0] + (code.key.Text() + code.value.Text());
    ParseDataText(code.key, code.value, code.deadline.Meaning(), rest);
    Assoc(code.deadline.Text(), data, rest);
    Cons(0, code.key.Text() + code.value.Text());
    match code.deadline
    case Never =>
      assert [] + (data + rest) == data + rest;
    case Seconds(n) =>
      DecodeSpecial(0xfd, n, 4, data + rest);
    case Millis(n) =>
      DecodeSpecial(0xfc, n, 8, data + rest);
  }

  lemma {:induction false} ReadPairsText(ps: seq<PairCode>, rest: Bytes)
    requires AllLegal(ps)
    ensures ReadPairs(|ps|, PairsText(ps) + rest) == Ok((PairsMeaning(ps), rest))
  {
    hide ReadPair, PairCode.Text, PairCode.Legal;
    if ps == [] {
      assert PairsText(ps) + rest == rest;
    } else {
      ReadPairText(ps[0], PairsText(ps[1..]) + rest);
      Assoc(ps[0].Text(), PairsText(ps[1..]), rest);
      ReadPairsText(ps[1..], rest);
    }
  }

  lemma ReadDatabaseText(d: DatabaseCode, rest: Bytes)
    requires d.Legal()
    ensures d.Text() != [] && d.Text()[0] == 0xfe
    ensures ReadDatabase((d.Text() + rest)[1..]) == Ok((PairsMeaning(d.pairs), rest))
  {
    hide DecodeLength, ReadPairs, LengthCode.Text, LengthCode.Legal, PairsText, AllLegal;
    var i, n, e, ps := d.index.Text(), d.normal.Text(), d.expiring.Text(), PairsText(d.pairs);
    var t3 := e + ps;
    var t2 := n + t3;
    var t1 := [d.skipped] + t2;
    Assoc([0xfe], i + t1, rest);
    Assoc(i, t1, rest);
    Assoc([d.skipped], t2, rest);
    Assoc(n, t3, rest);
    Assoc(e, ps, rest);
    Cons(0xfe, i + t1);
    Cons(0xfe, i + (t1 + rest));
    Cons(d.skipped, t2 + rest);
    DecodeLengthText(d.index, t1 + rest);
    DecodeLengthText(d.normal, t3 + rest);
    DecodeLengthText(d.expiring, ps + rest);
    ReadPairsText(d.pairs, rest);
  }

  lemma {:induction false} ReadDatabasesText(ds: seq<DatabaseCode>, rest: Bytes)
    requires DatabasesLegal(ds) && rest != [] && rest[0] == 0xff
    ensures ReadDatabases(DatabasesText(ds) + rest) == Ok((DatabasesMeaning(ds), rest))
  {
    hide ReadDatabase, DatabaseCode.Text, DatabaseCode.Legal;
    if ds == [] {
      assert DatabasesText(ds) + rest == rest;
    } else {
      var more := DatabasesText(ds[1..]) + rest;
      Assoc(ds[0].Text(), DatabasesText(ds[1..]), rest);
      ReadDatabaseText(ds[0], more);
      ReadDatabasesText(ds[1..], rest);
    }
  }

  lemma {:induction false} ReadMetadataText(aux: seq<AuxCode>, ds: seq<DatabaseCode>, rest: Bytes)
    requires AuxLegal(aux) && DatabasesLegal(ds) && rest != [] && rest[0] == 0xff
    ensures ReadMetadata(AuxText(aux) + (DatabasesText(ds) + rest))
         == Ok((AuxMeaning(aux), DatabasesMeaning(ds), rest))
  {
    hide DecodeString, ReadDatabases, StringCode.Text, StringCode.Legal, DatabasesText, DatabasesLegal, DatabasesMeaning;
    var tail := DatabasesText(ds) + rest;
    if aux == [] {
      assert AuxText(aux) + tail == tail;
      ReadDatabasesText(ds, rest);
      FirstFlag(ds, rest);
    } else {
      var more := AuxText(aux[1..]) + tail;
      var k, v, t := aux[0].0.Text(), aux[0].1.Text(), AuxText(aux[1..]);
      Assoc([0xfa], k + (v + t), tail);
      Assoc(k, v + t, tail);
      Assoc(v, t, tail);
      Cons(0xfa, k + (v + more));
      DecodeStringText(aux[0].0, v + more);
      DecodeStringText(aux[0].1, more);
      ReadMetadataText(aux[1..], ds, rest);
    }
  }

  lemma FirstFlag(ds: seq<DatabaseCode>, rest: Bytes)
    requires DatabasesLegal(ds) && rest != [] && rest[0] == 0xff
    ensures var bs := DatabasesText(ds) + rest;
            bs != [] && (bs[0] == 0xfe || bs[0] == 0xff)
  {
  }

  /** Reading undoes writing, for every choice of widths and whatever follows the final flag. */
  lemma ReadRdbText(f: FileCode, rest: Bytes)
    requires f.Legal() && rest != [] && rest[0] == 0xff
    ensures ReadRdb(f.Text() + rest) == Ok((f.Meaning(), rest))
  {
    hide ReadMetadata, AuxText, AuxLegal, DatabasesText, DatabasesLegal;
    var a, d := AuxText(f.aux), DatabasesText(f.databases);
    Assoc(MAGIC, f.version + (a + d), rest);
    Assoc(f.version, a + d, rest);
    Assoc(a, d, rest);
    HeaderParts(f.version, a + (d + rest));
    ReadMetadataText(f.aux, f.databases, rest);
  }

  lemma HeaderParts(version: Bytes, body: Bytes)
    requires |version| == 4
    ensures var bs := MAGIC + (version + body);
            |bs| >= 9 && bs[..5] == MAGIC && bs[5..9] == version && bs[9..] == body
  {
  }
}
