/** What src/rdb_file_reader.rs computes: one RDB file from the front of a byte string. Every function
    returns what it read and the bytes it left. */
module RdbSpec {
  import opened Basics
  import opened Decimal
  import opened Executor

  type byte = n: int | 0 <= n < 256
  type Bytes = seq<byte>

  const MAGIC: Bytes := [0x52, 0x45, 0x44, 0x49, 0x53]
  const NANOS_PER_SECOND: nat := 1_000_000_000

  function Little(bs: Bytes): nat {
    if bs == [] then 0 else bs[0] + 256 * Little(bs[1..])
  }

  function Big(bs: Bytes): nat {
    if bs == [] then 0 else 256 * Big(bs[..|bs| - 1]) + bs[|bs| - 1]
  }

  /** `byte as char`, byte by byte. */
  function Latin(bs: Bytes): (s: string)
    ensures |s| == |bs| && forall i | 0 <= i < |bs| :: s[i] == bs[i] as char
  {
    if bs == [] then "" else [bs[0] as char] + Latin(bs[1..])
  }

  function TakeLittle(bs: Bytes, n: nat): Outcome<(nat, Bytes)> {
    if |bs| < n then Err(BadRdb) else Ok((Little(bs[..n]), bs[n..]))
  }

  function TakeBig(bs: Bytes, n: nat): Outcome<(nat, Bytes)> {
    if |bs| < n then Err(BadRdb) else Ok((Big(bs[..n]), bs[n..]))
  }

  /** The two high bits of the first byte select the width; `11` is a special encoding of a number. */
  function DecodeLength(bs: Bytes): (r: Outcome<(nat, Bytes)>)
    ensures r.Ok? ==> |r.value.1| < |bs|
  {
    if bs == [] then Err(BadRdb)
    else
      var first, rest := bs[0], bs[1..];
      if first / 64 == 3 then
        if first % 64 == 0 then TakeLittle(rest, 1)
        else if first % 64 == 1 then TakeLittle(rest, 2)
        else if first % 64 == 2 then TakeLittle(rest, 4)
        else Err(BadRdb)
      else if first / 64 == 2 then TakeBig(rest, 4)
      else if first / 64 == 1 then
        if rest == [] then Err(BadRdb)
        else
          var high: nat := first % 64;
          Ok((high * 256 + rest[0], rest[1..]))
      else Ok((first % 64, rest))
  }

  function DecodeString(bs: Bytes): (r: Outcome<(string, Bytes)>)
    ensures r.Ok? ==> |r.value.1| < |bs|
  {
    if bs == [] then Err(BadRdb)
    else
      var (n, rest) :- DecodeLength(bs);
      if bs[0] / 64 == 3 then Ok((Show(n), rest))
      else if |rest| < n then Err(BadRdb)
      else Ok((Latin(rest[..n]), rest[n..]))
  }

  datatype Pair = Pair(key: string, value: string, expiration: Option<Instant>)

  datatype RdbFile = RdbFile(version: Bytes, aux: seq<(string, string)>, datasets: seq<seq<Pair>>)

  /** `parse_data`: only string values are supported. */
  function ParseData(bs: Bytes, expiration: Option<Instant>): (r: Outcome<(Pair, Bytes)>)
    ensures r.Ok? ==> |r.value.1| < |bs|
  {
    if bs == [] || bs[0] != 0 then Err(BadRdb)
    else
      var (key, r1) :- DecodeString(bs[1..]);
      var (value, r2) :- DecodeString(r1);
      Ok((Pair(key, value, expiration), r2))
  }

  function ReadPair(bs: Bytes): (r: Outcome<(Pair, Bytes)>)
    ensures r.Ok? ==> |r.value.1| < |bs|
  {
    if bs == [] then Err(BadRdb)
    else if bs[0] == 0xfd then
      var (seconds, rest) :- TakeLittle(bs[1..], 4);
      ParseData(rest, Some(seconds * NANOS_PER_SECOND))
    else if bs[0] == 0xfc then
      var (millis, rest) :- TakeLittle(bs[1..], 8);
      ParseData(rest, Some(millis * NANOS_PER_MILLI))
    else ParseData(bs, None)
  }

  function ReadPairs(n: nat, bs: Bytes): (r: Outcome<(seq<Pair>, Bytes)>)
    ensures r.Ok? ==> |r.value.1| <= |bs|
  {
    if n == 0 then Ok(([], bs))
    else
      var (pair, r1) :- ReadPair(bs);
      var (pairs, r2) :- ReadPairs(n - 1, r1);
      Ok(([pair] + pairs, r2))
  }

  function Skip(bs: Bytes): Bytes {
    if bs == [] then [] else bs[1..]
  }

  function Max(a: nat, b: nat): (m: nat)
    ensures m >= a && m >= b && (m == a || m == b)
  {
    if a < b then b else a
  }

  /** A database after its 0xfe flag: its index, a flag that is skipped unseen, two table sizes, and as
      many pairs as the larger one. */
  function ReadDatabase(bs: Bytes): (r: Outcome<(seq<Pair>, Bytes)>)
    ensures r.Ok? ==> |r.value.1| < |bs|
  {
    var (index, r1) :- DecodeLength(bs);
    var (normal, r2) :- DecodeLength(Skip(r1));
    var (expiring, r3) :- DecodeLength(r2);
    ReadPairs(Max(normal, expiring), r3)
  }

  /** The Database phase: the datasets, and the bytes from the final 0xff on. */
  function ReadDatabases(bs: Bytes): Outcome<(seq<seq<Pair>>, Bytes)>
    decreases |bs|
  {
    if bs == [] then Err(BadRdb)
    else if bs[0] == 0xfe then
      var (pairs, r1) :- ReadDatabase(bs[1..]);
      var (more, r2) :- ReadDatabases(r1);
      Ok(([pairs] + more, r2))
    else if bs[0] == 0xff then Ok(([], bs))
    else Err(BadRdb)
  }

  /** The Metadata phase and what follows it. */
  function ReadMetadata(bs: Bytes): Outcome<(seq<(string, string)>, seq<seq<Pair>>, Bytes)>
    decreases |bs|
  {
    if bs == [] then Err(BadRdb)
    else if bs[0] == 0xfa then
      var (key, r1) :- DecodeString(bs[1..]);
      var (value, r2) :- DecodeString(r1);
      var (aux, datasets, r3) :- ReadMetadata(r2);
      Ok(([(key, value)] + aux, datasets, r3))
    else if bs[0] == 0xfe || bs[0] == 0xff then
      var (datasets, rest) :- ReadDatabases(bs);
      Ok(([], datasets, rest))
    else Err(BadRdb)
  }

  /** `read_rdb`: the file, and the bytes from the final 0xff on. */
  function ReadRdb(bs: Bytes): Outcome<(RdbFile, Bytes)> {
    if |bs| < 9 || bs[..5] != MAGIC then Err(BadRdb)
    else
      var (aux, datasets, rest) :- ReadMetadata(bs[9..]);
      Ok((RdbFile(bs[5..9], aux, datasets), rest))
  }
}
