/** The printed form of bulk strings and arrays, as the `format!` calls of the source write it. */
module Printing {
  import opened Text
  import opened Decimal
  import opened RespSpec

  /** `format!("${}\r\n{}\r\n", t.len(), t)` */
  function BulkText(t: string): string {
    "$" + Show(|t|) + CRLF + t + CRLF
  }

  /** `format!("*{}\r\n", n)` */
  function ArrayHeader(n: nat): string {
    "*" + Show(n) + CRLF
  }

  lemma EncodeBulk(t: string)
    ensures Encode(BulkString(t)) == BulkText(t)
  {
    var header := "$" + Show(|t|);
    assert Lines(BulkString(t)) == [header] + [t];
    UnlinesCons(header, [t]);
    UnlinesOne(t);
    assert header + CRLF + (t + CRLF) == BulkText(t);
  }

  lemma UnlinesOne(l: string)
    ensures Unlines([l]) == l + CRLF
  {
    assert [l] == [l] + [];
    UnlinesCons(l, []);
    assert l + CRLF + "" == l + CRLF;
  }

  /** A printed array is its header followed by its printed children. */
  lemma EncodeArray(items: seq<Value>)
    ensures Encode(Array(items)) == ArrayHeader(|items|) + Concat(EncodeAll(items))
  {
    UnlinesCons("*" + Show(|items|), LinesAll(items));
    EncodeItems(items);
  }

  lemma {:induction false} EncodeItems(items: seq<Value>)
    ensures Unlines(LinesAll(items)) == Concat(EncodeAll(items))
  {
    if items != [] {
      UnlinesAppend(Lines(items[0]), LinesAll(items[1..]));
      EncodeItems(items[1..]);
      ConcatCons(Encode(items[0]), EncodeAll(items[1..]));
    }
  }

  lemma ConcatCons(t: string, ts: seq<string>)
    ensures Concat([t] + ts) == t + Concat(ts)
  {
    assert ([t] + ts)[1..] == ts;
  }

  /** A printed array of bulk strings. */
  lemma {:induction false} EncodeBulks(ts: seq<string>)
    ensures EncodeAll(Bulks(ts)) == BulkTexts(ts)
  {
    if ts != [] {
      EncodeBulk(ts[0]);
      EncodeBulks(ts[1..]);
      assert Bulks(ts)[1..] == Bulks(ts[1..]);
    }
  }

  function Bulks(ts: seq<string>): (vs: seq<Value>)
    ensures |vs| == |ts|
  {
    if ts == [] then [] else [BulkString(ts[0])] + Bulks(ts[1..])
  }

  function BulkTexts(ts: seq<string>): seq<string> {
    if ts == [] then [] else [BulkText(ts[0])] + BulkTexts(ts[1..])
  }

  /** An array of up to three bulk strings, then two more. */
  lemma EncodeThree(a: string, b: string, c: string)
    ensures Encode(Array([BulkString(a), BulkString(b), BulkString(c)]))
         == "*" + Show(3) + CRLF + (BulkText(a) + BulkText(b) + BulkText(c))
  {
    var items := [BulkString(a), BulkString(b), BulkString(c)];
    EncodeArray(items);
    ThreeTexts(a, b, c);
  }

  lemma ThreeTexts(a: string, b: string, c: string)
    ensures Concat(EncodeAll([BulkString(a), BulkString(b), BulkString(c)])) == BulkText(a) + BulkText(b) + BulkText(c)
  {
    TwoTexts(b, c);
    EncodeBulk(a);
    var items := [BulkString(a), BulkString(b), BulkString(c)];
    assert items[1..] == [BulkString(b), BulkString(c)];
    ConcatCons(BulkText(a), EncodeAll(items[1..]));
    assert BulkText(a) + (BulkText(b) + BulkText(c)) == BulkText(a) + BulkText(b) + BulkText(c);
  }

  lemma TwoTexts(b: string, c: string)
    ensures Concat(EncodeAll([BulkString(b), BulkString(c)])) == BulkText(b) + BulkText(c)
  {
    EncodeBulk(b);
    EncodeBulk(c);
    var items := [BulkString(b), BulkString(c)];
    assert items[1..] == [BulkString(c)] && items[1..][1..] == [];
    ConcatCons(BulkText(b), EncodeAll(items[1..]));
    ConcatCons(BulkText(c), EncodeAll([]));
    assert EncodeAll([]) == [] && Concat([]) == "";
    assert EncodeAll(items[1..]) == [BulkText(c)] + EncodeAll([]);
  }

  lemma EncodeFive(a: string, b: string, c: string, d: string, e: string)
    ensures Encode(Array([BulkString(a), BulkString(b), BulkString(c)] + [BulkString(d), BulkString(e)]))
         == "*" + Show(5) + CRLF + (BulkText(a) + BulkText(b) + BulkText(c) + (BulkText(d) + BulkText(e)))
  {
    var left, right := [BulkString(a), BulkString(b), BulkString(c)], [BulkString(d), BulkString(e)];
    EncodeArray(left + right);
    ThreeTexts(a, b, c);
    TwoTexts(d, e);
    EncodeAllAppend(left, right);
    ConcatAppend(EncodeAll(left), EncodeAll(right));
  }

  lemma {:induction false} EncodeAllAppend(a: seq<Value>, b: seq<Value>)
    ensures EncodeAll(a + b) == EncodeAll(a) + EncodeAll(b)
  {
    if a == [] {
      assert a + b == b;
    } else {
      assert (a + b)[1..] == a[1..] + b;
      EncodeAllAppend(a[1..], b);
    }
  }
}
