/** Decimal printing (`to_string`) and parsing (`str::parse`) of integers. */
module Decimal {
  import opened Basics
  import opened Text

  predicate IsDigit(c: char) {
    '0' <= c <= '9'
  }

  predicate AllDigits(s: string) {
    forall i | 0 <= i < |s| :: IsDigit(s[i])
  }

  function Digit(d: nat): (c: char)
    requires d < 10
    ensures IsDigit(c)
  {
    '0' + d as char
  }

  function Show(n: nat): (s: string)
    ensures s != "" && AllDigits(s)
    ensures s[0] == '0' ==> n == 0 && s == "0"
  {
    if n < 10 then [Digit(n)] else Show(n / 10) + [Digit(n % 10)]
  }

  function ShowInt(n: int): string {
    if n < 0 then "-" + Show(-n) else Show(n)
  }

  function NatOf(s: string): nat
    requires AllDigits(s)
  {
    if s == "" then 0 else 10 * NatOf(s[..|s| - 1]) + (s[|s| - 1] - '0') as nat
  }

  /** `s.parse::<uN>()` for an unsigned type with largest value `max`: an optional plus sign, then digits. */
  function ParseUnsigned(s: string, max: nat): (r: Option<nat>)
    ensures r.Some? ==> r.value <= max
  {
    var t := if s != "" && s[0] == '+' then s[1..] else s;
    if t != "" && AllDigits(t) && NatOf(t) <= max then Some(NatOf(t)) else None
  }

  /** `s.parse::<iN>()` for a signed type: an optional sign, then digits. */
  function ParseSigned(s: string, min: int, max: int): (r: Option<int>)
    ensures r.Some? ==> min <= r.value <= max
  {
    var negative := s != "" && s[0] == '-';
    var t := if s != "" && (s[0] == '+' || s[0] == '-') then s[1..] else s;
    if t != "" && AllDigits(t) then
      var m: int := NatOf(t);
      var n := if negative then -m else m;
      if min <= n <= max then Some(n) else None
    else None
  }

  lemma {:induction false} NatOfShow(n: nat)
    ensures NatOf(Show(n)) == n
  {
    if n < 10 {
      assert Show(n)[..0] == "";
    } else {
      NatOfShow(n / 10);
      assert Show(n)[..|Show(n)| - 1] == Show(n / 10);
    }
  }

  /** Printing then parsing gives the number back. */
  lemma ParseShow(n: nat, max: nat)
    requires n <= max
    ensures ParseUnsigned(Show(n), max) == Some(n)
  {
    NatOfShow(n);
    assert IsDigit(Show(n)[0]);
  }

  lemma ParseShowInt(n: int, min: int, max: int)
    requires min <= n <= max
    ensures ParseSigned(ShowInt(n), min, max) == Some(n)
  {
    var s := ShowInt(n);
    if n < 0 {
      NatOfShow(-n);
      assert s[1..] == Show(-n);
    } else {
      NatOfShow(n);
      assert IsDigit(s[0]);
    }
  }

  /** A number below `10^k` prints with at most `k` digits. */
  lemma {:induction false} ShowLength(n: nat, k: nat, bound: nat)
    requires k >= 1 && bound == PowerOfTen(k) && n < bound
    ensures |Show(n)| <= k
  {
    if n >= 10 {
      assert k > 1;
      ShowLength(n / 10, k - 1, PowerOfTen(k - 1));
    }
  }

  function PowerOfTen(k: nat): nat {
    if k == 0 then 1 else 10 * PowerOfTen(k - 1)
  }

  lemma TwentyDigits()
    ensures U64_MAX < PowerOfTen(20)
  {
    assert PowerOfTen(10) == 10_000_000_000;
    assert PowerOfTen(20) == 10_000_000_000 * PowerOfTen(10);
  }

  lemma ShowIntClean(n: int)
    ensures Clean(ShowInt(n)) && ShowInt(n) != ""
    ensures forall i | 0 <= i < |ShowInt(n)| :: ShowInt(n)[i] == '-' || IsDigit(ShowInt(n)[i])
  {
  }

  // ---------------------------------------------------------------- exactly what is read as a number

  function Zeros(k: nat): (s: string)
    ensures |s| == k && AllDigits(s)
  {
    if k == 0 then "" else "0" + Zeros(k - 1)
  }

  /** The text is a number in decimal: an optional sign, any zeros, and its own digits. */
  ghost predicate Spells(s: string, n: int) {
    exists k: nat :: SpellsWith(s, n, k)
  }

  predicate SpellsWith(s: string, n: int, k: nat) {
    || (n >= 0 && s == Zeros(k) + Show(n))
    || (n >= 0 && s == "+" + Zeros(k) + Show(n))
    || (n <= 0 && s == "-" + Zeros(k) + Show(-n))
  }

  lemma {:induction false} NatOfZeros(k: nat, s: string)
    requires AllDigits(s)
    ensures NatOf(Zeros(k) + s) == NatOf(s)
    decreases |s|
  {
    var all := Zeros(k) + s;
    if s != "" {
      assert all[..|all| - 1] == Zeros(k) + s[..|s| - 1];
      NatOfZeros(k, s[..|s| - 1]);
    } else {
      assert all == Zeros(k);
      ZerosAreNothing(k);
    }
  }

  lemma {:induction false} ZerosSnoc(k: nat)
    ensures Zeros(k + 1) == Zeros(k) + "0"
  {
    if k > 0 {
      ZerosSnoc(k - 1);
    }
  }

  lemma {:induction false} ZerosAreNothing(k: nat)
    ensures NatOf(Zeros(k)) == 0
  {
    if k > 0 {
      ZerosSnoc(k - 1);
      ZerosAreNothing(k - 1);
      assert Zeros(k)[..k - 1] == Zeros(k - 1);
    }
  }

  /** Digits are zeros and the printed number. */
  lemma {:induction false} DigitsAre(s: string) returns (k: nat)
    requires s != "" && AllDigits(s)
    ensures s == Zeros(k) + Show(NatOf(s))
  {
    var init, last := s[..|s| - 1], s[|s| - 1];
    assert s == init + [last];
    if init == "" {
      k := 0;
    } else {
      k := DigitsAre(init);
      if NatOf(init) == 0 {
        assert init == Zeros(k) + "0";
        ZerosSnoc(k);
        k := k + 1;
      } else {
        assert s == Zeros(k) + (Show(NatOf(init)) + [last]);
      }
    }
  }

  /** A text is read as a signed number if and only if it spells it and the number fits. */
  lemma ParseSignedExact(s: string, n: int, min: int, max: int)
    ensures ParseSigned(s, min, max) == Some(n) <==> min <= n <= max && Spells(s, n)
  {
    if ParseSigned(s, min, max) == Some(n) {
      ReadSpells(s, n, min, max);
    }
    if min <= n <= max && Spells(s, n) {
      SpelledReads(s, n, min, max);
    }
  }

  lemma ReadSpells(s: string, n: int, min: int, max: int)
    requires ParseSigned(s, min, max) == Some(n)
    ensures Spells(s, n)
  {
    hide NatOf, Show, Zeros;
    var t := if s != "" && (s[0] == '+' || s[0] == '-') then s[1..] else s;
    var k := DigitsAre(t);
    assert s == t || s == "+" + t || s == "-" + t;
    JoinSign("+", Zeros(k), Show(NatOf(t)));
    JoinSign("-", Zeros(k), Show(NatOf(t)));
    assert SpellsWith(s, n, k);
  }

  lemma SpelledReads(s: string, n: int, min: int, max: int)
    requires min <= n <= max && Spells(s, n)
    ensures ParseSigned(s, min, max) == Some(n)
  {
    hide NatOf, Show, Zeros;
    var k: nat :| SpellsWith(s, n, k);
    var m := if n < 0 then -n else n;
    NatOfShow(m);
    NatOfZeros(k, Show(m));
    var digits := Zeros(k) + Show(m);
    JoinSign("+", Zeros(k), Show(m));
    JoinSign("-", Zeros(k), Show(m));
    assert IsDigit(digits[0]);
    assert s == digits || s[1..] == digits;
  }

  lemma JoinSign(a: string, b: string, c: string)
    ensures a + b + c == a + (b + c)
  {
  }

  /** An unsigned number has no minus sign, not even before zero. */
  lemma ParseUnsignedExact(s: string, n: nat, max: nat)
    ensures ParseUnsigned(s, max) == Some(n) <==> n <= max && Spells(s, n) && s[0] != '-'
  {
    ParseSignedExact(s, n, 0, max);
    if Spells(s, n) {
      var k: nat :| SpellsWith(s, n, k);
      assert s != "";
    }
  }
}
