/** What the extension shows: each value formatted as `%.2f` with a `+` in front of
    gains, the body line of `SYMBOL[data] ` items, the master record's data, and
    the short display name of the title symbol. */
module Render {
  import opened JavaLang
  import opened Quotes

  // ---------------------------------------------------------------------------
  // Decimal digits

  function DigitChar(d: nat): char
    requires d < 10
  {
    ('0' as int + d) as char
  }

  predicate IsDigits(s: string)
  {
    forall i :: 0 <= i < |s| ==> '0' <= s[i] <= '9'
  }

  /** The decimal numeral of `n`, without leading zeros. */
  function DigitString(n: nat): (s: string)
    ensures |s| >= 1 && IsDigits(s)
    decreases n
  {
    if n < 10 then [DigitChar(n)] else DigitString(n / 10) + [DigitChar(n % 10)]
  }

  /** The value of a numeral: the reference reading of DigitString. */
  function DigitsValue(s: string): nat
    requires IsDigits(s)
    decreases |s|
  {
    if s == [] then 0 else DigitsValue(s[..|s| - 1]) * 10 + (s[|s| - 1] as int - '0' as int)
  }

  lemma {:induction false} DigitStringRoundTrip(n: nat)
    ensures DigitsValue(DigitString(n)) == n
    decreases n
  {
    if n >= 10 {
      DigitStringRoundTrip(n / 10);
      var s := DigitString(n);
      assert s[..|s| - 1] == DigitString(n / 10);
    }
  }

  // ---------------------------------------------------------------------------
  // String.format("%.2f", ...)

  /** `n` hundredths, `n >= 0`, with two decimals: integer part, point, two digits. */
  function Magnitude(n: nat): string
  {
    DigitString(n / 100) + "." + [DigitChar(n % 100 / 10), DigitChar(n % 10)]
  }

  /** `%.2f` of `h / 100` for an integer number of hundredths. */
  function Fixed2(h: int): string
  {
    if h < 0 then "-" + Magnitude(-h) else Magnitude(h)
  }

  /** Rounding half away from zero (Formatter's HALF_UP) of a non-negative value. */
  function RoundHalfUp(x: real): (n: nat)
    requires x >= 0.0
    ensures x - 0.5 < n as real <= x + 0.5
  {
    (x + 0.5).Floor
  }

  /** `%.2f` of `v / 100` for a real number of hundredths: the magnitude is
      rounded half up, and a negative value keeps its minus sign even when it
      rounds to zero. */
  function Real2(v: real): string
  {
    if v < 0.0 then "-" + Magnitude(RoundHalfUp(-v)) else Magnitude(RoundHalfUp(v))
  }

  /** The reference reading of a `%.2f` numeral, optionally signed; None if malformed. */
  function ReadMagnitude(s: string): Option<nat>
  {
    if |s| >= 4 && s[|s| - 3] == '.' && IsDigits(s[..|s| - 3]) && IsDigits(s[|s| - 2..]) then
      Some(DigitsValue(s[..|s| - 3]) * 100 + DigitsValue(s[|s| - 2..]))
    else None
  }

  function ReadFixed2(s: string): Option<int>
  {
    if |s| > 0 && s[0] == '-' then
      match ReadMagnitude(s[1..])
      case None => None
      case Some(n) => Some(-(n as int))
    else if |s| > 0 && s[0] == '+' then
      match ReadMagnitude(s[1..])
      case None => None
      case Some(n) => Some(n)
    else ReadMagnitude(s)
  }

  lemma TwoDigitsValue(a: nat, b: nat)
    requires a < 10 && b < 10
    ensures DigitsValue([DigitChar(a), DigitChar(b)]) == a * 10 + b
  {
    var t := [DigitChar(a), DigitChar(b)];
    assert DigitChar(a) as int - '0' as int == a && DigitChar(b) as int - '0' as int == b;
    assert t[..1] == [DigitChar(a)];
    assert t[..1][..0] == [];
    assert DigitsValue(t[..1]) == a;
  }

  lemma MagnitudeRoundTrip(n: nat)
    ensures ReadMagnitude(Magnitude(n)) == Some(n)
    ensures '0' <= Magnitude(n)[0] <= '9'
  {
    var s := Magnitude(n);
    var tail := [DigitChar(n % 100 / 10), DigitChar(n % 10)];
    assert s == DigitString(n / 100) + "." + tail;
    assert s[..|s| - 3] == DigitString(n / 100);
    assert s[|s| - 2..] == tail;
    DigitStringRoundTrip(n / 100);
    TwoDigitsValue(n % 100 / 10, n % 10);
  }

  lemma ReadPrefixed(c: char, n: nat)
    requires c == '+' || c == '-'
    ensures ReadFixed2([c] + Magnitude(n)) == Some(if c == '-' then -(n as int) else n)
  {
    MagnitudeRoundTrip(n);
    assert ([c] + Magnitude(n))[1..] == Magnitude(n);
  }

  lemma ReadPlain(n: nat)
    ensures ReadFixed2(Magnitude(n)) == Some(n)
  {
    MagnitudeRoundTrip(n);
  }

  /** Formatting an integer number of hundredths loses nothing. */
  lemma Fixed2RoundTrip(h: int)
    ensures ReadFixed2(Fixed2(h)) == Some(h)
  {
    if h < 0 {
      var n: nat := -h;
      ReadPrefixed('-', n);
      assert Fixed2(h) == ['-'] + Magnitude(n);
    } else {
      ReadPlain(h);
      assert Fixed2(h) == Magnitude(h);
    }
  }

  /** On whole hundredths the real formatting agrees with the integer one. */
  lemma Real2OfWhole(h: int)
    ensures Real2(h as real) == Fixed2(h)
  {
    if h < 0 {
      var n: nat := -h;
      assert RoundHalfUp(-(h as real)) == n;
      assert Real2(h as real) == "-" + Magnitude(n);
    } else {
      assert RoundHalfUp(h as real) == h;
      assert Real2(h as real) == Magnitude(h);
    }
  }

  // ---------------------------------------------------------------------------
  // Displayed data

  /** The bracketed data of one body item: "ERR" for a record that failed to
      parse, else the change (price mode) or the percent followed by "%", with
      a "+" in front of a positive value. */
  function SymbolData(si: SymbolInfo, showPrice: bool): string
  {
    if si.error then "ERR"
    else if showPrice then Signed(si.change)
    else Signed(si.percent) + "%"
  }

  function SignedReal(v: real): string
  {
    (if v > 0.0 then "+" else "") + Real2(v)
  }

  /** The status line data of the master record; always a percent. */
  function MasterData(m: MasterInfo): string
  {
    if m.error then "ERR" else SignedReal(m.percent) + "%"
  }

  /** Reads a displayed value back: a `%.2f` numeral, with a trailing "%" in percent mode. */
  function ReadData(d: string, percentMode: bool): Option<int>
  {
    if !percentMode then ReadFixed2(d)
    else if |d| > 0 && d[|d| - 1] == '%' then ReadFixed2(d[..|d| - 1])
    else None
  }

  /** A signed numeral: "+" in front of a positive value, "-" in front of a negative one. */
  function Signed(v: int): string
  {
    (if v > 0 then "+" else "") + Fixed2(v)
  }

  lemma SignedPositive(v: int)
    requires v > 0
    ensures ReadFixed2(Signed(v)) == Some(v) && Signed(v)[0] == '+'
  {
    ReadPrefixed('+', v);
    assert Signed(v) == ['+'] + Magnitude(v);
  }

  lemma SignedNegative(v: int)
    requires v < 0
    ensures ReadFixed2(Signed(v)) == Some(v) && Signed(v)[0] == '-'
  {
    var n: nat := -v;
    ReadPrefixed('-', n);
    var m := Magnitude(n);
    assert Fixed2(v) == "-" + m;
    assert Signed(v) == Fixed2(v);
  }

  lemma SignedZero()
    ensures ReadFixed2(Signed(0)) == Some(0) && '0' <= Signed(0)[0] <= '9'
  {
    ReadPlain(0);
    MagnitudeRoundTrip(0);
    assert Signed(0) == Magnitude(0);
  }

  /** A signed numeral reads back as its value, and its first character tells the sign. */
  lemma SignedRoundTrip(v: int)
    ensures ReadFixed2(Signed(v)) == Some(v)
    ensures Signed(v)[0] == '+' <==> v > 0
    ensures Signed(v)[0] == '-' <==> v < 0
    ensures Signed(v)[0] != 'E'
  {
    if v > 0 {
      SignedPositive(v);
    } else if v == 0 {
      SignedZero();
    } else {
      SignedNegative(v);
    }
  }

  /** A body item's data denote exactly the record's value in the chosen mode,
      and are unreadable ("ERR") exactly for an error record. */
  lemma SymbolDataRoundTrip(si: SymbolInfo, showPrice: bool)
    ensures ReadData(SymbolData(si, showPrice), !showPrice) ==
      if si.error then None else Some(if showPrice then si.change else si.percent)
    ensures SymbolData(si, showPrice) == "ERR" <==> si.error
    ensures !si.error ==> (SymbolData(si, showPrice)[0] == '+' <==> (if showPrice then si.change else si.percent) > 0)
  {
    var d := SymbolData(si, showPrice);
    if si.error {
      assert ReadMagnitude("ERR") == None;
    } else {
      var v := if showPrice then si.change else si.percent;
      SignedRoundTrip(v);
      if showPrice {
        assert d == Signed(v);
      } else {
        assert d == Signed(v) + "%";
        assert d[..|d| - 1] == Signed(v);
        assert d[0] == Signed(v)[0];
      }
      assert d[0] != 'E';
    }
  }

  /** The master record from a feed row shows what a percent-mode body item would. */
  lemma MasterDataOfRow(si: SymbolInfo)
    ensures MasterData(FromRow(si)) == SymbolData(si, false)
  {
    Real2OfWhole(si.percent);
  }

  lemma SignedRealRounds(v: real)
    ensures var r := ReadFixed2(SignedReal(v));
      r.Some? && v - 0.5 <= r.value as real <= v + 0.5
  {
    if v < 0.0 {
      var n := RoundHalfUp(-v);
      ReadPrefixed('-', n);
      assert SignedReal(v) == ['-'] + Magnitude(n);
    } else if v > 0.0 {
      var n := RoundHalfUp(v);
      ReadPrefixed('+', n);
      assert SignedReal(v) == ['+'] + Magnitude(n);
    } else {
      var n := RoundHalfUp(v);
      ReadPlain(n);
      assert SignedReal(v) == Magnitude(n);
    }
  }

  /** The status line's data denote the master percent rounded to the nearest hundredth. */
  lemma MasterDataRounds(m: MasterInfo)
    requires !m.error
    ensures var r := ReadData(MasterData(m), true);
      r.Some? && m.percent - 0.5 <= r.value as real <= m.percent + 0.5
  {
    var d := MasterData(m);
    assert d[..|d| - 1] == SignedReal(m.percent);
    SignedRealRounds(m.percent);
  }

  // ---------------------------------------------------------------------------
  // The body line

  /** `String.format("%s[%s] ", symbol, data)` */
  function ItemText(si: SymbolInfo, showPrice: bool): string
  {
    si.symbol + "[" + SymbolData(si, showPrice) + "] "
  }

  /** The items of every record, in list order. */
  function Body(list: seq<SymbolInfo>, showPrice: bool): string
    decreases |list|
  {
    if list == [] then "" else Body(list[..|list| - 1], showPrice) + ItemText(list[|list| - 1], showPrice)
  }

  lemma StringAssoc(x: string, y: string, z: string)
    ensures x + y + z == x + (y + z)
  {
  }

  /** The body of a concatenation is the concatenation of the bodies. */
  lemma {:induction false} BodyAppend(a: seq<SymbolInfo>, b: seq<SymbolInfo>, showPrice: bool)
    ensures Body(a + b, showPrice) == Body(a, showPrice) + Body(b, showPrice)
    decreases |b|
  {
    if b != [] {
      var init := b[..|b| - 1];
      var last := ItemText(b[|b| - 1], showPrice);
      BodyAppend(a, init, showPrice);
      assert (a + b)[..|a + b| - 1] == a + init;
      assert (a + b)[|a + b| - 1] == b[|b| - 1];
      assert Body(a + b, showPrice) == Body(a + init, showPrice) + last;
      assert Body(b, showPrice) == Body(init, showPrice) + last;
      StringAssoc(Body(a, showPrice), Body(init, showPrice), last);
    } else {
      assert a + b == a;
    }
  }

  /** The `for (SymbolInfo si : symbolInfo)` loop building the body line. */
  method BuildBody(symbolInfo: seq<SymbolInfo>, showPrice: bool) returns (bodyLine: string)
    ensures bodyLine == Body(symbolInfo, showPrice)
  {
    bodyLine := "";
    for i := 0 to |symbolInfo|
      invariant bodyLine == Body(symbolInfo[..i], showPrice)
    {
      assert symbolInfo[..i + 1][..i] == symbolInfo[..i];
      bodyLine := bodyLine + ItemText(symbolInfo[i], showPrice);
    }
    assert symbolInfo[..|symbolInfo|] == symbolInfo;
  }

  // ---------------------------------------------------------------------------
  // symbolNameToShortName

  /** `Arrays.asList(values).indexOf(x)`: the first position of `x`, or -1. */
  function IndexOf(values: seq<string>, x: string): (r: int)
    ensures -1 <= r < |values|
    ensures r == -1 <==> x !in values
    ensures r >= 0 ==> values[r] == x && forall j :: 0 <= j < r ==> values[j] != x
    decreases |values|
  {
    if values == [] then -1
    else if values[0] == x then 0
    else
      var k := IndexOf(values[1..], x);
      if k < 0 then -1 else k + 1
  }

  /** The header name of a title symbol: the short name in the same position as
      the symbol's first occurrence among the title values. A symbol that is
      not listed, or whose position has no short name (the array read fails),
      is shown as is. */
  function ShortName(title: string, titleValues: seq<string>, shortNames: seq<string>): (r: string)
    ensures title !in titleValues ==> r == title
    ensures forall k :: (0 <= k < |titleValues| && titleValues[k] == title &&
      forall j :: 0 <= j < k ==> titleValues[j] != title) ==>
        r == if k < |shortNames| then shortNames[k] else title
  {
    var titleIndex := IndexOf(titleValues, title);
    if 0 <= titleIndex < |shortNames| then shortNames[titleIndex] else title
  }
}
