/** Conversion between `HH:MM` wall-clock strings and integer minutes since
    midnight (`timeToMinutes` / `minutesToTime` of the scheduler). */
module TimeCodec {

  predicate IsDigit(c: char) { '0' <= c <= '9' }

  /** A non-empty run of decimal digits. */
  predicate IsDigits(s: string) {
    |s| > 0 && forall i :: 0 <= i < |s| ==> IsDigit(s[i])
  }

  function DigitValue(c: char): (d: nat)
    requires IsDigit(c)
    ensures d < 10
  {
    c as int - '0' as int
  }

  function DigitChar(d: nat): (c: char)
    requires d < 10
    ensures IsDigit(c) && DigitValue(c) == d
  {
    ('0' as int + d) as char
  }

  /** `Number(s)` for a string of decimal digits (leading zeros allowed). */
  function ParseDecimal(s: string): nat
    requires forall i :: 0 <= i < |s| ==> IsDigit(s[i])
  {
    if s == [] then 0 else ParseDecimal(s[..|s| - 1]) * 10 + DigitValue(s[|s| - 1])
  }

  /** `n.toString()`: decimal digits without leading zeros. */
  function ToDecimal(n: nat): (r: string)
    ensures IsDigits(r)
    ensures |r| == 1 <==> n < 10
  {
    if n < 10 then [DigitChar(n)] else ToDecimal(n / 10) + [DigitChar(n % 10)]
  }

  /** `s.padStart(2, '0')`. */
  function PadStart2(s: string): string {
    if |s| == 0 then "00" else if |s| == 1 then "0" + s else s
  }

  /** Index of the first `:` in `s`, or `|s|` when there is none. */
  function ColonIndex(s: string): (k: nat)
    ensures k <= |s|
    ensures k < |s| ==> s[k] == ':'
    ensures forall i :: 0 <= i < k ==> s[i] != ':'
  {
    if s == [] then 0 else if s[0] == ':' then 0 else 1 + ColonIndex(s[1..])
  }

  /** What `timeToMinutes` needs of its argument: `split(':')` gives two
      non-empty digit runs. */
  predicate WellFormed(s: string) {
    var k := ColonIndex(s);
    k < |s| && IsDigits(s[..k]) && IsDigits(s[k + 1..])
  }

  function Hours(s: string): string
    requires WellFormed(s)
  {
    s[..ColonIndex(s)]
  }

  function Mins(s: string): string
    requires WellFormed(s)
  {
    s[ColonIndex(s) + 1..]
  }

  /** `timeToMinutes`: hours * 60 + minutes, with no range validation. */
  function TimeToMinutes(s: string): (m: nat)
    requires WellFormed(s)
    ensures ParseDecimal(Mins(s)) < 60 ==> m / 60 == ParseDecimal(Hours(s)) && m % 60 == ParseDecimal(Mins(s))
  {
    DivMod60ForMinutes(ParseDecimal(Hours(s)), ParseDecimal(Mins(s)));
    ParseDecimal(Hours(s)) * 60 + ParseDecimal(Mins(s))
  }

  lemma DivMod60ForMinutes(h: nat, mi: nat)
    ensures mi < 60 ==> (h * 60 + mi) / 60 == h && (h * 60 + mi) % 60 == mi
  {
    if mi < 60 {
      DivMod60(h, mi);
    }
  }

  /** `minutesToTime`: floor(m / 60) and m % 60, each padded to two digits.
      Every string it builds can be parsed back. */
  function MinutesToTime(m: nat): (r: string)
    ensures WellFormed(r)
    ensures Hours(r) == PadStart2(ToDecimal(m / 60)) && Mins(r) == PadStart2(ToDecimal(m % 60))
  {
    var hh := PadStart2(ToDecimal(m / 60));
    var mm := PadStart2(ToDecimal(m % 60));
    assert IsDigits(hh) && IsDigits(mm);
    var rest := ":" + mm;
    var r := hh + rest;
    ColonAfterDigits(hh, rest);
    assert r[..|hh|] == hh && r[|hh| + 1..] == mm;
    r
  }

  lemma ColonAfterDigits(d: string, rest: string)
    requires IsDigits(d) && |rest| > 0 && rest[0] == ':'
    ensures ColonIndex(d + rest) == |d|
  {
    assert (d + rest)[|d|] == ':';
  }

  lemma {:induction false} ParseToDecimal(n: nat)
    ensures ParseDecimal(ToDecimal(n)) == n
  {
    if n >= 10 {
      var r := ToDecimal(n);
      assert r[..|r| - 1] == ToDecimal(n / 10);
      ParseToDecimal(n / 10);
    }
  }

  /** A leading zero does not change the value `Number` gives. */
  lemma {:induction false} ParseLeadingZero(s: string)
    requires forall i :: 0 <= i < |s| ==> IsDigit(s[i])
    ensures ParseDecimal("0" + s) == ParseDecimal(s)
  {
    if s != [] {
      assert ("0" + s)[..|"0" + s| - 1] == "0" + s[..|s| - 1];
      ParseLeadingZero(s[..|s| - 1]);
    }
  }

  lemma ParsePadded(n: nat)
    ensures ParseDecimal(PadStart2(ToDecimal(n))) == n
  {
    ParseToDecimal(n);
    if n < 10 {
      ParseLeadingZero(ToDecimal(n));
    }
  }

  /** Parsing what `minutesToTime` printed gives the minutes back, for every
      non-negative minute count (hours above 23 included). */
  lemma RoundTrip(m: nat)
    ensures TimeToMinutes(MinutesToTime(m)) == m
  {
    ParsePadded(m / 60);
    ParsePadded(m % 60);
  }

  /** A canonical `HH:MM` string: two digits, a colon, two digits, and fewer
      than 60 minutes. */
  predicate Canonical(s: string) {
    |s| == 5 && s[2] == ':' && IsDigit(s[0]) && IsDigit(s[1]) && IsDigit(s[3]) && IsDigit(s[4])
    && DigitValue(s[3]) < 6
  }

  lemma TwoDigits(a: char, b: char)
    requires IsDigit(a) && IsDigit(b)
    ensures ParseDecimal([a, b]) == DigitValue(a) * 10 + DigitValue(b)
    ensures PadStart2(ToDecimal(DigitValue(a) * 10 + DigitValue(b))) == [a, b]
  {
    assert [a, b][..1] == [a];
    assert [a][..0] == [];
    assert ParseDecimal([a]) == DigitValue(a);
    var n := DigitValue(a) * 10 + DigitValue(b);
    assert n / 10 == DigitValue(a) && n % 10 == DigitValue(b);
    assert DigitChar(DigitValue(a)) == a && DigitChar(DigitValue(b)) == b;
  }

  lemma DivMod60(h: nat, mi: nat)
    requires mi < 60
    ensures (h * 60 + mi) / 60 == h && (h * 60 + mi) % 60 == mi
  {
  }

  /** A well-formed string is its hour digits, a colon and its minute digits. */
  lemma SplitAtColon(s: string)
    requires WellFormed(s)
    ensures s == Hours(s) + ":" + Mins(s)
  {
    var k := ColonIndex(s);
    assert s == s[..k] + [s[k]] + s[k + 1..];
  }

  lemma CanonicalParse(s: string)
    requires Canonical(s)
    ensures WellFormed(s) && Hours(s) == s[..2] && Mins(s) == s[3..]
  {
    ColonAfterDigits(s[..2], s[2..]);
    assert s[..2] + s[2..] == s;
  }

  /** The other direction: a canonical string survives parsing and printing. */
  lemma CanonicalRoundTrip(s: string)
    requires Canonical(s)
    ensures WellFormed(s) && MinutesToTime(TimeToMinutes(s)) == s
  {
    CanonicalParse(s);
    assert s[..2] == [s[0], s[1]] && s[3..] == [s[3], s[4]];
    TwoDigits(s[0], s[1]);
    TwoDigits(s[3], s[4]);
    var h := DigitValue(s[0]) * 10 + DigitValue(s[1]);
    var mi := DigitValue(s[3]) * 10 + DigitValue(s[4]);
    assert TimeToMinutes(s) == h * 60 + mi;
    DivMod60(h, mi);
    var r := MinutesToTime(h * 60 + mi);
    assert Hours(r) == Hours(s) && Mins(r) == Mins(s);
    SplitAtColon(r);
    SplitAtColon(s);
  }
}
