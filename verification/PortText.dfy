/** Which port texts the dial decisions accept, and what they read. */
module PortText {
  import opened Outcomes
  import opened UpstreamTargets

  function Digit(d: nat): char
    requires d < 10
  {
    '0' + d as char
  }

  /** The decimal text of a number. */
  function Decimal(v: nat): string {
    if v < 10 then [Digit(v)] else Decimal(v / 10) + [Digit(v % 10)]
  }

  function Zeros(k: nat): string {
    if k == 0 then "" else Zeros(k - 1) + "0"
  }

  lemma {:induction false} DigitsOfPrefix(t: string, s: string, n: nat)
    requires n <= |t|
    ensures DigitsValue(t + s, n) == DigitsValue(t, n)
  {
    if n > 0 {
      DigitsOfPrefix(t, s, n - 1);
    }
  }

  /** One more digit. */
  lemma DigitAppended(t: string, c: char)
    ensures DigitsValue(t + [c], |t| + 1) ==
            match DigitsValue(t, |t|)
            case None => None
            case Some(v) => if '0' <= c <= '9' then Some(10 * v + (c - '0') as int) else None
  {
    DigitsOfPrefix(t, [c], |t|);
  }

  lemma {:induction false} DigitsAreNatural(t: string)
    ensures DigitsValue(t, |t|).Some? ==> DigitsValue(t, |t|).value >= 0
  {
    if t != [] {
      DigitsAreNatural(t[..|t| - 1]);
      assert t == t[..|t| - 1] + [t[|t| - 1]];
      DigitAppended(t[..|t| - 1], t[|t| - 1]);
    }
  }

  lemma {:induction false} ZerosRead(k: nat)
    ensures |Zeros(k)| == k && DigitsValue(Zeros(k), k) == Some(0)
  {
    if k > 0 {
      ZerosRead(k - 1);
      DigitAppended(Zeros(k - 1), '0');
    }
  }

  lemma {:induction false} PaddedReads(k: nat, v: nat)
    ensures var t := Zeros(k) + Decimal(v); DigitsValue(t, |t|) == Some(v)
  {
    var t := Zeros(k) + Decimal(v);
    if v < 10 {
      ZerosRead(k);
      DigitAppended(Zeros(k), Digit(v));
    } else {
      PaddedReads(k, v / 10);
      DigitAppended(Zeros(k) + Decimal(v / 10), Digit(v % 10));
      assert t == Zeros(k) + Decimal(v / 10) + [Digit(v % 10)];
    }
  }

  lemma {:induction false} ZeroMeansZeros(t: string)
    requires DigitsValue(t, |t|) == Some(0)
    ensures t == Zeros(|t|)
  {
    if t != [] {
      var before, last := t[..|t| - 1], t[|t| - 1];
      assert t == before + [last];
      DigitAppended(before, last);
      DigitsAreNatural(before);
      ZeroMeansZeros(before);
    }
  }

  lemma {:induction false} ReadsMeansPadded(t: string, v: nat)
    requires DigitsValue(t, |t|) == Some(v) && v > 0
    ensures exists k :: 0 <= k && t == Zeros(k) + Decimal(v)
  {
    var before, last := t[..|t| - 1], t[|t| - 1];
    assert t == before + [last];
    DigitAppended(before, last);
    DigitsAreNatural(before);
    var high := DigitsValue(before, |before|).value;
    assert v == 10 * high + (last - '0') as int && last == Digit(v % 10);
    if high == 0 {
      ZeroMeansZeros(before);
      assert t == Zeros(|before|) + Decimal(v);
    } else {
      ReadsMeansPadded(before, high);
      var k :| 0 <= k && before == Zeros(k) + Decimal(high);
      assert v / 10 == high;
      assert t == Zeros(k) + Decimal(v);
    }
  }

  /** An optional plus sign, leading zeros, and the decimal text. */
  ghost predicate Spells(text: string, v: nat) {
    exists k :: 0 <= k && (text == Zeros(k) + Decimal(v) || text == "+" + (Zeros(k) + Decimal(v)))
  }

  lemma {:induction false} DecimalStarts(k: nat, v: nat)
    ensures var t := Zeros(k) + Decimal(v); t != [] && '0' <= t[0] <= '9'
  {
    if k > 0 {
      ZerosStart(k);
    } else if v >= 10 {
      DecimalStarts(k, v / 10);
      assert Zeros(0) + Decimal(v / 10) == Decimal(v / 10);
    }
  }

  lemma {:induction false} ZerosStart(k: nat)
    requires k > 0
    ensures |Zeros(k)| > 0 && Zeros(k)[0] == '0'
  {
    if k > 1 {
      ZerosStart(k - 1);
    }
  }

  lemma SpelledReads(text: string, v: nat)
    requires Spells(text, v)
    ensures Atoi(text) == Some(v)
  {
    var k :| 0 <= k && (text == Zeros(k) + Decimal(v) || text == "+" + (Zeros(k) + Decimal(v)));
    PaddedReads(k, v);
    DecimalStarts(k, v);
    SignIgnored(Zeros(k) + Decimal(v));
  }

  lemma SignIgnored(digits: string)
    requires digits != [] && '0' <= digits[0] <= '9'
    ensures Atoi(digits) == DigitsValue(digits, |digits|) && Atoi("+" + digits) == DigitsValue(digits, |digits|)
  {
    assert ("+" + digits)[1..] == digits;
  }

  /** Exactly the spellings of 1 to 65535 are ports, and each reads as its number. */
  lemma PortsExactly(text: string, v: int)
    ensures Port(text) == Some(v) <==> 1 <= v <= 65535 && Spells(text, v)
  {
    if 1 <= v <= 65535 && Spells(text, v) {
      SpelledReads(text, v);
    }
    if Port(text) == Some(v) {
      var digits := if text[0] == '+' || text[0] == '-' then text[1..] else text;
      DigitsAreNatural(digits);
      assert text[0] != '-';
      ReadsMeansPadded(digits, v);
      if text[0] == '+' {
        assert text == "+" + digits;
      }
    }
  }
}
