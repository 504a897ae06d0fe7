/** Footnote labels: the `identifier` routine, which writes a footnote index as
    an ordinary positional numeral whose digits are the symbols of the active
    charset. */
module Numbering {
  import Charsets
  import Sequences

  /** The numeric value of a most-significant-first digit sequence. */
  function Value(digits: seq<nat>, base: nat): nat
  {
    if |digits| == 0 then 0
    else Value(digits[..|digits| - 1], base) * base + digits[|digits| - 1]
  }

  /** Every digit is below the base. */
  predicate AllBelow(digits: seq<nat>, base: nat)
  {
    forall k :: 0 <= k < |digits| ==> digits[k] < base
  }

  /** A canonical numeral: at least one digit, every digit below the base, and
      no leading zero unless the numeral is the single digit 0. */
  predicate Canonical(digits: seq<nat>, base: nat)
  {
    && |digits| >= 1
    && AllBelow(digits, base)
    && (|digits| > 1 ==> digits[0] != 0)
  }

  /** Euclidean division by a base of at least 2, spelled out for the solver. */
  lemma DivisionFacts(n: nat, base: nat)
    requires base >= 2
    ensures n == (n / base) * base + n % base
    ensures 0 <= n % base < base
    ensures n >= base ==> 1 <= n / base < n
    ensures n < base ==> n / base == 0 && n % base == n
  {
  }

  /** The base-`base` digits of `n`, most significant first. */
  function Digits(n: nat, base: nat): (digits: seq<nat>)
    requires base >= 2
    ensures Canonical(digits, base)
    decreases n
  {
    if n < base then [n]
    else
      DivisionFacts(n, base);
      var high := Digits(n / base, base);
      var digits := high + [n % base];
      assert |high| > 1 ==> digits[0] == high[0];
      assert |high| == 1 ==> digits[0] == n / base;
      digits
  }

  /** Writing `n` out and reading the digits back gives `n`. */
  lemma {:induction false} ValueOfDigits(n: nat, base: nat)
    requires base >= 2
    ensures Value(Digits(n, base), base) == n
    decreases n
  {
    if n >= base {
      DivisionFacts(n, base);
      var high := Digits(n / base, base);
      var digits := high + [n % base];
      assert digits[..|digits| - 1] == high;
      ValueOfDigits(n / base, base);
    }
  }

  /** A value is at least its leading digit. */
  lemma {:induction false} ValueAtLeastLeading(digits: seq<nat>, base: nat)
    requires |digits| >= 1 && base >= 1
    ensures Value(digits, base) >= digits[0]
    decreases |digits|
  {
    if |digits| > 1 {
      var init := digits[..|digits| - 1];
      ValueAtLeastLeading(init, base);
      assert init[0] == digits[0];
    }
  }

  /** Reading a canonical numeral and writing the value back out gives the same
      numeral: `Digits` and `Value` are mutually inverse. */
  lemma {:induction false} DigitsOfValue(digits: seq<nat>, base: nat)
    requires base >= 2 && Canonical(digits, base)
    ensures Digits(Value(digits, base), base) == digits
    decreases |digits|
  {
    if |digits| > 1 {
      var init := digits[..|digits| - 1];
      var last := digits[|digits| - 1];
      assert Canonical(init, base) by {
        assert init[0] == digits[0];
      }
      ValueAtLeastLeading(init, base);
      var v := Value(init, base);
      assert v >= 1;
      assert Value(digits, base) == v * base + last;
      QuotientOfNumeral(v, last, base);
      DigitsOfValue(init, base);
      assert digits == init + [last];
    }
  }

  /** Division undoes appending one digit. */
  lemma QuotientOfNumeral(v: nat, last: nat, base: nat)
    requires base >= 2 && v >= 1 && last < base
    ensures v * base + last >= base
    ensures (v * base + last) / base == v && (v * base + last) % base == last
  {
    var n := v * base + last;
    DivisionFacts(n, base);
    assert v * base >= base;
    UniqueDivision(n, base, v, last);
  }

  /** The quotient and remainder of Euclidean division are unique. */
  lemma UniqueDivision(n: nat, base: nat, q: nat, r: nat)
    requires base >= 2 && r < base && n == q * base + r
    ensures n / base == q && n % base == r
  {
    var q' := n / base;
    var r' := n % base;
    DivisionFacts(n, base);
    assert (q - q') * base == r' - r;
    assert (q' - q) * base == r - r';
    MultipleAtLeastBase(q - q', base);
    MultipleAtLeastBase(q' - q, base);
  }

  /** A positive multiple of `base` is at least `base`. */
  lemma MultipleAtLeastBase(x: int, base: nat)
    ensures x >= 1 ==> x * base >= base
  {
    if x >= 1 {
      MultiplyMonotone(1, x, base);
    }
  }

  /** Multiplication by a natural is monotone. */
  lemma {:induction false} MultiplyMonotone(a: nat, c: nat, base: nat)
    requires a <= c
    ensures a * base <= c * base
    decreases c - a
  {
    if a < c {
      MultiplyMonotone(a + 1, c, base);
      assert (a + 1) * base == a * base + base;
    }
  }

  /** Distinct indices are written with distinct digit sequences. */
  lemma DigitsInjective(m: nat, n: nat, base: nat)
    requires base >= 2
    ensures Digits(m, base) == Digits(n, base) ==> m == n
  {
    ValueOfDigits(m, base);
    ValueOfDigits(n, base);
  }

  /** The charset `identifier` actually uses: one with fewer than two symbols
      is replaced by the alphabet. */
  function Effective(charset: seq<string>): (cs: seq<string>)
    ensures |cs| >= 2
    ensures |charset| >= 2 ==> cs == charset
    ensures |charset| < 2 ==> cs == Charsets.Alpha && |cs| == 26
  {
    if |charset| < 2 then Charsets.Alpha else charset
  }

  /** The text of a numeral: the symbols of its digits, in order. */
  function Render(cs: seq<string>, digits: seq<nat>): string
    requires AllBelow(digits, |cs|)
  {
    if |digits| == 0 then "" else cs[digits[0]] + Render(cs, digits[1..])
  }

  /** The label of footnote `index` under `charset`. */
  function Label(charset: seq<string>, index: nat): string
  {
    var cs := Effective(charset);
    Render(cs, Digits(index, |cs|))
  }

  /** JavaScript's `Math.round` on exact reals: halves round up. */
  function RoundHalfUp(x: real): int
  {
    (x + 0.5).Floor
  }

  /** The rounding step of `identifier` is integer division on naturals. */
  lemma RoundingIsDivision(i: nat, base: nat)
    requires base >= 1
    ensures RoundHalfUp(i as real / base as real - 0.5) == i / base
  {
    var q := i / base;
    var r := i % base;
    var x := i as real / base as real;
    assert i as real == q as real * base as real + r as real;
    assert x == q as real + r as real / base as real;
    assert 0.0 <= r as real / base as real < 1.0;
    assert x - 0.5 + 0.5 == x;
    assert q as real <= x < q as real + 1.0;
  }

  /** The loop's update `round(i / base - 0.5)`, evaluated on exact reals. */
  function NextIndex(i: nat, base: nat): (next: nat)
    requires base >= 1
    ensures next == i / base
  {
    RoundingIsDivision(i, base);
    RoundHalfUp(i as real / base as real - 0.5)
  }

  /** The `identifier` routine: the fallback to the alphabet, then the
      single-digit shortcut, then the digit loop. */
  method Identifier(charset: seq<string>, index: nat) returns (result: string)
    ensures result == Label(charset, index)
  {
    var cs := charset;
    var base := |cs|;
    if base < 2 {
      cs := Charsets.Alpha;
      base := |cs|;
    }
    assert cs == Effective(charset);
    if index < base {
      LabelOfSmallIndex(charset, index);
      return cs[index];
    }
    result := WriteDigits(cs, index);
  }

  /** The loop of `identifier`: prepend `cs[i % base]`, then replace `i` by
      `i / base - 0.5` rounded. The source writes it as do-while; the index is
      positive on entry, so a while loop with the same test runs the same
      iterations. */
  method WriteDigits(cs: seq<string>, index: nat) returns (result: string)
    requires |cs| >= 2 && index > 0
    ensures result == Render(cs, Digits(index, |cs|))
  {
    var base := |cs|;
    result := "";
    var i: nat := index;
    ghost var written: seq<nat> := [];
    while i > 0
      invariant AllBelow(written, |cs|)
      invariant Digits(index, base) == Pending(i, base) + written
      invariant result == Render(cs, written)
      decreases i
    {
      var digit := i % base;
      LoopStep(cs, index, i, written);
      result := cs[digit] + result;
      written := [digit] + written;
      i := NextIndex(i, base);
    }
    assert Pending(i, base) + written == written;
  }

  /** The digits of `i` still to be written: none once `i` reaches 0. */
  function Pending(i: nat, base: nat): seq<nat>
    requires base >= 2
  {
    if i == 0 then [] else Digits(i, base)
  }

  /** One iteration of the digit loop keeps its invariant. */
  lemma LoopStep(cs: seq<string>, index: nat, i: nat, written: seq<nat>)
    requires |cs| >= 2 && i > 0
    requires AllBelow(written, |cs|)
    requires Digits(index, |cs|) == Pending(i, |cs|) + written
    ensures i % |cs| < |cs| && i / |cs| < i
    ensures AllBelow([i % |cs|] + written, |cs|)
    ensures Digits(index, |cs|) == Pending(i / |cs|, |cs|) + ([i % |cs|] + written)
    ensures Render(cs, [i % |cs|] + written) == cs[i % |cs|] + Render(cs, written)
  {
    var base := |cs|;
    DivisionFacts(i, base);
    DigitsStep(i, base);
    assert ([i % base] + written)[1..] == written;
  }

  /** One step of the loop in `identifier`: the digits of a positive `i` are the
      digits of `i / base` (none when that is 0) followed by `i % base`. */
  lemma DigitsStep(i: nat, base: nat)
    requires base >= 2 && i > 0
    ensures Digits(i, base) == (if i / base == 0 then [] else Digits(i / base, base)) + [i % base]
  {
    DivisionFacts(i, base);
  }

  /** A single-digit index is labelled by its own symbol. */
  lemma LabelOfSmallIndex(charset: seq<string>, index: nat)
    requires index < |Effective(charset)|
    ensures Label(charset, index) == Effective(charset)[index]
  {
    var cs := Effective(charset);
    assert Render(cs, [index]) == cs[index] + Render(cs, []);
  }

  /** The label of `base` itself is the second symbol followed by the first:
      plain positional notation, not the bijective numbering in which it would
      be the first symbol twice. */
  lemma LabelOfBase(charset: seq<string>)
    ensures var cs := Effective(charset);
            Label(charset, |cs|) == cs[1] + cs[0]
  {
    var cs := Effective(charset);
    var b := |cs|;
    assert Digits(b, b) == Digits(1, b) + [0];
    assert Digits(b, b) == [1, 0];
    assert Render(cs, [1, 0]) == cs[1] + Render(cs, [0]);
    assert Render(cs, [0]) == cs[0] + Render(cs, []);
  }

  /** A label of two or more symbols never starts with the charset's first
      symbol, the symbol of zero. */
  lemma MultiDigitLeadingSymbol(charset: seq<string>, index: nat)
    requires index >= |Effective(charset)|
    ensures var cs := Effective(charset);
            var digits := Digits(index, |cs|);
            |digits| >= 2 && digits[0] != 0 && Label(charset, index) == cs[digits[0]] + Render(cs, digits[1..])
  {
  }

  /** With single-character symbols a label has exactly one character per digit. */
  lemma {:induction false} RenderSingleCharacters(cs: seq<string>, digits: seq<nat>)
    requires Charsets.SingleCharacters(cs)
    requires AllBelow(digits, |cs|)
    ensures |Render(cs, digits)| == |digits|
    ensures forall k :: 0 <= k < |digits| ==> Render(cs, digits)[k] == cs[digits[k]][0]
    decreases |digits|
  {
    if |digits| > 0 {
      RenderSingleCharacters(cs, digits[1..]);
    }
  }

  /** With a charset of distinct single characters, such as the alphabet,
      distinct indices receive distinct labels. */
  lemma LabelInjective(charset: seq<string>, m: nat, n: nat)
    requires Charsets.SingleCharacters(Effective(charset))
    requires Sequences.Distinct(Effective(charset))
    ensures Label(charset, m) == Label(charset, n) ==> m == n
  {
    var cs := Effective(charset);
    var dm := Digits(m, |cs|);
    var dn := Digits(n, |cs|);
    if Label(charset, m) == Label(charset, n) {
      RenderSingleCharacters(cs, dm);
      RenderSingleCharacters(cs, dn);
      assert |dm| == |dn|;
      forall k | 0 <= k < |dm|
        ensures dm[k] == dn[k]
      {
        assert Render(cs, dm)[k] == Render(cs, dn)[k];
        assert cs[dm[k]] == [cs[dm[k]][0]];
        assert cs[dn[k]] == [cs[dn[k]][0]];
      }
      assert dm == dn;
      DigitsInjective(m, n, |cs|);
    }
  }

  /** Worked examples: with the alphabet, 0 is "a", 25 is "z" and 26 is "ba";
      with the two-symbol charset ["a", "b"] the labels run a, b, ba, bb, baa. */
  lemma Examples()
    ensures Label(Charsets.Alpha, 0) == "a"
    ensures Label(Charsets.Alpha, 25) == "z"
    ensures Label(Charsets.Alpha, 26) == "ba"
    ensures Label(["a", "b"], 2) == "ba"
    ensures Label(["a", "b"], 3) == "bb"
    ensures Label(["a", "b"], 4) == "baa"
  {
    var ab := ["a", "b"];
    assert Digits(2, 2) == [1, 0];
    assert Digits(3, 2) == [1, 1];
    assert Digits(4, 2) == Digits(2, 2) + [0];
    assert Digits(4, 2) == [1, 0, 0];
    assert Digits(26, 26) == [1, 0];
    LabelOfSmallIndex(Charsets.Alpha, 0);
    LabelOfSmallIndex(Charsets.Alpha, 25);
    LabelOfBase(Charsets.Alpha);
    LabelOfBase(ab);
    assert Render(ab, [1, 1]) == "b" + Render(ab, [1]);
    assert Render(ab, [1, 0, 0]) == "b" + Render(ab, [0, 0]);
    assert Render(ab, [0, 0]) == "a" + Render(ab, [0]);
    assert Render(ab, [0]) == "a" + Render(ab, []);
  }
}
