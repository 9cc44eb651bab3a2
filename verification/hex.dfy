/**
 Rendering of a CRC as text, as `to_hex` does it: a 32-bit unsigned value
 written in base 16 with upper-case digits, padded on the left with '0' to a
 width of twice its byte size, so exactly eight characters.

 `Parse` is the reading direction, used here only to state what the
 rendering preserves; it accepts exactly the digits the rendering emits.
 */
module Hex {
  import opened Results

  /** The digit alphabet; `std::uppercase` selects the capital letters. */
  const Alphabet: string := "0123456789ABCDEF"

  /** `sizeof(uint32_t) * 2`, the default field width of `to_hex`. */
  const Width: nat := 8

  function Pow16(k: nat): (r: nat)
    ensures r > 0
  {
    if k == 0 then 1 else 16 * Pow16(k - 1)
  }

  /** A run of `k` fill characters. */
  function Zeros(k: nat): (r: string)
    ensures |r| == k
    ensures forall i :: 0 <= i < k ==> r[i] == '0'
  {
    if k == 0 then "" else "0" + Zeros(k - 1)
  }

  /** One of the sixteen characters of the alphabet. */
  predicate IsDigit(c: char) {
    '0' <= c <= '9' || 'A' <= c <= 'F'
  }

  /** A string made of digits only. */
  predicate AllDigits(s: string) {
    forall i :: 0 <= i < |s| ==> IsDigit(s[i])
  }

  /** The value of one upper-case hexadecimal digit, or nothing for any other character. */
  function DigitValue(c: char): (r: Option<nat>)
    ensures r.Some? <==> IsDigit(c)
    ensures r.Some? ==> r.value < 16 && Alphabet[r.value] == c
  {
    if '0' <= c <= '9' then Some(c as nat - '0' as nat)
    else if 'A' <= c <= 'F' then Some(c as nat - 'A' as nat + 10)
    else None
  }

  /** The last `w` base-16 digits of `n`, most significant first. */
  function Digits(n: nat, w: nat): (r: string)
    ensures |r| == w
    ensures AllDigits(r)
    decreases w
  {
    if w == 0 then "" else Digits(n / 16, w - 1) + [Alphabet[n % 16]]
  }

  /** Reads a string of upper-case hexadecimal digits, most significant first. */
  function Parse(s: string): Option<nat>
    decreases |s|
  {
    if |s| == 0 then Some(0)
    else
      match (Parse(s[..|s| - 1]), DigitValue(s[|s| - 1]))
      case (Some(hi), Some(d)) => Some(hi * 16 + d)
      case _ => None
  }

  /** `to_hex` applied to a CRC. */
  function ToHex(v: bv32): (r: string)
    ensures |r| == Width
    ensures AllDigits(r)
    ensures Parse(r) == Some(v as nat)
  {
    FitsWidth(v);
    DigitsRoundTrip(v as nat, Width);
    Digits(v as nat, Width)
  }

  /** Every 32-bit value fits in eight hexadecimal digits. */
  lemma FitsWidth(v: bv32)
    ensures v as nat < Pow16(Width)
  {
    WidthPower();
  }

  /** Eight hexadecimal digits span exactly the 32-bit values. */
  lemma WidthPower()
    ensures Pow16(Width) == 0x1_0000_0000
  {
  }

  /** Reading back the `w` rendered digits of a value that fits in them recovers the value. */
  lemma {:induction false} DigitsRoundTrip(n: nat, w: nat)
    requires n < Pow16(w)
    ensures Parse(Digits(n, w)) == Some(n)
    decreases w
  {
    if w > 0 {
      var hi, lo := n / 16, n % 16;
      assert n == hi * 16 + lo;
      assert hi < Pow16(w - 1) by { assert Pow16(w) == 16 * Pow16(w - 1); }
      DigitsRoundTrip(hi, w - 1);
      DigitRoundTrip(lo);
      DigitsSnoc(hi, lo, w - 1);
      ParseSnoc(Digits(hi, w - 1), Alphabet[lo]);
    }
  }

  /** Rendering one more digit appends the low digit to the rendering of the rest. */
  lemma DigitsSnoc(hi: nat, d: nat, w: nat)
    requires d < 16
    ensures Digits(hi * 16 + d, w + 1) == Digits(hi, w) + [Alphabet[d]]
  {
    DivModDigit(hi, d);
  }

  /** Splitting `hi * 16 + d` at its last base-16 digit recovers `hi` and `d`. */
  lemma DivModDigit(hi: nat, d: nat)
    requires d < 16
    ensures (hi * 16 + d) / 16 == hi && (hi * 16 + d) % 16 == d
  {
  }

  /** The other direction of the round trip: any digit string is the rendering, at its own width, of what it reads as. */
  lemma {:induction false} RenderParsed(s: string)
    requires AllDigits(s)
    ensures Parse(s).Some? && Parse(s).value < Pow16(|s|) && Digits(Parse(s).value, |s|) == s
    decreases |s|
  {
    if |s| > 0 {
      var n := |s| - 1;
      var s', c := s[..n], s[n];
      assert s == s' + [c];
      assert AllDigits(s');
      RenderParsed(s');
      ParseSnoc(s', c);
      var hi, d := Parse(s').value, DigitValue(c).value;
      assert Parse(s) == Some(hi * 16 + d);
      DigitsSnoc(hi, d, n);
      assert hi * 16 + d < Pow16(|s|) by { assert Pow16(|s|) == 16 * Pow16(n); }
    }
  }

  /**
   The rendering is onto the strings of eight digits: such a string reads as
   a 32-bit value, and it is the `to_hex` of exactly the value it reads as.
   */
  lemma ToHexOnto(s: string, v: bv32)
    requires |s| == Width && AllDigits(s)
    ensures Parse(s).Some? && Parse(s).value < 0x1_0000_0000
    ensures ToHex(v) == s <==> v as nat == Parse(s).value
  {
    RenderParsed(s);
    WidthPower();
  }

  /** One more digit at the end multiplies what came before by sixteen and adds the digit. */
  lemma ParseSnoc(s: string, c: char)
    ensures Parse(s + [c]) ==
              if Parse(s).Some? && DigitValue(c).Some? then Some(Parse(s).value * 16 + DigitValue(c).value) else None
  {
    assert (s + [c])[..|s|] == s;
  }

  /** Each digit of the alphabet reads back as its own position. */
  lemma DigitRoundTrip(d: nat)
    requires d < 16
    ensures DigitValue(Alphabet[d]) == Some(d)
  {
  }

  /** Distinct CRCs never render alike. */
  lemma ToHexInjective(a: bv32, b: bv32)
    ensures ToHex(a) == ToHex(b) <==> a == b
  {
    if ToHex(a) == ToHex(b) {
      assert Parse(ToHex(a)) == Parse(ToHex(b));
      var x, y := a as nat, b as nat;
      assert x == y;
      assert a == x as bv32 && b == y as bv32;
    }
  }

  /** A value below 16^m written with one more digit gains exactly one leading '0'. */
  lemma {:induction false} OneMoreDigit(n: nat, m: nat)
    requires n < Pow16(m)
    ensures Digits(n, m + 1) == "0" + Digits(n, m)
    decreases m
  {
    if m > 0 {
      OneMoreDigit(n / 16, m - 1);
    }
  }

  /**
   Zero padding: a value that fits in `k` digits is rendered as `w - k` fill
   characters followed by its `k` significant digits.
   */
  lemma {:induction false} ZeroPadded(n: nat, k: nat, w: nat)
    requires k <= w && n < Pow16(k)
    ensures Digits(n, w) == Zeros(w - k) + Digits(n, k)
    decreases w - k
  {
    if k < w {
      ZeroPadded(n, k, w - 1);
      assert n < Pow16(w - 1) by { PowMonotone(k, w - 1); }
      OneMoreDigit(n, w - 1);
    }
  }

  lemma {:induction false} PowMonotone(i: nat, j: nat)
    requires i <= j
    ensures Pow16(i) <= Pow16(j)
    decreases j
  {
    if i < j {
      PowMonotone(i, j - 1);
    }
  }

  /** The seed of an empty file renders as eight zeros. */
  lemma ZeroRendering()
    ensures ToHex(0) == "00000000"
  {
    ZeroPadded(0, 0, Width);
  }
}
