/** C strings, numerals and joined pieces of text. */
module Strings {
  import opened Arithmetic

  /** A C string: characters before the terminator. */
  type Text = s: string | '\0' !in s witness ""

  /** The pieces, end to end. */
  function Joined(ss: seq<string>): string {
    if ss == [] then "" else Joined(ss[..|ss| - 1]) + ss[|ss| - 1]
  }

  function Digit(d: nat): (c: char)
    requires d < 16
    ensures c as int == if d < 10 then '0' as int + d else 'A' as int + (d - 10)
  {
    "0123456789ABCDEF"[d]
  }

  function DigitValue(c: char): nat {
    if '0' <= c <= '9' then (c - '0') as nat
    else if 'A' <= c <= 'F' then (c - 'A') as nat + 10
    else 0
  }

  lemma DigitValueOf(d: nat)
    requires d < 16
    ensures DigitValue(Digit(d)) == d
  {
  }

  type Base = b: nat | b == 10 || b == 16 witness 10

  /** v in the given base, most significant digit first, no leading zero. */
  function Numeral(v: nat, b: Base): (s: Text)
    ensures |s| >= 1 && ' ' !in s
  {
    if v < b then [Digit(v)] else Numeral(v / b, b) + [Digit(v % b)]
  }

  /** The number a string of digits stands for. */
  function Value(s: string, b: Base): nat {
    if s == "" then 0 else b * Value(s[..|s| - 1], b) + DigitValue(s[|s| - 1])
  }

  lemma {:induction false} NumeralParses(v: nat, b: Base)
    ensures Value(Numeral(v, b), b) == v
  {
    DigitValueOf(v % b);
    if v < b {
      assert v % b == v;
      assert Numeral(v, b)[..0] == "";
    } else {
      NumeralParses(v / b, b);
      assert Numeral(v, b)[..|Numeral(v, b)| - 1] == Numeral(v / b, b);
    }
  }

  /** Cutting digits off the end divides by the base, so a cut numeral of more than one
      digit stands for another number. */
  lemma {:induction false} CutNumeralDiffers(v: nat, b: Base, n: nat)
    requires n < |Numeral(v, b)|
    ensures Value(Numeral(v, b)[..n], b) < v || v == 0
  {
    if v >= b {
      var s, t := Numeral(v, b), Numeral(v / b, b);
      assert s[..n] == t[..n];
      if n < |t| {
        CutNumeralDiffers(v / b, b, n);
      } else {
        assert t[..n] == t;
        NumeralParses(v / b, b);
      }
    } else {
      assert n == 0;
    }
  }

  /** b to the power k. */
  function Power(b: Base, k: nat): (p: nat)
    ensures p >= 1
  {
    if k == 0 then 1 else b * Power(b, k - 1)
  }

  lemma DivBelow(v: nat, b: Base, p: nat)
    requires v < b * p
    ensures v / b < p
  {
    if b == 10 {
    } else {
    }
  }

  lemma {:induction false} NumeralFits(v: nat, b: Base, k: nat)
    requires k >= 1 && v < Power(b, k)
    ensures |Numeral(v, b)| <= k
  {
    if v >= b {
      assert Power(b, 1) == b;
      DivBelow(v, b, Power(b, k - 1));
      NumeralFits(v / b, b, k - 1);
    }
  }
}
