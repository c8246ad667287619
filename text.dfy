/** Text helpers for the generated Python source: decimal rendering of
    counters and indices (what an f-string does with an `int`), and
    `str.join`. */
module Text {

  /** The decimal digit `d` as a character. */
  function DigitChar(d: nat): (c: char)
    requires d < 10
    ensures '0' <= c <= '9'
  {
    ('0' as int + d) as char
  }

  /** Decimal rendering of a non-negative integer, as `f"{n}"` gives it. */
  function NatToString(n: nat): (s: string)
    ensures |s| >= 1
    ensures forall i :: 0 <= i < |s| ==> '0' <= s[i] <= '9'
    ensures n < 10 <==> |s| == 1
    decreases n
  {
    if n < 10 then [DigitChar(n)] else NatToString(n / 10) + [DigitChar(n % 10)]
  }

  /** Two different numbers never render the same: the decimal rendering
      is injective. */
  lemma {:induction false} NatToStringInjective(a: nat, b: nat)
    requires NatToString(a) == NatToString(b)
    ensures a == b
    decreases a
  {
    var sa, sb := NatToString(a), NatToString(b);
    if a < 10 && b < 10 {
      assert sa[0] == DigitChar(a) && sb[0] == DigitChar(b);
    } else if a >= 10 && b >= 10 {
      var pa, pb := NatToString(a / 10), NatToString(b / 10);
      assert sa == pa + [DigitChar(a % 10)];
      assert sb == pb + [DigitChar(b % 10)];
      assert sa[|sa| - 1] == DigitChar(a % 10) && sb[|sb| - 1] == DigitChar(b % 10);
      assert pa == sa[..|sa| - 1] && pb == sb[..|sb| - 1];
      NatToStringInjective(a / 10, b / 10);
    }
  }

  /** `sep.join(parts)` */
  function Join(parts: seq<string>, sep: string): (s: string)
    ensures |parts| == 1 ==> s == parts[0]
    decreases |parts|
  {
    if |parts| == 0 then ""
    else if |parts| == 1 then parts[0]
    else parts[0] + sep + Join(parts[1..], sep)
  }

  /** Appending one more part to a non-empty join puts the separator and
      the part at the end. */
  lemma {:induction false} JoinSnoc(parts: seq<string>, p: string, sep: string)
    requires |parts| >= 1
    ensures Join(parts + [p], sep) == Join(parts, sep) + sep + p
    decreases |parts|
  {
    if |parts| == 1 {
      assert (parts + [p])[1..] == [p];
    } else {
      assert (parts + [p])[1..] == parts[1..] + [p];
      JoinSnoc(parts[1..], p, sep);
    }
  }
}
