/**
 * The string operations the catalog page relies on: per-character lower-casing
 * (`String.prototype.toLowerCase`), substring search (`String.prototype.includes`),
 * left padding (`String.prototype.padStart`) and the decimal rendering of an
 * integer (`Number.prototype.toString`).
 */
module Text {

  /** Lower-cases `s` one character at a time with the case mapping `lower`. */
  function LowerCase(s: string, lower: char -> char): (r: string)
    ensures |r| == |s|
    ensures forall i :: 0 <= i < |s| ==> r[i] == lower(s[i])
  {
    if s == [] then [] else [lower(s[0])] + LowerCase(s[1..], lower)
  }

  /** A case mapping that is a projection: mapping twice is mapping once. */
  ghost predicate Idempotent(lower: char -> char)
  {
    forall c :: lower(lower(c)) == lower(c)
  }

  lemma {:induction false} LowerCaseIdempotent(s: string, lower: char -> char)
    requires Idempotent(lower)
    ensures LowerCase(LowerCase(s, lower), lower) == LowerCase(s, lower)
  {
    var once := LowerCase(s, lower);
    var twice := LowerCase(once, lower);
    assert |twice| == |once|;
    forall i | 0 <= i < |once| ensures twice[i] == once[i] {
      assert twice[i] == lower(lower(s[i]));
    }
  }

  /**
   * The case mapping of the letters the catalog uses: the basic Latin and the
   * basic Cyrillic capitals (А..Я and Ё) go to their small letters; every
   * other character is left as it is.
   */
  function RussianLower(c: char): char
  {
    if 'A' <= c <= 'Z' then (c as int + 32) as char
    else if 'А' <= c <= 'Я' then (c as int + 32) as char
    else if c == 'Ё' then 'ё'
    else c
  }

  lemma RussianLowerIdempotent()
    ensures Idempotent(RussianLower)
  {
    forall c ensures RussianLower(RussianLower(c)) == RussianLower(c) {
    }
  }

  /** Only a letter itself and its capital lower-case to a small letter. */
  lemma RussianLowerPreimage(c: char, x: char)
    requires 'а' <= x <= 'я' || 'a' <= x <= 'z'
    requires RussianLower(c) == x
    ensures c == x || c as int == x as int - 32
  {
  }

  /** `n` occurs in `h` starting at position `i`. */
  predicate OccursAt(h: string, n: string, i: nat)
  {
    i + |n| <= |h| && h[i..i + |n|] == n
  }

  /**
   * `h.includes(n)`: try `n` as a prefix of `h`, then of each shorter suffix.
   * The empty needle is found in every haystack.
   */
  predicate Contains(h: string, n: string)
    ensures Contains(h, n) ==> |n| <= |h|
    decreases |h|
  {
    n <= h || (|h| > 0 && Contains(h[1..], n))
  }

  /** When the search succeeds, it has found an occurrence. */
  lemma {:induction false} ContainsHasOccurrence(h: string, n: string) returns (i: nat)
    requires Contains(h, n)
    ensures OccursAt(h, n, i)
    decreases |h|
  {
    if n <= h {
      i := 0;
    } else {
      var j := ContainsHasOccurrence(h[1..], n);
      i := j + 1;
      assert h[i..i + |n|] == h[1..][j..j + |n|];
    }
  }

  /** Every occurrence is found by the search. */
  lemma {:induction false} OccurrenceIsContained(h: string, n: string, i: nat)
    requires OccursAt(h, n, i)
    ensures Contains(h, n)
    decreases i
  {
    if i > 0 {
      assert h[1..][i - 1..i - 1 + |n|] == h[i..i + |n|];
      OccurrenceIsContained(h[1..], n, i - 1);
    }
  }

  /** The search above finds `n` exactly when `n` occurs somewhere in `h`. */
  lemma ContainsIffOccurs(h: string, n: string)
    ensures Contains(h, n) <==> exists i: nat :: OccursAt(h, n, i)
  {
    if Contains(h, n) {
      var i := ContainsHasOccurrence(h, n);
    }
    forall i: nat | OccursAt(h, n, i) ensures Contains(h, n) {
      OccurrenceIsContained(h, n, i);
    }
  }

  /** The empty needle is always found, so an empty query matches every name. */
  lemma ContainsEmpty(h: string)
    ensures Contains(h, "")
  {
  }

  /** A non-empty needle is found only if its first character is in the haystack. */
  lemma {:induction false} ContainsFirstChar(h: string, n: string)
    requires |n| > 0 && Contains(h, n)
    ensures n[0] in h
    decreases |h|
  {
    if n <= h {
      assert h[0] == n[0];
    } else {
      ContainsFirstChar(h[1..], n);
      assert n[0] in h[1..];
    }
  }

  /** `count` copies of `c`. */
  function Repeat(c: char, count: nat): (r: string)
    ensures |r| == count
    ensures forall i :: 0 <= i < count ==> r[i] == c
  {
    if count == 0 then [] else [c] + Repeat(c, count - 1)
  }

  /**
   * `s.padStart(width, fill)` with a one-character fill: `s` itself when it is
   * at least `width` long, otherwise `s` preceded by enough copies of `fill`.
   */
  function PadStart(s: string, width: nat, fill: char): (r: string)
    ensures |r| == if |s| >= width then |s| else width
    ensures r[|r| - |s|..] == s
    ensures forall i :: 0 <= i < |r| - |s| ==> r[i] == fill
  {
    if |s| >= width then s else Repeat(fill, width - |s|) + s
  }

  predicate IsDigit(c: char)
  {
    '0' <= c <= '9'
  }

  predicate AllDigits(s: string)
  {
    forall i :: 0 <= i < |s| ==> IsDigit(s[i])
  }

  function DigitChar(d: nat): (c: char)
    requires d < 10
    ensures IsDigit(c)
  {
    ('0' as int + d) as char
  }

  /** The decimal digits of `n`, most significant first, without leading zeros. */
  function Digits(n: nat): (r: string)
    ensures |r| >= 1
    ensures AllDigits(r)
    decreases n
  {
    if n < 10 then [DigitChar(n)] else Digits(n / 10) + [DigitChar(n % 10)]
  }

  /** `n.toString()` for an integer `n`: a minus sign for negatives, then the digits. */
  function ToDecimal(n: int): (r: string)
    ensures |r| >= 1
    ensures r[0] == '-' <==> n < 0
    ensures AllDigits(if n < 0 then r[1..] else r)
  {
    if n < 0 then "-" + Digits(-n) else Digits(n)
  }

  /** The number a string of decimal digits denotes (leading zeros allowed). */
  function ValueOf(s: string): nat
    requires AllDigits(s)
    decreases |s|
  {
    if s == [] then 0 else ValueOf(s[..|s| - 1]) * 10 + (s[|s| - 1] as int - '0' as int)
  }

  /** Reading back the digits of `n` gives `n`. */
  lemma {:induction false} ValueOfDigits(n: nat)
    ensures ValueOf(Digits(n)) == n
    decreases n
  {
    if n >= 10 {
      ValueOfDigits(n / 10);
      var d := Digits(n);
      assert d[..|d| - 1] == Digits(n / 10);
    }
  }

  /** The digits of `n` start with a zero only when `n` is zero. */
  lemma {:induction false} DigitsNoLeadingZero(n: nat)
    ensures Digits(n)[0] == '0' <==> n == 0
    decreases n
  {
    if n >= 10 {
      DigitsNoLeadingZero(n / 10);
      assert Digits(n)[0] == Digits(n / 10)[0];
    }
  }

  /** `n` has at most `k` digits exactly when it is below 10^k (here for k = 3). */
  lemma {:induction false} DigitsAtMostThree(n: nat)
    ensures |Digits(n)| <= 3 <==> n < 1000
  {
    if n >= 10 {
      var m := n / 10;
      assert |Digits(n)| == |Digits(m)| + 1;
      if m >= 10 {
        var q := m / 10;
        assert |Digits(m)| == |Digits(q)| + 1;
        if q >= 10 {
          assert |Digits(q)| == |Digits(q / 10)| + 1;
        }
      }
    }
  }

  /** Leading zeros do not change the number a string of digits denotes. */
  lemma {:induction false} ValueOfLeadingZeros(z: string, s: string)
    requires forall i :: 0 <= i < |z| ==> z[i] == '0'
    requires AllDigits(s)
    ensures AllDigits(z + s)
    ensures ValueOf(z + s) == ValueOf(s)
    decreases |s|
  {
    assert AllDigits(z + s);
    if s == [] {
      assert z + s == z;
      ZerosValue(z);
    } else {
      var t := z + s;
      assert t[..|t| - 1] == z + s[..|s| - 1];
      ValueOfLeadingZeros(z, s[..|s| - 1]);
    }
  }

  lemma {:induction false} ZerosValue(z: string)
    requires forall i :: 0 <= i < |z| ==> z[i] == '0'
    ensures AllDigits(z) && ValueOf(z) == 0
    decreases |z|
  {
    if z != [] {
      ZerosValue(z[..|z| - 1]);
    }
  }
}
