/**
  Radix-36 numerals: `Number.prototype.toString(36)`, the codec's
  `encodeNumber` (the same, upper-cased), zero padding with `padStart`, and
  `parseInt(str, 36)`.
*/
module Base36 {
  import opened Wrappers
  import opened JsString

  predicate IsDecimalDigit(u: nat) {
    '0' as nat <= u <= '9' as nat
  }

  predicate IsUpperLetter(u: nat) {
    'A' as nat <= u <= 'Z' as nat
  }

  predicate IsLowerLetter(u: nat) {
    'a' as nat <= u <= 'z' as nat
  }

  /** The class `[0-9A-Z]` the token scanner tests. */
  predicate IsUpperAlnum(u: nat) {
    IsDecimalDigit(u) || IsUpperLetter(u)
  }

  /** The class `[0-9A-Za-z]`: the radix-36 digits `parseInt` accepts, in either case. */
  predicate IsAlnum(u: nat) {
    IsUpperAlnum(u) || IsLowerLetter(u)
  }

  /** Every character is in `[0-9A-Za-z]` (stated character by character, front to back). */
  predicate AllAlnum(s: Units)
    decreases |s|
  {
    |s| == 0 || (IsAlnum(s[0]) && AllAlnum(s[1..]))
  }

  /** Every character is in `[0-9A-Z]`. */
  predicate AllUpperAlnum(s: Units)
    decreases |s|
  {
    |s| == 0 || (IsUpperAlnum(s[0]) && AllUpperAlnum(s[1..]))
  }

  lemma {:induction false} AllAlnumAt(s: Units, i: nat)
    requires AllAlnum(s) && i < |s|
    ensures IsAlnum(s[i])
    decreases i
  {
    if i > 0 {
      AllAlnumAt(s[1..], i - 1);
    }
  }

  lemma {:induction false} AllUpperAlnumAt(s: Units, i: nat)
    requires AllUpperAlnum(s) && i < |s|
    ensures IsUpperAlnum(s[i])
    decreases i
  {
    if i > 0 {
      AllUpperAlnumAt(s[1..], i - 1);
    }
  }

  /** A string is all `[0-9A-Za-z]` exactly when both of its parts are. */
  lemma {:induction false} AllAlnumConcat(a: Units, b: Units)
    ensures AllAlnum(a + b) <==> AllAlnum(a) && AllAlnum(b)
    decreases |a|
  {
    if |a| == 0 {
      assert a + b == b;
    } else {
      assert (a + b)[1..] == a[1..] + b;
      AllAlnumConcat(a[1..], b);
    }
  }

  /** A string is all `[0-9A-Z]` exactly when both of its parts are. */
  lemma {:induction false} AllUpperAlnumConcat(a: Units, b: Units)
    ensures AllUpperAlnum(a + b) <==> AllUpperAlnum(a) && AllUpperAlnum(b)
    decreases |a|
  {
    if |a| == 0 {
      assert a + b == b;
    } else {
      assert (a + b)[1..] == a[1..] + b;
      AllUpperAlnumConcat(a[1..], b);
    }
  }

  lemma {:induction false} AllAlnumSlice(s: Units, a: nat, b: nat)
    requires a <= b <= |s| && AllAlnum(s)
    ensures AllAlnum(s[a..b])
  {
    assert s == s[..a] + s[a..b] + s[b..];
    AllAlnumConcat(s[..a] + s[a..b], s[b..]);
    AllAlnumConcat(s[..a], s[a..b]);
  }

  lemma {:induction false} UpperAlnumIsAlnum(s: Units)
    requires AllUpperAlnum(s)
    ensures AllAlnum(s)
    decreases |s|
  {
    if |s| > 0 {
      UpperAlnumIsAlnum(s[1..]);
    }
  }

  /**
    The value of one radix-36 digit; letters count the same in either case.
    Every caller passes a digit; anything else counts as 0.
  */
  function DigitValue(u: nat): (d: nat)
    ensures d < 36
  {
    if IsDecimalDigit(u) then u - '0' as nat
    else if IsUpperLetter(u) then u - 'A' as nat + 10
    else if IsLowerLetter(u) then u - 'a' as nat + 10
    else 0
  }

  /** The digit for `d`: `toString(36)` writes lower-case letters, `toUpperCase` turns them upper-case. */
  function DigitChar(d: nat, upper: bool): (u: nat)
    requires d < 36
    ensures IsAlnum(u) && DigitValue(u) == d
    ensures upper ==> IsUpperAlnum(u)
    ensures !upper ==> IsDecimalDigit(u) || IsLowerLetter(u)
  {
    if d < 10 then '0' as nat + d
    else if upper then 'A' as nat + d - 10
    else 'a' as nat + d - 10
  }

  function Pow36(k: nat): (r: nat)
    ensures r >= 1
  {
    if k == 0 then 1 else 36 * Pow36(k - 1)
  }

  /**
    `n.toString(36)` (upper = false) and `n.toString(36).toUpperCase()`
    (upper = true): the digits of n, most significant first, without
    leading zeros.
  */
  function Radix36(n: nat, upper: bool): (r: Units)
    ensures |r| >= 1
    decreases n
  {
    if n < 36 then [DigitChar(n, upper)]
    else Radix36(n / 36, upper) + [DigitChar(n % 36, upper)]
  }

  /** `toString(36)` writes digits only: upper-case ones after `toUpperCase`, lower-case ones before. */
  lemma {:induction false} Radix36Digits(n: nat, upper: bool)
    ensures AllAlnum(Radix36(n, upper))
    ensures upper ==> AllUpperAlnum(Radix36(n, upper))
    decreases n
  {
    var d := DigitChar(n % 36, upper);
    if n >= 36 {
      Radix36Digits(n / 36, upper);
      AllAlnumConcat(Radix36(n / 36, upper), [d]);
      AllUpperAlnumConcat(Radix36(n / 36, upper), [d]);
    }
  }

  /** The codec's `encodeNumber`. */
  function EncodeNumber(n: nat): Units {
    Radix36(n, true)
  }

  lemma EncodeNumberUpper(n: nat)
    ensures AllUpperAlnum(EncodeNumber(n)) && |EncodeNumber(n)| >= 1
  {
    Radix36Digits(n, true);
  }

  /** The number a string of radix-36 digits denotes, most significant first. */
  function Value(s: Units): nat
    decreases |s|
  {
    if |s| == 0 then 0 else Value(s[..|s| - 1]) * 36 + DigitValue(s[|s| - 1])
  }

  function Zeros(k: nat): (r: Units)
    ensures |r| == k
  {
    if k == 0 then [] else ['0' as nat] + Zeros(k - 1)
  }

  lemma {:induction false} ZerosAreZeros(k: nat)
    ensures forall i :: 0 <= i < k ==> Zeros(k)[i] == '0' as nat
    decreases k
  {
    if k > 0 {
      ZerosAreZeros(k - 1);
    }
  }

  /** `s.padStart(width, '0')`: zeros in front up to the width; a longer string is left whole. */
  function PadStart(s: Units, width: nat): (r: Units)
    ensures |s| >= width ==> r == s
    ensures |s| < width ==> |r| == width && r[width - |s|..] == s
  {
    if |s| >= width then s else Zeros(width - |s|) + s
  }

  /** What `padStart` puts in front is zeros. */
  lemma PadStartZeros(s: Units, width: nat)
    ensures forall i :: 0 <= i < |PadStart(s, width)| - |s| ==> PadStart(s, width)[i] == '0' as nat
  {
    if |s| < width {
      ZerosAreZeros(width - |s|);
      var z := Zeros(width - |s|);
      assert forall i :: 0 <= i < |z| ==> (z + s)[i] == z[i];
    }
  }

  /** Reads back what `Radix36` writes, in either case. */
  lemma {:induction false} Radix36Value(n: nat, upper: bool)
    ensures Value(Radix36(n, upper)) == n
    decreases n
  {
    if n >= 36 {
      Radix36Value(n / 36, upper);
      var r := Radix36(n, upper);
      assert r[..|r| - 1] == Radix36(n / 36, upper);
    }
  }

  /** A numeral fits in `w` digits exactly when the number is below 36^w. */
  lemma {:induction false} Radix36Width(n: nat, upper: bool, w: nat)
    requires w >= 1
    ensures |Radix36(n, upper)| <= w <==> n < Pow36(w)
    decreases n
  {
    if n < 36 {
      Pow36Monotone(1, w);
    } else if w == 1 {
      assert Pow36(1) == 36;
    } else {
      Radix36Width(n / 36, upper, w - 1);
      assert n / 36 < Pow36(w - 1) <==> n < 36 * Pow36(w - 1);
    }
  }

  lemma {:induction false} Pow36Monotone(i: nat, j: nat)
    requires i <= j
    ensures Pow36(i) <= Pow36(j)
    decreases j - i
  {
    if i < j {
      Pow36Monotone(i, j - 1);
    }
  }

  /** Leading zeros do not change a numeral's value. */
  lemma {:induction false} ZerosValue(k: nat, s: Units)
    ensures Value(Zeros(k) + s) == Value(s)
    decreases |s|
  {
    var z := Zeros(k) + s;
    if |s| == 0 {
      assert z == Zeros(k);
      ValueOfZeros(k);
    } else {
      ZerosValue(k, s[..|s| - 1]);
      assert z[..|z| - 1] == Zeros(k) + s[..|s| - 1];
    }
  }

  lemma {:induction false} ValueOfZeros(k: nat)
    ensures Value(Zeros(k)) == 0
    decreases k
  {
    if k > 0 {
      ZerosSnoc(k);
      ValueOfZeros(k - 1);
      assert Zeros(k)[..k - 1] == Zeros(k - 1);
    }
  }

  lemma {:induction false} ZerosSnoc(k: nat)
    requires k > 0
    ensures Zeros(k) == Zeros(k - 1) + ['0' as nat]
    decreases k
  {
    if k > 1 {
      ZerosSnoc(k - 1);
      assert ['0' as nat] + (Zeros(k - 2) + ['0' as nat]) == (['0' as nat] + Zeros(k - 2)) + ['0' as nat];
    }
  }

  /** `EncodeNumber(n).padStart(w, '0')` for a number that fits: exactly `w` upper-case digits worth `n`. */
  lemma PaddedNumeral(n: nat, w: nat)
    requires w >= 1 && n < Pow36(w)
    ensures |PadStart(EncodeNumber(n), w)| == w
    ensures AllUpperAlnum(PadStart(EncodeNumber(n), w))
    ensures Value(PadStart(EncodeNumber(n), w)) == n
  {
    var e := EncodeNumber(n);
    Radix36Width(n, true, w);
    Radix36Value(n, true);
    EncodeNumberUpper(n);
    var p := PadStart(e, w);
    if |e| < w {
      assert p == Zeros(w - |e|) + e;
      ZerosValue(w - |e|, e);
      ZerosUpperAlnum(w - |e|);
      AllUpperAlnumConcat(Zeros(w - |e|), e);
    }
  }

  lemma {:induction false} ZerosUpperAlnum(k: nat)
    ensures AllUpperAlnum(Zeros(k))
    decreases k
  {
    if k > 0 {
      ZerosUpperAlnum(k - 1);
      assert Zeros(k)[1..] == Zeros(k - 1);
    }
  }

  /** Length of the leading run of `[0-9A-Za-z]`. */
  function AlnumRun(s: Units): (n: nat)
    ensures n <= |s|
    decreases |s|
  {
    if |s| > 0 && IsAlnum(s[0]) then 1 + AlnumRun(s[1..]) else 0
  }

  /** The run is all digits and stops at the first non-digit. */
  lemma {:induction false} AlnumRunSpec(s: Units)
    ensures AllAlnum(s[..AlnumRun(s)])
    ensures AlnumRun(s) < |s| ==> !IsAlnum(s[AlnumRun(s)])
    decreases |s|
  {
    if |s| > 0 && IsAlnum(s[0]) {
      var m := AlnumRun(s[1..]);
      AlnumRunSpec(s[1..]);
      assert s[..m + 1] == [s[0]] + s[1..][..m];
    }
  }

  /**
    `parseInt(s, 36)`: skip leading white space, read an optional sign, then
    the longest run of radix-36 digits; no digit at all is `NaN` (None).
  */
  function ParseInt36(s: Units): Option<int> {
    var t := TrimStart(s);
    var negative := |t| > 0 && t[0] == '-' as nat;
    var u := if |t| > 0 && (t[0] == '-' as nat || t[0] == '+' as nat) then t[1..] else t;
    var n := AlnumRun(u);
    if n == 0 then None
    else
      var magnitude: int := Value(u[..n]);
      Some(if negative then -magnitude else magnitude)
  }

  /** On a non-empty numeral `parseInt` is exact. */
  lemma ParseInt36OfNumeral(s: Units)
    requires |s| > 0 && AllAlnum(s)
    ensures ParseInt36(s) == Some(Value(s))
  {
    assert !IsSpace(s[0]);
    assert TrimStart(s) == s;
    AlnumRunAll(s);
    assert s[..|s|] == s;
  }

  lemma {:induction false} AlnumRunAll(s: Units)
    requires AllAlnum(s)
    ensures AlnumRun(s) == |s|
    decreases |s|
  {
    if |s| > 0 {
      AlnumRunAll(s[1..]);
    }
  }
}
