/**
  JavaScript strings as the codec sees them: a string is its sequence of
  UTF-16 code units. This module gives the few built-ins the codec relies on
  (`trim`, `substring`, `Array.from` over code points, `String.fromCodePoint`)
  their ECMAScript meaning.
*/
module JsString {

  /** A JavaScript string: its UTF-16 code units, most significant first. */
  type Units = seq<nat>

  const MAX_CODE_POINT: nat := 0x10FFFF

  predicate IsUnit(u: nat) {
    u < 0x10000
  }

  /** Every element is a 16-bit code unit, as in any JavaScript string. */
  predicate ValidUnits(s: Units) {
    forall i :: 0 <= i < |s| ==> IsUnit(s[i])
  }

  predicate IsHighSurrogate(u: nat) {
    0xD800 <= u <= 0xDBFF
  }

  predicate IsLowSurrogate(u: nat) {
    0xDC00 <= u <= 0xDFFF
  }

  /** The line terminators: what `.` in a regular expression refuses to match. */
  predicate IsLineTerminator(u: nat) {
    u == 0x0A || u == 0x0D || u == 0x2028 || u == 0x2029
  }

  /**
    White space and line terminators: the code units `trim` and `parseInt`
    strip, and the ones the regular-expression class `\s` matches.
  */
  predicate IsSpace(u: nat) {
    || IsLineTerminator(u)
    || u == 0x09 || u == 0x0B || u == 0x0C || u == 0x20 || u == 0xA0
    || u == 0x1680 || (0x2000 <= u <= 0x200A) || u == 0x202F || u == 0x205F
    || u == 0x3000 || u == 0xFEFF
  }

  /** `!s.trim()`: the string is empty or white space only. */
  predicate IsBlank(s: Units) {
    forall i :: 0 <= i < |s| ==> IsSpace(s[i])
  }

  /** Strips leading white space (the start half of `trim`, and what `parseInt` skips). */
  function TrimStart(s: Units): (r: Units)
    ensures |r| <= |s|
    decreases |s|
  {
    if |s| > 0 && IsSpace(s[0]) then TrimStart(s[1..]) else s
  }

  /** `TrimStart` drops white space only, and exactly up to the first other unit. */
  lemma {:induction false} TrimStartSpec(s: Units)
    ensures TrimStart(s) == s[|s| - |TrimStart(s)|..]
    ensures forall i :: 0 <= i < |s| - |TrimStart(s)| ==> IsSpace(s[i])
    ensures |TrimStart(s)| > 0 ==> !IsSpace(TrimStart(s)[0])
    decreases |s|
  {
    if |s| > 0 && IsSpace(s[0]) {
      TrimStartSpec(s[1..]);
    }
  }

  /** Strips trailing white space. */
  function TrimEnd(s: Units): (r: Units)
    ensures |r| <= |s|
    decreases |s|
  {
    if |s| > 0 && IsSpace(s[|s| - 1]) then TrimEnd(s[..|s| - 1]) else s
  }

  /** `TrimEnd` drops white space only, and exactly back to the last other unit. */
  lemma {:induction false} TrimEndSpec(s: Units)
    ensures TrimEnd(s) == s[..|TrimEnd(s)|]
    ensures forall i :: |TrimEnd(s)| <= i < |s| ==> IsSpace(s[i])
    ensures |TrimEnd(s)| > 0 ==> !IsSpace(TrimEnd(s)[|TrimEnd(s)| - 1])
    decreases |s|
  {
    if |s| > 0 && IsSpace(s[|s| - 1]) {
      var p := s[..|s| - 1];
      TrimEndSpec(p);
      var k := |TrimEnd(p)|;
      assert TrimEnd(s) == TrimEnd(p);
      assert p[..k] == s[..k];
      forall i | k <= i < |s| ensures IsSpace(s[i]) {
        if i < |p| {
          assert s[i] == p[i];
        }
      }
    }
  }

  /** `String.prototype.trim`. */
  function Trim(s: Units): (r: Units)
    ensures |r| <= |s|
  {
    TrimEnd(TrimStart(s))
  }

  /**
    `trim` leaves nothing exactly of a blank string, leaves no white space at
    either end, changes nothing that has none there, and keeps code units
    code units.
  */
  lemma TrimSpec(s: Units)
    ensures |Trim(s)| == 0 <==> IsBlank(s)
    ensures |Trim(s)| > 0 ==> !IsSpace(Trim(s)[0]) && !IsSpace(Trim(s)[|Trim(s)| - 1])
    ensures |s| > 0 && !IsSpace(s[0]) && !IsSpace(s[|s| - 1]) ==> Trim(s) == s
    ensures ValidUnits(s) ==> ValidUnits(Trim(s))
  {
    var t := TrimStart(s);
    var r := TrimEnd(t);
    TrimStartSpec(s);
    TrimEndSpec(t);
    if |r| == 0 {
      assert IsBlank(s) by {
        assert |t| == 0;
      }
    }
    if |r| > 0 {
      assert r[0] == t[0];
    }
    if |s| > 0 && !IsSpace(s[0]) && !IsSpace(s[|s| - 1]) {
      assert t == s;
    }
    if ValidUnits(s) {
      forall i | 0 <= i < |r| ensures IsUnit(r[i]) {
        assert r[i] == t[i] == s[|s| - |t| + i];
      }
    }
  }

  function ClampIndex(k: int, len: nat): nat {
    if k < 0 then 0 else if k > len then len else k
  }

  /**
    `String.prototype.substring(start, end)`: both bounds are clamped into
    the string, and swapped when they arrive in the wrong order.
  */
  function Substring(s: Units, start: int, end: int): (r: Units)
    ensures 0 <= start <= end <= |s| ==> r == s[start..end]
    ensures 0 <= end <= start <= |s| ==> r == s[end..start]
    ensures start <= 0 && end >= |s| ==> r == s
  {
    var a := ClampIndex(start, |s|);
    var b := ClampIndex(end, |s|);
    if a <= b then s[a..b] else s[b..a]
  }

  /** The code point a surrogate pair stands for. */
  function CombineSurrogates(hi: nat, lo: nat): (c: nat)
    requires IsHighSurrogate(hi) && IsLowSurrogate(lo)
    ensures 0x10000 <= c <= MAX_CODE_POINT
  {
    0x10000 + (hi - 0xD800) * 0x400 + (lo - 0xDC00)
  }

  /**
    `Array.from(str).map(ch => ch.codePointAt(0))`: a high surrogate followed
    by a low surrogate is one code point; every other unit, a lone surrogate
    included, stands for itself.
  */
  function CodePoints(s: Units): (r: seq<nat>)
    ensures |r| <= |s|
    ensures |s| > 0 ==> |r| > 0
    decreases |s|
  {
    if |s| == 0 then []
    else if |s| >= 2 && IsHighSurrogate(s[0]) && IsLowSurrogate(s[1]) then
      [CombineSurrogates(s[0], s[1])] + CodePoints(s[2..])
    else
      [s[0]] + CodePoints(s[1..])
  }

  /** The code points of a string of code units are Unicode code points. */
  lemma {:induction false} CodePointsValid(s: Units)
    requires ValidUnits(s)
    ensures ValidCodePoints(CodePoints(s))
    decreases |s|
  {
    if |s| >= 2 && IsHighSurrogate(s[0]) && IsLowSurrogate(s[1]) {
      CodePointsValid(s[2..]);
    } else if |s| > 0 {
      CodePointsValid(s[1..]);
    }
  }

  /** Every element is a Unicode code point, which `String.fromCodePoint` accepts. */
  predicate ValidCodePoints(cps: seq<nat>) {
    forall i :: 0 <= i < |cps| ==> cps[i] <= MAX_CODE_POINT
  }

  /** `String.fromCodePoint(c)`: one unit below 0x10000, a surrogate pair above. */
  function Utf16(c: nat): (r: Units)
    requires c <= MAX_CODE_POINT
    ensures ValidUnits(r)
    ensures c < 0x10000 ==> r == [c]
    ensures c >= 0x10000 ==> |r| == 2 && IsHighSurrogate(r[0]) && IsLowSurrogate(r[1]) && CombineSurrogates(r[0], r[1]) == c
  {
    if c < 0x10000 then [c]
    else [0xD800 + (c - 0x10000) / 0x400, 0xDC00 + (c - 0x10000) % 0x400]
  }

  /** `String.fromCodePoint(...cps)`. */
  function FromCodePoints(cps: seq<nat>): (r: Units)
    requires ValidCodePoints(cps)
    ensures |cps| <= |r| <= 2 * |cps|
    decreases |cps|
  {
    if |cps| == 0 then [] else Utf16(cps[0]) + FromCodePoints(cps[1..])
  }

  /** `String.fromCodePoint` builds a string of code units. */
  lemma {:induction false} FromCodePointsValid(cps: seq<nat>)
    requires ValidCodePoints(cps)
    ensures ValidUnits(FromCodePoints(cps))
    decreases |cps|
  {
    if |cps| > 0 {
      FromCodePointsValid(cps[1..]);
      var a := Utf16(cps[0]);
      var b := FromCodePoints(cps[1..]);
      assert forall i :: 0 <= i < |a + b| ==> (a + b)[i] == if i < |a| then a[i] else b[i - |a|];
    }
  }

  /** Splitting a string into code points and joining them again gives the string back. */
  lemma {:induction false} CodePointsRoundTrip(s: Units)
    requires ValidUnits(s)
    ensures ValidCodePoints(CodePoints(s)) && FromCodePoints(CodePoints(s)) == s
    decreases |s|
  {
    CodePointsValid(s);
    if |s| >= 2 && IsHighSurrogate(s[0]) && IsLowSurrogate(s[1]) {
      CodePointsRoundTrip(s[2..]);
      PairRoundTripStep(s);
    } else if |s| > 0 {
      CodePointsRoundTrip(s[1..]);
      UnitRoundTripStep(s);
    }
  }

  lemma PairRoundTripStep(s: Units)
    requires |s| >= 2 && IsHighSurrogate(s[0]) && IsLowSurrogate(s[1])
    requires ValidCodePoints(CodePoints(s)) && ValidCodePoints(CodePoints(s[2..]))
    requires FromCodePoints(CodePoints(s[2..])) == s[2..]
    ensures FromCodePoints(CodePoints(s)) == s
  {
    var c := CombineSurrogates(s[0], s[1]);
    SurrogatePairRoundTrip(s[0], s[1]);
    assert CodePoints(s) == [c] + CodePoints(s[2..]);
    assert FromCodePoints(CodePoints(s)) == Utf16(c) + FromCodePoints(CodePoints(s[2..]));
    assert s == [s[0], s[1]] + s[2..];
  }

  lemma UnitRoundTripStep(s: Units)
    requires |s| > 0 && IsUnit(s[0]) && !(|s| >= 2 && IsHighSurrogate(s[0]) && IsLowSurrogate(s[1]))
    requires ValidCodePoints(CodePoints(s)) && ValidCodePoints(CodePoints(s[1..]))
    requires FromCodePoints(CodePoints(s[1..])) == s[1..]
    ensures FromCodePoints(CodePoints(s)) == s
  {
    assert CodePoints(s) == [s[0]] + CodePoints(s[1..]);
    assert FromCodePoints(CodePoints(s)) == Utf16(s[0]) + FromCodePoints(CodePoints(s[1..]));
    assert s == [s[0]] + s[1..];
  }

  lemma SurrogatePairRoundTrip(hi: nat, lo: nat)
    requires IsHighSurrogate(hi) && IsLowSurrogate(lo)
    ensures Utf16(CombineSurrogates(hi, lo)) == [hi, lo]
  {
    var h := hi - 0xD800;
    var l := lo - 0xDC00;
    assert CombineSurrogates(hi, lo) - 0x10000 == h * 0x400 + l;
    DivModByConstant(h, l);
  }

  lemma DivModByConstant(h: nat, l: nat)
    requires l < 0x400
    ensures (h * 0x400 + l) / 0x400 == h
    ensures (h * 0x400 + l) % 0x400 == l
  {
  }

  /** A string with no high surrogate (in particular any ASCII string) is its own code-point sequence. */
  lemma {:induction false} CodePointsWithoutSurrogates(s: Units)
    requires forall i :: 0 <= i < |s| ==> !IsHighSurrogate(s[i])
    ensures CodePoints(s) == s
    decreases |s|
  {
    if |s| > 0 {
      CodePointsWithoutSurrogates(s[1..]);
      assert s == [s[0]] + s[1..];
    }
  }
}
