/**
  The build script's string protection: `obfuscateString` writes each
  character, xor-ed with a rotating four-byte key and shifted by
  17 + (i mod 3), in radix 36 with no separator; `deobfuscate` (and its
  inlined copy `_d`) reads the result back two characters at a time.
*/
module BuildObfuscator {
  import opened Wrappers
  import opened JsString
  import opened Base36
  import opened Bitwise

  /** The rotating key of `obfuscateString` and `deobfuscate`, `[0x4A, 0x3F, 0x2C, 0x1E]`. */
  const KEY: seq<nat> := [0x4A, 0x3F, 0x2C, 0x1E]

  /** The key written out in the source of `_d`, `[74, 63, 44, 30]`. */
  const INLINED_KEY: seq<nat> := [74, 63, 44, 30]

  /**
    `Array.from(str).map(c => c.charCodeAt(0))`: one code per code point,
    the code unit itself or, for a surrogate pair, its high half.
  */
  function FirstUnits(s: Units): (r: Units)
    ensures |r| <= |s|
    decreases |s|
  {
    if |s| == 0 then []
    else if |s| >= 2 && IsHighSurrogate(s[0]) && IsLowSurrogate(s[1]) then [s[0]] + FirstUnits(s[2..])
    else [s[0]] + FirstUnits(s[1..])
  }

  /** No high surrogate is directly followed by a low one: every code point is a single unit. */
  predicate NoSurrogatePair(s: Units) {
    forall j :: 0 <= j < |s| - 1 ==> !(IsHighSurrogate(s[j]) && IsLowSurrogate(s[j + 1]))
  }

  /** Without surrogate pairs, `Array.from` keeps every unit. */
  lemma {:induction false} FirstUnitsWithoutPairs(s: Units)
    requires NoSurrogatePair(s)
    ensures FirstUnits(s) == s
    decreases |s|
  {
    if |s| > 0 {
      if |s| >= 2 {
        assert !(IsHighSurrogate(s[0]) && IsLowSurrogate(s[1]));
      }
      FirstUnitsWithoutPairs(s[1..]);
      assert s == [s[0]] + s[1..];
    }
  }

  lemma {:induction false} FirstUnitsValid(s: Units)
    requires ValidUnits(s)
    ensures ValidUnits(FirstUnits(s))
    decreases |s|
  {
    if |s| >= 2 && IsHighSurrogate(s[0]) && IsLowSurrogate(s[1]) {
      FirstUnitsValid(s[2..]);
    } else if |s| > 0 {
      FirstUnitsValid(s[1..]);
    }
  }

  /** The number written for code `c` at index i: `(c ^ key[i % 4]) + 17 + (i % 3)`. */
  function Shifted(c: nat, i: nat): nat {
    Xor(c, KEY[i % 4]) + 17 + i % 3
  }

  /**
    `obfuscateString(str)`. A code unit is below 2^16, so `c ^ key[..]`
    is the plain xor of two non-negative numbers.
  */
  function ObfuscateString(s: Units): Units {
    ObfuscateFrom(FirstUnits(s), 0)
  }

  /** The `map(...).join('')` from index i on, with `toString(36)` for each number. */
  function ObfuscateFrom(codes: Units, i: nat): Units
    decreases |codes|
  {
    if |codes| == 0 then [] else Radix36(Shifted(codes[0], i), false) + ObfuscateFrom(codes[1..], i + 1)
  }

  /** Four bytes, as both copies of the key are. */
  predicate IsKey(key: seq<nat>) {
    |key| == 4 && key[0] < 0x100 && key[1] < 0x100 && key[2] < 0x100 && key[3] < 0x100
  }

  /**
    One chunk back to a code unit under `key`:
    `String.fromCharCode((parseInt(chunk, 36) - 17 - (i % 3)) ^ key[i % 4])`.
    `NaN ^ k` is `k`; `fromCharCode` keeps the low 16 bits, and the low 16
    bits of `x ^ k` (k below 2^16) are those of x xor-ed with k, so the
    value is `(x mod 2^16) xor k` with the two's-complement remainder.
  */
  function DecodeChunk(key: seq<nat>, chunk: Units, i: nat): (u: nat)
    requires IsKey(key)
  {
    match ParseInt36(chunk)
    case None => key[i % 4]
    case Some(n) => Xor((n - 17 - i % 3) % 0x1_0000, key[i % 4])
  }

  /**
    `(encoded.match(/.{1,2}/g) || []).map(...).join('')` under `key`, from
    chunk index i on: `.` matches any code unit but a line terminator, so
    line terminators are skipped and each chunk is two units, or one when
    the next is a line terminator or the end.
  */
  function DeobfuscateFrom(key: seq<nat>, s: Units, i: nat): Units
    requires IsKey(key)
    decreases |s|
  {
    if |s| == 0 then []
    else if IsLineTerminator(s[0]) then DeobfuscateFrom(key, s[1..], i)
    else
      var w := if |s| >= 2 && !IsLineTerminator(s[1]) then 2 else 1;
      [DecodeChunk(key, s[..w], i)] + DeobfuscateFrom(key, s[w..], i + 1)
  }

  /** `deobfuscate(encoded)`. */
  function Deobfuscate(s: Units): Units {
    DeobfuscateFrom(KEY, s, 0)
  }

  /** `_d(s)`, the decoder the build script inlines into the page. */
  function InlinedD(s: Units): Units {
    DeobfuscateFrom(INLINED_KEY, s, 0)
  }

  /** The inlined `_d` is `deobfuscate`: its decimal key is the same key. */
  lemma InlinedDIsDeobfuscate(s: Units)
    ensures InlinedD(s) == Deobfuscate(s)
  {
    assert INLINED_KEY == KEY;
  }

  // ---------------------------------------------------------------------
  // The round trip as written

  /**
    Every number but the last is written with exactly two digits, and the
    last with at most two: the condition under which the two-character
    chunks line up with what was written.
  */
  predicate ChunksAlign(codes: Units, i: nat) {
    forall j :: 0 <= j < |codes| ==>
      Shifted(codes[j], i + j) < 1296 && (j + 1 < |codes| ==> 36 <= Shifted(codes[j], i + j))
  }

  /** A code unit xor-ed with a key byte is still a code unit. */
  lemma ShiftedCode(c: nat, i: nat)
    requires c < 0x1_0000
    ensures Xor(c, KEY[i % 4]) < 0x1_0000
    ensures Xor(Xor(c, KEY[i % 4]), KEY[i % 4]) == c
  {
    Pow2Values();
    XorBound(c, KEY[i % 4], 16);
    XorCancels(c, KEY[i % 4]);
  }

  /** A chunk written for code c at index i reads back as c. */
  lemma ChunkReadsBack(c: nat, i: nat)
    requires c < 0x1_0000
    ensures DecodeChunk(KEY, Radix36(Shifted(c, i), false), i) == c
  {
    var x := Xor(c, KEY[i % 4]);
    var v := Shifted(c, i);
    Radix36Digits(v, false);
    Radix36Value(v, false);
    ParseInt36OfNumeral(Radix36(v, false));
    ShiftedCode(c, i);
    DecodeNumberChunk(Radix36(v, false), i, x);
  }

  /** A chunk that reads as a number: the shift comes off, and a code unit is left whole by the 16-bit cut. */
  lemma DecodeNumberChunk(chunk: Units, i: nat, x: nat)
    requires x < 0x1_0000 && ParseInt36(chunk) == Some(x + 17 + i % 3)
    ensures DecodeChunk(KEY, chunk, i) == Xor(x, KEY[i % 4])
  {
    var n := x + 17 + i % 3;
    var k := KEY[i % 4];
    assert (n - 17 - i % 3) % 0x1_0000 == x;
    assert DecodeChunk(KEY, chunk, i) == Xor((n - 17 - i % 3) % 0x1_0000, k);
  }

  /** The first step of decoding `chunk + rest` when the chunk is one or two digits and, if one, the last. */
  lemma DecodeStep(chunk: Units, rest: Units, i: nat)
    requires 1 <= |chunk| <= 2 && AllAlnum(chunk)
    requires |chunk| == 1 ==> |rest| == 0
    ensures DeobfuscateFrom(KEY, chunk + rest, i) == [DecodeChunk(KEY, chunk, i)] + DeobfuscateFrom(KEY, rest, i + 1)
  {
    var s := chunk + rest;
    AllAlnumAt(chunk, 0);
    if |chunk| == 2 {
      AllAlnumAt(chunk, 1);
      assert s[..2] == chunk && s[2..] == rest;
    } else {
      assert s == chunk && s[1..] == [];
    }
  }

  lemma ChunksAlignTail(codes: Units, i: nat)
    requires |codes| > 0 && ChunksAlign(codes, i)
    ensures ChunksAlign(codes[1..], i + 1)
  {
    forall j | 0 <= j < |codes[1..]|
      ensures Shifted(codes[1..][j], i + 1 + j) < 1296
      ensures j + 1 < |codes[1..]| ==> 36 <= Shifted(codes[1..][j], i + 1 + j)
    {
      assert codes[1..][j] == codes[j + 1];
      assert i + 1 + j == i + (j + 1);
    }
  }

  /** A number below 36^2 is written with one or two digits, and with two when it is at least 36. */
  lemma WrittenChunk(v: nat, more: bool)
    requires v < 1296 && (more ==> 36 <= v)
    ensures AllAlnum(Radix36(v, false)) && 1 <= |Radix36(v, false)| <= 2
    ensures more ==> |Radix36(v, false)| == 2
  {
    Radix36Digits(v, false);
    Radix36Width(v, false, 2);
    assert Pow36(2) == 1296;
    if more {
      Radix36Width(v, false, 1);
    }
  }

  /** Decoding what was written from index i gives the codes back, when the chunks line up. */
  lemma {:induction false} DeobfuscateObfuscateFrom(codes: Units, i: nat)
    requires ValidUnits(codes) && ChunksAlign(codes, i)
    ensures DeobfuscateFrom(KEY, ObfuscateFrom(codes, i), i) == codes
    decreases |codes|
  {
    if |codes| > 0 {
      var v := Shifted(codes[0], i);
      var r := Radix36(v, false);
      WrittenChunk(v, |codes| > 1);
      ChunksAlignTail(codes, i);
      DeobfuscateObfuscateFrom(codes[1..], i + 1);
      DecodeStep(r, ObfuscateFrom(codes[1..], i + 1), i);
      ChunkReadsBack(codes[0], i);
      assert codes == [codes[0]] + codes[1..];
    }
  }

  /**
    `deobfuscate(obfuscateString(s)) == s` for a string without surrogate
    pairs whose numbers are two digits each (the last may have one).
  */
  lemma ObfuscateRoundTrip(s: Units)
    requires ValidUnits(s) && NoSurrogatePair(s) && ChunksAlign(s, 0)
    ensures Deobfuscate(ObfuscateString(s)) == s
  {
    FirstUnitsWithoutPairs(s);
    DeobfuscateObfuscateFrom(s, 0);
  }

  /** When every number has two digits, the output is two characters per code. */
  lemma {:induction false} ObfuscateFromLength(codes: Units, i: nat)
    requires forall j :: 0 <= j < |codes| ==> 36 <= Shifted(codes[j], i + j) < 1296
    ensures |ObfuscateFrom(codes, i)| == 2 * |codes|
    decreases |codes|
  {
    if |codes| > 0 {
      var v := Shifted(codes[0], i);
      Radix36Width(v, false, 2);
      Radix36Width(v, false, 1);
      assert Pow36(2) == 1296;
      assert forall j :: 0 <= j < |codes[1..]| ==> codes[1..][j] == codes[j + 1];
      ObfuscateFromLength(codes[1..], i + 1);
    }
  }

  // ---------------------------------------------------------------------
  // The converse: a one-digit number before the end breaks the round trip

  /** Every code, the first at index i, is a code unit written with exactly two digits. */
  predicate TwoDigitCodes(codes: Units, i: nat) {
    forall k :: 0 <= k < |codes| ==> codes[k] < 0x1_0000 && 36 <= Shifted(codes[k], i + k) < 1296
  }

  /** The numbers `obfuscateString` writes from index i on, one run of digits per code. */
  function Written(codes: Units, i: nat): (r: seq<Units>)
    ensures |r| == |codes|
  {
    seq(|codes|, k requires 0 <= k < |codes| => Radix36(Shifted(codes[k], i + k), false))
  }

  lemma WrittenCons(codes: Units, i: nat)
    requires |codes| > 0
    ensures Written(codes, i) == [Radix36(Shifted(codes[0], i), false)] + Written(codes[1..], i + 1)
  {
    var all, tail := Written(codes, i), Written(codes[1..], i + 1);
    forall k | 0 <= k < |tail| ensures all[k + 1] == tail[k] {
      assert codes[1..][k] == codes[k + 1];
      assert i + (k + 1) == (i + 1) + k;
    }
    assert all == [all[0]] + tail;
  }

  /** The output of `obfuscateString` is its numbers joined with no separator. */
  lemma {:induction false} ObfuscateFromWritten(codes: Units, i: nat)
    ensures ObfuscateFrom(codes, i) == Concat(Written(codes, i))
    decreases |codes|
  {
    if |codes| > 0 {
      ObfuscateFromWritten(codes[1..], i + 1);
      WrittenCons(codes, i);
      assert Written(codes, i)[1..] == Written(codes[1..], i + 1);
    }
  }

  /** Runs of exactly two digits. */
  predicate Pairs(chunks: seq<Units>) {
    forall k :: 0 <= k < |chunks| ==> |chunks[k]| == 2 && AllAlnum(chunks[k])
  }

  /** Two-digit numbers are pairs of digits, and each reads back as its code. */
  lemma WrittenPairs(codes: Units, i: nat)
    requires TwoDigitCodes(codes, i)
    ensures Pairs(Written(codes, i)) && DecodeEach(Written(codes, i), i) == codes
  {
    var w := Written(codes, i);
    forall k | 0 <= k < |codes|
      ensures |w[k]| == 2 && AllAlnum(w[k]) && DecodeChunk(KEY, w[k], i + k) == codes[k]
    {
      WrittenChunk(Shifted(codes[k], i + k), true);
      ChunkReadsBack(codes[k], i + k);
    }
  }

  /** On pairs of digits, `deobfuscate` decodes pair by pair, and what follows them from index j = i + |chunks| on. */
  lemma {:induction false} DeobfuscatePairsThen(chunks: seq<Units>, rest: Units, i: nat, j: nat)
    requires Pairs(chunks) && j == i + |chunks|
    ensures DeobfuscateFrom(KEY, Concat(chunks) + rest, i) == DecodeEach(chunks, i) + DeobfuscateFrom(KEY, rest, j)
    decreases |chunks|
  {
    if |chunks| == 0 {
      assert Concat(chunks) + rest == rest;
    } else {
      var tail := chunks[1..];
      assert Pairs(tail) by {
        forall k | 0 <= k < |tail| ensures |tail[k]| == 2 && AllAlnum(tail[k]) {
          assert tail[k] == chunks[k + 1];
        }
      }
      var after := DeobfuscateFrom(KEY, rest, j);
      calc {
        DeobfuscateFrom(KEY, Concat(chunks) + rest, i);
        { ConcatAssociates(chunks[0], Concat(tail), rest); }
        DeobfuscateFrom(KEY, chunks[0] + (Concat(tail) + rest), i);
        { DecodeStep(chunks[0], Concat(tail) + rest, i); }
        [DecodeChunk(KEY, chunks[0], i)] + DeobfuscateFrom(KEY, Concat(tail) + rest, i + 1);
        { DeobfuscatePairsThen(tail, rest, i + 1, j); }
        [DecodeChunk(KEY, chunks[0], i)] + (DecodeEach(tail, i + 1) + after);
        { ConcatAssociates([DecodeChunk(KEY, chunks[0], i)], DecodeEach(tail, i + 1), after);
          DecodeEachCons(chunks, i); }
        DecodeEach(chunks, i) + after;
      }
    }
  }

  /** Decoding a prefix written with two digits per number gives its codes, and then what follows from index j = i + |codes| on. */
  lemma DeobfuscateAlignedPrefix(codes: Units, rest: Units, i: nat, j: nat)
    requires TwoDigitCodes(codes, i) && j == i + |codes|
    ensures DeobfuscateFrom(KEY, ObfuscateFrom(codes, i) + rest, i) == codes + DeobfuscateFrom(KEY, rest, j)
  {
    var w := Written(codes, i);
    ObfuscateFromWritten(codes, i);
    WrittenPairs(codes, i);
    DeobfuscatePairsThen(w, rest, i, j);
  }

  /**
    A one-digit number v for code c, read together with the next number's
    first digit e, gives 36v + value(e): once the shift is off that is not
    the xor-ed code, so the chunk decodes to something other than c.
  */
  lemma StraddlingChunkDiffers(c: nat, i: nat, e: nat)
    requires Shifted(c, i) < 36 && IsAlnum(e)
    ensures DecodeChunk(KEY, [DigitChar(Shifted(c, i), false), e], i) != c
  {
    var v := Shifted(c, i);
    var k := KEY[i % 4];
    var x := Xor(c, k);
    var d := DigitChar(v, false);
    var chunk := [d, e];
    TwoDigitNumeral(d, e);
    var y := 35 * v + DigitValue(e) + x;
    assert 36 * v + DigitValue(e) == y + 17 + i % 3;
    DecodeNumberChunk(chunk, i, y);
    XorCancels(y, k);
  }

  /** Two digits read as a number: the first counts 36 times. */
  lemma TwoDigitNumeral(d: nat, e: nat)
    requires IsAlnum(d) && IsAlnum(e)
    ensures ParseInt36([d, e]) == Some(36 * DigitValue(d) + DigitValue(e))
  {
    var chunk := [d, e];
    assert chunk[1..] == [e] && [e][1..] == [];
    assert AllAlnum(chunk);
    assert chunk[..1] == [d] && [d][..0] == [];
    assert Value([d]) == DigitValue(d);
    ParseInt36OfNumeral(chunk);
  }

  /** The run of digits written for the codes after a one-digit number starts with a digit. */
  lemma NextNumberStarts(rest: Units, i: nat)
    requires |rest| > 0
    ensures |ObfuscateFrom(rest, i)| > 0 && IsAlnum(ObfuscateFrom(rest, i)[0])
  {
    var first := Radix36(Shifted(rest[0], i), false);
    ObfuscateFromCons(rest, i, first);
    Radix36Digits(Shifted(rest[0], i), false);
    AllAlnumAt(first, 0);
  }

  /** A one-digit number d followed by more digits t is read together with the first of them. */
  lemma StraddlingStep(d: nat, t: Units, j: nat)
    requires IsAlnum(d) && |t| > 0 && IsAlnum(t[0])
    ensures DeobfuscateFrom(KEY, [d] + t, j) == [DecodeChunk(KEY, [d, t[0]], j)] + DeobfuscateFrom(KEY, t[1..], j + 1)
  {
    assert AllAlnum([t[0]]);
    assert [d, t[0]] + t[1..] == [d] + t;
    DecodeStep([d, t[0]], t[1..], j);
  }

  /**
    Conversely, when the numbers before index j have two digits and number
    j, not the last, has one, `deobfuscate` reads chunk j across two
    numbers and the code at j does not come back.
  */
  lemma OneDigitBreaksRoundTrip(s: Units, j: nat)
    requires NoSurrogatePair(s) && j + 1 < |s|
    requires TwoDigitCodes(s[..j], 0) && Shifted(s[j], j) < 36
    ensures j < |Deobfuscate(ObfuscateString(s))| && Deobfuscate(ObfuscateString(s))[j] != s[j]
  {
    var pre, c, rest := s[..j], s[j], s[j + 1..];
    var d := DigitChar(Shifted(c, j), false);
    var t := ObfuscateFrom(rest, j + 1);
    FirstUnitsWithoutPairs(s);
    assert s == pre + ([c] + rest);
    ObfuscateAround(pre, c, rest, 0, j, [d]);
    DeobfuscateAlignedPrefix(pre, [d] + t, 0, j);
    NextNumberStarts(rest, j + 1);
    StraddlingStep(d, t, j);
    StraddlingChunkDiffers(c, j, t[0]);
  }

  /**
    For a string whose numbers all have at most two digits, the round trip
    holds exactly when every number but the last has two.
  */
  lemma RoundTripIffAligned(s: Units)
    requires ValidUnits(s) && NoSurrogatePair(s)
    requires forall k :: 0 <= k < |s| ==> Shifted(s[k], k) < 1296
    ensures Deobfuscate(ObfuscateString(s)) == s <==> ChunksAlign(s, 0)
  {
    if ChunksAlign(s, 0) {
      ObfuscateRoundTrip(s);
    } else {
      var w :| 0 <= w < |s| && !(Shifted(s[w], w) < 1296 && (w + 1 < |s| ==> 36 <= Shifted(s[w], w)));
      var j := 0;
      while 36 <= Shifted(s[j], j)
        invariant j <= w
        invariant forall k :: 0 <= k < j ==> 36 <= Shifted(s[k], k)
        decreases w - j
      {
        j := j + 1;
      }
      assert TwoDigitCodes(s[..j], 0) by {
        forall k | 0 <= k < j ensures s[..j][k] < 0x1_0000 && 36 <= Shifted(s[..j][k], k) < 1296 {
          assert s[..j][k] == s[k] && IsUnit(s[k]);
        }
      }
      OneDigitBreaksRoundTrip(s, j);
    }
  }

  // ---------------------------------------------------------------------
  // A string the round trip as written loses

  /** "VIKRAM": its fifth number, 29, is written with a single digit. */
  const VIKRAM: Units := ['V' as nat, 'I' as nat, 'K' as nat, 'R' as nat, 'A' as nat, 'M' as nat]

  /** What `obfuscateString("VIKRAM")` writes: "193s3e2lt3p". */
  const VIKRAM_OBFUSCATED: Units :=
    ['1' as nat, '9' as nat, '3' as nat, 's' as nat, '3' as nat, 'e' as nat,
     '2' as nat, 'l' as nat, 't' as nat, '3' as nat, 'p' as nat]

  // Single xors of the example, unfolded one bit at a time.

  lemma Xor86With74()
    ensures Xor(86, 74) == 28
  {
    assert Xor(1, 1) == 0;
    assert Xor(2, 2) == 0;
    assert Xor(5, 4) == 1;
    assert Xor(10, 9) == 3;
    assert Xor(21, 18) == 7;
    assert Xor(43, 37) == 14;
  }

  lemma Xor73With63()
    ensures Xor(73, 63) == 118
  {
    assert Xor(2, 1) == 3;
    assert Xor(4, 3) == 7;
    assert Xor(9, 7) == 14;
    assert Xor(18, 15) == 29;
    assert Xor(36, 31) == 59;
  }

  lemma Xor75With44()
    ensures Xor(75, 44) == 103
  {
    assert Xor(2, 1) == 3;
    assert Xor(4, 2) == 6;
    assert Xor(9, 5) == 12;
    assert Xor(18, 11) == 25;
    assert Xor(37, 22) == 51;
  }

  lemma Xor82With30()
    ensures Xor(82, 30) == 76
  {
    assert Xor(5, 1) == 4;
    assert Xor(10, 3) == 9;
    assert Xor(20, 7) == 19;
    assert Xor(41, 15) == 38;
  }

  lemma Xor65With74()
    ensures Xor(65, 74) == 11
  {
    assert Xor(1, 1) == 0;
    assert Xor(2, 2) == 0;
    assert Xor(4, 4) == 0;
    assert Xor(8, 9) == 1;
    assert Xor(16, 18) == 2;
    assert Xor(32, 37) == 5;
  }

  lemma Xor77With63()
    ensures Xor(77, 63) == 114
  {
    assert Xor(2, 1) == 3;
    assert Xor(4, 3) == 7;
    assert Xor(9, 7) == 14;
    assert Xor(19, 15) == 28;
    assert Xor(38, 31) == 57;
  }

  lemma Xor1029With74()
    ensures Xor(1029, 74) == 1103
  {
    assert Xor(16, 1) == 17;
    assert Xor(32, 2) == 34;
    assert Xor(64, 4) == 68;
    assert Xor(128, 9) == 137;
    assert Xor(257, 18) == 275;
    assert Xor(514, 37) == 551;
  }

  lemma Xor6With63()
    ensures Xor(6, 63) == 57
  {
    assert Xor(1, 15) == 14;
    assert Xor(3, 31) == 28;
  }

  /** The number written for code c at index i, from the key byte there and the xor with it. */
  lemma ShiftedFrom(c: nat, i: nat, k: nat, x: nat)
    requires KEY[i % 4] == k && Xor(c, k) == x
    ensures Shifted(c, i) == x + 17 + i % 3
  {
  }

  /** The key positions and shifts of the six indices of the example. */
  lemma SmallRemainders()
    ensures 0 % 4 == 0 && 1 % 4 == 1 && 2 % 4 == 2 && 3 % 4 == 3 && 4 % 4 == 0 && 5 % 4 == 1
    ensures 0 % 3 == 0 && 1 % 3 == 1 && 2 % 3 == 2 && 3 % 3 == 0 && 4 % 3 == 1 && 5 % 3 == 2
  {
  }

  /** The six numbers written for "VIKRAM". */
  lemma VikramNumbers()
    ensures Shifted(86, 0) == 45 && Shifted(73, 1) == 136 && Shifted(75, 2) == 122
    ensures Shifted(82, 3) == 93 && Shifted(65, 4) == 29 && Shifted(77, 5) == 133
  {
    SmallRemainders();
    Xor86With74();
    ShiftedFrom(86, 0, 74, 28);
    Xor73With63();
    ShiftedFrom(73, 1, 63, 118);
    Xor75With44();
    ShiftedFrom(75, 2, 44, 103);
    Xor82With30();
    ShiftedFrom(82, 3, 30, 76);
    Xor65With74();
    ShiftedFrom(65, 4, 74, 11);
    Xor77With63();
    ShiftedFrom(77, 5, 63, 114);
  }

  /** One step of `ObfuscateFrom` for a code whose number and digits are known. */
  lemma ObfuscateStep(c: nat, rest: Units, i: nat, v: nat, digits: Units)
    requires Shifted(c, i) == v && Radix36(v, false) == digits
    ensures ObfuscateFrom([c] + rest, i) == digits + ObfuscateFrom(rest, i + 1)
  {
    assert ([c] + rest)[1..] == rest;
  }

  /** The radix-36 numerals of the six numbers written for "VIKRAM". */
  lemma VikramNumerals()
    ensures Radix36(45, false) == ['1' as nat, '9' as nat]
    ensures Radix36(136, false) == ['3' as nat, 's' as nat]
    ensures Radix36(122, false) == ['3' as nat, 'e' as nat]
    ensures Radix36(93, false) == ['2' as nat, 'l' as nat]
    ensures Radix36(29, false) == ['t' as nat]
    ensures Radix36(133, false) == ['3' as nat, 'p' as nat]
  {
  }

  /** The example and its encoding, cut where the numbers are. */
  lemma VikramPieces()
    ensures VIKRAM == [86] + ([73] + ([75] + ([82] + ([65] + ([77] + [])))))
    ensures VIKRAM_OBFUSCATED ==
      ['1' as nat, '9' as nat] + (['3' as nat, 's' as nat] + (['3' as nat, 'e' as nat] +
      (['2' as nat, 'l' as nat] + (['t' as nat] + (['3' as nat, 'p' as nat] + [])))))
    ensures VIKRAM_OBFUSCATED ==
      ['1' as nat, '9' as nat] + (['3' as nat, 's' as nat] + (['3' as nat, 'e' as nat] +
      (['2' as nat, 'l' as nat] + (['t' as nat, '3' as nat] + ['p' as nat]))))
  {
  }

  /** `obfuscateString("VIKRAM")` is "193s3e2lt3p": eleven characters for six codes. */
  lemma VikramObfuscated()
    ensures ObfuscateString(VIKRAM) == VIKRAM_OBFUSCATED
  {
    VikramNumbers();
    VikramNumerals();
    var d0, d1, d2 := ['1' as nat, '9' as nat], ['3' as nat, 's' as nat], ['3' as nat, 'e' as nat];
    var d3, d4, d5 := ['2' as nat, 'l' as nat], ['t' as nat], ['3' as nat, 'p' as nat];
    var s6: Units := [];
    var s5 := [77] + s6;
    var s4 := [65] + s5;
    var s3 := [82] + s4;
    var s2 := [75] + s3;
    var s1 := [73] + s2;
    var s0 := [86] + s1;
    assert ObfuscateFrom(s6, 6) == [];
    ObfuscateStep(77, s6, 5, 133, d5);
    ObfuscateStep(65, s5, 4, 29, d4);
    ObfuscateStep(82, s4, 3, 93, d3);
    ObfuscateStep(75, s3, 2, 122, d2);
    ObfuscateStep(73, s2, 1, 136, d1);
    ObfuscateStep(86, s1, 0, 45, d0);
    var out := d0 + (d1 + (d2 + (d3 + (d4 + (d5 + [])))));
    assert ObfuscateFrom(s0, 0) == out;
    VikramPieces();
    assert s0 == VIKRAM && out == VIKRAM_OBFUSCATED;
    FirstUnitsWithoutPairs(VIKRAM);
  }

  /** The chunks joined. */
  function Concat(chunks: seq<Units>): (r: Units)
    decreases |chunks|
  {
    if |chunks| == 0 then [] else chunks[0] + Concat(chunks[1..])
  }

  /** Runs of digits two long, except possibly the last, which may be one long. */
  predicate Chunked(chunks: seq<Units>) {
    forall k :: 0 <= k < |chunks| ==>
      AllAlnum(chunks[k]) && 1 <= |chunks[k]| <= 2 && (|chunks[k]| == 1 ==> k == |chunks| - 1)
  }

  /** Each chunk decoded on its own, chunk k at index i + k. */
  function DecodeEach(chunks: seq<Units>, i: nat): (r: Units)
    ensures |r| == |chunks|
  {
    seq(|chunks|, k requires 0 <= k < |chunks| => DecodeChunk(KEY, chunks[k], i + k))
  }

  lemma DecodeEachCons(chunks: seq<Units>, i: nat)
    requires |chunks| > 0
    ensures DecodeEach(chunks, i) == [DecodeChunk(KEY, chunks[0], i)] + DecodeEach(chunks[1..], i + 1)
  {
    var all, tail := DecodeEach(chunks, i), DecodeEach(chunks[1..], i + 1);
    forall k | 0 <= k < |tail| ensures all[k + 1] == tail[k] {
      assert chunks[1..][k] == chunks[k + 1];
      assert i + (k + 1) == (i + 1) + k;
    }
    assert all == [all[0]] + tail;
  }

  /** On chunked digits, `deobfuscate` decodes chunk by chunk. */
  lemma {:induction false} DeobfuscateChunks(chunks: seq<Units>, i: nat)
    requires Chunked(chunks)
    ensures DeobfuscateFrom(KEY, Concat(chunks), i) == DecodeEach(chunks, i)
    decreases |chunks|
  {
    if |chunks| > 0 {
      var rest := chunks[1..];
      assert Chunked(rest) by {
        forall k | 0 <= k < |rest|
          ensures AllAlnum(rest[k]) && 1 <= |rest[k]| <= 2 && (|rest[k]| == 1 ==> k == |rest| - 1)
        {
          assert rest[k] == chunks[k + 1];
        }
      }
      DeobfuscateChunks(rest, i + 1);
      if |chunks[0]| == 1 {
        assert |rest| == 0;
      }
      DecodeStep(chunks[0], Concat(rest), i);
      DecodeEachCons(chunks, i);
    }
  }

  /** "t3" at index 4 reads as 1047, which decodes to U+044F. */
  lemma StraddlingChunk()
    ensures DecodeChunk(KEY, ['t' as nat, '3' as nat], 4) == 0x44F
  {
    var c := ['t' as nat, '3' as nat];
    ParseInt36OfNumeral(c);
    assert c[..1] == ['t' as nat];
    assert Value(c[..1]) == 29;
    assert Value(c) == 1047;
    SmallRemainders();
    assert (1047 - 17 - 1) % 0x1_0000 == 1029;
    Xor1029With74();
  }

  /** "p" at index 5 reads as 25, which decodes to '9'. */
  lemma TrailingChunk()
    ensures DecodeChunk(KEY, ['p' as nat], 5) == 57
  {
    var c := ['p' as nat];
    ParseInt36OfNumeral(c);
    assert Value(c) == 25;
    SmallRemainders();
    assert (25 - 17 - 2) % 0x1_0000 == 6;
    Xor6With63();
  }

  /**
    `deobfuscate("193s3e2lt3p")`: the first four chunks read back, then
    "t3" (1047) and "p" (25) straddle the last two numbers.
  */
  lemma VikramDeobfuscated()
    ensures Deobfuscate(VIKRAM_OBFUSCATED) == [86, 73, 75, 82, 0x44F, 57]
  {
    var chunks := VikramChunks();
    VikramChunkValues();
    DecodeEachSix(chunks, [86, 73, 75, 82, 0x44F, 57]);
    DeobfuscateChunks(chunks, 0);
  }

  /** "193s3e2lt3p" as the decoder cuts it: "19", "3s", "3e", "2l", "t3", "p". */
  function VikramChunks(): (chunks: seq<Units>)
    ensures Chunked(chunks) && Concat(chunks) == VIKRAM_OBFUSCATED
  {
    var chunks := [['1' as nat, '9' as nat], ['3' as nat, 's' as nat], ['3' as nat, 'e' as nat],
                   ['2' as nat, 'l' as nat], ['t' as nat, '3' as nat], ['p' as nat]];
    VikramPieces();
    VikramNumerals();
    Radix36Digits(45, false);
    Radix36Digits(136, false);
    Radix36Digits(122, false);
    Radix36Digits(93, false);
    assert AllAlnum(chunks[4]) && AllAlnum(chunks[5]);
    assert Concat(chunks[5..]) == chunks[5];
    assert Concat(chunks[4..]) == chunks[4] + chunks[5];
    assert Concat(chunks[3..]) == chunks[3] + (chunks[4] + chunks[5]);
    assert Concat(chunks[2..]) == chunks[2] + (chunks[3] + (chunks[4] + chunks[5]));
    assert Concat(chunks[1..]) == chunks[1] + (chunks[2] + (chunks[3] + (chunks[4] + chunks[5])));
    chunks
  }

  /** Each of the six chunks decoded on its own. */
  lemma VikramChunkValues()
    ensures DecodeChunk(KEY, ['1' as nat, '9' as nat], 0) == 86
    ensures DecodeChunk(KEY, ['3' as nat, 's' as nat], 1) == 73
    ensures DecodeChunk(KEY, ['3' as nat, 'e' as nat], 2) == 75
    ensures DecodeChunk(KEY, ['2' as nat, 'l' as nat], 3) == 82
    ensures DecodeChunk(KEY, ['t' as nat, '3' as nat], 4) == 0x44F
    ensures DecodeChunk(KEY, ['p' as nat], 5) == 57
  {
    VikramNumbers();
    VikramNumerals();
    ChunkReadsBack(86, 0);
    ChunkReadsBack(73, 1);
    ChunkReadsBack(75, 2);
    ChunkReadsBack(82, 3);
    StraddlingChunk();
    TrailingChunk();
  }

  /** Six chunks decode to the six given values. */
  lemma DecodeEachSix(chunks: seq<Units>, want: Units)
    requires |chunks| == 6 && |want| == 6
    requires DecodeChunk(KEY, chunks[0], 0) == want[0] && DecodeChunk(KEY, chunks[1], 1) == want[1]
    requires DecodeChunk(KEY, chunks[2], 2) == want[2] && DecodeChunk(KEY, chunks[3], 3) == want[3]
    requires DecodeChunk(KEY, chunks[4], 4) == want[4] && DecodeChunk(KEY, chunks[5], 5) == want[5]
    ensures DecodeEach(chunks, 0) == want
  {
    var r := DecodeEach(chunks, 0);
    assert r[0] == want[0] && r[1] == want[1] && r[2] == want[2];
    assert r[3] == want[3] && r[4] == want[4] && r[5] == want[5];
  }

  /** The round trip fails on "VIKRAM": its fifth character comes back as U+044F. */
  lemma VikramRoundTripFails()
    ensures Deobfuscate(ObfuscateString(VIKRAM)) == [86, 73, 75, 82, 0x44F, 57]
    ensures Deobfuscate(ObfuscateString(VIKRAM)) != VIKRAM
  {
    VikramObfuscated();
    VikramDeobfuscated();
  }

  // ---------------------------------------------------------------------
  // The master account's mobile number

  /** "9944996715": its second and sixth numbers, 24 and 25, are written with a single digit. */
  const MASTER_MOBILE: Units :=
    ['9' as nat, '9' as nat, '4' as nat, '4' as nat, '9' as nat,
     '9' as nat, '6' as nat, '7' as nat, '1' as nat, '5' as nat]

  lemma Xor57With63()
    ensures Xor(57, 63) == 6
  {
    assert Xor(1, 1) == 0;
    assert Xor(3, 3) == 0;
    assert Xor(7, 7) == 0;
    assert Xor(14, 15) == 1;
    assert Xor(28, 31) == 3;
  }

  /** The encoder works code by code: the output for `a + b` is that for a, then that for b further on. */
  lemma {:induction false} ObfuscateFromConcat(a: Units, b: Units, i: nat)
    ensures ObfuscateFrom(a + b, i) == ObfuscateFrom(a, i) + ObfuscateFrom(b, i + |a|)
    decreases |a|
  {
    if |a| == 0 {
      assert a + b == b;
    } else {
      var head := Radix36(Shifted(a[0], i), false);
      assert (a + b)[0] == a[0];
      assert (a + b)[1..] == a[1..] + b;
      ObfuscateFromCons(a, i, head);
      ObfuscateFromCons(a + b, i, head);
      ObfuscateFromConcat(a[1..], b, i + 1);
      ConcatAssociates(head, ObfuscateFrom(a[1..], i + 1), ObfuscateFrom(b, i + |a|));
    }
  }

  /** One step of `ObfuscateFrom`: the first code's numeral, then the rest. */
  lemma ObfuscateFromCons(codes: Units, i: nat, head: Units)
    requires |codes| > 0 && head == Radix36(Shifted(codes[0], i), false)
    ensures ObfuscateFrom(codes, i) == head + ObfuscateFrom(codes[1..], i + 1)
  {
  }

  lemma ConcatAssociates(x: Units, y: Units, z: Units)
    ensures x + (y + z) == (x + y) + z
  {
  }

  /** Numbers below 36^2 take at most two digits each. */
  lemma {:induction false} ObfuscateFromAtMostTwo(codes: Units, i: nat)
    requires FitsTwoDigits(codes, i)
    ensures |ObfuscateFrom(codes, i)| <= 2 * |codes|
    decreases |codes|
  {
    if |codes| > 0 {
      Radix36Width(Shifted(codes[0], i), false, 2);
      assert Pow36(2) == 1296;
      assert FitsTwoDigits(codes[1..], i + 1) by {
        forall j | 0 <= j < |codes[1..]| ensures Shifted(codes[1..][j], i + 1 + j) < 1296 {
          assert codes[1..][j] == codes[j + 1];
        }
      }
      ObfuscateFromAtMostTwo(codes[1..], i + 1);
    }
  }

  /** The decoder gives at most one code per two characters, rounded up. */
  lemma {:induction false} DeobfuscateAtMostHalf(key: seq<nat>, s: Units, i: nat)
    requires IsKey(key)
    ensures |DeobfuscateFrom(key, s, i)| <= (|s| + 1) / 2
    decreases |s|
  {
    if |s| == 0 {
    } else if IsLineTerminator(s[0]) {
      DeobfuscateAtMostHalf(key, s[1..], i);
    } else if |s| >= 2 && !IsLineTerminator(s[1]) {
      DeobfuscateAtMostHalf(key, s[2..], i + 1);
    } else if |s| >= 2 {
      assert s[1..][1..] == s[2..];
      DeobfuscateAtMostHalf(key, s[2..], i + 1);
    }
  }

  /** The mobile number's codes, in the pieces the length count below goes by. */
  lemma MobileCodes()
    ensures FirstUnits(MASTER_MOBILE) == MASTER_MOBILE
    ensures MASTER_MOBILE == [57] + ([57] + ([52, 52, 57] + ([57] + [54, 55, 49, 53])))
  {
    assert NoSurrogatePair(MASTER_MOBILE);
    FirstUnitsWithoutPairs(MASTER_MOBILE);
  }

  /** The encoding of a string cut around its code x at index j, written as `digits`. */
  lemma ObfuscateAround(a: Units, x: nat, rest: Units, i: nat, j: nat, digits: Units)
    requires j == i + |a| && Radix36(Shifted(x, j), false) == digits
    ensures ObfuscateFrom(a + ([x] + rest), i) == ObfuscateFrom(a, i) + (digits + ObfuscateFrom(rest, j + 1))
  {
    var r := [x] + rest;
    ObfuscateFromConcat(a, r, i);
    assert r[0] == x && r[1..] == rest;
    ObfuscateFromCons(r, j, digits);
  }

  /**
    The encoding of a string laid out as the mobile number is: 57 ('9') at
    indices 1 and 5, which the encoder writes as the single digits of 24
    and 25.
  */
  lemma MobileEncodingParts(m: Units, a: Units, b: Units, c: Units)
    requires m == a + ([57] + (b + ([57] + c))) && |a| == 1 && |b| == 3 && FirstUnits(m) == m
    ensures ObfuscateString(m) == ObfuscateFrom(a, 0) + (['o' as nat] + (ObfuscateFrom(b, 2) + (['p' as nat] + ObfuscateFrom(c, 6))))
  {
    var rest := b + ([57] + c);
    MobileSingleDigits();
    ObfuscateAround(a, 57, rest, 0, 1, ['o' as nat]);
    ObfuscateAround(b, 57, c, 2, 5, ['p' as nat]);
    assert ObfuscateString(m) == ObfuscateFrom(m, 0);
  }

  /** The numbers written for 57 ('9') at indices 1 and 5, and their numerals. */
  lemma MobileSingleDigits()
    ensures Radix36(Shifted(57, 1), false) == ['o' as nat]
    ensures Radix36(Shifted(57, 5), false) == ['p' as nat]
  {
    Xor57With63();
    SmallRemainders();
    ShiftedFrom(57, 1, 63, 6);
    ShiftedFrom(57, 5, 63, 6);
    assert Radix36(24, false) == ['o' as nat] && Radix36(25, false) == ['p' as nat];
  }

  /** The three stretches of the mobile number whose numbers take at most two digits each. */
  lemma MobilePiecesShort(a: Units, b: Units, c: Units)
    requires a == [57] && b == [52, 52, 57] && c == [54, 55, 49, 53]
    ensures |ObfuscateFrom(a, 0)| <= 2 && |ObfuscateFrom(b, 2)| <= 6 && |ObfuscateFrom(c, 6)| <= 8
  {
    ByteCodesFit(a, 0);
    ByteCodesFit(b, 2);
    ByteCodesFit(c, 6);
    ObfuscateFromAtMostTwo(a, 0);
    ObfuscateFromAtMostTwo(b, 2);
    ObfuscateFromAtMostTwo(c, 6);
  }

  /** `obfuscateString("9944996715")` is at most 18 characters long. */
  lemma MobileEncodingShort()
    ensures |ObfuscateString(MASTER_MOBILE)| <= 18
  {
    var a: Units := [57];
    var b: Units := [52, 52, 57];
    var c: Units := [54, 55, 49, 53];
    MobileCodes();
    MobileEncodingParts(MASTER_MOBILE, a, b, c);
    MobilePiecesShort(a, b, c);
  }

  /**
    The round trip fails on the master account's mobile number too: the
    page decodes at most nine of its ten digits.
  */
  lemma MobileRoundTripFails()
    ensures |Deobfuscate(ObfuscateString(MASTER_MOBILE))| < |MASTER_MOBILE|
    ensures Deobfuscate(ObfuscateString(MASTER_MOBILE)) != MASTER_MOBILE
  {
    MobileEncodingShort();
    DeobfuscateAtMostHalf(KEY, ObfuscateString(MASTER_MOBILE), 0);
  }

  // ---------------------------------------------------------------------
  // The corrected encoder: every number padded to two digits

  /** A number written with two digits, `toString(36).padStart(2, '0')`. */
  function TwoDigits(v: nat): Units {
    PadStart(Radix36(v, false), 2)
  }

  /** `obfuscateString` with each number padded to two digits, so that the decoder's chunks line up. */
  function ObfuscatePadded(s: Units): Units {
    ObfuscatePaddedFrom(FirstUnits(s), 0)
  }

  function ObfuscatePaddedFrom(codes: Units, i: nat): Units
    decreases |codes|
  {
    if |codes| == 0 then [] else TwoDigits(Shifted(codes[0], i)) + ObfuscatePaddedFrom(codes[1..], i + 1)
  }

  /** Every number written from index i on is below 36^2. */
  predicate FitsTwoDigits(codes: Units, i: nat) {
    forall j :: 0 <= j < |codes| ==> Shifted(codes[j], i + j) < 1296
  }

  /** A number below 36^2 pads to two digits worth that number. */
  lemma TwoDigitsShape(v: nat)
    requires v < 1296
    ensures |TwoDigits(v)| == 2 && AllAlnum(TwoDigits(v)) && Value(TwoDigits(v)) == v
  {
    var r := Radix36(v, false);
    Radix36Width(v, false, 2);
    assert Pow36(2) == 1296;
    Radix36Digits(v, false);
    Radix36Value(v, false);
    if |r| < 2 {
      assert TwoDigits(v) == Zeros(1) + r;
      ZerosValue(1, r);
      ZerosUpperAlnum(1);
      UpperAlnumIsAlnum(Zeros(1));
      AllAlnumConcat(Zeros(1), r);
    }
  }

  /** The padded chunk written for code c at index i reads back as c. */
  lemma TwoDigitsReadBack(c: nat, i: nat)
    requires c < 0x1_0000 && Shifted(c, i) < 1296
    ensures DecodeChunk(KEY, TwoDigits(Shifted(c, i)), i) == c
  {
    var v := Shifted(c, i);
    TwoDigitsShape(v);
    ParseInt36OfNumeral(TwoDigits(v));
    ShiftedCode(c, i);
    DecodeNumberChunk(TwoDigits(v), i, Xor(c, KEY[i % 4]));
  }

  lemma {:induction false} DeobfuscatePaddedFrom(codes: Units, i: nat)
    requires ValidUnits(codes) && FitsTwoDigits(codes, i)
    ensures DeobfuscateFrom(KEY, ObfuscatePaddedFrom(codes, i), i) == codes
    decreases |codes|
  {
    if |codes| > 0 {
      var v := Shifted(codes[0], i);
      assert FitsTwoDigits(codes[1..], i + 1) by {
        forall j | 0 <= j < |codes[1..]| ensures Shifted(codes[1..][j], i + 1 + j) < 1296 {
          assert codes[1..][j] == codes[j + 1];
        }
      }
      DeobfuscatePaddedFrom(codes[1..], i + 1);
      TwoDigitsShape(v);
      DecodeStep(TwoDigits(v), ObfuscatePaddedFrom(codes[1..], i + 1), i);
      TwoDigitsReadBack(codes[0], i);
      assert codes == [codes[0]] + codes[1..];
    }
  }

  /** With padding, `deobfuscate` undoes the encoder on every string whose numbers fit two digits. */
  lemma PaddedRoundTrip(s: Units)
    requires ValidUnits(s) && NoSurrogatePair(s) && FitsTwoDigits(s, 0)
    ensures Deobfuscate(ObfuscatePadded(s)) == s
  {
    FirstUnitsWithoutPairs(s);
    DeobfuscatePaddedFrom(s, 0);
  }

  /** A code below 0x100 xor-ed with a key byte and shifted stays below 36^2. */
  lemma {:induction false} ByteCodesFit(codes: Units, i: nat)
    requires forall j :: 0 <= j < |codes| ==> codes[j] < 0x100
    ensures FitsTwoDigits(codes, i)
  {
    Pow2Values();
    forall j | 0 <= j < |codes| ensures Shifted(codes[j], i + j) < 1296 {
      XorBound(codes[j], KEY[(i + j) % 4], 8);
    }
  }

  /** The corrected encoder round-trips every Latin-1 string, "VIKRAM" among them. */
  lemma Latin1RoundTrip(s: Units)
    requires forall j :: 0 <= j < |s| ==> s[j] < 0x100
    ensures Deobfuscate(ObfuscatePadded(s)) == s
  {
    ByteCodesFit(s, 0);
    PaddedRoundTrip(s);
  }

  /** Padding changes nothing where every number already has two digits. */
  lemma {:induction false} PaddedAgreesWhenTwoDigits(codes: Units, i: nat)
    requires forall j :: 0 <= j < |codes| ==> 36 <= Shifted(codes[j], i + j) < 1296
    ensures ObfuscatePaddedFrom(codes, i) == ObfuscateFrom(codes, i)
    decreases |codes|
  {
    if |codes| > 0 {
      var v := Shifted(codes[0], i);
      Radix36Width(v, false, 1);
      assert Pow36(1) == 36;
      assert forall j :: 0 <= j < |codes[1..]| ==> codes[1..][j] == codes[j + 1];
      PaddedAgreesWhenTwoDigits(codes[1..], i + 1);
    }
  }

  /** The padded encoding is two characters per code. */
  lemma {:induction false} ObfuscatePaddedLength(codes: Units, i: nat)
    requires FitsTwoDigits(codes, i)
    ensures |ObfuscatePaddedFrom(codes, i)| == 2 * |codes|
    decreases |codes|
  {
    if |codes| > 0 {
      TwoDigitsShape(Shifted(codes[0], i));
      assert forall j :: 0 <= j < |codes[1..]| ==> codes[1..][j] == codes[j + 1];
      ObfuscatePaddedLength(codes[1..], i + 1);
    }
  }

  /** "VIKRAM" survives the corrected encoder. */
  lemma VikramPaddedRoundTrip()
    ensures Deobfuscate(ObfuscatePadded(VIKRAM)) == VIKRAM
  {
    Latin1RoundTrip(VIKRAM);
  }

  /** The mobile number survives the corrected encoder. */
  lemma MobilePaddedRoundTrip()
    ensures Deobfuscate(ObfuscatePadded(MASTER_MOBILE)) == MASTER_MOBILE
  {
    Latin1RoundTrip(MASTER_MOBILE);
  }
}
