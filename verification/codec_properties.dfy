/**
  What the message codec guarantees, proved over every admissible set of
  random draws: parse-what-you-print for the envelope and the header,
  the round trips with and without a secret code, the outcome each flag
  produces, and the key-checksum tamper check.
*/
module CodecProperties {
  import opened Wrappers
  import opened JsString
  import opened Base36
  import opened Bitwise
  import opened Cipher
  import opened Obfuscation
  import opened TokenFormat
  import opened Encrypt
  import opened Decrypt

  // ---------------------------------------------------------------------
  // Scanning helpers

  /** Inside a header of `[0-9A-Z]`, the collector takes the characters as they stand. */
  lemma {:induction false} CollectInHeader(body: Units, header: Units, k: nat, count: nat)
    requires k + count <= |header| <= |body| && AllUpperAlnum(header)
    requires body[..|header|] == header
    ensures CollectUpperAlnum(body, k, count) == header[k..k + count]
    decreases count
  {
    if count > 0 {
      assert body[k] == header[k];
      AllUpperAlnumAt(header, k);
      CollectInHeader(body, header, k + 1, count - 1);
      assert header[k..k + count] == [header[k]] + header[k + 1..k + count];
    }
  }

  /** Inside a header of `[0-9A-Z]`, the data start lands `remaining` characters on. */
  lemma {:induction false} DataStartInHeader(body: Units, header: Units, k: nat, remaining: nat)
    requires remaining >= 1 && k + remaining <= |header| <= |body| && AllUpperAlnum(header)
    requires body[..|header|] == header
    ensures DataStart(body, k, remaining) == k + remaining
    decreases remaining
  {
    assert body[k] == header[k];
    AllUpperAlnumAt(header, k);
    if remaining > 1 {
      DataStartInHeader(body, header, k + 1, remaining - 1);
    }
  }

  lemma SingleDigitValue(n: nat)
    requires n < 36
    ensures EncodeNumber(n) == [DigitChar(n, true)]
    ensures DecodeNumber(EncodeNumber(n)) == Success(n)
  {
    Radix36Value(n, true);
  }

  // ---------------------------------------------------------------------
  // The envelope

  /**
    The envelope scan on `a sep1 mid sep2 b` with single digits a and b:
    it cuts a characters off the front of `mid` and b off the back.
  */
  lemma UnwrapFrame(a: nat, s1: nat, mid: Units, s2: nat, b: nat)
    requires a < 36 && b < 36
    requires IsSeparator(s1) && IsSeparator(s2)
    ensures Unwrap(EncodeNumber(a) + [s1] + mid + [s2] + EncodeNumber(b)) == Success(Substring(mid, a, |mid| - b))
  {
    FrameScans(a, s1, mid, s2, b);
  }

  /** What the scans of `Unwrap` find in `a sep1 mid sep2 b`. */
  lemma FrameScans(a: nat, s1: nat, mid: Units, s2: nat, b: nat)
    requires a < 36 && b < 36
    requires IsSeparator(s1) && IsSeparator(s2)
    ensures var t := EncodeNumber(a) + [s1] + mid + [s2] + EncodeNumber(b);
            && UpperAlnumRun(t) == 1 && DecodeNumber(t[..1]) == Success(a)
            && LastSeparator(t) == Some(|t| - 2) && DecodeNumber(t[|t| - 1..]) == Success(b)
            && CutPadding(t, 1, |t| - 2, a, b) == Substring(mid, a, |mid| - b)
  {
    SingleDigitValue(a);
    SingleDigitValue(b);
    SeparatorsAreNotAlnum(s1);
    SeparatorsAreNotAlnum(s2);
    var da, db := DigitChar(a, true), DigitChar(b, true);
    var t := [da] + [s1] + mid + [s2] + [db];
    FrameCuts(t, da, s1, mid, s2, db);
    CutOfMiddle(t, mid, a, b);
  }

  lemma CutOfMiddle(t: Units, mid: Units, a: int, b: int)
    requires |t| >= 2 && Substring(t, 2, |t| - 2) == mid
    ensures CutPadding(t, 1, |t| - 2, a, b) == Substring(mid, a, |mid| - b)
  {
  }

  /** The scans and cuts of `Unwrap` on `da s1 mid s2 db`, whatever the digits stand for. */
  lemma FrameCuts(t: Units, da: nat, s1: nat, mid: Units, s2: nat, db: nat)
    requires t == [da] + [s1] + mid + [s2] + [db]
    requires IsUpperAlnum(da) && !IsUpperAlnum(s1)
    requires IsSeparator(s2) && !IsSeparator(db)
    ensures UpperAlnumRun(t) == 1 && t[..1] == [da]
    ensures LastSeparator(t) == Some(|t| - 2) && t[|t| - 1..] == [db]
    ensures Substring(t, 2, |t| - 2) == mid
  {
    RunOfOne(t);
    LastSeparatorPenultimate(t);
    assert t[2..|t| - 2] == mid;
  }

  lemma RunOfOne(t: Units)
    requires |t| >= 2 && IsUpperAlnum(t[0]) && !IsUpperAlnum(t[1])
    ensures UpperAlnumRun(t) == 1
  {
    assert t[1..][0] == t[1];
    assert UpperAlnumRun(t[1..]) == 0;
  }

  lemma LastSeparatorPenultimate(t: Units)
    requires |t| >= 2 && IsSeparator(t[|t| - 2]) && !IsSeparator(t[|t| - 1])
    ensures LastSeparator(t) == Some(|t| - 2)
  {
    assert LastSeparatorBelow(t, |t| - 1) == Some(|t| - 2);
  }

  /**
    Parse what you print, outer layer: whatever the body holds (separators
    included), the envelope gives it back.
  */
  lemma UnwrapEnvelope(body: Units, d: EncryptionDraws)
    requires Admissible(d)
    ensures Unwrap(Envelope(body, d)) == Success(body)
  {
    var mid := d.prefixPad + body + d.suffixPad;
    assert Envelope(body, d) == EncodeNumber(|d.prefixPad|) + [d.sep1] + mid + [d.sep2] + EncodeNumber(|d.suffixPad|);
    UnwrapFrame(|d.prefixPad|, d.sep1, mid, d.sep2, |d.suffixPad|);
    assert Substring(mid, |d.prefixPad|, |mid| - |d.suffixPad|) == body;
  }

  // ---------------------------------------------------------------------
  // The header

  /** A padded field reads back as the number written into it. */
  lemma FieldReads(n: nat, w: nat)
    requires w >= 1 && n < Pow36(w)
    ensures |PadStart(EncodeNumber(n), w)| == w
    ensures AllUpperAlnum(PadStart(EncodeNumber(n), w))
    ensures DecodeNumber(PadStart(EncodeNumber(n), w)) == Success(n)
  {
    PaddedNumeral(n, w);
    UpperAlnumIsAlnum(PadStart(EncodeNumber(n), w));
    DecodeNumberSpec(PadStart(EncodeNumber(n), w));
  }

  /** An admissible key fits both of its header fields. */
  lemma KeyFieldsFit(key: Units)
    requires |key| <= 21 && forall i :: 0 <= i < |key| ==> InKeyAlphabet(key[i])
    ensures |key| < Pow36(2) && CharCodeSum(key) < Pow36(3)
    ensures ValidUnits(key) && CodePoints(key) == key
  {
    assert Pow36(2) == 1296 && Pow36(3) == 46656;
    CharCodeSumBound(key, 0x80);
    CodePointsWithoutSurrogates(key);
  }

  /** What the key check decides for the key found and the checksum the header states. */
  function KeyedOutcome(digits: Units, found: Units, expected: nat, secretKey: Option<Units>): Result<Decrypted, ParseError> {
    if CharCodeSum(found) != expected then Failure(InvalidKeyChecksum)
    else Success(Text(DecryptDigits(digits, found, secretKey)))
  }

  /**
    The key fields, the digits and the key after an all-`[0-9A-Z]` prefix:
    the key is cut by the length the header states, and the checksum the
    header states is compared with the sum of the key actually found.
  */
  lemma {:induction false} DecodeKeyedOn(body: Units, pre: Units, key: Units, digits: Units, found: Units, secretKey: Option<Units>)
    requires |pre| >= 1 && AllUpperAlnum(pre)
    requires |key| < Pow36(2) && CharCodeSum(key) < Pow36(3)
    requires |found| == |key|
    requires body == pre + KeyLengthField(key) + KeyChecksumField(key) + digits + found
    ensures CharCodeSum(found) != CharCodeSum(key) ==> DecodeKeyed(body, |pre|, |pre| + 5, secretKey) == Failure(InvalidKeyChecksum)
    ensures CharCodeSum(found) == CharCodeSum(key) ==> DecodeKeyed(body, |pre|, |pre| + 5, secretKey) == Success(Text(DecryptDigits(digits, found, secretKey)))
  {
    KeyFieldsRead(key);
    DecodeKeyedOnFields(body, pre, KeyLengthField(key), KeyChecksumField(key), digits, found, CharCodeSum(key), secretKey);
  }

  /** The same for any two header fields of widths 2 and 3 that read as the key length and the checksum. */
  lemma {:induction false} DecodeKeyedOnFields(body: Units, pre: Units, f1: Units, f2: Units, digits: Units, found: Units, expected: nat, secretKey: Option<Units>)
    requires |pre| >= 1 && AllUpperAlnum(pre)
    requires |f1| == 2 && AllUpperAlnum(f1) && DecodeNumber(f1) == Success(|found|)
    requires |f2| == 3 && AllUpperAlnum(f2) && DecodeNumber(f2) == Success(expected)
    requires body == pre + f1 + f2 + digits + found
    ensures CharCodeSum(found) != expected ==> DecodeKeyed(body, |pre|, |pre| + 5, secretKey) == Failure(InvalidKeyChecksum)
    ensures CharCodeSum(found) == expected ==> DecodeKeyed(body, |pre|, |pre| + 5, secretKey) == Success(Text(DecryptDigits(digits, found, secretKey)))
  {
    var header := BodyLayout(body, pre, f1, f2, digits, found);
    DecodeKeyedOnHeader(body, header, pre, f1, f2, digits, found, expected, secretKey);
  }

  /** A header of `[0-9A-Z]`, p + 5 long, whose two fields `f1` and `f2` sit at p and p + 2. */
  predicate FieldsAt(header: Units, p: nat, f1: Units, f2: Units) {
    AllUpperAlnum(header) && |header| == p + 5 && header[p..p + 2] == f1 && header[p + 2..p + 5] == f2
  }

  /** A body `header digits found` whose header has its fields at p and p + 2, after at least one unit. */
  predicate KeyedLayout(body: Units, header: Units, p: nat, f1: Units, f2: Units, digits: Units, found: Units) {
    p >= 1 && FieldsAt(header, p, f1, f2) && body == header + digits + found
  }

  /** `DecodeKeyed` on a body laid out as `header digits found`, the fields after a prefix as long as `pre`. */
  lemma DecodeKeyedOnHeader(body: Units, header: Units, pre: Units, f1: Units, f2: Units, digits: Units, found: Units, expected: nat, secretKey: Option<Units>)
    requires KeyedLayout(body, header, |pre|, f1, f2, digits, found)
    requires DecodeNumber(f1) == Success(|found|) && DecodeNumber(f2) == Success(expected)
    ensures CharCodeSum(found) != expected ==> DecodeKeyed(body, |pre|, |pre| + 5, secretKey) == Failure(InvalidKeyChecksum)
    ensures CharCodeSum(found) == expected ==> DecodeKeyed(body, |pre|, |pre| + 5, secretKey) == Success(Text(DecryptDigits(digits, found, secretKey)))
  {
    HeaderScans(body, header, pre, f1, f2, digits, found);
    DecodeKeyedReads(body, pre, |found|, expected, secretKey);
    CheckKeyCuts(body, pre, |found|, digits, found, expected, secretKey);
    KeyedOutcomeCases(DecodeKeyed(body, |pre|, |pre| + 5, secretKey), digits, found, expected, secretKey);
  }

  /** The two outcomes of the key check. */
  lemma KeyedOutcomeCases(r: Result<Decrypted, ParseError>, digits: Units, found: Units, expected: nat, secretKey: Option<Units>)
    requires r == KeyedOutcome(digits, found, expected, secretKey)
    ensures CharCodeSum(found) != expected ==> r == Failure(InvalidKeyChecksum)
    ensures CharCodeSum(found) == expected ==> r == Success(Text(DecryptDigits(digits, found, secretKey)))
  {
  }

  /** The header of a body `pre f1 f2 digits found` whose first three parts are all `[0-9A-Z]`. */
  lemma BodyLayout(body: Units, pre: Units, f1: Units, f2: Units, digits: Units, found: Units) returns (header: Units)
    requires |pre| >= 1 && AllUpperAlnum(pre) && AllUpperAlnum(f1) && AllUpperAlnum(f2)
    requires |f1| == 2 && |f2| == 3
    requires body == pre + f1 + f2 + digits + found
    ensures KeyedLayout(body, header, |pre|, f1, f2, digits, found)
  {
    header := pre + f1 + f2;
    HeaderLayout(pre, f1, f2);
  }

  /** `pre f1 f2`, all of `[0-9A-Z]`, with fields of widths 2 and 3, has them at |pre| and |pre| + 2. */
  lemma HeaderLayout(pre: Units, f1: Units, f2: Units)
    requires AllUpperAlnum(pre) && AllUpperAlnum(f1) && AllUpperAlnum(f2)
    requires |f1| == 2 && |f2| == 3
    ensures FieldsAt(pre + f1 + f2, |pre|, f1, f2)
  {
    AllUpperAlnumConcat(pre, f1);
    AllUpperAlnumConcat(pre + f1, f2);
  }

  /** `DecodeKeyed` once both header fields are read. */
  lemma DecodeKeyedReads(body: Units, pre: Units, keyLength: nat, expected: nat, secretKey: Option<Units>)
    requires |pre| >= 1
    requires |CollectUpperAlnum(body, |pre|, 2)| == 2 && DecodeNumber(CollectUpperAlnum(body, |pre|, 2)) == Success(keyLength)
    requires |CollectUpperAlnum(body, |pre| + 2, 3)| == 3 && DecodeNumber(CollectUpperAlnum(body, |pre| + 2, 3)) == Success(expected)
    ensures DecodeKeyed(body, |pre|, |pre| + 5, secretKey) == CheckKey(body, |pre| + 5, keyLength, expected, secretKey)
  {
  }

  /** `CheckKey` once the key and the digits are cut. */
  lemma CheckKeyCuts(body: Units, pre: Units, keyLength: nat, digits: Units, found: Units, expected: nat, secretKey: Option<Units>)
    requires |pre| >= 1
    requires Substring(body, |body| - keyLength, |body|) == found
    requires Substring(body, DataStart(body, 0, |pre| + 5), |body| - keyLength) == digits
    ensures CheckKey(body, |pre| + 5, keyLength, expected, secretKey) == KeyedOutcome(digits, found, expected, secretKey)
  {
  }

  /** Both key fields of a key that fits them: their widths, their class and the numbers they hold. */
  lemma KeyFieldsRead(key: Units)
    requires |key| < Pow36(2) && CharCodeSum(key) < Pow36(3)
    ensures |KeyLengthField(key)| == 2 && AllUpperAlnum(KeyLengthField(key))
    ensures DecodeNumber(KeyLengthField(key)) == Success(|key|)
    ensures |KeyChecksumField(key)| == 3 && AllUpperAlnum(KeyChecksumField(key))
    ensures DecodeNumber(KeyChecksumField(key)) == Success(CharCodeSum(key))
  {
    FieldReads(|key|, 2);
    FieldReads(CharCodeSum(key), 3);
  }

  /** What the scans of `DecodeKeyed` find after a header of `[0-9A-Z]` whose fields sit at p and p + 2. */
  lemma HeaderScans(body: Units, header: Units, pre: Units, f1: Units, f2: Units, digits: Units, found: Units)
    requires FieldsAt(header, |pre|, f1, f2)
    requires body == header + digits + found
    ensures CollectUpperAlnum(body, |pre|, 2) == f1
    ensures CollectUpperAlnum(body, |pre| + 2, 3) == f2
    ensures Substring(body, |body| - |found|, |body|) == found
    ensures Substring(body, DataStart(body, 0, |pre| + 5), |body| - |found|) == digits
  {
    assert body[..|pre| + 5] == header;
    CollectInHeader(body, header, |pre|, 2);
    CollectInHeader(body, header, |pre| + 2, 3);
    DataStartInHeader(body, header, 0, |pre| + 5);
    BodyCuts(body, header, digits, found);
  }

  /** Cutting the key and the digits out of a well-formed body. */
  lemma BodyCuts(body: Units, header: Units, digits: Units, found: Units)
    requires body == header + digits + found
    ensures Substring(body, |body| - |found|, |body|) == found
    ensures Substring(body, |header|, |body| - |found|) == digits
  {
    assert body[|body| - |found|..] == found;
    assert body[|header|..|body| - |found|] == digits;
  }
}
