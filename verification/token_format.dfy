/**
  The fields of a message token and the checksums stored in them:

    <prefixLen> <sep1> <prefixPad> <body> <suffixPad> <sep2> <suffixLen>
    body = 'S' <secretChecksum:5> <keyLen:2> <keyChecksum:3> <digits> <key>
         | 'N'                    <keyLen:2> <keyChecksum:3> <digits> <key>

  Every numeric field is upper-case radix 36, zero-padded to its width;
  `digits` is the ciphertext, five characters per value, with junk symbols
  between chunks.
*/
module TokenFormat {
  import opened JsString
  import opened Base36

  /** Width of one serialised ciphertext value. */
  const VALUE_WIDTH: nat := 5

  /** The alphabet `generateEncryptionKey` draws from (88 ASCII characters). */
  const KEY_ALPHABET: string :=
    "ABCDEFGHIJKLMNOPQRSTUVWXYZabcdefghijklmnopqrstuvwxyz0123456789!@#$%^&*()_+-=[]{}|;:,.<>?"

  predicate InKeyAlphabet(u: nat) {
    u < 0x80 && (u as char) in KEY_ALPHABET
  }

  /** The eight separators of the envelope. */
  const SEPARATORS: set<nat> := {
    '|' as nat, ':' as nat, ';' as nat, '~' as nat, '!' as nat, '@' as nat, '#' as nat, '$' as nat
  }

  predicate IsSeparator(u: nat) {
    u in SEPARATORS
  }

  lemma SeparatorsAreNotAlnum(u: nat)
    requires IsSeparator(u)
    ensures !IsAlnum(u)
  {
  }

  /** Sum of the code units (`split('')` then `charCodeAt(0)`), the key checksum. */
  function CharCodeSum(s: Units): nat
    decreases |s|
  {
    if |s| == 0 then 0 else CharCodeSum(s[..|s| - 1]) + s[|s| - 1]
  }

  /** Sum of code unit i times i + 1. */
  function WeightedSum(s: Units): nat
    decreases |s|
  {
    if |s| == 0 then 0 else WeightedSum(s[..|s| - 1]) + s[|s| - 1] * |s|
  }

  /**
    The secret-code checksum: the reduce over the trimmed secret's code
    units, starting from its length, adding code * (index + 1).
  */
  function SecretChecksum(secret: Units): nat {
    |secret| + WeightedSum(secret)
  }

  /** A non-empty secret has a positive checksum, so encrypting with it always writes the field. */
  lemma SecretChecksumPositive(secret: Units)
    requires |secret| > 0
    ensures SecretChecksum(secret) > 0
  {
  }

  /** Two keys of one length whose units differ in exactly one place have different checksums. */
  lemma {:induction false} CharCodeSumDetectsOneChange(a: Units, b: Units, j: nat)
    requires |a| == |b| && j < |a|
    requires a[j] != b[j]
    requires forall k :: 0 <= k < |a| && k != j ==> a[k] == b[k]
    ensures CharCodeSum(a) != CharCodeSum(b)
    decreases |a|
  {
    var n := |a| - 1;
    if j == n {
      assert a[..n] == b[..n];
    } else {
      CharCodeSumDetectsOneChange(a[..n], b[..n], j);
    }
  }

  lemma {:induction false} CharCodeSumBound(s: Units, bound: nat)
    requires forall k :: 0 <= k < |s| ==> s[k] < bound
    ensures CharCodeSum(s) <= |s| * bound
    decreases |s|
  {
    if |s| > 0 {
      CharCodeSumBound(s[..|s| - 1], bound);
    }
  }

  /** `encodeNumber(keyLength).padStart(2, '0')`. */
  function KeyLengthField(key: Units): Units {
    PadStart(EncodeNumber(|key|), 2)
  }

  /** `encodeNumber(keyChecksum).padStart(3, '0')`. */
  function KeyChecksumField(key: Units): Units {
    PadStart(EncodeNumber(CharCodeSum(key)), 3)
  }

  /** The secret-checksum field: five padded digits when the checksum is positive, nothing otherwise. */
  function SecretChecksumField(checksum: nat): Units {
    if checksum > 0 then PadStart(EncodeNumber(checksum), VALUE_WIDTH) else []
  }

  /** The five-digit serialisation of one ciphertext value. */
  function ValueField(v: nat): Units {
    PadStart(EncodeNumber(v), VALUE_WIDTH)
  }

  /** `encryptedCodes.map(n => ...padStart(5, '0')).join('')`. */
  function Serialize(values: seq<nat>): Units
    decreases |values|
  {
    if |values| == 0 then [] else ValueField(values[0]) + Serialize(values[1..])
  }

  /**
    The chunk loop of `decryptText`: each full 5-character chunk that
    `parseInt` reads as a non-negative number contributes that number; an
    incomplete last chunk and unreadable chunks are skipped.
  */
  function ParseChunks(s: Units): seq<nat>
    decreases |s|
  {
    if |s| < VALUE_WIDTH then [] else ChunkValue(s[..VALUE_WIDTH]) + ParseChunks(s[VALUE_WIDTH..])
  }

  /** One chunk: `parseInt(numStr, 36)` kept when it is a number and not negative. */
  function ChunkValue(chunk: Units): seq<nat> {
    match ParseInt36(chunk)
    case Some(n) => if n >= 0 then [n as nat] else []
    case None => []
  }

  lemma ChunkValueOfField(v: nat)
    requires v < Pow36(VALUE_WIDTH)
    ensures ChunkValue(ValueField(v)) == [v]
  {
    PaddedNumeral(v, VALUE_WIDTH);
    UpperAlnumIsAlnum(ValueField(v));
    ParseInt36OfNumeral(ValueField(v));
  }

  predicate FitsValueField(values: seq<nat>) {
    forall i :: 0 <= i < |values| ==> values[i] < Pow36(VALUE_WIDTH)
  }

  /** Values that fit five digits serialise to five upper-case digits each. */
  lemma {:induction false} SerializeShape(values: seq<nat>)
    requires FitsValueField(values)
    ensures |Serialize(values)| == VALUE_WIDTH * |values|
    ensures AllUpperAlnum(Serialize(values))
    decreases |values|
  {
    if |values| > 0 {
      PaddedNumeral(values[0], VALUE_WIDTH);
      SerializeShape(values[1..]);
      AllUpperAlnumConcat(ValueField(values[0]), Serialize(values[1..]));
    }
  }

  /** Parse what you print: the chunk parser reads back every value that fits the field. */
  lemma {:induction false} ParseChunksSerialize(values: seq<nat>)
    requires FitsValueField(values)
    ensures ParseChunks(Serialize(values)) == values
    decreases |values|
  {
    if |values| > 0 {
      var a := ValueField(values[0]);
      var b := Serialize(values[1..]);
      PaddedNumeral(values[0], VALUE_WIDTH);
      var s := a + b;
      assert Serialize(values) == s;
      assert s[..VALUE_WIDTH] == a;
      assert s[VALUE_WIDTH..] == b;
      ChunkValueOfField(values[0]);
      ParseChunksSerialize(values[1..]);
      assert ParseChunks(s) == ChunkValue(a) + ParseChunks(b);
      assert values == [values[0]] + values[1..];
    }
  }

  /** 2^21, the bound on every transformed value, is below 36^5: the five-digit field always suffices. */
  lemma CodePointRangeFitsField()
    ensures 0x20_0000 < Pow36(VALUE_WIDTH)
  {
    assert Pow36(VALUE_WIDTH) == 60466176;
  }
}
