/**
  `encryptText`: text (and an optional secret code) to a token. Every
  `Math.random` draw of the original is a field of `EncryptionDraws`.
*/
module Encrypt {
  import opened Wrappers
  import opened JsString
  import opened Base36
  import opened Cipher
  import opened Obfuscation
  import opened TokenFormat

  /**
    The random choices of one `encryptText` call: the key, the two padding
    strings, the obfuscation rate, the junk symbol drawn in front of chunk j
    (`junk(j)`), and the two separators.
  */
  datatype EncryptionDraws = EncryptionDraws(
    key: Units,
    prefixPad: Units,
    suffixPad: Units,
    rate: nat,
    junk: nat -> nat,
    sep1: nat,
    sep2: nat)

  /** A padding string of `generateRandomChars(floor(random * 5) + 4)`. */
  predicate AdmissiblePad(pad: Units) {
    4 <= |pad| <= 8 && AllAlnum(pad)
  }

  /**
    The draws the original can make: a key of `floor(random * 10) + 12`
    characters (12 to 21) from the key alphabet, paddings of 4 to 8
    alphanumerics, a rate of 2 to 4, junk from the twenty obfuscation
    symbols, and two separators.
  */
  ghost predicate Admissible(d: EncryptionDraws) {
    && 12 <= |d.key| <= 21
    && (forall i :: 0 <= i < |d.key| ==> InKeyAlphabet(d.key[i]))
    && AdmissiblePad(d.prefixPad)
    && AdmissiblePad(d.suffixPad)
    && 2 <= d.rate <= 4
    && (forall j :: d.junk(j) in OBFUSCATION_CHARS)
    && IsSeparator(d.sep1)
    && IsSeparator(d.sep2)
  }

  /** `secretCode && secretCode.trim()`: a secret is in use when one is given and it is not blank. */
  predicate SecretInUse(secret: Option<Units>) {
    secret.Some? && !IsBlank(secret.value)
  }

  /** `flag [secretChecksum] keyLen keyChecksum digits key`. */
  function Body(flag: nat, secretField: Units, key: Units, digits: Units): Units {
    [flag] + secretField + KeyLengthField(key) + KeyChecksumField(key) + digits + key
  }

  /** `encodeNumber(prefixLen) sep1 prefixPad body suffixPad sep2 encodeNumber(suffixLen)`. */
  function Envelope(body: Units, d: EncryptionDraws): Units {
    EncodeNumber(|d.prefixPad|) + [d.sep1] + d.prefixPad + body + d.suffixPad + [d.sep2] + EncodeNumber(|d.suffixPad|)
  }

  /** The ciphertext values: the secret layer (when in use) first, the key layer over it. */
  function CipherValues(text: Units, secret: Option<Units>, key: Units): seq<nat> {
    var codes := CodePoints(text);
    var layered := if SecretInUse(secret) then XorEncrypt(codes, Trim(secret.value)) else codes;
    XorEncrypt(layered, key)
  }

  /** The body `encryptText` assembles for `text`. */
  function EncryptBody(text: Units, secret: Option<Units>, d: EncryptionDraws): Units
    requires d.rate > 0
  {
    var digits := Serialize(CipherValues(text, secret, d.key));
    var obfuscated := AddObfuscation(digits, d.rate, d.junk);
    var checksum := if SecretInUse(secret) then SecretChecksum(Trim(secret.value)) else 0;
    var flag := if SecretInUse(secret) then 'S' as nat else 'N' as nat;
    Body(flag, SecretChecksumField(checksum), d.key, obfuscated)
  }

  /**
    `encryptText(text, secretCode)`: null for blank text; otherwise the
    token. (Its catch block only guards against exceptions none of these
    steps can raise.)
  */
  function EncryptText(text: Units, secret: Option<Units>, d: EncryptionDraws): (r: Option<Units>)
    requires Admissible(d)
    ensures r.None? <==> IsBlank(text)
    ensures r.Some? ==> |r.value| >= 4 && IsUpperAlnum(r.value[0]) && IsUpperAlnum(r.value[|r.value| - 1])
    ensures r.Some? ==> IsSeparator(r.value[1]) && IsSeparator(r.value[|r.value| - 2])
  {
    if IsBlank(text) then None
    else
      var t := Envelope(EncryptBody(text, secret, d), d);
      EnvelopeEnds(EncryptBody(text, secret, d), d);
      Some(t)
  }

  lemma SmallNumeral(n: nat)
    requires n < 36
    ensures EncodeNumber(n) == [DigitChar(n, true)]
  {
  }

  lemma EnvelopeEnds(body: Units, d: EncryptionDraws)
    requires Admissible(d)
    ensures var t := Envelope(body, d);
            && |t| == |body| + |d.prefixPad| + |d.suffixPad| + 4
            && t[0] == DigitChar(|d.prefixPad|, true) && t[1] == d.sep1
            && t[|t| - 1] == DigitChar(|d.suffixPad|, true) && t[|t| - 2] == d.sep2
  {
    SmallNumeral(|d.prefixPad|);
    SmallNumeral(|d.suffixPad|);
  }
}
