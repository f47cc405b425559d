/**
  The round trips of the message codec: what `decryptText` makes of a token
  `encryptText` produced, for every admissible set of random draws, with and
  without a secret code, and with the right, a wrong or a missing one.
*/
module RoundTrip {
  import opened Wrappers
  import opened JsString
  import opened Base36
  import opened Cipher
  import opened Obfuscation
  import opened TokenFormat
  import opened Encrypt
  import opened Decrypt
  import opened CodecProperties

  /** The secret layer's key: the trimmed secret when one is in use. */
  function SecretKey(secret: Option<Units>): (r: Option<Units>)
    ensures r.Some? <==> SecretInUse(secret)
  {
    if SecretInUse(secret) then Some(Trim(secret.value)) else None
  }

  /** Admissible junk symbols are never alphanumeric. */
  lemma AdmissibleJunk(d: EncryptionDraws)
    requires Admissible(d)
    ensures forall k :: !IsAlnum(d.junk(k))
  {
    forall k ensures !IsAlnum(d.junk(k)) {
      ObfuscationCharsAreNotAlnum(d.junk(k));
    }
  }

  lemma BelowWeaken(s: seq<nat>, a: nat, b: nat)
    requires Below(s, a) && a <= b
    ensures Below(s, b)
  {
  }

  /** The two xor layers: the key layer comes off first, then the secret layer. */
  lemma LayersRoundTrip(text: Units, secret: Option<Units>, key: Units)
    requires ValidUnits(text) && ValidUnits(key)
    requires SecretInUse(secret) ==> ValidUnits(secret.value)
    ensures FitsValueField(CipherValues(text, secret, key))
    ensures var layered := XorDecrypt(CipherValues(text, secret, key), key);
            (if SecretInUse(secret) then XorDecrypt(layered, Trim(secret.value)) else layered) == CodePoints(text)
  {
    var codes := CodePoints(text);
    CodePointsValid(text);
    assert Below(codes, 0x20_0000);
    var layered := if SecretInUse(secret) then XorEncrypt(codes, Trim(secret.value)) else codes;
    if SecretInUse(secret) {
      TrimSpec(secret.value);
      EncryptBelow(codes, Trim(secret.value));
      BelowWeaken(codes, 0x20_0000, 0x1_0000_0000);
      DecryptInvertsEncrypt(codes, Trim(secret.value));
    }
    EncryptBelow(layered, key);
    BelowWeaken(layered, 0x20_0000, 0x1_0000_0000);
    DecryptInvertsEncrypt(layered, key);
    CodePointRangeFitsField();
    BelowWeaken(XorEncrypt(layered, key), 0x20_0000, Pow36(VALUE_WIDTH));
  }

  /**
    The ciphertext digits round trip: junk stripped, chunks read, both xor
    layers undone and the code points joined give the text back.
  */
  lemma DigitsRoundTrip(text: Units, secret: Option<Units>, key: Units, rate: nat, junk: nat -> nat)
    requires ValidUnits(text) && ValidUnits(key)
    requires SecretInUse(secret) ==> ValidUnits(secret.value)
    requires rate > 0 && forall k :: !IsAlnum(junk(k))
    ensures DecryptDigits(AddObfuscation(Serialize(CipherValues(text, secret, key)), rate, junk), key, SecretKey(secret)) == text
  {
    var values := CipherValues(text, secret, key);
    LayersRoundTrip(text, secret, key);
    var serial := Serialize(values);
    SerializeShape(values);
    UpperAlnumIsAlnum(serial);
    RemoveAfterAdd(serial, rate, junk);
    ParseChunksSerialize(values);
    var codes := CodePoints(text);
    CodePointsRoundTrip(text);
    KeepCodePointsSpec(codes);
    CodeArrayToStringFilters(codes);
  }

  // ---------------------------------------------------------------------
  // The body

  /** An `N` body decodes to its digits under the key it carries, whatever secret is supplied. */
  lemma PlainBodyDecodes(key: Units, digits: Units, supplied: Option<Units>, decoyLength: nat)
    requires |key| < Pow36(2) && CharCodeSum(key) < Pow36(3)
    ensures var body := Body('N' as nat, [], key, digits);
            DecodeBody(body, supplied, decoyLength) == Success(Text(DecryptDigits(digits, key, None)))
  {
    var body := Body('N' as nat, [], key, digits);
    var pre := ['N' as nat] + [];
    BodyParts('N' as nat, [], key, digits);
    assert !HasSecretFlag(body);
    DecodeBodyPlain(body, pre, supplied, decoyLength);
    DecodeKeyedOn(body, pre, key, digits, key, None);
  }

  /** A body is its header (flag and secret field) followed by the key fields, the digits and the key. */
  lemma BodyParts(flag: nat, field: Units, key: Units, digits: Units)
    requires IsUpperAlnum(flag) && AllUpperAlnum(field)
    ensures AllUpperAlnum([flag] + field) && |[flag] + field| == 1 + |field|
    ensures Body(flag, field, key, digits) == ([flag] + field) + KeyLengthField(key) + KeyChecksumField(key) + digits + key
    ensures Body(flag, field, key, digits)[0] == flag
  {
    AllUpperAlnumConcat([flag], field);
  }

  /** Without the `S` flag the body goes straight to the key fields, after one character. */
  lemma DecodeBodyPlain(body: Units, pre: Units, supplied: Option<Units>, decoyLength: nat)
    requires !HasSecretFlag(body) && |pre| == 1
    ensures DecodeBody(body, supplied, decoyLength) == DecodeKeyed(body, |pre|, |pre| + 5, None)
  {
  }

  /** With the `S` flag and a readable checksum field, the outcome the secret check picks. */
  lemma DecodeBodySecret(body: Units, checksum: nat, supplied: Option<Units>, decoyLength: nat)
    requires HasSecretFlag(body)
    requires |CollectUpperAlnum(body, 1, 5)| == 5 && DecodeNumber(CollectUpperAlnum(body, 1, 5)) == Success(checksum)
    ensures !SecretSupplied(supplied) ==> DecodeBody(body, supplied, decoyLength) == Success(RequiresSecretCode)
    ensures SecretSupplied(supplied) && SecretChecksum(Trim(supplied.value)) != checksum
            ==> DecodeBody(body, supplied, decoyLength) == Success(WrongSecretCode(decoyLength))
    ensures SecretSupplied(supplied) && SecretChecksum(Trim(supplied.value)) == checksum
            ==> DecodeBody(body, supplied, decoyLength) == DecodeKeyed(body, 6, 11, Some(Trim(supplied.value)))
  {
  }

  /** The header of an `S` body: the flag and the five secret-checksum digits. */
  lemma SecretHeader(checksum: nat)
    requires 0 < checksum < Pow36(VALUE_WIDTH)
    ensures |SecretChecksumField(checksum)| == 5 && AllUpperAlnum(SecretChecksumField(checksum))
    ensures AllUpperAlnum(['S' as nat] + SecretChecksumField(checksum))
    ensures DecodeNumber(SecretChecksumField(checksum)) == Success(checksum)
  {
    FieldReads(checksum, VALUE_WIDTH);
    assert AllUpperAlnum(['S' as nat]);
    AllUpperAlnumConcat(['S' as nat], SecretChecksumField(checksum));
  }

  /** What the secret check of `decryptText` reads from an `S` body. */
  lemma SecretFieldRead(checksum: nat, key: Units, digits: Units)
    requires 0 < checksum < Pow36(VALUE_WIDTH)
    ensures var body := Body('S' as nat, SecretChecksumField(checksum), key, digits);
            && HasSecretFlag(body)
            && CollectUpperAlnum(body, 1, 5) == SecretChecksumField(checksum)
            && DecodeNumber(SecretChecksumField(checksum)) == Success(checksum)
  {
    var field := SecretChecksumField(checksum);
    var pre := ['S' as nat] + field;
    var rest := KeyLengthField(key) + KeyChecksumField(key) + digits + key;
    SecretHeader(checksum);
    BodyParts('S' as nat, field, key, digits);
    ConcatRegroup(pre, KeyLengthField(key), KeyChecksumField(key), digits, key);
    CollectInPrefix(pre, rest, 1, 5);
    assert pre[1..6] == field;
  }

  lemma ConcatRegroup(p: Units, a: Units, b: Units, c: Units, e: Units)
    ensures p + a + b + c + e == p + (a + b + c + e)
  {
  }

  /** The collector, inside a prefix of `[0-9A-Z]`, takes the characters as they stand. */
  lemma CollectInPrefix(pre: Units, rest: Units, k: nat, count: nat)
    requires AllUpperAlnum(pre) && k + count <= |pre|
    ensures CollectUpperAlnum(pre + rest, k, count) == pre[k..k + count]
  {
    assert (pre + rest)[..|pre|] == pre;
    CollectInHeader(pre + rest, pre, k, count);
  }

  /**
    An `S` body: without a secret it asks for one; with one whose checksum
    differs it yields the decoy; with one whose checksum matches it decodes
    its digits under the key and that secret.
  */
  lemma SecretBodyDecodes(checksum: nat, key: Units, digits: Units, supplied: Option<Units>, decoyLength: nat)
    requires 0 < checksum < Pow36(VALUE_WIDTH)
    requires |key| < Pow36(2) && CharCodeSum(key) < Pow36(3)
    ensures var body := Body('S' as nat, SecretChecksumField(checksum), key, digits);
            && (!SecretSupplied(supplied) ==> DecodeBody(body, supplied, decoyLength) == Success(RequiresSecretCode))
            && (SecretSupplied(supplied) && SecretChecksum(Trim(supplied.value)) != checksum
                ==> DecodeBody(body, supplied, decoyLength) == Success(WrongSecretCode(decoyLength)))
            && (SecretSupplied(supplied) && SecretChecksum(Trim(supplied.value)) == checksum
                ==> DecodeBody(body, supplied, decoyLength) == Success(Text(DecryptDigits(digits, key, Some(Trim(supplied.value))))))
  {
    var field := SecretChecksumField(checksum);
    var body := Body('S' as nat, field, key, digits);
    SecretFieldRead(checksum, key, digits);
    DecodeBodySecret(body, checksum, supplied, decoyLength);
    if SecretSupplied(supplied) && SecretChecksum(Trim(supplied.value)) == checksum {
      var pre := ['S' as nat] + field;
      SecretHeader(checksum);
      assert body == pre + KeyLengthField(key) + KeyChecksumField(key) + digits + key;
      DecodeKeyedOn(body, pre, key, digits, key, Some(Trim(supplied.value)));
    }
  }

  // ---------------------------------------------------------------------
  // The whole token

  /** What a body's decoding amounts to once `decryptText` returns. */
  function Outcome(r: Result<Decrypted, ParseError>): Decrypted {
    match r
    case Success(v) => v
    case Failure(e) => Thrown(e)
  }

  /**
    A token `encryptText` produced is not blank, and `decryptText` finds in
    it exactly the body that was wrapped.
  */
  lemma DecryptToken(text: Units, secret: Option<Units>, d: EncryptionDraws, supplied: Option<Units>, draw: int)
    requires Admissible(d) && !IsBlank(text)
    requires DecoyDrawAdmissible(|EncryptText(text, secret, d).value|, draw)
    ensures var token := EncryptText(text, secret, d).value;
            DecryptText(token, supplied, draw)
            == Outcome(DecodeBody(EncryptBody(text, secret, d), supplied, DecoyLength(|token|, draw)))
  {
    DecryptEnvelope(EncryptBody(text, secret, d), d, supplied, draw);
  }

  /** `decryptText` on an envelope: it is not blank, and its body is what gets decoded. */
  lemma DecryptEnvelope(body: Units, d: EncryptionDraws, supplied: Option<Units>, draw: int)
    requires Admissible(d)
    requires DecoyDrawAdmissible(|Envelope(body, d)|, draw)
    ensures DecryptText(Envelope(body, d), supplied, draw)
            == Outcome(DecodeBody(body, supplied, DecoyLength(|Envelope(body, d)|, draw)))
  {
    var token := Envelope(body, d);
    EnvelopeEnds(body, d);
    assert !IsSpace(token[0]);
    UnwrapEnvelope(body, d);
  }

  /** The digits and the key fields of an encrypted body. */
  lemma EncryptedParts(text: Units, secret: Option<Units>, d: EncryptionDraws)
    requires Admissible(d) && ValidUnits(text)
    requires SecretInUse(secret) ==> ValidUnits(secret.value)
    ensures |d.key| < Pow36(2) && CharCodeSum(d.key) < Pow36(3)
    ensures var digits := AddObfuscation(Serialize(CipherValues(text, secret, d.key)), d.rate, d.junk);
            DecryptDigits(digits, d.key, SecretKey(secret)) == text
  {
    KeyFieldsFit(d.key);
    AdmissibleJunk(d);
    DigitsRoundTrip(text, secret, d.key, d.rate, d.junk);
  }

  /**
    Without a secret code in use (none given, or a blank one), decrypting
    the token gives the text back, whatever secret is supplied to
    `decryptText`.
  */
  lemma PlainRoundTrip(text: Units, secret: Option<Units>, d: EncryptionDraws, supplied: Option<Units>, draw: int)
    requires Admissible(d) && ValidUnits(text) && !IsBlank(text)
    requires !SecretInUse(secret)
    requires DecoyDrawAdmissible(|EncryptText(text, secret, d).value|, draw)
    ensures DecryptText(EncryptText(text, secret, d).value, supplied, draw) == Text(text)
  {
    var token := EncryptText(text, secret, d).value;
    var digits := AddObfuscation(Serialize(CipherValues(text, secret, d.key)), d.rate, d.junk);
    DecryptToken(text, secret, d, supplied, draw);
    EncryptedParts(text, secret, d);
    assert EncryptBody(text, secret, d) == Body('N' as nat, [], d.key, digits);
    PlainBodyDecodes(d.key, digits, supplied, DecoyLength(|token|, draw));
  }

  /**
    With a secret code in use: no secret asks for one, a secret with
    another checksum yields the decoy of the drawn length, and the same
    secret (up to surrounding white space) gives the text back. The stored
    checksum must fit its five digits.
  */
  lemma SecretRoundTrip(text: Units, secret: Option<Units>, d: EncryptionDraws, supplied: Option<Units>, draw: int)
    requires Admissible(d) && ValidUnits(text) && !IsBlank(text)
    requires SecretInUse(secret) && ValidUnits(secret.value)
    requires SecretChecksum(Trim(secret.value)) < Pow36(VALUE_WIDTH)
    requires DecoyDrawAdmissible(|EncryptText(text, secret, d).value|, draw)
    ensures var token := EncryptText(text, secret, d).value;
            var r := DecryptText(token, supplied, draw);
            && (!SecretSupplied(supplied) ==> r == RequiresSecretCode)
            && (SecretSupplied(supplied) && SecretChecksum(Trim(supplied.value)) != SecretChecksum(Trim(secret.value))
                ==> r == WrongSecretCode(DecoyLength(|token|, draw)))
            && (SecretSupplied(supplied) && Trim(supplied.value) == Trim(secret.value) ==> r == Text(text))
            && (SecretSupplied(supplied) && SecretChecksum(Trim(supplied.value)) == SecretChecksum(Trim(secret.value)) ==> r.Text?)
  {
    var token := EncryptText(text, secret, d).value;
    var digits := AddObfuscation(Serialize(CipherValues(text, secret, d.key)), d.rate, d.junk);
    var checksum := SecretChecksum(Trim(secret.value));
    TrimSpec(secret.value);
    SecretChecksumPositive(Trim(secret.value));
    DecryptToken(text, secret, d, supplied, draw);
    EncryptedParts(text, secret, d);
    assert EncryptBody(text, secret, d) == Body('S' as nat, SecretChecksumField(checksum), d.key, digits);
    SecretBodyDecodes(checksum, d.key, digits, supplied, DecoyLength(|token|, draw));
  }

  /**
    A token locked with a secret code asks for it when none is supplied,
    however long the secret: the answer rests on the `S` flag alone.
  */
  lemma SecretTokenAsksForSecret(text: Units, secret: Option<Units>, d: EncryptionDraws, supplied: Option<Units>, draw: int)
    requires Admissible(d) && !IsBlank(text)
    requires SecretInUse(secret) && !SecretSupplied(supplied)
    requires DecoyDrawAdmissible(|EncryptText(text, secret, d).value|, draw)
    ensures DecryptText(EncryptText(text, secret, d).value, supplied, draw) == RequiresSecretCode
  {
    DecryptToken(text, secret, d, supplied, draw);
    assert EncryptBody(text, secret, d)[0] == 'S' as nat;
  }

  /**
    A secret whose checksum needs six radix-36 digits is written whole,
    but the decoder reads only the first five of them: the number it reads
    is below the checksum, so even the right secret gets the decoy.
  */
  lemma LongSecretLocksOut(checksum: nat, key: Units, digits: Units, supplied: Option<Units>, decoyLength: nat)
    requires Pow36(VALUE_WIDTH) <= checksum < Pow36(VALUE_WIDTH + 1)
    requires SecretSupplied(supplied) && SecretChecksum(Trim(supplied.value)) == checksum
    ensures DecodeBody(Body('S' as nat, SecretChecksumField(checksum), key, digits), supplied, decoyLength)
            == Success(WrongSecretCode(decoyLength))
  {
    var field := EncodeNumber(checksum);
    Radix36Width(checksum, true, 5);
    Radix36Width(checksum, true, 6);
    assert SecretChecksumField(checksum) == field;
    EncodeNumberUpper(checksum);
    var pre := ['S' as nat] + field;
    var rest := KeyLengthField(key) + KeyChecksumField(key) + digits + key;
    var body := Body('S' as nat, field, key, digits);
    BodyParts('S' as nat, field, key, digits);
    ConcatRegroup(pre, KeyLengthField(key), KeyChecksumField(key), digits, key);
    CollectInPrefix(pre, rest, 1, 5);
    var read := field[..5];
    assert pre[1..6] == read;
    Radix36Value(checksum, true);
    assert field[..|field| - 1] == read;
    assert Value(read) < checksum;
    UpperAlnumIsAlnum(field);
    AllAlnumSlice(field, 0, 5);
    DecodeNumberSpec(read);
    DecodeBodySecret(body, Value(read), supplied, decoyLength);
  }

  /**
    The same at the level of the token: once the trimmed secret's checksum
    reaches 36^5, the message cannot be decrypted with its own secret.
  */
  lemma LongSecretNeverDecrypts(text: Units, secret: Option<Units>, d: EncryptionDraws, supplied: Option<Units>, draw: int)
    requires Admissible(d) && ValidUnits(text) && !IsBlank(text)
    requires SecretInUse(secret) && ValidUnits(secret.value)
    requires Pow36(VALUE_WIDTH) <= SecretChecksum(Trim(secret.value)) < Pow36(VALUE_WIDTH + 1)
    requires SecretSupplied(supplied) && Trim(supplied.value) == Trim(secret.value)
    requires DecoyDrawAdmissible(|EncryptText(text, secret, d).value|, draw)
    ensures var token := EncryptText(text, secret, d).value;
            DecryptText(token, supplied, draw) == WrongSecretCode(DecoyLength(|token|, draw))
  {
    var token := EncryptText(text, secret, d).value;
    var digits := AddObfuscation(Serialize(CipherValues(text, secret, d.key)), d.rate, d.junk);
    var checksum := SecretChecksum(Trim(secret.value));
    DecryptToken(text, secret, d, supplied, draw);
    assert EncryptBody(text, secret, d) == Body('S' as nat, SecretChecksumField(checksum), d.key, digits);
    LongSecretLocksOut(checksum, d.key, digits, supplied, DecoyLength(|token|, draw));
  }

  // ---------------------------------------------------------------------
  // What the checks catch and what they let through

  /**
    A token whose embedded key was altered in one code unit (lengths kept)
    fails the key checksum: `decryptText` throws.
  */
  lemma KeyTamperRejected(key: Units, found: Units, j: nat, digits: Units, d: EncryptionDraws, supplied: Option<Units>, draw: int)
    requires Admissible(d)
    requires |key| < Pow36(2) && CharCodeSum(key) < Pow36(3)
    requires |found| == |key| && j < |key| && found[j] != key[j]
    requires forall k :: 0 <= k < |key| && k != j ==> found[k] == key[k]
    requires DecoyDrawAdmissible(|Envelope(['N' as nat] + KeyLengthField(key) + KeyChecksumField(key) + digits + found, d)|, draw)
    ensures DecryptText(Envelope(['N' as nat] + KeyLengthField(key) + KeyChecksumField(key) + digits + found, d), supplied, draw)
            == Thrown(InvalidKeyChecksum)
  {
    var pre := ['N' as nat];
    var body := pre + KeyLengthField(key) + KeyChecksumField(key) + digits + found;
    CharCodeSumDetectsOneChange(found, key, j);
    assert AllUpperAlnum(pre);
    DecodeKeyedOn(body, pre, key, digits, found, None);
    DecodeBodyPlain(body, pre, supplied, DecoyLength(|Envelope(body, d)|, draw));
    DecryptEnvelope(body, d, supplied, draw);
  }

  /**
    The same for a token locked with a secret code, once the right secret
    has passed the secret check: the altered key still fails its checksum.
  */
  lemma SecretKeyTamperRejected(key: Units, found: Units, j: nat, digits: Units, checksum: nat, d: EncryptionDraws, supplied: Option<Units>, draw: int)
    requires Admissible(d)
    requires |key| < Pow36(2) && CharCodeSum(key) < Pow36(3)
    requires |found| == |key| && j < |key| && found[j] != key[j]
    requires forall k :: 0 <= k < |key| && k != j ==> found[k] == key[k]
    requires 0 < checksum < Pow36(VALUE_WIDTH)
    requires SecretSupplied(supplied) && SecretChecksum(Trim(supplied.value)) == checksum
    requires DecoyDrawAdmissible(|Envelope(['S' as nat] + SecretChecksumField(checksum) + KeyLengthField(key) + KeyChecksumField(key) + digits + found, d)|, draw)
    ensures DecryptText(Envelope(['S' as nat] + SecretChecksumField(checksum) + KeyLengthField(key) + KeyChecksumField(key) + digits + found, d), supplied, draw)
            == Thrown(InvalidKeyChecksum)
  {
    var field := SecretChecksumField(checksum);
    var pre := ['S' as nat] + field;
    var rest := KeyLengthField(key) + KeyChecksumField(key) + digits + found;
    var body := pre + KeyLengthField(key) + KeyChecksumField(key) + digits + found;
    SecretHeader(checksum);
    ConcatRegroup(pre, KeyLengthField(key), KeyChecksumField(key), digits, found);
    CollectInPrefix(pre, rest, 1, 5);
    assert pre[1..6] == field;
    DecodeBodySecret(body, checksum, supplied, DecoyLength(|Envelope(body, d)|, draw));
    CharCodeSumDetectsOneChange(found, key, j);
    DecodeKeyedOn(body, pre, key, digits, found, Some(Trim(supplied.value)));
    DecryptEnvelope(body, d, supplied, draw);
  }

  /**
    The secret check compares checksums only: "AC" and "CB" share the
    checksum 201, so a token locked with one is opened by the other.
  */
  lemma ChecksumCollision()
    ensures SecretChecksum([65, 67]) == SecretChecksum([67, 66]) == 201
  {
    assert [65, 67][..1] == [65] && [65][..0] == [];
    assert WeightedSum([65]) == 65;
    assert WeightedSum([65, 67]) == 199;
    assert [67, 66][..1] == [67] && [67][..0] == [];
    assert WeightedSum([67]) == 67;
    assert WeightedSum([67, 66]) == 199;
  }
}
