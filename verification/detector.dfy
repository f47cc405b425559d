/**
  `detectTextType(text)`: whether a pasted string is a token of the codec,
  decided by running `decryptText` (without a secret) on the trimmed text.
*/
module Detector {
  import opened Wrappers
  import opened JsString
  import opened Base36
  import opened Decrypt
  import opened TokenFormat
  import opened Encrypt
  import opened RoundTrip

  datatype TextType = Encrypted | SecretEncrypted | Plain

  /** `/[a-zA-Z\\s]/`: an ASCII letter or white space. */
  predicate IsReadable(u: nat) {
    IsUpperLetter(u) || IsLowerLetter(u) || IsSpace(u)
  }

  /** The number of matches of `/[a-zA-Z\\s]/g`, each a single code unit. */
  function ReadableCount(s: Units): (n: nat)
    ensures n <= |s|
    decreases |s|
  {
    if |s| == 0 then 0 else (if IsReadable(s[0]) then 1 else 0) + ReadableCount(s[1..])
  }

  /** `match` counts over the whole string: the count of a + b is that of a plus that of b. */
  lemma {:induction false} ReadableCountConcat(a: Units, b: Units)
    ensures ReadableCount(a + b) == ReadableCount(a) + ReadableCount(b)
    decreases |a|
  {
    if |a| > 0 {
      ReadableCountConcat(a[1..], b);
      assert (a + b)[1..] == a[1..] + b;
    } else {
      assert a + b == b;
    }
  }

  /** Every character is counted exactly when every character is readable. */
  lemma {:induction false} ReadableCountAll(s: Units)
    ensures ReadableCount(s) == |s| <==> forall k :: 0 <= k < |s| ==> IsReadable(s[k])
    decreases |s|
  {
    if |s| > 0 {
      ReadableCountAll(s[1..]);
      if ReadableCount(s) == |s| {
        forall k | 0 <= k < |s| ensures IsReadable(s[k]) {
          if k > 0 { assert s[k] == s[1..][k - 1]; }
        }
      }
    }
  }

  /**
    The acceptance test on a decrypted string: non-blank, and either more
    than 30% readable (`readableRatio > 0.3`, compared exactly as
    10 * readable > 3 * length) or shorter than 50 code units.
  */
  predicate LooksDecrypted(t: Units) {
    |t| > 0 && !IsBlank(t) && (10 * ReadableCount(t) > 3 * |t| || |t| < 50)
  }

  /**
    `detectTextType(text)`: None for blank text; `SecretEncrypted` when the
    token asks for a secret; `Encrypted` when it decrypts to an acceptable
    string; `Plain` otherwise, a thrown parse error included. The decoy
    draw plays no part: without a secret the decoy is never produced, so
    the draw 0 (always admissible) stands for any.
  */
  function DetectTextType(text: Units): (r: Option<TextType>)
    ensures r.None? <==> IsBlank(text)
  {
    if IsBlank(text) then None
    else
      var trimmed := Trim(text);
      match DecryptText(trimmed, None, 0)
      case RequiresSecretCode => Some(SecretEncrypted)
      case Text(t) => if LooksDecrypted(t) then Some(Encrypted) else Some(Plain)
      case _ => Some(Plain)
  }

  /** Every draw of 0 is admissible, whatever the target length. */
  lemma ZeroDrawAdmissible(targetLength: nat)
    ensures DecoyDrawAdmissible(targetLength, 0)
  {
  }

  /**
    The classification in terms of what `decryptText` returns on the
    trimmed text: each of the three answers exactly when its condition on
    that outcome holds.
  */
  lemma DetectTextTypeSpec(text: Units)
    requires !IsBlank(text)
    ensures DetectTextType(text) == Some(SecretEncrypted) <==> DecryptText(Trim(text), None, 0) == RequiresSecretCode
    ensures DetectTextType(text) == Some(Encrypted) <==>
              DecryptText(Trim(text), None, 0).Text? && LooksDecrypted(DecryptText(Trim(text), None, 0).text)
    ensures DetectTextType(text) == Some(Plain) <==>
              DecryptText(Trim(text), None, 0).Thrown?
              || (DecryptText(Trim(text), None, 0).Text? && !LooksDecrypted(DecryptText(Trim(text), None, 0).text))
  {
    TrimSpec(text);
    ZeroDrawAdmissible(|Trim(text)|);
  }

  /** A token `encryptText` produced has nothing to trim. */
  lemma TokenIsTrimmed(text: Units, secret: Option<Units>, d: EncryptionDraws)
    requires Admissible(d) && !IsBlank(text)
    ensures Trim(EncryptText(text, secret, d).value) == EncryptText(text, secret, d).value
    ensures !IsBlank(EncryptText(text, secret, d).value)
  {
    TrimAlnumEnds(EncryptText(text, secret, d).value);
  }

  /** A string that starts and ends with a character of `[0-9A-Z]` is not blank and has nothing to trim. */
  lemma TrimAlnumEnds(s: Units)
    requires |s| > 0 && IsUpperAlnum(s[0]) && IsUpperAlnum(s[|s| - 1])
    ensures Trim(s) == s && !IsBlank(s)
  {
    assert !IsSpace(s[0]) && !IsSpace(s[|s| - 1]);
    TrimSpec(s);
  }

  /**
    The detector recognises the codec's own tokens: a token without a
    secret is `Encrypted` exactly when its text passes the readability
    test, and `Plain` otherwise.
  */
  lemma DetectsPlainToken(text: Units, secret: Option<Units>, d: EncryptionDraws)
    requires Admissible(d) && ValidUnits(text) && !IsBlank(text)
    requires !SecretInUse(secret)
    ensures DetectTextType(EncryptText(text, secret, d).value) == Some(if LooksDecrypted(text) then Encrypted else Plain)
  {
    var token := EncryptText(text, secret, d).value;
    TokenIsTrimmed(text, secret, d);
    ZeroDrawAdmissible(|token|);
    PlainRoundTrip(text, secret, d, None, 0);
  }

  /** A token locked with a secret code is `SecretEncrypted`, whatever the secret. */
  lemma DetectsSecretToken(text: Units, secret: Option<Units>, d: EncryptionDraws)
    requires Admissible(d) && !IsBlank(text)
    requires SecretInUse(secret)
    ensures DetectTextType(EncryptText(text, secret, d).value) == Some(SecretEncrypted)
  {
    var token := EncryptText(text, secret, d).value;
    TokenIsTrimmed(text, secret, d);
    ZeroDrawAdmissible(|token|);
    SecretTokenAsksForSecret(text, secret, d, None, 0);
  }
}
