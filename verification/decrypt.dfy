/**
  `decryptText`: token (and an optional secret code) to text, or to one of
  the structured outcomes. Parsing locates fields by counting characters of
  `[0-9A-Z]`, so junk symbols inside the header would shift it.
*/
module Decrypt {
  import opened Wrappers
  import opened JsString
  import opened Base36
  import opened Cipher
  import opened Obfuscation
  import opened TokenFormat

  /** Why parsing threw. */
  datatype ParseError =
    | InvalidFormat          // no prefix length, no separator, or a short header field
    | InvalidBase36          // `decodeNumber` read NaN
    | SecretChecksumMissing  // fewer than five header digits for the secret checksum
    | InvalidKeyChecksum     // the embedded key does not sum to the stored checksum

  /** What a call of `decryptText` produces. */
  datatype Decrypted =
    | Null                           // blank token
    | Text(text: Units)              // the decrypted string
    | RequiresSecretCode             // `{ requiresSecretCode: true }`
    | WrongSecretCode(decoyLength: nat)  // `{ wrongSecretCode: true, randomOutput }`, decoy of that length
    | Thrown(cause: ParseError)      // an exception escapes the call
    | LegacyFallback                 // handed to the base64 decoder of the old format

  /** `decodeNumber(str)`: `parseInt(str, 36)`, throwing on NaN. */
  function DecodeNumber(s: Units): Result<int, ParseError> {
    match ParseInt36(s)
    case None => Failure(InvalidBase36)
    case Some(n) => Success(n)
  }

  /** A non-empty numeral decodes to its value; a string without a leading digit throws. */
  lemma DecodeNumberSpec(s: Units)
    ensures |s| > 0 && AllAlnum(s) ==> DecodeNumber(s) == Success(Value(s))
    ensures |s| > 0 && !IsSpace(s[0]) && !IsAlnum(s[0]) && s[0] != '-' as nat && s[0] != '+' as nat
            ==> DecodeNumber(s) == Failure(InvalidBase36)
  {
    if |s| > 0 && AllAlnum(s) {
      ParseInt36OfNumeral(s);
    }
    if |s| > 0 && !IsSpace(s[0]) {
      assert TrimStart(s) == s;
    }
  }

  /** Length of the leading run of `[0-9A-Z]` (the prefix-length digits). */
  function UpperAlnumRun(s: Units): (n: nat)
    ensures n <= |s|
    decreases |s|
  {
    if |s| > 0 && IsUpperAlnum(s[0]) then 1 + UpperAlnumRun(s[1..]) else 0
  }

  /** The run is all `[0-9A-Z]` and stops at the first other character. */
  lemma {:induction false} UpperAlnumRunSpec(s: Units)
    ensures AllUpperAlnum(s[..UpperAlnumRun(s)])
    ensures UpperAlnumRun(s) < |s| ==> !IsUpperAlnum(s[UpperAlnumRun(s)])
    decreases |s|
  {
    if |s| > 0 && IsUpperAlnum(s[0]) {
      var m := UpperAlnumRun(s[1..]);
      UpperAlnumRunSpec(s[1..]);
      assert s[..m + 1] == [s[0]] + s[1..][..m];
    }
  }

  /** The backward scan for the last separator: its index, or None when there is none. */
  function LastSeparator(s: Units): (r: Option<nat>)
    ensures r.Some? ==> r.value < |s|
  {
    LastSeparatorBelow(s, |s|)
  }

  function LastSeparatorBelow(s: Units, n: nat): (r: Option<nat>)
    requires n <= |s|
    ensures r.Some? ==> r.value < n
  {
    if n == 0 then None
    else if IsSeparator(s[n - 1]) then Some(n - 1)
    else LastSeparatorBelow(s, n - 1)
  }

  /** The scan finds a separator with none after it, and finds none only when there is none. */
  lemma LastSeparatorSpec(s: Units)
    ensures LastSeparator(s).Some? ==> IsSeparator(s[LastSeparator(s).value])
    ensures LastSeparator(s).Some? ==> forall k :: LastSeparator(s).value < k < |s| ==> !IsSeparator(s[k])
    ensures LastSeparator(s).None? ==> forall k :: 0 <= k < |s| ==> !IsSeparator(s[k])
  {
    LastSeparatorBelowSpec(s, |s|);
  }

  lemma {:induction false} LastSeparatorBelowSpec(s: Units, n: nat)
    requires n <= |s|
    ensures LastSeparatorBelow(s, n).Some? ==> IsSeparator(s[LastSeparatorBelow(s, n).value])
    ensures LastSeparatorBelow(s, n).Some? ==> forall k :: LastSeparatorBelow(s, n).value < k < n ==> !IsSeparator(s[k])
    ensures LastSeparatorBelow(s, n).None? ==> forall k :: 0 <= k < n ==> !IsSeparator(s[k])
    decreases n
  {
    if n > 0 && !IsSeparator(s[n - 1]) {
      LastSeparatorBelowSpec(s, n - 1);
    }
  }

  /**
    Steps 1 to 3 of `decryptText`: read the prefix length up to the first
    non-`[0-9A-Z]` character and skip one character after it, find the last
    separator and read the suffix length after it, and cut both paddings
    off what lies between (with `substring`'s clamping and swapping).
  */
  function Unwrap(token: Units): Result<Units, ParseError> {
    var i := UpperAlnumRun(token);
    if i == 0 then Failure(InvalidFormat)
    else
      match DecodeNumber(token[..i])
      case Failure(e) => Failure(e)
      case Success(prefixLen) =>
        match LastSeparator(token)
        case None => Failure(InvalidFormat)
        case Some(j) =>
          match DecodeNumber(token[j + 1..])
          case Failure(e) => Failure(e)
          case Success(suffixLen) => Success(CutPadding(token, i, j, prefixLen, suffixLen))
  }

  /**
    Step 3 of `decryptText`: the text between the character after the prefix
    length and the last separator, without its `prefixLen` first and
    `suffixLen` last characters.
  */
  function CutPadding(token: Units, i: nat, j: nat, prefixLen: int, suffixLen: int): (r: Units)
    ensures i + 1 <= j <= |token| && 0 <= prefixLen && 0 <= suffixLen && prefixLen + suffixLen <= j - i - 1 ==>
      r == token[i + 1 + prefixLen..j - suffixLen]
  {
    var mainData := Substring(token, i + 1, j);
    assert i + 1 <= j <= |token| && 0 <= prefixLen && 0 <= suffixLen && prefixLen + suffixLen <= j - i - 1 ==>
      mainData[prefixLen..|mainData| - suffixLen] == token[i + 1 + prefixLen..j - suffixLen] by {
      if i + 1 <= j <= |token| && 0 <= prefixLen && 0 <= suffixLen && prefixLen + suffixLen <= j - i - 1 {
        SliceOfSlice(token, i + 1, j, prefixLen, j - i - 1 - suffixLen);
      }
    }
    Substring(mainData, prefixLen, |mainData| - suffixLen)
  }

  lemma SliceOfSlice(s: Units, a: nat, b: nat, c: nat, d: nat)
    requires a <= b <= |s| && c <= d <= b - a
    ensures s[a..b][c..d] == s[a + c..a + d]
  {
    assert forall k :: 0 <= k < d - c ==> s[a..b][c..d][k] == s[a + c + k];
  }

  /** The first `count` characters of `[0-9A-Z]` at index `k` or later. */
  function CollectUpperAlnum(s: Units, k: nat, count: nat): (r: Units)
    ensures |r| <= count
    decreases |s| - k
  {
    if k >= |s| || count == 0 then []
    else if IsUpperAlnum(s[k]) then [s[k]] + CollectUpperAlnum(s, k + 1, count - 1)
    else CollectUpperAlnum(s, k + 1, count)
  }

  /** What the scan collects is `[0-9A-Z]`. */
  lemma {:induction false} CollectUpperAlnumSpec(s: Units, k: nat, count: nat)
    ensures AllUpperAlnum(CollectUpperAlnum(s, k, count))
    decreases |s| - k
  {
    if k < |s| && count > 0 {
      if IsUpperAlnum(s[k]) {
        CollectUpperAlnumSpec(s, k + 1, count - 1);
      } else {
        CollectUpperAlnumSpec(s, k + 1, count);
      }
    }
  }

  /**
    The index just after the `remaining`-th character of `[0-9A-Z]` at or
    after `k`; 0 when there are not that many.
  */
  function DataStart(s: Units, k: nat, remaining: nat): nat
    requires remaining >= 1
    decreases |s| - k
  {
    if k >= |s| then 0
    else if IsUpperAlnum(s[k]) then (if remaining == 1 then k + 1 else DataStart(s, k + 1, remaining - 1))
    else DataStart(s, k + 1, remaining)
  }

  /** `codeArrayToString`'s filter: only values up to 0x10FFFF survive. */
  function KeepCodePoints(codes: seq<nat>): (r: seq<nat>)
    ensures |r| <= |codes|
    decreases |codes|
  {
    if |codes| == 0 then []
    else if codes[0] <= MAX_CODE_POINT then [codes[0]] + KeepCodePoints(codes[1..])
    else KeepCodePoints(codes[1..])
  }

  /** The filter keeps code points only, and keeps all of them. */
  lemma {:induction false} KeepCodePointsSpec(codes: seq<nat>)
    ensures ValidCodePoints(KeepCodePoints(codes))
    ensures ValidCodePoints(codes) ==> KeepCodePoints(codes) == codes
    decreases |codes|
  {
    if |codes| > 0 {
      KeepCodePointsSpec(codes[1..]);
    }
  }

  /**
    `codeArrayToString(arr)`: each value up to 0x10FFFF becomes its UTF-16
    units, every other one is dropped.
  */
  function CodeArrayToString(codes: seq<nat>): Units
    decreases |codes|
  {
    if |codes| == 0 then []
    else if codes[0] <= MAX_CODE_POINT then Utf16(codes[0]) + CodeArrayToString(codes[1..])
    else CodeArrayToString(codes[1..])
  }

  /** The one pass above is the filter followed by `String.fromCodePoint`. */
  lemma {:induction false} CodeArrayToStringFilters(codes: seq<nat>)
    ensures ValidCodePoints(KeepCodePoints(codes))
    ensures CodeArrayToString(codes) == FromCodePoints(KeepCodePoints(codes))
    decreases |codes|
  {
    KeepCodePointsSpec(codes);
    if |codes| > 0 {
      CodeArrayToStringFilters(codes[1..]);
      if codes[0] <= MAX_CODE_POINT {
        var k := KeepCodePoints(codes);
        assert k[1..] == KeepCodePoints(codes[1..]);
      }
    }
  }

  /** The flag character: `withoutPadding[0] === 'S'`. */
  predicate HasSecretFlag(body: Units) {
    |body| > 0 && body[0] == 'S' as nat
  }

  /** `secretCode` is truthy: given, and not the empty string. */
  predicate SecretSupplied(secret: Option<Units>) {
    secret.Some? && |secret.value| > 0
  }

  /**
    Steps 4 to 13 on the body: the flag, the secret check, the key fields,
    the key checksum, the ciphertext digits and the two xor layers.
  */
  function DecodeBody(body: Units, secret: Option<Units>, decoyLength: nat): (r: Result<Decrypted, ParseError>)
    ensures r.Success? ==> r.value.Text? || r.value.RequiresSecretCode? || r.value.WrongSecretCode?
    ensures r.Success? && r.value.RequiresSecretCode? <==> HasSecretFlag(body) && !SecretSupplied(secret)
    ensures r.Success? && r.value.WrongSecretCode? ==> HasSecretFlag(body) && SecretSupplied(secret) && r.value.decoyLength == decoyLength
  {
    var hasSecretCode := HasSecretFlag(body);
    if hasSecretCode && !SecretSupplied(secret) then Success(RequiresSecretCode)
    else if hasSecretCode then
      var field := CollectUpperAlnum(body, 1, 5);
      if |field| < 5 then Failure(SecretChecksumMissing)
      else
        var stored :- DecodeNumber(field);
        var trimmed := Trim(secret.value);
        if stored != SecretChecksum(trimmed) then Success(WrongSecretCode(decoyLength))
        else DecodeKeyed(body, 6, 11, Some(trimmed))
    else DecodeKeyed(body, 1, 6, None)
  }

  /**
    From the key-length field on: `start` is the raw index where the scan
    for it begins and `headerAlnum` the count of header characters before
    the digits.
  */
  function DecodeKeyed(body: Units, start: nat, headerAlnum: nat, secretKey: Option<Units>): (r: Result<Decrypted, ParseError>)
    requires headerAlnum >= 1
    ensures r.Success? ==> r.value.Text?
  {
    var lenField := CollectUpperAlnum(body, start, 2);
    var sumField := CollectUpperAlnum(body, start + 2, 3);
    if |lenField| < 2 then Failure(InvalidFormat)
    else match DecodeNumber(lenField)
      case Failure(e) => Failure(e)
      case Success(keyLength) =>
        if |sumField| < 3 then Failure(InvalidFormat)
        else match DecodeNumber(sumField)
          case Failure(e) => Failure(e)
          case Success(expected) => CheckKey(body, headerAlnum, keyLength, expected, secretKey)
  }

  /**
    Steps 7 and 8 once both fields are read: the key is the last `keyLength`
    characters, its checksum must match, and the digits run from the end of
    the header to the key.
  */
  function CheckKey(body: Units, headerAlnum: nat, keyLength: int, expected: int, secretKey: Option<Units>): (r: Result<Decrypted, ParseError>)
    requires headerAlnum >= 1
    ensures r.Success? ==> r.value.Text?
  {
    var key := Substring(body, |body| - keyLength, |body|);
    if CharCodeSum(key) != expected then Failure(InvalidKeyChecksum)
    else
      var dataPart := Substring(body, DataStart(body, 0, headerAlnum), |body| - keyLength);
      Success(Text(DecryptDigits(dataPart, key, secretKey)))
  }

  /**
    Steps 9 to 13: strip the junk, read the 5-digit chunks, undo the key
    layer, then the secret layer when there is one, and rebuild the string.
  */
  function DecryptDigits(dataPart: Units, key: Units, secretKey: Option<Units>): Units {
    var values := ParseChunks(RemoveObfuscation(dataPart));
    var layered := XorDecrypt(values, key);
    var codes := if secretKey.Some? then XorDecrypt(layered, secretKey.value) else layered;
    CodeArrayToString(codes)
  }

  /** The width of the decoy-length draw: `maxLength - minLength + 1`. */
  function DecoySpan(targetLength: nat): int {
    var minLength := if targetLength - 20 > 50 then targetLength - 20 else 50;
    targetLength + 20 - minLength + 1
  }

  /**
    The values `floor(random * span)` can take: 0 .. span - 1 for a positive
    span, span .. 0 otherwise.
  */
  predicate DecoyDrawAdmissible(targetLength: nat, draw: int) {
    var span := DecoySpan(targetLength);
    if span > 0 then 0 <= draw < span else span <= draw <= 0
  }

  /**
    The length of `generateRandomEncryptedOutput(targetLength)`:
    `max(50, target - 20)` plus the draw. For targets of 30 or more it lies
    in [max(50, target - 20), target + 20]; below 30 the range is empty
    and the draw lands in [target + 21, 50].
  */
  function DecoyLength(targetLength: nat, draw: int): (n: nat)
    requires DecoyDrawAdmissible(targetLength, draw)
    ensures targetLength >= 30 ==> (if targetLength - 20 > 50 then targetLength - 20 else 50) <= n <= targetLength + 20
    ensures targetLength < 30 ==> targetLength + 21 <= n <= 50
  {
    var minLength := if targetLength - 20 > 50 then targetLength - 20 else 50;
    minLength + draw
  }

  /** The body, then everything after it. */
  function Parse(token: Units, secret: Option<Units>, decoyLength: nat): (r: Result<Decrypted, ParseError>)
    ensures r.Success? ==> r.value.Text? || r.value.RequiresSecretCode? || r.value.WrongSecretCode?
    ensures r.Success? && r.value.WrongSecretCode? ==> SecretSupplied(secret) && r.value.decoyLength == decoyLength
  {
    var body :- Unwrap(token);
    DecodeBody(body, secret, decoyLength)
  }

  /**
    `decryptText(encryptedCode, secretCode)` as written. Its catch block
    reads `hasSecretCode`, a `const` of the try block that is out of scope
    there, so the handler itself throws a ReferenceError: every parse
    failure escapes as `Thrown`, and neither the decoy branch of the handler
    nor the legacy fallback is ever reached.
  */
  function DecryptText(token: Units, secret: Option<Units>, decoyDraw: int): (r: Decrypted)
    requires DecoyDrawAdmissible(|token|, decoyDraw)
    ensures r.Null? <==> IsBlank(token)
    ensures !r.LegacyFallback?
    ensures r.WrongSecretCode? ==> SecretSupplied(secret) && r.decoyLength == DecoyLength(|token|, decoyDraw)
    ensures !SecretSupplied(secret) ==> !r.WrongSecretCode?
  {
    if IsBlank(token) then Null
    else match Parse(token, secret, DecoyLength(|token|, decoyDraw))
      case Success(d) => d
      case Failure(e) => Thrown(e)
  }

  /**
    `hasSecretCode` as a catch block can see it once the declaration is
    hoisted in front of the `try` (`let hasSecretCode = false`, assigned at
    step 4): true when the envelope was cut and the body's flag is `S`.
  */
  predicate FlagSeenBeforeFailure(token: Units) {
    Unwrap(token).Success? && HasSecretFlag(Unwrap(token).value)
  }

  /**
    `decryptText` with that hoisted flag, as its catch block is evidently
    meant to work: a parse failure after an `S` flag, with a secret given,
    yields the decoy; any other failure goes to the legacy decoder. Nothing
    escapes, and every outcome that does not come from the catch block is
    the one `DecryptText` produces.
  */
  function DecryptTextRecovering(token: Units, secret: Option<Units>, decoyDraw: int): (r: Decrypted)
    requires DecoyDrawAdmissible(|token|, decoyDraw)
    ensures !r.Thrown?
    ensures r.Null? <==> IsBlank(token)
    ensures !DecryptText(token, secret, decoyDraw).Thrown? ==> r == DecryptText(token, secret, decoyDraw)
    ensures DecryptText(token, secret, decoyDraw).Thrown? ==>
              r == (if FlagSeenBeforeFailure(token) && SecretSupplied(secret)
                    then WrongSecretCode(DecoyLength(|token|, decoyDraw)) else LegacyFallback)
  {
    if IsBlank(token) then Null
    else match Parse(token, secret, DecoyLength(|token|, decoyDraw))
      case Success(d) => d
      case Failure(_) =>
        if FlagSeenBeforeFailure(token) && SecretSupplied(secret) then WrongSecretCode(DecoyLength(|token|, decoyDraw))
        else LegacyFallback
  }

  /**
    The catch block as written: on "X" (a prefix digit and no separator)
    the parse fails and the call throws, where the handler was meant to
    hand the token to the legacy decoder.
  */
  lemma CatchBlockRethrows()
    ensures DecoyDrawAdmissible(1, 0)
    ensures DecryptText(['X' as nat], None, 0) == Thrown(InvalidFormat)
    ensures DecryptTextRecovering(['X' as nat], None, 0) == LegacyFallback
  {
    var t := ['X' as nat];
    assert !IsSpace(t[0]);
    assert UpperAlnumRun(t[1..]) == 0;
    assert UpperAlnumRun(t) == 1;
    assert t[..1] == t;
    ParseInt36OfNumeral(t);
    assert LastSeparatorBelow(t, 0) == None;
    assert LastSeparator(t) == None;
  }
}
