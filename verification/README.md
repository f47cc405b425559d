# Secret-chatting message codec, modelled in Dafny

The web page turns a chat message into a printable token and back again.
`encryptText` takes the text (and an optional secret code) and does the following:

1. It reads the text as code points.
2. When a secret is in use, it xors the code points with the trimmed secret.
3. It xors the result with a random key of 12 to 21 characters.
4. It writes each value as five upper-case radix-36 digits.
5. It scatters junk symbols between the 5-digit chunks.
6. It prepends a header: the flag `S`/`N`, the secret checksum when a secret is in use, the key length and the key checksum. It appends the key itself.
7. It wraps the result in two random paddings, two separators and the two padding lengths.

`decryptText` undoes these steps by counting characters of `[0-9A-Z]`. Its outcomes are:

- the text;
- "a secret code is required";
- "wrong secret code", paired with a random decoy string;
- an exception.

`detectTextType` runs the decoder on a pasted string to decide whether the string is a token.

The build script hides a few string literals of the page with `obfuscateString`. Its `deobfuscate` function, and the copy `_d` inlined into the page, read them back.

## How the model is built

- **Strings.** A JavaScript string is its sequence of UTF-16 code units: `Units = seq<nat>`, in module `JsString`. `trim`, `substring`, `Array.from` over code points and `String.fromCodePoint` get their ECMAScript meaning.
- **Numbers.** `toString(36)`, `padStart` and `parseInt(s, 36)` live in `Base36`.
- **Xor.** `^` and `>>> 0` live in `Bitwise`. Xor is defined on unbounded naturals, and `JsXor` takes both operands modulo 2^32 as the JavaScript operator does.
- **Random draws.** Every `Math.random` draw is a parameter:
  - `EncryptionDraws` holds the key, the paddings, the obfuscation rate, the junk symbols and the separators.
  - `Admissible` says which draws the source can make.
  - `decryptText` takes the decoy-length draw as an integer.
- **Exceptions.** An exception that escapes a call is a value, `Decrypted.Thrown(cause)`. Its `cause` is the parse error the catch block logs. As written, the exception that actually escapes `decryptText` is the handler's own ReferenceError (see Findings).
- **Modules.** There is one module per concern:
  - `Wrappers`, `JsString`, `Base36` and `Bitwise` are the built-ins.
  - `Cipher` is the xor layer and `Obfuscation` the junk layer.
  - `TokenFormat` holds the fields and checksums.
  - `Encrypt`, `Decrypt`, `Decoy` and `Detector` are the four entry points.
  - `CodecProperties` and `RoundTrip` hold the proofs about the codec as a whole.
  - `BuildObfuscator` is the build script's string protection.

### Where the source's comments and its code differ (the model follows the code)

- **Key length.** The comment says the key has 12 to 22 characters. `Math.floor(Math.random() * 10) + 12` gives 12 to 21 (script.js:1344).
- **Decryption failures.** The described behaviour is that a failure with a secret yields the decoy and any other failure falls back to the legacy decoder. The catch block cannot do either (script.js:1608-1619):
  - It reads `hasSecretCode`, a `const` declared inside the `try` block (script.js:1467).
  - No other binding of that name exists in script.js.
  - So the handler itself throws a ReferenceError, and every parse failure escapes the call.
  - `Decrypt.DecryptText` models this. `Decrypt.DecryptTextRecovering` is the intended handler (see Findings).
- **Secret checksum width.** The comments say the secret's checksum takes five digits (script.js:1377 and 1384). `padStart(5, '0')` only pads, so a checksum of 36^5 or more is written with six digits, while the decoder reads five (script.js:1482-1505).
  - Such a secret gets the wrong-secret decoy even when it is the right one, so the message can never be decrypted (`RoundTrip.LongSecretLocksOut`, `RoundTrip.LongSecretNeverDecrypts`).
  - The checksum reaches 36^5 for a secret of about 23 emoji, or about 80 CJK characters.
  - Without a secret such a token still asks for one, since that answer rests on the `S` flag alone.
- **Detecting secret tokens.** `detectTextType` recognises every token locked with a secret code, whatever the secret's length (`Detector.DetectsSecretToken`).

## Model

| member | source | states |
|---|---|---|
| JsString.TrimSpec | script.js:1338 | `trim` removes exactly the leading and trailing white space: the result is empty iff the string is blank, its ends are not white space, and a string with non-space ends is unchanged |
| JsString.TrimStartSpec | script.js:1352 | the start half of `trim` drops a prefix made only of white space and stops at the first other character |
| JsString.TrimEndSpec | script.js:1352 | the end half of `trim` drops a suffix made only of white space and stops at the last other character |
| JsString.Substring | script.js:1460-1463 | `substring` clamps both bounds into the string and swaps them when reversed: in range it is the slice, reversed it is the swapped slice, over-wide it is the whole string |
| JsString.Utf16 | script.js:1159 | `String.fromCodePoint` of one code point is one code unit below 0x10000, and otherwise a high/low surrogate pair that recombines to that code point |
| JsString.CodePointsValid | script.js:1138-1140 | splitting a string of code units with `Array.from` and `codePointAt` yields valid Unicode code points only |
| JsString.CodePointsRoundTrip | script.js:1138-1140 | `String.fromCodePoint(...stringToCodeArray(s))` rebuilds every string s exactly, lone surrogates included |
| JsString.FromCodePointsValid | script.js:1159 | joining valid code points yields 16-bit code units |
| JsString.CodePointsWithoutSurrogates | script.js:1138-1140 | on a string without surrogates every code unit is its own code point |
| Base36.Radix36Value | script.js:1231-1233 | `toString(36)` writes the numeral of n: its radix-36 value is n, whichever case its letters take |
| Base36.Radix36Digits | script.js:1231-1233 | `toString(36)` writes only radix-36 digits, and only `[0-9A-Z]` after `toUpperCase` |
| Base36.Radix36Width | script.js:1366-1370 | the numeral of n fits w characters iff n < 36^w, which is when `padStart(w, '0')` gives exactly w characters |
| Base36.PadStart | script.js:1366-1370 | `padStart` leaves a string already at least that wide alone; otherwise the result has the width and ends with the original string |
| Base36.PaddedNumeral | script.js:1366-1370 | a number below 36^w written with `toString(36).toUpperCase().padStart(w, '0')` is w upper-case digits whose value is the number |
| Base36.ParseInt36OfNumeral | script.js:1236-1242 | `parseInt(s, 36)` on a non-empty numeral reads its exact value |
| Base36.AlnumRunSpec | script.js:1236-1242 | the digits `parseInt` reads are the longest leading run of `[0-9A-Za-z]` |
| Base36.DigitChar | script.js:1231-1233 | the digit written for a value below 36 reads back as that value, and is upper-case after `toUpperCase` and lower-case before |
| Bitwise.XorCancels | script.js:1213-1216 | xor-ing twice with the same value gives the original value back |
| Bitwise.XorAssociates | script.js:1188-1193 | xor is associative, so the three layers of a position can be regrouped |
| Bitwise.XorCommutes | script.js:1188-1193 | xor is commutative |
| Bitwise.XorBound | script.js:1188-1193 | the xor of two numbers below 2^k stays below 2^k |
| Bitwise.JsXorIsXor | script.js:1188 | on operands below 2^32, `(a ^ b) >>> 0` is plain xor and stays below 2^32 |
| Cipher.PositionMask | script.js:1192 | the position mask `((i * 7) % 0x10000) >>> 0` is below 2^16 |
| Cipher.DecryptAtInverts | script.js:1202-1228 | at every position the decryption step undoes the encryption step, for values below 2^32 |
| Cipher.DecryptInvertsEncrypt | script.js:1176-1228 | `xorDecrypt(xorEncrypt(data, key), key) == data` for data below 2^32 and any key of code units, the empty key included |
| Cipher.EncryptBelow | script.js:1176-1199 | encrypting code points with a key of code units keeps every value below 2^21 |
| Cipher.OneCodePointKeyCancels | script.js:1188-1193 | with a one-code-point key the two key terms cancel and only the position mask is left |
| Cipher.XorEncrypt | script.js:1176-1199 | `xorEncrypt` returns one value per input value |
| Obfuscation.RemoveObfuscationKeeps | script.js:1331-1334 | `removeObfuscation` keeps only characters of `[0-9A-Za-z]` and never lengthens its input |
| Obfuscation.RemoveKeepsAlnum | script.js:1331-1334 | `removeObfuscation` leaves a string of `[0-9A-Za-z]` unchanged |
| Obfuscation.RemoveConcat | script.js:1331-1334 | `removeObfuscation` distributes over concatenation |
| Obfuscation.RemoveAfterAdd | script.js:1306-1334 | `removeObfuscation(addObfuscation(s)) == s` for every alphanumeric s, every rate and every choice of junk symbols |
| Obfuscation.AddObfuscationLayout | script.js:1306-1328 | on digits made of whole 5-character chunks, `addObfuscation` adds one symbol per chunk index that is a positive multiple of the rate; chunk k sits at 5k + k/rate, with its junk symbol right in front of it |
| Obfuscation.AddFromLength | script.js:1306-1328 | the output is as long as the input plus the number of junk symbols inserted |
| Obfuscation.ObfuscationCharsAreNotAlnum | script.js:1307 | none of the twenty junk symbols is a radix-36 digit |
| TokenFormat.SeparatorsAreNotAlnum | script.js:1405 | none of the eight envelope separators is a radix-36 digit |
| TokenFormat.ParseChunksSerialize | script.js:1575-1593 | the decoder's 5-character chunk loop reads back every value the encoder's fixed-width serialisation wrote, provided each value is below 36^5 |
| TokenFormat.SerializeShape | script.js:1366-1370 | the serialisation is five upper-case digits per value |
| TokenFormat.ChunkValueOfField | script.js:1580-1585 | one 5-digit field passes the `isNaN`/`isFinite`/`>= 0` filter and contributes exactly its value |
| TokenFormat.CodePointRangeFitsField | script.js:1364-1366 | 2^21, the bound on every encrypted value, is below 36^5, so the 5-character field always suffices |
| TokenFormat.CharCodeSumDetectsOneChange | script.js:1546-1550 | the key checksum catches any change of a single code unit of an embedded key of the same length |
| TokenFormat.SecretChecksumPositive | script.js:1354-1356 | a non-empty trimmed secret has a positive checksum, so a token locked with it always carries the secret field |
| TokenFormat.CharCodeSumBound | script.js:1379 | a key of n units, each below b, has a checksum of at most n * b |
| Encrypt.EncryptText | script.js:1337-1409 | `encryptText` returns null exactly for blank text; otherwise its token starts and ends with a digit and has a separator second and second-last |
| Encrypt.EnvelopeEnds | script.js:1393-1409 | the envelope is the body plus the two paddings and four frame characters, opening with the prefix length and the first separator and closing with the second separator and the suffix length |
| Decrypt.DecodeNumberSpec | script.js:1236-1242 | `decodeNumber` returns the value of a non-empty numeral and throws when no digit can start |
| Decrypt.UpperAlnumRunSpec | script.js:1428-1431 | the prefix-length loop reads the longest leading run of `[0-9A-Z]` and stops at the first other character |
| Decrypt.LastSeparatorSpec | script.js:1443-1450 | the backward scan finds the last separator: no separator follows it, and when none is found there is none at all |
| Decrypt.LastSeparatorBelowSpec | script.js:1443-1450 | the backward scan over the first n characters finds the last separator among them, or reports that there is none |
| Decrypt.CutPadding | script.js:1459-1463 | when both padding lengths fit, the data without padding is exactly the slice between them |
| Decrypt.CollectUpperAlnumSpec | script.js:1516-1521 | the field scans collect only characters of `[0-9A-Z]`, and at most as many as asked for |
| Decrypt.KeepCodePointsSpec | script.js:1145-1151 | `codeArrayToString`'s filter keeps only valid code points, and keeps all of them when every value is one |
| Decrypt.CodeArrayToStringFilters | script.js:1143-1173 | `codeArrayToString` is the range filter followed by `String.fromCodePoint` |
| Decrypt.DecodeBody | script.js:1465-1510 | the body asks for a secret exactly when it is flagged `S` and no secret is given; a wrong-secret answer needs the `S` flag and a given secret and carries the decoy length |
| Decrypt.DecoyLength | script.js:1629-1631 | the decoy is between max(50, target - 20) and target + 20 long; for targets below 30 the range is inverted and the draw lands between target + 21 and 50 |
| Decrypt.Parse | script.js:1423-1607 | a parse that succeeds yields the text, the secret request or the decoy, and the decoy only when a secret was given |
| Decrypt.DecryptText | script.js:1417-1619 | `decryptText` returns null exactly for a blank token, never reaches the legacy fallback, and yields the decoy only when a secret is given, with the length the draw picks |
| Decrypt.DecryptTextRecovering | script.js:1608-1619 | the catch block as intended: nothing escapes, every result the try block returns is kept, and a failure yields the decoy after an `S` flag with a secret, the legacy decoder otherwise |
| Decrypt.CatchBlockRethrows | script.js:1608-1619 | on the token "X" the parse fails with InvalidFormat and the call as written throws (a ReferenceError from the handler), where the intended handler would pass the token to the legacy decoder |
| CodecProperties.UnwrapEnvelope | script.js:1423-1463 | decoding steps 1 to 3 recover from any envelope `encryptText` can build exactly the body that was wrapped |
| CodecProperties.FrameScans | script.js:1423-1463 | on an envelope the prefix run is one digit, the last separator is second-last, and the two lengths and the cut read as written |
| CodecProperties.FieldReads | script.js:1381-1387 | a number written into a padded field reads back as itself through the `[0-9A-Z]` scan and `decodeNumber` |
| CodecProperties.KeyFieldsFit | script.js:1128-1135 | a key drawn from the 88-character alphabet with 12 to 21 characters fits the 2-digit length field and the 3-digit checksum field, and is made of code units that are their own code points |
| CodecProperties.DecodeKeyedOn | script.js:1512-1607 | after a header of `[0-9A-Z]`, a body of key fields, digits and a found key throws InvalidKeyChecksum when the found key's checksum differs, and otherwise decrypts the digits under the found key |
| CodecProperties.DecodeKeyedOnFields | script.js:1512-1550 | the same, for any two fields that read as the found key's length and a checksum |
| CodecProperties.HeaderScans | script.js:1512-1570 | on a body whose header is all `[0-9A-Z]`, the scans read the two key fields, the data start lies right after the header, and the key and data cuts are the found key and the digits |
| CodecProperties.CollectInHeader | script.js:1516-1521 | a scan that starts inside an all-`[0-9A-Z]` header reads the header's own characters |
| CodecProperties.DataStartInHeader | script.js:1556-1567 | the data-start scan lands right after the header when the header is all `[0-9A-Z]` |
| CodecProperties.KeyFieldsRead | script.js:1381-1383 | the key length and key checksum fields of a fitting key are two and three upper-case digits that decode to the length and the checksum |
| RoundTrip.LayersRoundTrip | script.js:1357-1361 | the key layer comes off first and then the secret layer, giving back the text's code points; every encrypted value fits the 5-digit field |
| RoundTrip.DigitsRoundTrip | script.js:1366-1605 | serialising, obfuscating, stripping the junk, re-reading the chunks, undoing both xor layers and rejoining gives the text back |
| RoundTrip.PlainBodyDecodes | script.js:1465-1607 | an `N` body decodes to its digits under the key it carries, whatever secret is supplied |
| RoundTrip.SecretBodyDecodes | script.js:1465-1607 | an `S` body asks for a secret when none is given, yields the decoy when the given secret's checksum differs, and otherwise decrypts with the trimmed given secret |
| RoundTrip.DecodeBodySecret | script.js:1470-1510 | with the `S` flag and a readable checksum field: no secret means the request, a checksum mismatch means the decoy, and a match continues at the key fields |
| RoundTrip.DecryptEnvelope | script.js:1417-1463 | `decryptText` on an envelope is not blank and decodes exactly the wrapped body |
| RoundTrip.DecryptToken | script.js:1337-1463 | `decryptText` on a token `encryptText` produced decodes exactly the body `encryptText` assembled |
| RoundTrip.EncryptedParts | script.js:1344-1374 | the drawn key fits its fields, and its digits decrypt to the text under the key and the secret in use |
| RoundTrip.PlainRoundTrip | script.js:1337-1607 | without a secret in use, `decryptText(encryptText(text))` is the text, for every admissible draw and whatever secret the reader supplies |
| RoundTrip.SecretRoundTrip | script.js:1337-1607 | with a secret in use: no secret asks for one, a secret of another checksum yields the decoy, the same trimmed secret gives the text back, and any secret of the same checksum gets past the check |
| RoundTrip.KeyTamperRejected | script.js:1542-1550 | a token whose embedded key was altered in one code unit fails the parse with "Invalid key checksum", and the call throws (a ReferenceError from the handler) |
| RoundTrip.SecretKeyTamperRejected | script.js:1542-1550 | the same for a token locked with a secret code, read with a secret of the right checksum: the altered key still fails the parse with "Invalid key checksum", and the call throws (a ReferenceError from the handler) |
| RoundTrip.SecretTokenAsksForSecret | script.js:1470-1472 | a token locked with a secret code, read without one, asks for the secret, however long the secret is |
| RoundTrip.LongSecretLocksOut | script.js:1385-1505 | a checksum of six radix-36 digits is written whole but read as its first five, which denote a smaller number, so even the right secret gets the decoy |
| RoundTrip.LongSecretNeverDecrypts | script.js:1337-1505 | a message locked with a secret whose checksum is 36^5 or more decrypts, with that very secret, to the wrong-secret decoy |
| RoundTrip.ChecksumCollision | script.js:1497-1499 | the secret check compares checksums only: "AC" and "CB" share the checksum 201 |
| RoundTrip.SecretKey | script.js:1350-1351 | the secret layer is used exactly when a non-blank secret is given |
| Decoy.GenerateRandomEncryptedOutput | script.js:1623-1650 | the decoy has exactly the drawn length the wrong-secret outcome reports, and uses only the decoy alphabet |
| Detector.DetectTextType | script.js:776-812 | `detectTextType` returns null exactly for blank text |
| Detector.DetectTextTypeSpec | script.js:776-812 | each of the three answers holds exactly when its condition on `decryptText(trimmed)` holds: the secret request, readable text, or a thrown error or unreadable text |
| Detector.DetectsPlainToken | script.js:776-812 | a token without a secret is classified `encrypted` exactly when its text passes the readability test, and `plain` otherwise |
| Detector.DetectsSecretToken | script.js:776-812 | every token locked with a secret code is classified `secret-encrypted`, whatever the secret |
| Detector.TokenIsTrimmed | script.js:781 | a token `encryptText` produced has nothing for `trim` to remove |
| Detector.ReadableCount | script.js:797-798 | the readable characters are at most all of them |
| Detector.ReadableCountConcat | script.js:797-798 | the count of `/[a-zA-Z\s]/g` matches in a + b is the count in a plus the count in b |
| Detector.ReadableCountAll | script.js:797-798 | every character is counted exactly when every character is an ASCII letter or white space |
| BuildObfuscator.InlinedDIsDeobfuscate | build.js:35-37 | the inlined `_d` with its decimal key is the same function as `deobfuscate` |
| BuildObfuscator.ObfuscateRoundTrip | build.js:14-31 | `deobfuscate(obfuscateString(s)) == s` when s has no surrogate pair and every number written has two digits, except that the last may have one; `RoundTripIffAligned` adds the converse |
| BuildObfuscator.RoundTripIffAligned | build.js:14-31 | for a string without surrogate pairs whose numbers are all below 36^2, the round trip holds if and only if every number but the last has two digits |
| BuildObfuscator.OneDigitBreaksRoundTrip | build.js:14-31 | if the numbers before index j have two digits and number j, not the last, has one, the decoded string has a code at j and it differs from the code written there |
| BuildObfuscator.DeobfuscateAlignedPrefix | build.js:14-31 | a prefix written with two digits per number decodes to its own codes, and decoding then carries on at the next index with whatever follows |
| BuildObfuscator.DeobfuscatePairsThen | build.js:25-31 | on 2-digit runs followed by anything, the decoder decodes one run per chunk and then decodes the rest from the next index |
| BuildObfuscator.ObfuscateFromWritten | build.js:21 | the encoder's output is the numbers `toString(36)` writes, one per code, joined with no separator |
| BuildObfuscator.WrittenPairs | build.js:20-30 | a number between 36 and 36^2 is written as two digits, and those two digits decode back to the code |
| BuildObfuscator.StraddlingStep | build.js:26 | after a one-digit number, `/.{1,2}/g` takes that digit together with the first digit of the next number as one chunk |
| BuildObfuscator.StraddlingChunkDiffers | build.js:28-30 | a chunk made of a one-digit number v and a following digit e reads as 36v + e, and decodes to something other than the code v was written for |
| BuildObfuscator.TwoDigitNumeral | build.js:29 | `parseInt` of two base-36 digits is 36 times the first plus the second |
| BuildObfuscator.DeobfuscateObfuscateFrom | build.js:14-31 | decoding what was written from index i on gives back the codes, whenever the 2-character chunks line up with the numbers |
| BuildObfuscator.ChunkReadsBack | build.js:24-30 | one number written by the encoder reads back as its code when it is decoded at the same index |
| BuildObfuscator.ObfuscateFromLength | build.js:21 | the output is two characters per code when every number has two digits |
| BuildObfuscator.FirstUnitsWithoutPairs | build.js:16 | `Array.from(str).map(c => c.charCodeAt(0))` keeps every code unit of a string without surrogate pairs |
| BuildObfuscator.VikramObfuscated | build.js:14-22 | `obfuscateString("VIKRAM")` is "193s3e2lt3p"; the fifth number, 29, is written with the single digit "t" |
| BuildObfuscator.VikramDeobfuscated | build.js:25-31 | `deobfuscate("193s3e2lt3p")` reads the chunks "t3" and "p", decoding to the codes 86, 73, 75, 82, 0x44F, 57 |
| BuildObfuscator.VikramRoundTripFails | build.js:14-31 | the round trip of "VIKRAM" through the build script's encoder and decoder loses the string |
| BuildObfuscator.ObfuscateFromConcat | build.js:21 | the encoder works code by code: the output for a + b is the output for a followed by that for b at the indices after a |
| BuildObfuscator.ObfuscateFromAtMostTwo | build.js:21 | when every number is below 36^2, the output has at most two characters per code |
| BuildObfuscator.DeobfuscateAtMostHalf | build.js:25-31 | the decoder's 2-character chunks give at most one code per two characters, rounded up |
| BuildObfuscator.MobileEncodingParts | build.js:14-22 | in the encoding of "9944996715", the '9' at index 1 is written as the single digit "o" (24) and the one at index 5 as "p" (25) |
| BuildObfuscator.MobileEncodingShort | build.js:14-22 | `obfuscateString("9944996715")` is at most 18 characters long |
| BuildObfuscator.MobileRoundTripFails | build.js:14-31 | the master account's mobile number comes back from the round trip with fewer than its ten digits |
| BuildObfuscator.PaddedRoundTrip | build.js:14-31 | with each number padded to two digits, `deobfuscate` recovers every string without surrogate pairs whose numbers are below 36^2 |
| BuildObfuscator.Latin1RoundTrip | build.js:14-31 | the padded encoder round-trips every string of codes below 0x100 |
| BuildObfuscator.VikramPaddedRoundTrip | build.js:14-31 | "VIKRAM" survives the padded encoder |
| BuildObfuscator.MobilePaddedRoundTrip | build.js:14-31 | the mobile number "9944996715" survives the padded encoder |
| BuildObfuscator.PaddedAgreesWhenTwoDigits | build.js:21 | padding changes nothing where every number already has two digits, so the fix keeps every output that already round-tripped |
| BuildObfuscator.ObfuscatePaddedLength | build.js:21 | the padded encoding is two characters per code |

## Left out

- The page itself is not modelled. That covers the UI, credits, payments, coupons, the account logic, clipboard and DOM handling (script.js outside lines 776-812 and 1128-1650), and everything in build.js after line 37: minification, file I/O and the string replacement. None of it belongs to the codec.
- `decryptOldFormat` (script.js:1653-1662) is the legacy base64 decoder. It is represented only by the outcome `LegacyFallback`, because its result depends on `atob` and `decodeURIComponent`, which lie outside the codec.
- `embedKey` and `extractKey` (script.js:1245-1303) are not called by the current codec. Their format survives as the key fields of the body.
- `Math.random`, `generateRandomChars` and `generateEncryptionKey` are not modelled as functions. Their results are parameters, constrained by `Encrypt.Admissible` to the ranges the source can draw.
- `console.error` and `console.warn` are left out. They have no effect on any result.
- `Decoy.GenerateRandomEncryptedOutput` states the length and the alphabet of the decoy, not its chunk-and-separator layout. The layout is random content that no caller inspects.
- `Base36.DigitValue` gives 0 for a non-digit, where JavaScript has no such digit. Every caller passes a radix-36 digit.
- `Base36.ParseInt36` is exact on unbounded integers. JavaScript's `parseInt` rounds above 2^53, which affects only padding lengths too large for the `substring` clamping to notice.
- `Detector.DetectTextType` compares the readable ratio exactly, as `10 * readable > 3 * length`. The floating-point `readableRatio > 0.3` agrees for every length below 10^15.
- `Bitwise.Xor` is unbounded. JavaScript's `^` is 32-bit; `JsXor` reduces both operands modulo 2^32, and `Bitwise.JsXorIsXor` shows the two agree below 2^32.
- `RoundTrip.SecretRoundTrip` requires the secret's checksum to be below 36^5, because above it the round trip does not hold. `RoundTrip.LongSecretNeverDecrypts` covers checksums from 36^5 to 36^6. Secrets with still larger checksums, of several hundred characters, are not analysed.
- `BuildObfuscator.RoundTripIffAligned` covers only strings whose numbers are all below 36^2. When a code above about 1270 is written with three digits, whether the round trip holds is not analysed.
- `BuildObfuscator.PaddedRoundTrip` proves the corrected encoder only for numbers below 36^2 = 1296. A code above about 1270 needs three digits, and no fixed 2-character chunking can read it back.
- `encryptText`'s catch block (script.js:1410-1413) is left out. None of the modelled steps can throw on a string.

## Findings

| source | as written | input that shows it | evidently intended | confidence | as-written member | corrected member |
|---|---|---|---|---|---|---|
| script.js:1608-1619 | the catch block reads `hasSecretCode`, a `const` of the `try` block, so the handler throws a ReferenceError and every parse failure escapes `decryptText` | the token "X" (a prefix digit and no separator) | a failure after an `S` flag with a secret yields the decoy; any other failure goes to the legacy decoder | high, not executed | Decrypt.CatchBlockRethrows | Decrypt.DecryptTextRecovering |
| build.js:14-31 | `obfuscateString` writes each number with `toString(36)` and no padding, but `deobfuscate` reads fixed 2-character chunks, so a 1-digit number shifts every chunk after it | "VIKRAM", the coupon code the script protects, is written as "193s3e2lt3p" and read back as codes 86, 73, 75, 82, 0x44F, 57; the master account's mobile number "9944996715" is written in at most 18 characters and read back as at most nine codes (`BuildObfuscator.MobileRoundTripFails`); in general, the first one-digit number before the last loses its code (`BuildObfuscator.OneDigitBreaksRoundTrip`) | each number padded to two digits (`padStart(2, '0')`) | high, not executed | BuildObfuscator.VikramRoundTripFails | BuildObfuscator.Latin1RoundTrip |
