/**
  `generateRandomEncryptedOutput(targetLength)`: the wrong-secret decoy, a
  string of the drawn length made of chunks of 3 to 10 characters with a
  separator after each chunk that does not end the string. Every
  `Math.random` draw is a parameter.
*/
module Decoy {
  import opened JsString
  import opened Decrypt

  /** The characters of a chunk (the separators are among them). */
  const DECOY_CHARS: string := "ABCDEFGHIJKLMNOPQRSTUVWXYZ0123456789|:;~!@#$%^&*()_+-=[]{}"

  /** The same characters as code units. */
  const DECOY_UNITS: Units := ToUnits(DECOY_CHARS)

  /** The separators between chunks, `| : ; ~ ! @ # $`: the eight characters after the digits. */
  const DECOY_SEPARATORS: Units := DECOY_UNITS[36..44]

  function ToUnits(s: string): (r: Units)
    ensures |r| == |s|
    ensures forall k :: 0 <= k < |s| ==> r[k] == s[k] as nat
  {
    seq(|s|, k requires 0 <= k < |s| => s[k] as nat)
  }

  predicate InDecoyAlphabet(u: nat) {
    u in DECOY_UNITS
  }

  /**
    The draws of one call: the length draw, the length draw of chunk k
    (`chunk(k)`, the chunk being `chunk(k) + 3` long), and the index drawn (`symbol(n)`, `sep(n)`)
    for the character or separator written at output position n.
  */
  datatype DecoyDraws = DecoyDraws(length: int, chunk: nat -> nat, symbol: nat -> nat, sep: nat -> nat)

  /** `floor(random * 8)`, `floor(random * chars.length)` and `floor(random * separators.length)`. */
  ghost predicate DecoyDrawsAdmissible(targetLength: nat, d: DecoyDraws) {
    && DecoyDrawAdmissible(targetLength, d.length)
    && (forall k :: d.chunk(k) < 8)
    && (forall n :: d.symbol(n) < |DECOY_CHARS|)
    && (forall n :: d.sep(n) < |DECOY_SEPARATORS|)
  }

  /**
    The decoy: exactly as long as `DecoyLength` says (the length the
    wrong-secret outcome reports), and made of the decoy alphabet only.
  */
  method GenerateRandomEncryptedOutput(targetLength: nat, d: DecoyDraws) returns (output: Units)
    requires DecoyDrawsAdmissible(targetLength, d)
    ensures |output| == DecoyLength(targetLength, d.length)
    ensures forall i :: 0 <= i < |output| ==> InDecoyAlphabet(output[i])
  {
    var length := DecoyLength(targetLength, d.length);
    output := [];
    var chunks := 0;
    while |output| < length
      invariant |output| <= length
      invariant forall i :: 0 <= i < |output| ==> InDecoyAlphabet(output[i])
      decreases length - |output|
    {
      var chunkLength := d.chunk(chunks) + 3;
      chunks := chunks + 1;
      var start := |output|;
      var i := 0;
      while i < chunkLength && |output| < length
        invariant |output| == start + i <= length
        invariant forall i :: 0 <= i < |output| ==> InDecoyAlphabet(output[i])
        decreases chunkLength - i
      {
        output := output + [DECOY_UNITS[d.symbol(|output|)]];
        i := i + 1;
      }
      if |output| < length {
        output := output + [DECOY_SEPARATORS[d.sep(|output|)]];
      }
    }
  }
}
