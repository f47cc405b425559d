/**
  The positional xor layer of the message codec (`xorEncrypt` and
  `xorDecrypt`): value i is xor-ed with key code i, key code i + 1 (both
  modulo the key length) and the mask (7 * i) mod 0x10000.
*/
module Cipher {
  import opened JsString
  import opened Bitwise

  /** `((i * 7) % 0x10000) >>> 0`. */
  function PositionMask(i: nat): (m: nat)
    ensures m < 0x10000
  {
    (i * 7) % 0x10000
  }

  /** `keyCodes[j % keyCodes.length]`; with an empty key this reads `undefined`, which `^` takes as 0. */
  function KeyCodeAt(keyCodes: seq<nat>, j: nat): nat {
    if |keyCodes| == 0 then 0 else keyCodes[j % |keyCodes|]
  }

  /** The value `xorEncrypt` writes at position i. */
  function EncryptAt(d: nat, keyCodes: seq<nat>, i: nat): nat {
    JsXor(JsXor(JsXor(d, KeyCodeAt(keyCodes, i)), KeyCodeAt(keyCodes, i + 1)), PositionMask(i))
  }

  /** The value `xorDecrypt` writes at position i: the same three terms, the last one first. */
  function DecryptAt(e: nat, keyCodes: seq<nat>, i: nat): nat {
    JsXor(JsXor(JsXor(e, PositionMask(i)), KeyCodeAt(keyCodes, i + 1)), KeyCodeAt(keyCodes, i))
  }

  /** `xorEncrypt(data, key)`: the key is read as code points. */
  function XorEncrypt(data: seq<nat>, key: Units): (r: seq<nat>)
    ensures |r| == |data|
  {
    var keyCodes := CodePoints(key);
    seq(|data|, i requires 0 <= i < |data| => EncryptAt(data[i], keyCodes, i))
  }

  /** `xorDecrypt(encrypted, key)`; its `isNaN` guard cannot fire on integers. */
  function XorDecrypt(encrypted: seq<nat>, key: Units): (r: seq<nat>)
    ensures |r| == |encrypted|
  {
    var keyCodes := CodePoints(key);
    seq(|encrypted|, i requires 0 <= i < |encrypted| => DecryptAt(encrypted[i], keyCodes, i))
  }

  predicate Below(s: seq<nat>, bound: nat) {
    forall i :: 0 <= i < |s| ==> s[i] < bound
  }

  lemma KeyCodeBelow(keyCodes: seq<nat>, j: nat, bound: nat)
    requires Below(keyCodes, bound) && bound > 0
    ensures KeyCodeAt(keyCodes, j) < bound
  {
  }

  /** Code points of a string of code units lie below 2^21. */
  lemma CodePointsBelow(key: Units)
    requires ValidUnits(key)
    ensures Below(CodePoints(key), 0x20_0000)
  {
    CodePointsValid(key);
  }

  /** Position by position, decryption undoes encryption. */
  lemma DecryptAtInverts(d: nat, keyCodes: seq<nat>, i: nat)
    requires d < 0x1_0000_0000
    requires Below(keyCodes, 0x1_0000_0000)
    ensures DecryptAt(EncryptAt(d, keyCodes, i), keyCodes, i) == d
  {
    var k1 := KeyCodeAt(keyCodes, i);
    var k2 := KeyCodeAt(keyCodes, i + 1);
    var p := PositionMask(i);
    KeyCodeBelow(keyCodes, i, 0x1_0000_0000);
    KeyCodeBelow(keyCodes, i + 1, 0x1_0000_0000);
    JsXorIsXor(d, k1);
    var x1 := Xor(d, k1);
    JsXorIsXor(x1, k2);
    var x2 := Xor(x1, k2);
    JsXorIsXor(x2, p);
    var x3 := Xor(x2, p);
    assert EncryptAt(d, keyCodes, i) == x3;
    JsXorIsXor(x3, p);
    XorCancels(x2, p);
    JsXorIsXor(x2, k2);
    XorCancels(x1, k2);
    JsXorIsXor(x1, k1);
    XorCancels(d, k1);
  }

  /** `xorDecrypt(xorEncrypt(data, key), key) == data` for every key, the empty one included. */
  lemma DecryptInvertsEncrypt(data: seq<nat>, key: Units)
    requires Below(data, 0x1_0000_0000)
    requires ValidUnits(key)
    ensures XorDecrypt(XorEncrypt(data, key), key) == data
  {
    var keyCodes := CodePoints(key);
    CodePointsBelow(key);
    var e := XorEncrypt(data, key);
    var d := XorDecrypt(e, key);
    forall i | 0 <= i < |data| ensures d[i] == data[i] {
      DecryptAtInverts(data[i], keyCodes, i);
    }
  }

  /** A position's encrypted value stays below 2^k when the value and the key codes do (k >= 16). */
  lemma EncryptAtBelow(d: nat, keyCodes: seq<nat>, i: nat, k: nat)
    requires 16 <= k <= 32
    requires d < Pow2(k) && Below(keyCodes, Pow2(k))
    ensures EncryptAt(d, keyCodes, i) < Pow2(k)
  {
    var k1 := KeyCodeAt(keyCodes, i);
    var k2 := KeyCodeAt(keyCodes, i + 1);
    var p := PositionMask(i);
    Pow2Monotone(k, 32);
    Pow2Monotone(16, k);
    Pow2Values();
    KeyCodeBelow(keyCodes, i, Pow2(k));
    KeyCodeBelow(keyCodes, i + 1, Pow2(k));
    JsXorIsXor(d, k1);
    XorBound(d, k1, k);
    JsXorIsXor(Xor(d, k1), k2);
    XorBound(Xor(d, k1), k2, k);
    JsXorIsXor(Xor(Xor(d, k1), k2), p);
    XorBound(Xor(Xor(d, k1), k2), p, k);
  }

  lemma {:induction false} Pow2Monotone(i: nat, j: nat)
    requires i <= j
    ensures Pow2(i) <= Pow2(j)
    decreases j - i
  {
    if i < j {
      Pow2Monotone(i, j - 1);
    }
  }

  /**
    For code points (below 2^21) and any string key, every encrypted value
    is below 2^21.
  */
  lemma EncryptBelow(data: seq<nat>, key: Units)
    requires Below(data, 0x20_0000) && ValidUnits(key)
    ensures Below(XorEncrypt(data, key), 0x20_0000)
  {
    Pow2Values();
    CodePointsBelow(key);
    var e := XorEncrypt(data, key);
    forall i | 0 <= i < |data| ensures e[i] < 0x20_0000 {
      EncryptAtBelow(data[i], CodePoints(key), i, 21);
    }
  }

  /** With a one-code-point key both key terms are the same and cancel: only the position mask remains. */
  lemma OneCodePointKeyCancels(data: seq<nat>, key: Units)
    requires Below(data, 0x1_0000_0000) && ValidUnits(key)
    requires |CodePoints(key)| == 1
    ensures forall i :: 0 <= i < |data| ==> XorEncrypt(data, key)[i] == Xor(data[i], PositionMask(i))
  {
    var keyCodes := CodePoints(key);
    CodePointsBelow(key);
    forall i | 0 <= i < |data| ensures XorEncrypt(data, key)[i] == Xor(data[i], PositionMask(i)) {
      var c := keyCodes[0];
      assert KeyCodeAt(keyCodes, i) == c && KeyCodeAt(keyCodes, i + 1) == c;
      JsXorIsXor(data[i], c);
      JsXorIsXor(Xor(data[i], c), c);
      XorCancels(data[i], c);
      JsXorIsXor(data[i], PositionMask(i));
    }
  }
}
