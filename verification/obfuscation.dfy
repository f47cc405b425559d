/**
  The codec's junk-character layer (`addObfuscation` / `removeObfuscation`):
  the ciphertext digits are cut into 5-character chunks and one junk symbol
  goes in front of every chunk whose index is a positive multiple of the
  rate; decoding drops everything outside `[0-9A-Za-z]`.
*/
module Obfuscation {
  import opened JsString
  import opened Base36

  const CHUNK_WIDTH: nat := 5

  /** The twenty symbols `addObfuscation` draws from. */
  const OBFUSCATION_CHARS: set<nat> := {
    '-' as nat, '_' as nat, '.' as nat, '~' as nat, '!' as nat, '@' as nat, '#' as nat,
    '$' as nat, '%' as nat, '^' as nat, '&' as nat, '*' as nat, '+' as nat, '=' as nat,
    '|' as nat, '\\' as nat, '/' as nat, '?' as nat, '<' as nat, '>' as nat
  }

  lemma ObfuscationCharsAreNotAlnum(u: nat)
    requires u in OBFUSCATION_CHARS
    ensures !IsAlnum(u)
  {
  }

  /** A junk symbol goes in front of chunk j exactly when j is a positive multiple of the rate. */
  predicate JunkBefore(j: nat, rate: nat)
    requires rate > 0
  {
    j > 0 && j % rate == 0
  }

  /**
    `addObfuscation(str)` with its random choices as parameters: `rate` is the
    draw `floor(random * 3) + 2`, and `junk(j)` the symbol drawn in front of
    chunk j (consulted only where one is inserted).
  */
  function AddObfuscation(s: Units, rate: nat, junk: nat -> nat): Units
    requires rate > 0
  {
    AddFrom(s, 0, rate, junk)
  }

  /** What goes in front of chunk j: its junk symbol, or nothing. */
  function JunkAt(j: nat, rate: nat, junk: nat -> nat): Units
    requires rate > 0
  {
    if JunkBefore(j, rate) then [junk(j)] else []
  }

  /** The loop of `addObfuscation` from chunk j on. */
  function AddFrom(s: Units, j: nat, rate: nat, junk: nat -> nat): Units
    requires rate > 0
    decreases |s| - CHUNK_WIDTH * j
  {
    var i := CHUNK_WIDTH * j;
    if i >= |s| then []
    else if i + CHUNK_WIDTH <= |s| then JunkAt(j, rate, junk) + s[i..i + CHUNK_WIDTH] + AddFrom(s, j + 1, rate, junk)
    else s[i..]
  }

  /** `removeObfuscation(str)`: keeps the characters of `[0-9A-Za-z]`, in order. */
  function RemoveObfuscation(s: Units): Units
    decreases |s|
  {
    if |s| == 0 then []
    else if IsAlnum(s[0]) then [s[0]] + RemoveObfuscation(s[1..])
    else RemoveObfuscation(s[1..])
  }

  /** What survives is alphanumeric, and nothing is added. */
  lemma {:induction false} RemoveObfuscationKeeps(s: Units)
    ensures AllAlnum(RemoveObfuscation(s))
    ensures |RemoveObfuscation(s)| <= |s|
    decreases |s|
  {
    if |s| > 0 {
      RemoveObfuscationKeeps(s[1..]);
    }
  }

  lemma {:induction false} RemoveConcat(a: Units, b: Units)
    ensures RemoveObfuscation(a + b) == RemoveObfuscation(a) + RemoveObfuscation(b)
    decreases |a|
  {
    if |a| == 0 {
      assert a + b == b;
    } else {
      assert (a + b)[0] == a[0];
      assert (a + b)[1..] == a[1..] + b;
      RemoveConcat(a[1..], b);
    }
  }

  lemma {:induction false} RemoveKeepsAlnum(s: Units)
    requires AllAlnum(s)
    ensures RemoveObfuscation(s) == s
    decreases |s|
  {
    if |s| > 0 {
      RemoveKeepsAlnum(s[1..]);
      assert s == [s[0]] + s[1..];
    }
  }

  lemma {:induction false} RemoveAfterAddFrom(s: Units, j: nat, rate: nat, junk: nat -> nat)
    requires rate > 0
    requires AllAlnum(s)
    requires forall k :: !IsAlnum(junk(k))
    ensures CHUNK_WIDTH * j >= |s| ==> RemoveObfuscation(AddFrom(s, j, rate, junk)) == []
    ensures CHUNK_WIDTH * j < |s| ==> RemoveObfuscation(AddFrom(s, j, rate, junk)) == s[CHUNK_WIDTH * j..]
    decreases |s| - CHUNK_WIDTH * j
  {
    var i := CHUNK_WIDTH * j;
    if i >= |s| {
    } else if i + CHUNK_WIDTH <= |s| {
      RemoveAfterAddFrom(s, j + 1, rate, junk);
      var tail := if i + CHUNK_WIDTH < |s| then s[i + CHUNK_WIDTH..] else [];
      RemoveAfterAddStep(s, j, rate, junk, tail);
      SuffixSplit(s, i, CHUNK_WIDTH);
    } else {
      AllAlnumSlice(s, i, |s|);
      assert s[i..|s|] == s[i..];
      RemoveKeepsAlnum(s[i..]);
    }
  }

  /** A suffix is its first w units followed by the rest, if any. */
  lemma SuffixSplit(s: Units, i: nat, w: nat)
    requires i + w <= |s|
    ensures s[i..] == s[i..i + w] + (if i + w < |s| then s[i + w..] else [])
  {
  }

  /** One full chunk: decoding the loop from chunk j yields chunk j, then what the rest decodes to. */
  lemma RemoveAfterAddStep(s: Units, j: nat, rate: nat, junk: nat -> nat, tail: Units)
    requires rate > 0 && CHUNK_WIDTH * j + CHUNK_WIDTH <= |s|
    requires AllAlnum(s) && !IsAlnum(junk(j))
    requires RemoveObfuscation(AddFrom(s, j + 1, rate, junk)) == tail
    ensures RemoveObfuscation(AddFrom(s, j, rate, junk)) == s[CHUNK_WIDTH * j..CHUNK_WIDTH * j + CHUNK_WIDTH] + tail
  {
    var i := CHUNK_WIDTH * j;
    AddFromStep(s, j, rate, junk);
    AllAlnumSlice(s, i, i + CHUNK_WIDTH);
    RemoveChunk(JunkAt(j, rate, junk), s[i..i + CHUNK_WIDTH], AddFrom(s, j + 1, rate, junk));
  }

  /** One full chunk of the loop: its junk, the chunk, then the rest. */
  lemma AddFromStep(s: Units, j: nat, rate: nat, junk: nat -> nat)
    requires rate > 0 && CHUNK_WIDTH * j + CHUNK_WIDTH <= |s|
    ensures AddFrom(s, j, rate, junk)
            == JunkAt(j, rate, junk) + s[CHUNK_WIDTH * j..CHUNK_WIDTH * j + CHUNK_WIDTH] + AddFrom(s, j + 1, rate, junk)
  {
  }

  /** One step of the loop: the junk goes, the chunk stays. */
  lemma RemoveChunk(pre: Units, chunk: Units, rest: Units)
    requires |pre| <= 1 && forall k :: 0 <= k < |pre| ==> !IsAlnum(pre[k])
    requires AllAlnum(chunk)
    ensures RemoveObfuscation(pre + chunk + rest) == chunk + RemoveObfuscation(rest)
  {
    RemoveJunk(pre);
    RemoveKeepsAlnum(chunk);
    RemoveSplice(pre, chunk, rest);
  }

  lemma RemoveSplice(pre: Units, chunk: Units, rest: Units)
    requires RemoveObfuscation(pre) == [] && RemoveObfuscation(chunk) == chunk
    ensures RemoveObfuscation(pre + chunk + rest) == chunk + RemoveObfuscation(rest)
  {
    RemoveConcat(pre, chunk);
    RemoveConcat(pre + chunk, rest);
  }

  lemma RemoveJunk(pre: Units)
    requires |pre| <= 1
    requires forall k :: 0 <= k < |pre| ==> !IsAlnum(pre[k])
    ensures RemoveObfuscation(pre) == []
  {
  }

  /**
    Decoding strips exactly what encoding inserted: for any string of
    alphanumerics and any junk symbols that are not alphanumeric (the twenty
    obfuscation symbols among them), `removeObfuscation(addObfuscation(s)) == s`.
  */
  lemma RemoveAfterAdd(s: Units, rate: nat, junk: nat -> nat)
    requires rate > 0
    requires AllAlnum(s)
    requires forall k :: !IsAlnum(junk(k))
    ensures RemoveObfuscation(AddObfuscation(s, rate, junk)) == s
  {
    RemoveAfterAddFrom(s, 0, rate, junk);
  }

  /** Junk symbols in front of chunks 0 .. j-1: the positive multiples of the rate below j. */
  function JunkCount(j: nat, rate: nat): nat
    requires rate > 0
  {
    if j == 0 then 0 else (j - 1) / rate
  }

  lemma JunkCountStep(j: nat, rate: nat)
    requires rate > 0
    ensures JunkCount(j + 1, rate) == JunkCount(j, rate) + (if JunkBefore(j, rate) then 1 else 0)
  {
    if j > 0 {
      var q := (j - 1) / rate;
      var r := (j - 1) % rate;
      DivModParts(j - 1, rate);
      if r + 1 == rate {
        DivModUnique(j, rate, q + 1, 0);
        assert JunkCount(j + 1, rate) == q + 1 && JunkBefore(j, rate);
      } else {
        DivModUnique(j, rate, q, r + 1);
        assert JunkCount(j + 1, rate) == q && !JunkBefore(j, rate);
      }
    }
  }

  lemma DivModParts(x: nat, d: nat)
    requires d > 0
    ensures x == (x / d) * d + x % d && x % d < d
  {
  }

  lemma DivModUnique(x: nat, d: nat, q: nat, r: nat)
    requires d > 0 && r < d && x == q * d + r
    ensures x / d == q && x % d == r
  {
    var q' := x / d;
    var r' := x % d;
    assert x == q' * d + r';
    assert (q - q') * d == r' - r by {
      assert (q - q') * d == q * d - q' * d;
    }
    if q' < q {
      MulAtLeast(q - q', d);
    } else if q' > q {
      MulAtLeast(q' - q, d);
    }
  }

  lemma MulAtLeast(a: int, d: nat)
    requires a >= 1
    ensures a * d >= d
  {
  }

  /** Where chunk k starts in `AddFrom(s, j, ..)`, counted chunk by chunk. */
  function ChunkOffset(j: nat, k: nat, rate: nat, junk: nat -> nat): nat
    requires rate > 0 && j <= k
    decreases k - j
  {
    if j == k then |JunkAt(j, rate, junk)|
    else |JunkAt(j, rate, junk)| + CHUNK_WIDTH + ChunkOffset(j + 1, k, rate, junk)
  }

  /** The offset in closed form: the digits of chunks j .. k-1 and the junk of chunks j .. k. */
  lemma {:induction false} ChunkOffsetValue(j: nat, k: nat, rate: nat, junk: nat -> nat)
    requires rate > 0 && j <= k
    ensures ChunkOffset(j, k, rate, junk) == CHUNK_WIDTH * (k - j) + JunkCount(k + 1, rate) - JunkCount(j, rate)
    decreases k - j
  {
    JunkCountStep(j, rate);
    if j < k {
      ChunkOffsetValue(j + 1, k, rate, junk);
    }
  }

  /**
    The chunk layout of `AddFrom(s, j, ..)`: full chunk k (k >= j) sits
    unsplit at its offset, with its junk symbol, if any, just before it.
  */
  lemma {:induction false} AddFromChunk(s: Units, j: nat, k: nat, rate: nat, junk: nat -> nat)
    requires rate > 0
    requires j <= k && CHUNK_WIDTH * k + CHUNK_WIDTH <= |s|
    ensures var r := AddFrom(s, j, rate, junk);
            var at := ChunkOffset(j, k, rate, junk);
            && at + CHUNK_WIDTH <= |r|
            && r[at..at + CHUNK_WIDTH] == s[CHUNK_WIDTH * k..CHUNK_WIDTH * k + CHUNK_WIDTH]
            && (JunkBefore(k, rate) ==> at >= 1 && r[at - 1] == junk(k))
    decreases k - j
  {
    var i := CHUNK_WIDTH * j;
    var pre := JunkAt(j, rate, junk);
    var chunk := s[i..i + CHUNK_WIDTH];
    var rest := AddFrom(s, j + 1, rate, junk);
    AddFromStep(s, j, rate, junk);
    if j == k {
      ConcatFront(pre, chunk, rest);
    } else {
      AddFromChunk(s, j + 1, k, rate, junk);
      ConcatBack(pre, chunk, rest, ChunkOffset(j + 1, k, rate, junk), CHUNK_WIDTH);
    }
  }

  /** In pre + chunk + rest, chunk sits after pre, and a one-unit pre sits at 0. */
  lemma ConcatFront(pre: Units, chunk: Units, rest: Units)
    ensures (pre + chunk + rest)[|pre|..|pre| + |chunk|] == chunk
    ensures |pre| == 1 ==> (pre + chunk + rest)[0] == pre[0]
  {
  }

  /** In pre + chunk + rest, the window of rest at a sits at |pre| + |chunk| + a. */
  lemma ConcatBack(pre: Units, chunk: Units, rest: Units, a: nat, w: nat)
    requires a + w <= |rest|
    ensures var t := pre + chunk + rest;
            var b := |pre| + |chunk| + a;
            && b + w <= |t|
            && t[b..b + w] == rest[a..a + w]
            && (a >= 1 ==> t[b - 1] == rest[a - 1])
  {
  }

  /**
    Where `addObfuscation` puts things, for a digit string of n full chunks:
    chunk k sits unsplit at 5k + k / rate, the junk symbol of a chunk k that
    is a positive multiple of the rate sits just before it, and the output
    is the input plus (n - 1) / rate symbols.
  */
  lemma AddObfuscationLayout(s: Units, rate: nat, junk: nat -> nat)
    requires rate > 0
    requires |s| % CHUNK_WIDTH == 0
    ensures var r := AddObfuscation(s, rate, junk);
            var n := |s| / CHUNK_WIDTH;
            && |r| == |s| + JunkCount(n, rate)
            && forall k :: 0 <= k < n ==>
                 && CHUNK_WIDTH * k + k / rate + CHUNK_WIDTH <= |r|
                 && r[CHUNK_WIDTH * k + k / rate..CHUNK_WIDTH * k + k / rate + CHUNK_WIDTH]
                    == s[CHUNK_WIDTH * k..CHUNK_WIDTH * k + CHUNK_WIDTH]
                 && (JunkBefore(k, rate) ==> r[CHUNK_WIDTH * k + k / rate - 1] == junk(k))
  {
    var r := AddObfuscation(s, rate, junk);
    var n := |s| / CHUNK_WIDTH;
    forall k | 0 <= k < n
      ensures && CHUNK_WIDTH * k + k / rate + CHUNK_WIDTH <= |r|
              && r[CHUNK_WIDTH * k + k / rate..CHUNK_WIDTH * k + k / rate + CHUNK_WIDTH]
                 == s[CHUNK_WIDTH * k..CHUNK_WIDTH * k + CHUNK_WIDTH]
              && (JunkBefore(k, rate) ==> r[CHUNK_WIDTH * k + k / rate - 1] == junk(k))
    {
      AddFromChunk(s, 0, k, rate, junk);
      ChunkOffsetValue(0, k, rate, junk);
      assert JunkCount(k + 1, rate) == k / rate;
    }
    AddFromLength(s, 0, rate, junk);
  }

  lemma {:induction false} AddFromLength(s: Units, j: nat, rate: nat, junk: nat -> nat)
    requires rate > 0
    requires |s| % CHUNK_WIDTH == 0 && j <= |s| / CHUNK_WIDTH
    ensures |AddFrom(s, j, rate, junk)| + CHUNK_WIDTH * j + JunkCount(j, rate)
            == |s| + JunkCount(|s| / CHUNK_WIDTH, rate)
    decreases |s| - CHUNK_WIDTH * j
  {
    if CHUNK_WIDTH * j < |s| {
      JunkCountStep(j, rate);
      AddFromLength(s, j + 1, rate, junk);
    }
  }
}
