/** String scanning (kernel/utils/string.c): a word-at-a-time search, byte sets, and the tokenizer on top.
    A string is a range of an array that ends before a zero byte; the array starts on a word boundary. */
module Strings {

  type Bytes = seq<bv8>

  // ----- words of eight bytes -----

  const ONES: bv64 := 0x0101_0101_0101_0101
  const HIGHS: bv64 := 0x8080_8080_8080_8080

  /** HASZERO */
  predicate HasZero(x: bv64) { (x - ONES) & !x & HIGHS != 0 }

  function Pair(low: bv8, high: bv8): bv16 { (low as bv16) | ((high as bv16) << 8) }

  function Half(low: bv16, high: bv16): bv32 { (low as bv32) | ((high as bv32) << 16) }

  function Whole(low: bv32, high: bv32): bv64 { (low as bv64) | ((high as bv64) << 32) }

  /** The little-endian word made of eight bytes. */
  function Word(b0: bv8, b1: bv8, b2: bv8, b3: bv8, b4: bv8, b5: bv8, b6: bv8, b7: bv8): bv64 {
    Whole(Half(Pair(b0, b1), Pair(b2, b3)), Half(Pair(b4, b5), Pair(b6, b7)))
  }

  lemma HasZeroIff(b0: bv8, b1: bv8, b2: bv8, b3: bv8, b4: bv8, b5: bv8, b6: bv8, b7: bv8)
    ensures HasZero(Word(b0, b1, b2, b3, b4, b5, b6, b7))
       <==> b0 == 0 || b1 == 0 || b2 == 0 || b3 == 0 || b4 == 0 || b5 == 0 || b6 == 0 || b7 == 0
  {
  }

  /** ONES * c */
  function Spread(c: bv8): bv64 { ONES * (c as bv64) }

  lemma SpreadIs(c: bv8)
    ensures Spread(c) == Word(c, c, c, c, c, c, c, c)
  {
  }

  // Exclusive or has a name per width, so that the proofs can treat it as a plain function.

  function Xor8(a: bv8, b: bv8): bv8 { a ^ b }

  function Xor16(a: bv16, b: bv16): bv16 { a ^ b }

  function Xor32(a: bv32, b: bv32): bv32 { a ^ b }

  function Xor64(a: bv64, b: bv64): bv64 { a ^ b }

  lemma XorPair(a: bv8, b: bv8, c: bv8, d: bv8)
    ensures Xor16(Pair(a, b), Pair(c, d)) == Pair(Xor8(a, c), Xor8(b, d))
  {
  }

  lemma XorHalf(a: bv16, b: bv16, c: bv16, d: bv16)
    ensures Xor32(Half(a, b), Half(c, d)) == Half(Xor16(a, c), Xor16(b, d))
  {
  }

  lemma XorWhole(a: bv32, b: bv32, c: bv32, d: bv32)
    ensures Xor64(Whole(a, b), Whole(c, d)) == Whole(Xor32(a, c), Xor32(b, d))
  {
  }

  lemma XorBytes(b0: bv8, b1: bv8, b2: bv8, b3: bv8, b4: bv8, b5: bv8, b6: bv8, b7: bv8, c: bv8)
    ensures Xor64(Word(b0, b1, b2, b3, b4, b5, b6, b7), Word(c, c, c, c, c, c, c, c))
         == Word(Xor8(b0, c), Xor8(b1, c), Xor8(b2, c), Xor8(b3, c), Xor8(b4, c), Xor8(b5, c), Xor8(b6, c), Xor8(b7, c))
  {
    hide Pair, Half, Whole, Xor8, Xor16, Xor32, Xor64;
    var p, h := Pair(c, c), Half(Pair(c, c), Pair(c, c));
    XorPair(b0, b1, c, c);
    XorPair(b2, b3, c, c);
    XorPair(b4, b5, c, c);
    XorPair(b6, b7, c, c);
    XorHalf(Pair(b0, b1), Pair(b2, b3), p, p);
    XorHalf(Pair(b4, b5), Pair(b6, b7), p, p);
    XorWhole(Half(Pair(b0, b1), Pair(b2, b3)), Half(Pair(b4, b5), Pair(b6, b7)), h, h);
  }

  lemma XorZero(b: bv8, c: bv8)
    ensures Xor8(b, c) == 0 <==> b == c
  {
  }

  function Load(a: Bytes, at: nat): bv64
    requires at + 8 <= |a|
  {
    Word(a[at], a[at + 1], a[at + 2], a[at + 3], a[at + 4], a[at + 5], a[at + 6], a[at + 7])
  }

  predicate Hit(b: bv8, c: bv8) { b == 0 || b == c }

  /** The two tests of the loop find whether one of the eight bytes is zero or `c`. */
  lemma WordTest(b0: bv8, b1: bv8, b2: bv8, b3: bv8, b4: bv8, b5: bv8, b6: bv8, b7: bv8, c: bv8)
    ensures var w := Word(b0, b1, b2, b3, b4, b5, b6, b7);
      HasZero(w) || HasZero(Xor64(w, Spread(c))) <==>
        Hit(b0, c) || Hit(b1, c) || Hit(b2, c) || Hit(b3, c) || Hit(b4, c) || Hit(b5, c) || Hit(b6, c) || Hit(b7, c)
  {
    hide HasZero, Word, Spread, Xor8, Xor64;
    HasZeroIff(b0, b1, b2, b3, b4, b5, b6, b7);
    SpreadIs(c);
    XorBytes(b0, b1, b2, b3, b4, b5, b6, b7, c);
    HasZeroIff(Xor8(b0, c), Xor8(b1, c), Xor8(b2, c), Xor8(b3, c), Xor8(b4, c), Xor8(b5, c), Xor8(b6, c), Xor8(b7, c));
    XorZero(b0, c); XorZero(b1, c); XorZero(b2, c); XorZero(b3, c);
    XorZero(b4, c); XorZero(b5, c); XorZero(b6, c); XorZero(b7, c);
  }

  /** No byte of `a` from `i` up to `j` is zero or `c`. */
  ghost predicate NoHit(a: Bytes, i: nat, j: nat, c: bv8)
    requires j <= |a|
  {
    forall k :: i <= k < j ==> !Hit(a[k], c)
  }

  lemma LoadTest(a: Bytes, at: nat, c: bv8)
    requires at + 8 <= |a|
    ensures HasZero(Load(a, at)) || HasZero(Xor64(Load(a, at), Spread(c))) <==> !NoHit(a, at, at + 8, c)
  {
    hide HasZero, Word, Spread, Xor64, Hit;
    WordTest(a[at], a[at + 1], a[at + 2], a[at + 3], a[at + 4], a[at + 5], a[at + 6], a[at + 7], c);
  }

  // ----- searching -----

  /** The string at `s` ends before the zero byte at `e`. */
  ghost predicate IsString(a: Bytes, s: nat, e: nat) {
    s <= e < |a| && a[e] == 0 && forall i :: s <= i < e ==> a[i] != 0
  }

  method StrLen(a: array<bv8>, s: nat, ghost e: nat) returns (n: nat)
    requires IsString(a[..], s, e)
    ensures s + n == e
  {
    n := 0;
    while a[s + n] != 0
      invariant s + n <= e
      decreases e - n
    {
      n := n + 1;
    }
  }

  /** The word loop of strchrnul: it stops at the first word with a hit. */
  method ScanWords(a: array<bv8>, s: nat, c: bv8, ghost e: nat) returns (r: nat)
    requires IsString(a[..], s, e) && a.Length % 8 == 0 && s % 8 == 0
    ensures s <= r <= e && NoHit(a[..], s, r, c)
  {
    hide HasZero, Load, Spread, Xor64;
    r := s;
    var k := Spread(c);
    InString(a[..], s, e);
    WordFits(r, a.Length);
    assert NoHit(a[..], s, r, c);
    hide NoHit, IsString;
    while !HasZero(Load(a[..], r)) && !HasZero(Xor64(Load(a[..], r), k))
      invariant s <= r <= e && r % 8 == 0 && r + 8 <= a.Length && NoHit(a[..], s, r, c)
      decreases e - r
    {
      LoadTest(a[..], r, c);
      WordPassed(a[..], s, r, e, c);
      r := r + 8;
      WordFits(r, a.Length);
    }
  }

  lemma InString(a: Bytes, s: nat, e: nat)
    requires IsString(a, s, e)
    ensures s <= e < |a|
  {
  }

  lemma WordFits(r: nat, n: nat)
    requires r < n && r % 8 == 0 && n % 8 == 0
    ensures r + 8 <= n
  {
  }

  /** A word without a hit lies before the end of the string. */
  lemma WordPassed(a: Bytes, s: nat, r: nat, e: nat, c: bv8)
    requires IsString(a, s, e) && s <= r <= e && r + 8 <= |a| && NoHit(a, s, r, c) && NoHit(a, r, r + 8, c)
    ensures r + 8 <= e && NoHit(a, s, r + 8, c)
  {
  }

  /** strchrnul: the first `c`, or the end. */
  method StrChrNul(a: array<bv8>, s: nat, c: bv8, ghost e: nat) returns (r: nat)
    requires IsString(a[..], s, e) && a.Length % 8 == 0
    ensures s <= r <= e && NoHit(a[..], s, r, c) && Hit(a[r], c)
  {
    r := s;
    if c == 0 {
      var n := StrLen(a, s, e);
      return s + n;
    }
    while r % 8 != 0
      invariant s <= r <= e && NoHit(a[..], s, r, c)
      decreases e - r
    {
      if Hit(a[r], c) {
        return;
      }
      r := r + 1;
    }
    r := ScanWords(a, r, c, e);
    while !Hit(a[r], c)
      invariant s <= r <= e && NoHit(a[..], s, r, c)
      decreases e - r
    {
      r := r + 1;
    }
  }

  // ----- byte sets -----

  /** A set of bytes: four words of 64 bits. */
  type ByteSet = w: seq<bv64> | |w| == 4 witness [0, 0, 0, 0]

  /** The word and the bit for a byte, as BITOP computes them. */
  function SlotOf(b: bv8): (i: nat)
    ensures i < 4
  {
    if b < 64 then 0 else if b < 128 then 1 else if b < 192 then 2 else 3
  }

  function Mask(b: bv8): bv64 { 1 << (b & 63) }

  function WithBit(x: bv64, b: bv8): bv64 { x | Mask(b) }

  predicate HasBit(x: bv64, b: bv8) { x & Mask(b) != 0 }

  predicate SameBit(b: bv8, c: bv8) { b & 63 == c & 63 }

  function AddByte(w: ByteSet, b: bv8): ByteSet { w[SlotOf(b) := WithBit(w[SlotOf(b)], b)] }

  predicate HasByte(w: ByteSet, b: bv8) { HasBit(w[SlotOf(b)], b) }

  lemma MaskBits(x: bv64, b: bv8, c: bv8)
    ensures (x | Mask(b)) & Mask(c) != 0 <==> x & Mask(c) != 0 || b & 63 == c & 63
  {
  }

  lemma BitAdded(x: bv64, b: bv8, c: bv8)
    ensures HasBit(WithBit(x, b), c) <==> HasBit(x, c) || SameBit(b, c)
  {
    hide Mask;
    MaskBits(x, b, c);
  }

  lemma SameByte(b: bv8, c: bv8)
    ensures b == c <==> SlotOf(b) == SlotOf(c) && SameBit(b, c)
  {
  }

  lemma AddHas(w: ByteSet, b: bv8, c: bv8)
    ensures HasByte(AddByte(w, b), c) <==> HasByte(w, c) || c == b
  {
    hide SlotOf, WithBit, HasBit, SameBit;
    BitAdded(w[SlotOf(b)], b, c);
    SameByte(b, c);
  }

  method BuildSet(d: Bytes) returns (w: ByteSet)
    ensures forall c :: HasByte(w, c) <==> c in d
  {
    w := [0, 0, 0, 0];
    for i := 0 to |d|
      invariant forall c :: HasByte(w, c) <==> c in d[..i]
    {
      forall c ensures HasByte(AddByte(w, d[i]), c) <==> c in d[..i + 1] {
        AddHas(w, d[i], c);
      }
      w := AddByte(w, d[i]);
    }
    assert d[..|d|] == d;
  }

  // ----- spans -----

  /** The bytes of `a` from `i` up to `j` are all in `d`, or none of them is. */
  ghost predicate AllIn(a: Bytes, i: nat, j: nat, d: Bytes)
    requires j <= |a|
  {
    forall k :: i <= k < j ==> a[k] in d
  }

  ghost predicate NoneIn(a: Bytes, i: nat, j: nat, d: Bytes)
    requires j <= |a|
  {
    forall k :: i <= k < j ==> a[k] !in d
  }

  /** strspn: `d` are the bytes of the second string, without its zero byte. */
  method StrSpn(a: array<bv8>, s: nat, d: Bytes, ghost e: nat) returns (n: nat)
    requires IsString(a[..], s, e) && 0 !in d
    ensures s + n <= e && AllIn(a[..], s, s + n, d) && a[s + n] !in d
  {
    hide HasByte;
    n := 0;
    if |d| == 0 {
      return;
    }
    if |d| == 1 {
      while a[s + n] == d[0]
        invariant s + n <= e && AllIn(a[..], s, s + n, d)
        decreases e - n
      {
        n := n + 1;
      }
      return;
    }
    var w := BuildSet(d);
    while a[s + n] != 0 && HasByte(w, a[s + n])
      invariant s + n <= e && AllIn(a[..], s, s + n, d)
      decreases e - n
    {
      n := n + 1;
    }
  }

  /** strcspn */
  method StrCspn(a: array<bv8>, s: nat, d: Bytes, ghost e: nat) returns (n: nat)
    requires IsString(a[..], s, e) && 0 !in d && a.Length % 8 == 0
    ensures s + n <= e && NoneIn(a[..], s, s + n, d) && (s + n == e || a[s + n] in d)
  {
    hide HasByte;
    if |d| >= 2 {
      var w := BuildSet(d);
      n := 0;
      while a[s + n] != 0 && !HasByte(w, a[s + n])
        invariant s + n <= e && NoneIn(a[..], s, s + n, d)
        decreases e - n
      {
        n := n + 1;
      }
      return;
    }
    var r := StrChrNul(a, s, if |d| == 0 then 0 else d[0], e);
    n := r - s;
  }

  datatype Pointer = Null | At(index: nat)

  /** strpbrk */
  method StrPbrk(a: array<bv8>, s: nat, d: Bytes, ghost e: nat) returns (r: Pointer)
    requires IsString(a[..], s, e) && 0 !in d && a.Length % 8 == 0
    ensures r == Null ==> NoneIn(a[..], s, e, d)
    ensures r.At? ==> s <= r.index < e && NoneIn(a[..], s, r.index, d) && a[r.index] in d
  {
    var n := StrCspn(a, s, d, e);
    return if a[s + n] != 0 then At(s + n) else Null;
  }

  // ----- tokens -----

  /** What one call of strtok_r on the string from `p` to `e` finds: the segment from `t` to `j`, after
      delimiters only and up to the next delimiter or the end. */
  ghost predicate NextToken(a: Bytes, p: nat, e: nat, d: Bytes, t: nat, j: nat)
    requires e <= |a|
  {
    && p <= t < j <= e && AllIn(a, p, t, d) && NoneIn(a, t, j, d)
    && (j == e || a[j] in d)
  }

  /** strtok_r. `e` is the end of the string; `j` is the end of the token. */
  method StrTokR(a: array<bv8>, str: Pointer, d: Bytes, save: nat, ghost e: nat)
    returns (token: Pointer, save': nat, ghost j: nat)
    requires IsString(a[..], if str == Null then save else str.index, e) && 0 !in d && a.Length % 8 == 0
    modifies a
    ensures var p := if str == Null then save else str.index;
      && (token == Null ==> AllIn(old(a[..]), p, e, d) && a[..] == old(a[..]) && save' == e)
      && (token.At? ==>
            && NextToken(old(a[..]), p, e, d, token.index, j)
            && a[..] == old(a[..])[j := 0] && save' == if j < e then j + 1 else e)
  {
    var p := if str == Null then save else str.index;
    var n := StrSpn(a, p, d, e);
    var t := p + n;
    j := e;
    if a[t] == 0 {
      return Null, t, e;
    }
    var r := StrPbrk(a, t, d, e);
    if r == Null {
      save' := StrChrNul(a, t, 0, e);
      assert a[..][e := 0] == a[..];
    } else {
      a[r.index] := 0;
      save' := r.index + 1;
      j := r.index;
    }
    token := At(t);
  }

  /** A maximal non-empty segment without delimiters of the string from `s` to `e`. */
  ghost predicate IsToken(a: Bytes, s: nat, e: nat, d: Bytes, i: nat, j: nat)
    requires e <= |a|
  {
    && s <= i < j <= e && NoneIn(a, i, j, d)
    && (i == s || a[i - 1] in d)
    && (j == e || a[j] in d)
  }

  /** `ts` and `js` are the starts and ends, in order, of exactly the tokens that start before `p`. */
  ghost predicate TokensBefore(a: Bytes, s: nat, e: nat, d: Bytes, p: nat, ts: seq<nat>, js: seq<nat>)
    requires e <= |a|
  {
    && |ts| == |js|
    && (forall k :: 0 <= k < |ts| ==> IsToken(a, s, e, d, ts[k], js[k]) && (js[k] < p || p == e))
    && (forall k, l :: 0 <= k < l < |ts| ==> js[k] < ts[l])
    && (forall i: nat, j: nat :: IsToken(a, s, e, d, i, j) && i < p ==> InList(ts, js, i, j))
  }

  ghost predicate InList(ts: seq<nat>, js: seq<nat>, i: nat, j: nat) {
    exists k :: 0 <= k < |ts| && k < |js| && ts[k] == i && js[k] == j
  }

  /** The scan stands at the start, at the end, or just after a delimiter. */
  ghost predicate AtBoundary(a: Bytes, s: nat, e: nat, d: Bytes, p: nat)
    requires e <= |a|
  {
    s <= p <= e && (p == s || p == e || a[p - 1] in d)
  }

  /** The segment found from a boundary is a token, and the only one that starts before the next boundary. */
  lemma OnlyToken(a: Bytes, s: nat, e: nat, d: Bytes, p: nat, t: nat, j: nat, i': nat, j': nat)
    requires e <= |a| && AtBoundary(a, s, e, d, p) && NextToken(a, p, e, d, t, j)
    ensures IsToken(a, s, e, d, t, j)
    ensures IsToken(a, s, e, d, i', j') && p <= i' < (if j < e then j + 1 else e) ==> i' == t && j' == j
  {
    if IsToken(a, s, e, d, i', j') && p <= i' < (if j < e then j + 1 else e) {
      assert a[i'] !in d;
    }
  }

  lemma MoreTokens(a: Bytes, s: nat, e: nat, d: Bytes, p: nat, ts: seq<nat>, js: seq<nat>, t: nat, j: nat)
    requires e <= |a| && AtBoundary(a, s, e, d, p) && TokensBefore(a, s, e, d, p, ts, js) && NextToken(a, p, e, d, t, j)
    ensures var p' := if j < e then j + 1 else e;
      TokensBefore(a, s, e, d, p', ts + [t], js + [j]) && AtBoundary(a, s, e, d, p')
  {
    hide IsToken;
    var p', ts', js' := if j < e then j + 1 else e, ts + [t], js + [j];
    OnlyToken(a, s, e, d, p, t, j, t, j);
    forall i': nat, j': nat | IsToken(a, s, e, d, i', j') && i' < p' ensures InList(ts', js', i', j') {
      if i' < p {
        assert InList(ts, js, i', j');
        var k :| 0 <= k < |ts| && k < |js| && ts[k] == i' && js[k] == j';
        assert ts'[k] == i' && js'[k] == j';
      } else {
        OnlyToken(a, s, e, d, p, t, j, i', j');
        assert ts'[|ts|] == t && js'[|ts|] == j;
      }
    }
  }

  /** The tokens stand in memory `b` as strings, with the bytes they had in `a`. */
  ghost predicate Cut(a: Bytes, b: Bytes, ts: seq<nat>, js: seq<nat>)
    requires |a| == |b| && |ts| == |js|
  {
    forall k :: 0 <= k < |ts| ==> IsString(b, ts[k], js[k]) && b[ts[k]..js[k]] == a[ts[k]..js[k]]
  }

  /** From `p` to `e`, memory is as it was. */
  ghost predicate SameFrom(a: Bytes, b: Bytes, p: nat, e: nat) {
    |b| == |a| && e < |a| && forall i :: p <= i <= e ==> b[i] == a[i]
  }

  /** One more token is cut out of memory. */
  lemma CutMore(a: Bytes, b: Bytes, p: nat, e: nat, d: Bytes, ts: seq<nat>, js: seq<nat>, t: nat, j: nat)
    requires SameFrom(a, b, p, e) && IsString(b, p, e) && NextToken(b, p, e, d, t, j)
    requires |ts| == |js| && Cut(a, b, ts, js) && forall k :: 0 <= k < |js| ==> js[k] < p || p == e
    ensures var p' := if j < e then j + 1 else e;
      && NextToken(a, p, e, d, t, j) && Cut(a, b[j := 0], ts + [t], js + [j])
      && SameFrom(a, b[j := 0], p', e) && IsString(b[j := 0], p', e)
  {
    var b', ts', js' := b[j := 0], ts + [t], js + [j];
    forall k | 0 <= k < |ts'| ensures IsString(b', ts'[k], js'[k]) && b'[ts'[k]..js'[k]] == a[ts'[k]..js'[k]] {
      if k < |ts| {
        assert IsString(b, ts[k], js[k]);
        assert b'[ts[k]..js[k]] == b[ts[k]..js[k]];
      }
    }
  }

  /** Calling strtok_r until it finds nothing gives exactly the tokens, in order, each as a string. */
  method Tokenize(a: array<bv8>, s: nat, d: Bytes, ghost e: nat) returns (tokens: seq<nat>, ghost ends: seq<nat>)
    requires IsString(a[..], s, e) && 0 !in d && a.Length % 8 == 0
    modifies a
    ensures |ends| == |tokens|
    ensures forall i: nat, j: nat :: IsToken(old(a[..]), s, e, d, i, j) <==> InList(tokens, ends, i, j)
    ensures forall k, l :: 0 <= k < l < |tokens| ==> ends[k] < tokens[l]
    ensures Cut(old(a[..]), a[..], tokens, ends)
  {
    ghost var was := a[..];
    tokens, ends := [], [];
    var token, save;
    ghost var j: nat;
    token, save, j := StrTokR(a, At(s), d, 0, e);
    ghost var p: nat, b := s, was;
    while token != Null
      invariant AtBoundary(was, s, e, d, p) && TokensBefore(was, s, e, d, p, tokens, ends)
      invariant SameFrom(was, b, p, e) && IsString(b, p, e) && Cut(was, b, tokens, ends)
      invariant token == Null ==> AllIn(b, p, e, d) && a[..] == b
      invariant token.At? ==> NextToken(b, p, e, d, token.index, j) && a[..] == b[j := 0]
      invariant token.At? ==> save == if j < e then j + 1 else e
      decreases e - p
    {
      CutMore(was, b, p, e, d, tokens, ends, token.index, j);
      MoreTokens(was, s, e, d, p, tokens, ends, token.index, j);
      tokens, ends := tokens + [token.index], ends + [j];
      p, b := save, a[..];
      hide IsString, AllIn, TokensBefore, AtBoundary, Cut, SameFrom;
      token, save, j := StrTokR(a, Null, d, save, e);
    }
    NoMore(was, b, s, e, d, p, tokens, ends);
  }

  /** When only delimiters are left, no token is missing. */
  lemma NoMore(a: Bytes, b: Bytes, s: nat, e: nat, d: Bytes, p: nat, ts: seq<nat>, js: seq<nat>)
    requires SameFrom(a, b, p, e) && AllIn(b, p, e, d) && TokensBefore(a, s, e, d, p, ts, js)
    ensures forall i: nat, j: nat :: IsToken(a, s, e, d, i, j) <==> InList(ts, js, i, j)
  {
    forall i: nat, j: nat ensures IsToken(a, s, e, d, i, j) <==> InList(ts, js, i, j) {
      if IsToken(a, s, e, d, i, j) {
        assert a[i] !in d;
        assert i < p;
      }
    }
  }
}
