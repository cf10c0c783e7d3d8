/** Bytes, replacing part of a byte sequence, and little-endian words. */
module ByteSeqs {
  import opened Bits

  type Byte = b: int | 0 <= b < 256

  /** `s` with the bytes from `at` on replaced by `d`. */
  function Patch(s: seq<Byte>, at: nat, d: seq<Byte>): (r: seq<Byte>)
    requires at + |d| <= |s|
    ensures |r| == |s|
    ensures forall i :: 0 <= i < |s| ==> r[i] == if at <= i < at + |d| then d[i - at] else s[i]
  {
    s[..at] + d + s[at + |d|..]
  }

  lemma PatchElsewhere(s: seq<Byte>, at: nat, d: seq<Byte>, from: nat, size: nat)
    requires at + |d| <= |s| && from + size <= |s| && (at + |d| <= from || from + size <= at)
    ensures Patch(s, at, d)[from..from + size] == s[from..from + size]
  {
    hide Patch;
    var r := Patch(s, at, d);
    var x, y := r[from..from + size], s[from..from + size];
    forall i | 0 <= i < size ensures x[i] == y[i] {}
  }

  lemma PatchInside(s: seq<Byte>, from: nat, size: nat, offset: nat, d: seq<Byte>)
    requires from + size <= |s| && offset + |d| <= size
    ensures Patch(s, from + offset, d)[from..from + size] == Patch(s[from..from + size], offset, d)
  {
    hide Patch;
    var x, y := Patch(s, from + offset, d)[from..from + size], Patch(s[from..from + size], offset, d);
    forall i | 0 <= i < size ensures x[i] == y[i] {}
  }

  lemma PatchExact(s: seq<Byte>, at: nat, d: seq<Byte>)
    requires at + |d| <= |s|
    ensures Patch(s, at, d)[at..at + |d|] == d
  {}

  /** Writing a buffer piece by piece. */
  lemma PatchTwice(s: seq<Byte>, at: nat, buffer: seq<Byte>, count: nat, chunk: nat)
    requires at + |buffer| <= |s| && count + chunk <= |buffer|
    ensures Patch(Patch(s, at, buffer[..count]), at + count, buffer[count..count + chunk]) ==
            Patch(s, at, buffer[..count + chunk])
  {}

  lemma SubSlice(s: seq<Byte>, at: nat, size: nat, offset: nat, chunk: nat)
    requires at + size <= |s| && offset + chunk <= size
    ensures s[at..at + size][offset..offset + chunk] == s[at + offset..at + offset + chunk]
  {
    var x, y := s[at..at + size][offset..offset + chunk], s[at + offset..at + offset + chunk];
    forall i | 0 <= i < chunk ensures x[i] == y[i] {}
  }

  // ----- little-endian words -----

  function ToBytes(w: nat, n: nat): (r: seq<Byte>)
    ensures |r| == n
  {
    if n == 0 then [] else [w % 256] + ToBytes(w / 256, n - 1)
  }

  function FromBytes(s: seq<Byte>): nat {
    if s == [] then 0 else s[0] + 256 * FromBytes(s[1..])
  }

  ghost predicate FitsIn(w: nat, n: nat) {
    if n == 0 then w == 0 else FitsIn(w / 256, n - 1)
  }

  /** Encoding a number that fits and decoding it again. */
  lemma {:induction false} BytesRoundTrip(w: nat, n: nat)
    requires FitsIn(w, n)
    ensures FromBytes(ToBytes(w, n)) == w
    decreases n
  {
    if n > 0 {
      BytesRoundTrip(w / 256, n - 1);
      assert ToBytes(w, n)[1..] == ToBytes(w / 256, n - 1);
    }
  }

  lemma WordFits(w: Word)
    ensures FitsIn(w, 8)
  {
    Shrink(w, 0x100_0000_0000_0000);
    var a := w / 256;
    Shrink(a, 0x1_0000_0000_0000);
    var b := a / 256;
    Shrink(b, 0x100_0000_0000);
    var c := b / 256;
    Shrink(c, 0x1_0000_0000);
    var d := c / 256;
    Shrink(d, 0x100_0000);
    var e := d / 256;
    Shrink(e, 0x1_0000);
    var f := e / 256;
    Shrink(f, 0x100);
    var g := f / 256;
    assert FitsIn(g, 1) by { Shrink(g, 1); }
    assert FitsIn(f, 2) && FitsIn(e, 3);
    assert FitsIn(d, 4) && FitsIn(c, 5);
    assert FitsIn(b, 6) && FitsIn(a, 7);
  }

  lemma Shrink(w: nat, limit: nat)
    requires w < 256 * limit
    ensures w / 256 < limit
  {}

  /** The 64-bit word at byte offset `at`. */
  function WordAt(s: seq<Byte>, at: nat): nat
    requires at + 8 <= |s|
  {
    FromBytes(s[at..at + 8])
  }

  lemma WordStable(s: seq<Byte>, s': seq<Byte>, at: nat)
    requires at + 8 <= |s| == |s'| && forall i :: at <= i < at + 8 ==> s[i] == s'[i]
    ensures WordAt(s', at) == WordAt(s, at)
  {
    assert s[at..at + 8] == s'[at..at + 8];
  }

  /** Storing a word and reading it back. */
  lemma StoreWordAt(s: seq<Byte>, at: nat, w: Word)
    requires at + 8 <= |s|
    ensures WordAt(Patch(s, at, ToBytes(w, 8)), at) == w
  {
    hide ToBytes, FromBytes, Patch;
    PatchExact(s, at, ToBytes(w, 8));
    WordFits(w);
    BytesRoundTrip(w, 8);
  }
}
