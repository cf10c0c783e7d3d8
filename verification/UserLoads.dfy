/** Loads of a program: every byte is found through the page tables, in frames of 64-bit words. The reader of
    a new stack (section 3.4.1 of the System V AMD64 psABI) is written on top of these loads. */
module UserLoads {
  import opened Bits
  import opened ByteSeqs
  import opened PageTables
  import opened Translation
  import opened ExecStack

  // ----- bytes of physical memory -----

  function WordByte(w: Word, i: nat): Byte
    requires i < 8
  {
    ToBytes(w, 8)[i]
  }

  /** The byte at a physical address; there is nothing behind the last frame. */
  function PhysByte(m: Mem, a: nat): Byte {
    if a / 0x1000 < |m| then WordByte(m[a / 0x1000][a % 0x1000 / 8], a % 8) else 0
  }

  function Power256(n: nat): nat { if n == 0 then 1 else 256 * Power256(n - 1) }

  lemma {:induction false} FromBytesBound(s: seq<Byte>)
    ensures FromBytes(s) < Power256(|s|)
  {
    if s != [] {
      FromBytesBound(s[1..]);
    }
  }

  lemma EightBytes(s: seq<Byte>)
    requires |s| == 8
    ensures FromBytes(s) < TWO64
  {
    FromBytesBound(s);
    assert Power256(4) == 0x1_0000_0000;
    assert Power256(8) == 256 * (256 * (256 * (256 * Power256(4))));
  }

  /** Decoding bytes and encoding them again. */
  lemma {:induction false} BytesBack(s: seq<Byte>)
    ensures ToBytes(FromBytes(s), |s|) == s
  {
    if s != [] {
      BytesBack(s[1..]);
      assert FromBytes(s) % 256 == s[0] && FromBytes(s) / 256 == FromBytes(s[1..]);
    }
  }

  /** A page of bytes as a frame of words. */
  function PageWord(s: seq<Byte>, w: nat): Word
    requires |s| == 0x1000 && w < 512
  {
    EightBytes(s[8 * w..8 * w + 8]);
    FromBytes(s[8 * w..8 * w + 8])
  }

  function PageWords(s: seq<Byte>): Frame
    requires |s| == 0x1000
  {
    seq(512, w requires 0 <= w < 512 => PageWord(s, w))
  }

  lemma PageByte(s: seq<Byte>, o: nat)
    requires |s| == 0x1000 && o < 0x1000
    ensures WordByte(PageWords(s)[o / 8], o % 8) == s[o]
  {
    hide ToBytes, FromBytes;
    var w := o / 8;
    var part := s[8 * w..8 * w + 8];
    BytesBack(part);
    assert part[o % 8] == s[o];
  }

  // ----- loads -----

  ghost function LoadByte(m: Mem, t: Tables, va: nat): Byte
    requires Wf(m, t)
  {
    if va < TWO64 then PhysByte(m, GetPhys(m, t[L4], va, t)) else 0
  }

  ghost function LoadWord(m: Mem, t: Tables, va: nat): nat
    requires Wf(m, t)
  {
    FromBytes([LoadByte(m, t, va), LoadByte(m, t, va + 1), LoadByte(m, t, va + 2), LoadByte(m, t, va + 3),
               LoadByte(m, t, va + 4), LoadByte(m, t, va + 5), LoadByte(m, t, va + 6), LoadByte(m, t, va + 7)])
  }

  /** The addresses of a stack. */
  datatype Region = Region(low: nat, high: nat)

  /** The string at `va`, up to its terminator. */
  ghost function LoadString(m: Mem, t: Tables, r: Region, va: nat): seq<Byte>
    requires Wf(m, t)
    decreases r.high - va
  {
    if va < r.low || va >= r.high || LoadByte(m, t, va) == 0 then []
    else [LoadByte(m, t, va)] + LoadString(m, t, r, va + 1)
  }

  /** The strings that a pointer table refers to, up to its null pointer. */
  ghost function LoadTable(m: Mem, t: Tables, r: Region, va: nat): seq<seq<Byte>>
    requires Wf(m, t)
    decreases r.high - va
  {
    if va + 8 > r.high || LoadWord(m, t, va) == 0 then []
    else [LoadString(m, t, r, LoadWord(m, t, va))] + LoadTable(m, t, r, va + 8)
  }

  /** The auxiliary vector, up to its null entry. */
  ghost function LoadAux(m: Mem, t: Tables, r: Region, va: nat): seq<(nat, nat)>
    requires Wf(m, t)
    decreases r.high - va
  {
    if va + 16 > r.high || LoadWord(m, t, va) == 0 then []
    else [(LoadWord(m, t, va), LoadWord(m, t, va + 8))] + LoadAux(m, t, r, va + 16)
  }

  /** What the program finds at `rsp`. */
  ghost function LoadStart(m: Mem, t: Tables, r: Region, rsp: nat): Start
    requires Wf(m, t)
  {
    var argv := LoadTable(m, t, r, rsp + 8);
    var envp := LoadTable(m, t, r, rsp + 8 + 8 * (|argv| + 1));
    Start(LoadWord(m, t, rsp), argv, envp, LoadAux(m, t, r, rsp + 8 + 8 * (|argv| + 1) + 8 * (|envp| + 1)))
  }

  // ----- a range of addresses that shows a buffer -----

  /** The loads from `low` on give the bytes of `s`. */
  ghost predicate Shows(m: Mem, t: Tables, low: nat, s: seq<Byte>)
    requires Wf(m, t)
  {
    forall o :: 0 <= o < |s| ==> LoadByte(m, t, low + o) == s[o]
  }

  lemma ShownWord(m: Mem, t: Tables, low: nat, s: seq<Byte>, at: nat)
    requires Wf(m, t) && Shows(m, t, low, s) && at + 8 <= |s|
    ensures LoadWord(m, t, low + at) == WordAt(s, at)
  {
    hide FromBytes, LoadByte;
    var b := s[at..at + 8];
    forall i | 0 <= i < 8 ensures LoadByte(m, t, low + (at + i)) == b[i] {}
    assert LoadByte(m, t, low + (at + 1)) == b[1] && LoadByte(m, t, low + (at + 2)) == b[2];
    assert LoadByte(m, t, low + (at + 3)) == b[3] && LoadByte(m, t, low + (at + 4)) == b[4];
    assert LoadByte(m, t, low + (at + 5)) == b[5] && LoadByte(m, t, low + (at + 6)) == b[6];
    assert LoadByte(m, t, low + at) == b[0] && LoadByte(m, t, low + (at + 7)) == b[7];
    assert b == [b[0], b[1], b[2], b[3], b[4], b[5], b[6], b[7]];
  }

  lemma {:induction false} ShownString(m: Mem, t: Tables, low: nat, s: seq<Byte>, at: nat)
    requires Wf(m, t) && Shows(m, t, low, s)
    ensures LoadString(m, t, Region(low, low + |s|), low + at) == ReadString(s, at)
    decreases |s| - at
  {
    hide LoadByte;
    if at < |s| {
      assert LoadByte(m, t, low + at) == s[at];
      ShownString(m, t, low, s, at + 1);
    }
  }

  lemma {:induction false} ShownTable(m: Mem, t: Tables, low: nat, s: seq<Byte>, at: nat)
    requires Wf(m, t) && Shows(m, t, low, s)
    ensures LoadTable(m, t, Region(low, low + |s|), low + at) == ReadTable(s, low, at)
    decreases |s| - at
  {
    hide Shows, LoadString, ReadString, WordAt, LoadWord;
    if at + 8 <= |s| {
      ShownWord(m, t, low, s, at);
      var p := WordAt(s, at);
      if p >= low {
        ShownString(m, t, low, s, p - low);
      } else {
        BelowRegion(m, t, Region(low, low + |s|), p);
      }
      ShownTable(m, t, low, s, at + 8);
    }
  }

  lemma BelowRegion(m: Mem, t: Tables, r: Region, va: nat)
    requires Wf(m, t) && va < r.low
    ensures LoadString(m, t, r, va) == []
  {
  }

  lemma {:induction false} ShownAux(m: Mem, t: Tables, low: nat, s: seq<Byte>, at: nat)
    requires Wf(m, t) && Shows(m, t, low, s)
    ensures LoadAux(m, t, Region(low, low + |s|), low + at) == ReadAux(s, at)
    decreases |s| - at
  {
    hide Shows, WordAt, LoadWord;
    if at + 16 <= |s| {
      ShownWord(m, t, low, s, at);
      ShownWord(m, t, low, s, at + 8);
      ShownAux(m, t, low, s, at + 16);
    }
  }

  /** Reading through the page tables is reading the buffer they show. */
  lemma ShownStart(m: Mem, t: Tables, low: nat, s: seq<Byte>, rsp: nat)
    requires Wf(m, t) && Shows(m, t, low, s) && low <= rsp && rsp - low + 8 <= |s|
    ensures LoadStart(m, t, Region(low, low + |s|), rsp) == ReadStart(s, low, rsp)
  {
    hide Shows, WordAt, LoadWord, LoadTable, ReadTable, LoadAux, ReadAux;
    var at := rsp - low;
    ShownWord(m, t, low, s, at);
    ShownTable(m, t, low, s, at + 8);
    var argv := ReadTable(s, low, at + 8);
    var next := at + 8 + 8 * (|argv| + 1);
    ShownTable(m, t, low, s, next);
    ShownAux(m, t, low, s, next + 8 * (|ReadTable(s, low, next)| + 1));
  }
}
