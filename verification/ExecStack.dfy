/** The initial stack of a new program (`thread_create` in kernel/tasking/thread.c): argument and
    environment strings, auxiliary vector and pointer tables, in the layout of section 3.4.1 of
    the System V AMD64 psABI. */
module ExecStack {
  import opened Bits
  import opened ByteSeqs

  /** A C string without its terminator. */
  type CString = s: seq<Byte> | forall i :: 0 <= i < |s| ==> s[i] != 0

  const STACK_BYTES := 0x4000
  const STACK_LOCATION_TOP := 0x0000_8000_0000_0000

  // ----- what the image holds -----

  function Bytes(strings: seq<CString>): nat {
    if strings == [] then 0 else Bytes(strings[..|strings| - 1]) + |strings[|strings| - 1]| + 1
  }

  /** Offset of string `n` when strings are placed one after the other, downward from the top. */
  function Place(strings: seq<CString>, n: nat): int
    requires n < |strings|
  {
    STACK_BYTES - Bytes(strings[..n + 1])
  }

  /** The string at `at`, with its terminator. */
  ghost predicate StringAt(s: seq<Byte>, at: int, c: CString) {
    0 <= at && at + |c| + 1 <= |s| && s[at..at + |c|] == c && s[at + |c|] == 0
  }

  ghost predicate StringsAt(s: seq<Byte>, strings: seq<CString>) {
    forall n :: 0 <= n < |strings| ==> StringAt(s, Place(strings, n), strings[n])
  }

  ghost predicate WordsAt(s: seq<Byte>, at: nat, words: seq<Word>) {
    && at + 8 * |words| <= |s|
    && forall k :: 0 <= k < |words| ==> WordAt(s, at + 8 * k) == words[k]
  }

  lemma {:induction false} BytesOfPrefix(strings: seq<CString>, n: nat)
    requires n <= |strings|
    ensures Bytes(strings[..n]) <= Bytes(strings)
    decreases |strings| - n
  {
    if n < |strings| {
      var t := strings[..n + 1];
      assert t[..n] == strings[..n];
      BytesOfPrefix(strings, n + 1);
    } else {
      assert strings[..n] == strings;
    }
  }

  /** Strings and words of an image in progress: the words start at `sp`, below every string. */
  ghost predicate Image(s: seq<Byte>, sp: nat, words: seq<Word>, strings: seq<CString>) {
    && |s| == STACK_BYTES && StringsAt(s, strings)
    && WordsAt(s, sp, words) && sp + 8 * |words| <= STACK_BYTES - Bytes(strings)
  }

  /** A store below every string leaves the strings alone. */
  lemma StringsStable(s: seq<Byte>, strings: seq<CString>, at: nat, d: seq<Byte>)
    requires |s| == STACK_BYTES && StringsAt(s, strings) && at + |d| <= STACK_BYTES - Bytes(strings)
    ensures StringsAt(Patch(s, at, d), strings)
  {
    hide Patch, Bytes;
    var s' := Patch(s, at, d);
    forall n | 0 <= n < |strings| ensures StringAt(s', Place(strings, n), strings[n]) {
      var p, c := Place(strings, n), strings[n];
      BytesOfPrefix(strings, n + 1);
      assert StringAt(s, p, c);
      PatchElsewhere(s, at, d, p, |c|);
    }
  }

  lemma WordsStable(s: seq<Byte>, sp: nat, words: seq<Word>, at: nat, d: seq<Byte>)
    requires WordsAt(s, sp, words) && at + |d| <= |s| && (at + |d| <= sp || sp + 8 * |words| <= at)
    ensures WordsAt(Patch(s, at, d), sp, words)
  {
    hide Patch, WordAt;
    var s' := Patch(s, at, d);
    forall k | 0 <= k < |words| ensures WordAt(s', sp + 8 * k) == words[k] { WordStable(s, s', sp + 8 * k); }
  }

  /** Storing one more word below the others. */
  lemma PushKeeps(s: seq<Byte>, sp: nat, words: seq<Word>, strings: seq<CString>, w: Word)
    requires Image(s, sp, words, strings) && sp >= 8
    ensures Image(Patch(s, sp - 8, ToBytes(w, 8)), sp - 8, [w] + words, strings)
  {
    hide Patch, ToBytes, WordAt, StringsAt;
    var s' := Patch(s, sp - 8, ToBytes(w, 8));
    StringsStable(s, strings, sp - 8, ToBytes(w, 8));
    WordsStable(s, sp, words, sp - 8, ToBytes(w, 8));
    StoreWordAt(s, sp - 8, w);
    var ws := [w] + words;
    forall k | 0 <= k < |ws| ensures WordAt(s', sp - 8 + 8 * k) == ws[k] {
      if k > 0 { assert WordAt(s', sp + 8 * (k - 1)) == words[k - 1]; }
    }
  }

  method StoreWord(mem: array<Byte>, at: nat, w: Word)
    requires at + 8 <= mem.Length
    modifies mem
    ensures mem[..] == Patch(old(mem[..]), at, ToBytes(w, 8))
  {
    StoreBytes(mem, at, ToBytes(w, 8));
  }

  method StoreBytes(mem: array<Byte>, at: nat, d: seq<Byte>)
    requires at + |d| <= mem.Length
    modifies mem
    ensures mem[..] == Patch(old(mem[..]), at, d)
  {
    for i := 0 to |d|
      invariant forall j :: 0 <= j < mem.Length ==> mem[j] == if at <= j < at + i then d[j - at] else old(mem[j])
    {
      mem[at + i] := d[i];
    }
  }

  method Push(mem: array<Byte>, sp: nat, w: Word, ghost words: seq<Word>, ghost strings: seq<CString>)
    returns (sp': nat)
    requires Image(mem[..], sp, words, strings) && sp >= 8
    modifies mem
    ensures sp' == sp - 8 && Image(mem[..], sp', [w] + words, strings)
  {
    hide Image, Patch, ToBytes;
    ImageLength(mem[..], sp, words, strings);
    PushKeeps(mem[..], sp, words, strings, w);
    sp' := sp - 8;
    StoreWord(mem, sp', w);
  }

  lemma ImageLength(s: seq<Byte>, sp: nat, words: seq<Word>, strings: seq<CString>)
    requires Image(s, sp, words, strings)
    ensures |s| == STACK_BYTES && sp + 8 * |words| <= STACK_BYTES
  {}

  // ----- strings -----

  /** One more string, placed right below the others. */
  lemma StringKeeps(s: seq<Byte>, placed: seq<CString>, c: CString)
    requires |s| == STACK_BYTES && StringsAt(s, placed) && Bytes(placed + [c]) <= STACK_BYTES
    ensures Bytes(placed + [c]) == Bytes(placed) + |c| + 1
    ensures StringsAt(Patch(s, STACK_BYTES - Bytes(placed + [c]), c + [0]), placed + [c])
  {
    hide *;
    var all := placed + [c];
    SameBytes(placed, c);
    var at := STACK_BYTES - Bytes(all);
    StringPut(s, at, c);
    StringsStable(s, placed, at, c + [0]);
    OneString(Patch(s, at, c + [0]), placed, c);
  }

  lemma SameBytes(placed: seq<CString>, c: CString)
    ensures Bytes(placed + [c]) == Bytes(placed) + |c| + 1
  {
    assert (placed + [c])[..|placed|] == placed;
  }

  lemma OneString(s: seq<Byte>, placed: seq<CString>, c: CString)
    requires StringsAt(s, placed) && StringAt(s, STACK_BYTES - Bytes(placed + [c]), c)
    ensures StringsAt(s, placed + [c])
  {
    hide StringAt, Bytes;
    var all := placed + [c];
    forall n | 0 <= n < |all| ensures StringAt(s, Place(all, n), all[n]) {
      if n < |placed| {
        assert all[..n + 1] == placed[..n + 1];
        assert StringAt(s, Place(placed, n), placed[n]);
      } else {
        assert all[..n + 1] == all;
      }
    }
  }

  lemma StringPut(s: seq<Byte>, at: nat, c: CString)
    requires at + |c| + 1 <= |s|
    ensures StringAt(Patch(s, at, c + [0]), at, c)
  {
    hide Patch;
    var s' := Patch(s, at, c + [0]);
    PatchExact(s, at, c + [0]);
    assert s'[at..at + |c|] == s'[at..at + |c + [0]|][..|c|];
    assert s'[at + |c|] == s'[at..at + |c + [0]|][|c|];
  }

  /** The loops that copy the strings downward from `strp`. */
  method PlaceStrings(mem: array<Byte>, strp: nat, list: seq<CString>, ghost placed: seq<CString>) returns (strp': nat)
    requires mem.Length == STACK_BYTES && StringsAt(mem[..], placed)
    requires Bytes(placed + list) <= STACK_BYTES && strp == STACK_BYTES - Bytes(placed)
    modifies mem
    ensures StringsAt(mem[..], placed + list) && strp' == STACK_BYTES - Bytes(placed + list)
  {
    hide Bytes, StringsAt, Patch;
    strp' := strp;
    assert placed + list[..0] == placed;
    for n := 0 to |list|
      invariant StringsAt(mem[..], placed + list[..n]) && strp' == STACK_BYTES - Bytes(placed + list[..n])
    {
      ghost var before, after := placed + list[..n], placed + list[..n + 1];
      assert after == before + [list[n]];
      assert after == (placed + list)[..|after|];
      BytesOfPrefix(placed + list, |after|);
      StringKeeps(mem[..], before, list[n]);
      strp' := strp' - (|list[n]| + 1);
      StoreBytes(mem, strp', list[n] + [0]);
    }
    assert list[..|list|] == list;
  }

  // ----- pointer tables -----

  /** The user address of string `n`; `top` is the address just above the stack. */
  function Address(strings: seq<CString>, n: nat, top: Word): int
    requires n < |strings|
  {
    top - Bytes(strings[..n + 1])
  }

  function Pointers(strings: seq<CString>, from: nat, count: nat, top: Word): (r: seq<Word>)
    requires from + count <= |strings| && Bytes(strings) <= STACK_BYTES < top
    ensures |r| == count && forall k :: 0 <= k < count ==> r[k] == Address(strings, from + k, top)
  {
    if count == 0 then []
    else
      BytesOfPrefix(strings, from + count);
      Pointers(strings, from, count - 1, top) + [Address(strings, from + count - 1, top)]
  }

  /** `sp -= count; for(i) { sa -= length + 1; sp[i] = sa; }` for strings `from`, ..., `from + count - 1`. */
  method PushTable(mem: array<Byte>, sp: nat, sa: nat, strings: seq<CString>, from: nat, count: nat, top: Word,
                   ghost words: seq<Word>)
    returns (sp': nat, sa': nat)
    requires Image(mem[..], sp, words, strings) && from + count <= |strings|
    requires Bytes(strings) <= STACK_BYTES < top && sa == top - Bytes(strings[..from]) && 8 * count <= sp
    modifies mem
    ensures sp' == sp - 8 * count && sa' == top - Bytes(strings[..from + count])
    ensures Image(mem[..], sp', Pointers(strings, from, count, top) + words, strings)
  {
    hide Patch, ToBytes, WordAt, StringsAt, Bytes;
    sp', sa' := sp - 8 * count, sa;
    for i := 0 to count
      invariant mem.Length == STACK_BYTES && StringsAt(mem[..], strings) && WordsAt(mem[..], sp, words)
      invariant WordsAt(mem[..], sp', Pointers(strings, from, i, top)) && sa' == top - Bytes(strings[..from + i])
    {
      ghost var s, w := mem[..], Address(strings, from + i, top);
      BytesNext(strings, from + i);
      BytesOfPrefix(strings, from + i + 1);
      sa' := sa' - (|strings[from + i]| + 1);
      AppendWord(s, sp', Pointers(strings, from, i, top), w);
      StringsStable(s, strings, sp' + 8 * i, ToBytes(sa', 8));
      WordsStable(s, sp, words, sp' + 8 * i, ToBytes(sa', 8));
      StoreWord(mem, sp' + 8 * i, sa');
    }
    JoinWords(mem[..], sp', Pointers(strings, from, count, top), words);
  }

  lemma BytesNext(strings: seq<CString>, n: nat)
    requires n < |strings|
    ensures Bytes(strings[..n + 1]) == Bytes(strings[..n]) + |strings[n]| + 1
  {
    assert strings[..n + 1][..n] == strings[..n];
  }

  lemma AppendWord(s: seq<Byte>, at: nat, words: seq<Word>, w: Word)
    requires WordsAt(s, at, words) && at + 8 * |words| + 8 <= |s|
    ensures WordsAt(Patch(s, at + 8 * |words|, ToBytes(w, 8)), at, words + [w])
  {
    hide Patch, ToBytes, WordAt;
    WordsStable(s, at, words, at + 8 * |words|, ToBytes(w, 8));
    StoreWordAt(s, at + 8 * |words|, w);
  }

  lemma JoinWords(s: seq<Byte>, at: nat, a: seq<Word>, b: seq<Word>)
    requires WordsAt(s, at, a) && WordsAt(s, at + 8 * |a|, b)
    ensures WordsAt(s, at, a + b)
  {
    hide WordAt;
    forall k | 0 <= k < |a + b| ensures WordAt(s, at + 8 * k) == (a + b)[k] {
      if k >= |a| { assert WordAt(s, at + 8 * |a| + 8 * (k - |a|)) == b[k - |a|]; }
    }
  }

  // ----- the whole image -----

  /** The values the kernel passes in the auxiliary vector. */
  datatype Elf = Elf(entry: Word, phdr: Word, phent: Word, phnum: Word)

  function AuxWords(elf: Elf): seq<Word> {
    [5, elf.phnum, 4, elf.phent, 3, elf.phdr, 9, elf.entry, 0, 0]
  }

  /** The words of the image, lowest address first. */
  function StartWords(argv: seq<CString>, envp: seq<CString>, elf: Elf, top: Word): seq<Word>
    requires |argv| < TWO64 && Bytes(envp + argv) <= STACK_BYTES < top
  {
    var all := envp + argv;
    [|argv|] + Pointers(all, |envp|, |argv|, top) + [0] + Pointers(all, 0, |envp|, top) + [0] + AuxWords(elf)
  }

  /** Size of the image: strings rounded down to 16, one word of padding if the count is odd, 13 words
      and one per string. */
  function SpAfter(argv: seq<CString>, envp: seq<CString>): int {
    var n := |argv| + |envp|;
    (STACK_BYTES - Bytes(envp + argv)) / 16 * 16 - 8 * (13 + n + (n + 1) % 2)
  }

  lemma StartImage(s: seq<Byte>, sp: nat, strings: seq<CString>)
    requires |s| == STACK_BYTES && StringsAt(s, strings) && sp <= STACK_BYTES - Bytes(strings)
    ensures Image(s, sp, [], strings)
  {}

  lemma NoStrings(s: seq<Byte>, envp: seq<CString>, argv: seq<CString>)
    ensures StringsAt(s, []) && Bytes([]) == 0 && [] + envp == envp && Bytes(envp) <= Bytes(envp + argv)
  {
    BytesOfPrefix(envp + argv, |envp|);
    assert (envp + argv)[..|envp|] == envp;
  }

  /** `sp -= 2; *sp = a; *(sp + 1) = b`. */
  method PushPair(mem: array<Byte>, sp: nat, a: Word, b: Word, ghost words: seq<Word>, ghost strings: seq<CString>)
    returns (sp': nat)
    requires Image(mem[..], sp, words, strings) && sp >= 16
    modifies mem
    ensures sp' == sp - 16 && Image(mem[..], sp', [a, b] + words, strings)
  {
    hide Image;
    sp' := Push(mem, sp, b, words, strings);
    sp' := Push(mem, sp', a, [b] + words, strings);
    assert [a] + ([b] + words) == [a, b] + words;
  }

  /** The pushes of the auxiliary vector. */
  method PushAux(mem: array<Byte>, sp: nat, elf: Elf, ghost strings: seq<CString>) returns (sp': nat)
    requires Image(mem[..], sp, [], strings) && sp >= 80
    modifies mem
    ensures sp' == sp - 80 && Image(mem[..], sp', AuxWords(elf), strings)
  {
    hide Image;
    sp' := PushPair(mem, sp, 0, 0, [], strings);
    ghost var w0 := [0, 0] + [];
    sp' := PushPair(mem, sp', 9, elf.entry, w0, strings);
    ghost var w1 := [9, elf.entry] + w0;
    sp' := PushPair(mem, sp', 3, elf.phdr, w1, strings);
    ghost var w2 := [3, elf.phdr] + w1;
    sp' := PushPair(mem, sp', 4, elf.phent, w2, strings);
    ghost var w3 := [4, elf.phent] + w2;
    sp' := PushPair(mem, sp', 5, elf.phnum, w3, strings);
    assert [5, elf.phnum] + w3 == AuxWords(elf);
  }

  /** Everything below the strings: auxiliary vector, both pointer tables, argument count. */
  method PushWords(mem: array<Byte>, sp: nat, argv: seq<CString>, envp: seq<CString>, elf: Elf, top: Word)
    returns (sp': nat)
    requires Bytes(envp + argv) <= STACK_BYTES < top && |argv| + |envp| <= STACK_BYTES
    requires Image(mem[..], sp, [], envp + argv) && sp >= 8 * (13 + |argv| + |envp|)
    modifies mem
    ensures sp' == sp - 8 * (13 + |argv| + |envp|)
    ensures Image(mem[..], sp', StartWords(argv, envp, elf, top), envp + argv)
  {
    hide Image, Pointers, Bytes;
    var all := envp + argv;
    sp' := PushAux(mem, sp, elf, all);
    ghost var w := AuxWords(elf);
    sp' := Push(mem, sp', 0, w, all);
    ghost var w0 := [0] + w;
    var sa;
    assert Bytes(all[..0]) == 0 by { NoStrings(mem[..], envp, argv); assert all[..0] == []; }
    sp', sa := PushTable(mem, sp', top, all, 0, |envp|, top, w0);
    ghost var w1 := Pointers(all, 0, |envp|, top) + w0;
    sp' := Push(mem, sp', 0, w1, all);
    ghost var w2 := [0] + w1;
    sp', sa := PushTable(mem, sp', sa, all, |envp|, |argv|, top, w2);
    ghost var w3 := Pointers(all, |envp|, |argv|, top) + w2;
    sp' := Push(mem, sp', |argv|, w3, all);
    assert [|argv|] + w3 == StartWords(argv, envp, elf, top);
  }

  /** The stack image: the memory behind the stack mapping and the offset of the saved stack pointer in it. */
  method BuildImage(argv: seq<CString>, envp: seq<CString>, elf: Elf, top: Word) returns (mem: array<Byte>, sp: nat)
    requires Bytes(envp + argv) <= STACK_BYTES < top && SpAfter(argv, envp) >= 0
    ensures mem.Length == STACK_BYTES && fresh(mem) && sp == SpAfter(argv, envp) && sp % 16 == 0
    ensures |argv| < TWO64 && Image(mem[..], sp, StartWords(argv, envp, elf, top), envp + argv)
  {
    hide Image, StartWords, Bytes, StringsAt;
    mem := new Byte[STACK_BYTES](i => 0);
    NoStrings(mem[..], envp, argv);
    var strp := PlaceStrings(mem, STACK_BYTES, envp, []);
    strp := PlaceStrings(mem, strp, argv, envp);
    sp := strp - strp % 16;
    var n := |argv| + |envp|;
    AlignedSp(n, strp);
    if (n + 1) % 2 == 1 { sp := sp - 8; }
    StartImage(mem[..], sp, envp + argv);
    sp := PushWords(mem, sp, argv, envp, elf, top);
  }

  /** The padding word makes the stack pointer a multiple of 16. */
  lemma AlignedSp(n: nat, strp: nat)
    ensures strp - strp % 16 == strp / 16 * 16 && (n + 1) % 2 < 2
    ensures (strp / 16 * 16 - 8 * (13 + n + (n + 1) % 2)) % 16 == 0
  {
    assert (n + 1) % 2 + 13 + n == 2 * ((n + 14) / 2);
    assert strp / 16 * 16 - 8 * (13 + n + (n + 1) % 2) == 16 * (strp / 16 - (n + 14) / 2);
  }

  // ----- the program's side: reading the stack by the psABI -----

  /** What a program finds on its stack at entry. */
  datatype Start = Start(argc: nat, argv: seq<seq<Byte>>, envp: seq<seq<Byte>>, aux: seq<(nat, nat)>)

  /** The string at `at`, up to its terminator. */
  function ReadString(s: seq<Byte>, at: nat): seq<Byte>
    decreases |s| - at
  {
    if at >= |s| || s[at] == 0 then [] else [s[at]] + ReadString(s, at + 1)
  }

  /** The strings a pointer table refers to, up to its null pointer; `base` is the user address of offset 0. */
  function ReadTable(s: seq<Byte>, base: nat, at: nat): seq<seq<Byte>>
    decreases |s| - at
  {
    if at + 8 > |s| || WordAt(s, at) == 0 then []
    else [if WordAt(s, at) >= base then ReadString(s, WordAt(s, at) - base) else []] + ReadTable(s, base, at + 8)
  }

  /** The auxiliary vector, up to its null entry. */
  function ReadAux(s: seq<Byte>, at: nat): seq<(nat, nat)>
    decreases |s| - at
  {
    if at + 16 > |s| || WordAt(s, at) == 0 then []
    else [(WordAt(s, at), WordAt(s, at + 8))] + ReadAux(s, at + 16)
  }

  /** Argument count at `rsp`, then the argument table, the environment table and the auxiliary vector. */
  function ReadStart(s: seq<Byte>, base: nat, rsp: nat): Start
    requires base <= rsp && rsp - base + 8 <= |s|
  {
    var at := rsp - base;
    var argv := ReadTable(s, base, at + 8);
    var envp := ReadTable(s, base, at + 8 + 8 * (|argv| + 1));
    Start(WordAt(s, at), argv, envp, ReadAux(s, at + 8 + 8 * (|argv| + 1) + 8 * (|envp| + 1)))
  }

  lemma {:induction false} ReadBackString(s: seq<Byte>, at: nat, c: CString)
    requires StringAt(s, at, c)
    ensures ReadString(s, at) == c
    decreases |c|
  {
    if c != [] {
      assert s[at..at + |c|][1..] == s[at + 1..at + 1 + |c[1..]|];
      assert s[at..at + |c|][0] == c[0];
      ReadBackString(s, at + 1, c[1..]);
      assert c == [c[0]] + c[1..];
    }
  }

  lemma {:induction false} ReadBackTable(s: seq<Byte>, at: nat, words: seq<Word>, strings: seq<CString>, from: nat,
                                         count: nat, top: Word)
    requires |s| == STACK_BYTES && StringsAt(s, strings)
    requires from + count <= |strings| && Bytes(strings) <= STACK_BYTES < top
    requires WordsAt(s, at, Pointers(strings, from, count, top) + [0] + words)
    ensures ReadTable(s, top - STACK_BYTES, at) == strings[from..from + count]
    decreases count
  {
    hide Bytes, WordAt, WordsAt, ToBytes, Pointers, StringsAt, Place, ReadString;
    var ws := Pointers(strings, from, count, top) + [0] + words;
    FirstWord(s, at, ws);
    if count > 0 {
      StringPlace(s, strings, from, top);
      NextPointers(strings, from, count, top, words);
      NextWords(s, at, ws);
      ReadBackTable(s, at + 8, words, strings, from + 1, count - 1, top);
      OneMore(strings, from, count);
    }
  }

  /** Where the pointer to a string leads. */
  lemma StringPlace(s: seq<Byte>, strings: seq<CString>, n: nat, top: Word)
    requires |s| == STACK_BYTES && StringsAt(s, strings) && n < |strings| && Bytes(strings) <= STACK_BYTES < top
    ensures var w := Address(strings, n, top);
            w != 0 && w >= top - STACK_BYTES && ReadString(s, w - (top - STACK_BYTES)) == strings[n]
  {
    hide Bytes, ReadString;
    BytesOfPrefix(strings, n + 1);
    assert StringAt(s, Place(strings, n), strings[n]);
    ReadBackString(s, Place(strings, n), strings[n]);
  }

  lemma NextPointers(strings: seq<CString>, from: nat, count: nat, top: Word, words: seq<Word>)
    requires 0 < count && from + count <= |strings| && Bytes(strings) <= STACK_BYTES < top
    ensures var ws := Pointers(strings, from, count, top) + [0] + words;
            && ws[0] == Address(strings, from, top)
            && ws[1..] == Pointers(strings, from + 1, count - 1, top) + [0] + words
  {
    hide Bytes, Pointers, Address;
    var p, p' := Pointers(strings, from, count, top), Pointers(strings, from + 1, count - 1, top);
    assert p[0] == Address(strings, from + 0, top);
    forall k | 0 <= k < count - 1 ensures p[k + 1] == p'[k] {
      assert p[k + 1] == Address(strings, from + (k + 1), top);
      assert p'[k] == Address(strings, from + 1 + k, top);
    }
  }

  lemma NextWords(s: seq<Byte>, at: nat, ws: seq<Word>)
    requires WordsAt(s, at, ws) && ws != []
    ensures WordsAt(s, at + 8, ws[1..])
  {
    hide WordAt;
    var rest := ws[1..];
    forall k | 0 <= k < |rest| ensures WordAt(s, at + 8 + 8 * k) == rest[k] {
      assert WordAt(s, at + 8 * (k + 1)) == ws[k + 1];
    }
  }

  lemma OneMore(strings: seq<CString>, from: nat, count: nat)
    requires 0 < count && from + count <= |strings|
    ensures [strings[from]] + strings[from + 1..from + 1 + (count - 1)] == strings[from..from + count]
  {
  }

  lemma ReadBackAux(s: seq<Byte>, at: nat, elf: Elf)
    requires WordsAt(s, at, AuxWords(elf))
    ensures ReadAux(s, at) == [(5, elf.phnum), (4, elf.phent), (3, elf.phdr), (9, elf.entry)]
  {
    hide WordAt;
    var w := AuxWords(elf);
    assert WordAt(s, at + 8 * 0) == w[0] && WordAt(s, at + 8 * 1) == w[1] && WordAt(s, at + 8 * 2) == w[2];
    assert WordAt(s, at + 8 * 3) == w[3] && WordAt(s, at + 8 * 4) == w[4] && WordAt(s, at + 8 * 5) == w[5];
    assert WordAt(s, at + 8 * 6) == w[6] && WordAt(s, at + 8 * 7) == w[7] && WordAt(s, at + 8 * 8) == w[8];
    assert ReadAux(s, at + 64) == [];
    assert ReadAux(s, at + 48) == [(9, elf.entry)];
    assert ReadAux(s, at + 32) == [(3, elf.phdr), (9, elf.entry)];
    assert ReadAux(s, at + 16) == [(4, elf.phent), (3, elf.phdr), (9, elf.entry)];
  }

  lemma WordsPart(s: seq<Byte>, at: nat, a: seq<Word>, b: seq<Word>, c: seq<Word>)
    requires WordsAt(s, at, a + b + c)
    ensures WordsAt(s, at + 8 * |a|, b) && WordsAt(s, at + 8 * |a|, b + c)
  {
    hide WordAt;
    var all := a + b + c;
    forall k | 0 <= k < |b + c| ensures WordAt(s, at + 8 * |a| + 8 * k) == (b + c)[k] {
      assert WordAt(s, at + 8 * (|a| + k)) == all[|a| + k];
    }
    forall k | 0 <= k < |b| ensures WordAt(s, at + 8 * |a| + 8 * k) == b[k] {
      assert (b + c)[k] == b[k];
    }
  }

  /** The words of the start image, one part after the other. */
  lemma StartLayout(s: seq<Byte>, sp: nat, n: Word, p: seq<Word>, q: seq<Word>, aux: seq<Word>)
    requires WordsAt(s, sp, [n] + p + [0] + q + [0] + aux)
    ensures sp + 8 <= |s| && WordAt(s, sp) == n
    ensures WordsAt(s, sp + 8, p + [0] + (q + [0] + aux))
    ensures WordsAt(s, sp + 8 + 8 * (|p| + 1), q + [0] + aux)
    ensures WordsAt(s, sp + 8 + 8 * (|p| + 1) + 8 * (|q| + 1), aux)
  {
    hide WordsAt, WordAt;
    var ws := [n] + p + [0] + q + [0] + aux;
    FirstWord(s, sp, ws);
    assert ws == [n] + (p + [0] + (q + [0] + aux)) + [];
    WordsPart(s, sp, [n], p + [0] + (q + [0] + aux), []);
    assert p + [0] + (q + [0] + aux) == (p + [0]) + (q + [0] + aux) + [];
    WordsPart(s, sp + 8, p + [0], q + [0] + aux, []);
    assert q + [0] + aux == (q + [0]) + aux + [];
    WordsPart(s, sp + 8 + 8 * (|p| + 1), q + [0], aux, []);
  }

  /** Both pointer tables are read back. */
  lemma ReadBackTables(s: seq<Byte>, argv: seq<CString>, envp: seq<CString>, at: nat, at': nat, aux: seq<Word>,
                       top: Word)
    requires |s| == STACK_BYTES && StringsAt(s, envp + argv) && Bytes(envp + argv) <= STACK_BYTES < top
    requires WordsAt(s, at, Pointers(envp + argv, |envp|, |argv|, top) + [0] +
                            (Pointers(envp + argv, 0, |envp|, top) + [0] + aux))
    requires WordsAt(s, at', Pointers(envp + argv, 0, |envp|, top) + [0] + aux)
    ensures ReadTable(s, top - STACK_BYTES, at) == argv && ReadTable(s, top - STACK_BYTES, at') == envp
  {
    hide *;
    var all := envp + argv;
    Halves(envp, argv);
    ReadBackTable(s, at, Pointers(all, 0, |envp|, top) + [0] + aux, all, |envp|, |argv|, top);
    ReadBackTable(s, at', aux, all, 0, |envp|, top);
  }

  lemma Halves(envp: seq<CString>, argv: seq<CString>)
    ensures (envp + argv)[|envp|..|envp| + |argv|] == argv && (envp + argv)[0..0 + |envp|] == envp
  {
  }

  lemma StartWordsAre(argv: seq<CString>, envp: seq<CString>, elf: Elf, top: Word)
    requires |argv| < TWO64 && Bytes(envp + argv) <= STACK_BYTES < top
    ensures StartWords(argv, envp, elf, top) ==
            [|argv|] + Pointers(envp + argv, |envp|, |argv|, top) + [0] + Pointers(envp + argv, 0, |envp|, top) + [0]
              + AuxWords(elf)
  {
    hide Bytes, Pointers, AuxWords;
  }

  /** What the reader finds, given what the parts read as. */
  lemma JoinStart(s: seq<Byte>, base: nat, sp: nat, n: nat, argv: seq<seq<Byte>>, envp: seq<seq<Byte>>,
                  aux: seq<(nat, nat)>)
    requires sp + 8 <= |s| && WordAt(s, sp) == n
    requires ReadTable(s, base, sp + 8) == argv && ReadTable(s, base, sp + 8 + 8 * (|argv| + 1)) == envp
    requires ReadAux(s, sp + 8 + 8 * (|argv| + 1) + 8 * (|envp| + 1)) == aux
    ensures ReadStart(s, base, base + sp) == Start(n, argv, envp, aux)
  {
    hide WordAt, ReadTable, ReadAux;
  }

  /** The program gets back exactly what the kernel was given. */
  lemma ReadBack(s: seq<Byte>, argv: seq<CString>, envp: seq<CString>, elf: Elf, top: Word, sp: nat)
    requires |argv| < TWO64 && Bytes(envp + argv) <= STACK_BYTES < top
    requires Image(s, sp, StartWords(argv, envp, elf, top), envp + argv)
    ensures ReadStart(s, top - STACK_BYTES, top - STACK_BYTES + sp) ==
            Start(|argv|, argv, envp, [(5, elf.phnum), (4, elf.phent), (3, elf.phdr), (9, elf.entry)])
  {
    hide *;
    var all, base := envp + argv, top - STACK_BYTES;
    var p, q, aux := Pointers(all, |envp|, |argv|, top), Pointers(all, 0, |envp|, top), AuxWords(elf);
    StartWordsAre(argv, envp, elf, top);
    ImageParts(s, sp, StartWords(argv, envp, elf, top), all);
    StartLayout(s, sp, |argv|, p, q, aux);
    var at := sp + 8;
    var at' := at + 8 * (|argv| + 1);
    ReadBackTables(s, argv, envp, at, at', aux, top);
    ReadBackAux(s, at' + 8 * (|envp| + 1), elf);
    JoinStart(s, base, sp, |argv|, argv, envp, [(5, elf.phnum), (4, elf.phent), (3, elf.phdr), (9, elf.entry)]);
  }

  lemma ImageParts(s: seq<Byte>, sp: nat, words: seq<Word>, strings: seq<CString>)
    requires Image(s, sp, words, strings)
    ensures |s| == STACK_BYTES && StringsAt(s, strings) && WordsAt(s, sp, words)
  {
    hide StringsAt, WordsAt, Bytes;
  }

  lemma ImageStart(s: seq<Byte>, sp: nat, argv: seq<CString>, envp: seq<CString>, elf: Elf, top: Word)
    requires |argv| < TWO64 && Bytes(envp + argv) <= STACK_BYTES < top
    requires Image(s, sp, StartWords(argv, envp, elf, top), envp + argv)
    ensures sp + 8 <= STACK_BYTES
  {
    hide Bytes, WordAt, StringsAt;
  }

  lemma FirstWord(s: seq<Byte>, sp: nat, ws: seq<Word>)
    requires WordsAt(s, sp, ws) && ws != []
    ensures sp + 8 <= |s| && WordAt(s, sp) == ws[0]
  {
    assert WordAt(s, sp + 8 * 0) == ws[0];
  }
}
