/** Four-level page tables stored in physical frames (kernel/mem/vmm.c), as
    values: which frames hold tables, and the flat view a table tree denotes.
    The lemmas say how one store into a table changes the flat view. */
module PageTables {
  import opened Bits
  import opened PageEntries

  /** One 4 KiB frame as 512 words; a table, or the contents of a data page. */
  type Frame = f: seq<Word> | |f| == 512 witness seq(512, i => 0)

  type Mem = seq<Frame>

  const ZERO: Frame := seq(512, i => 0)

  /** A place in the table tree: the root, or the index path that leads to the table. */
  datatype Node = L4 | L3(i: nat) | L2(i: nat, j: nat) | L1(i: nat, j: nat, k: nat)

  predicate Indexed(n: Node) {
    match n
    case L4 => true
    case L3(i) => i < 512
    case L2(i, j) => i < 512 && j < 512
    case L1(i, j, k) => i < 512 && j < 512 && k < 512
  }

  function Kid(n: Node, x: nat): Node
    requires !n.L1?
  {
    match n
    case L4 => L3(x)
    case L3(i) => L2(i, x)
    case L2(i, j) => L1(i, j, x)
  }

  function Parent(n: Node): Node
    requires !n.L4?
  {
    match n
    case L3(i) => L4
    case L2(i, j) => L3(i)
    case L1(i, j, k) => L2(i, j)
  }

  /** Which frame holds the table at each node of an address space. */
  type Tables = map<Node, nat>

  /** Does entry `e` of a table at `n` point to a further table? */
  predicate IsTable(n: Node, e: Word) { Present(e) && !(n.L2? && Large(e)) }

  ghost predicate Linked(m: Mem, t: Tables, n: Node, x: nat)
    requires n in t && t[n] < |m| && !n.L1? && x < 512
  {
    var e := m[t[n]][x];
    && (Kid(n, x) in t <==> IsTable(n, e))
    && (Kid(n, x) in t ==> t[Kid(n, x)] == FrameOf(e))
    && (n.L2? && Large(e) ==> Present(e))
  }

  /** `t` is exactly the tree of tables reachable in `m`, and no frame is used for two tables. */
  ghost predicate Wf(m: Mem, t: Tables) {
    && L4 in t
    && (forall n :: n in t ==> Indexed(n) && t[n] < |m|)
    && (forall n :: n in t && !n.L4? ==> Parent(n) in t)
    && (forall n, x: nat :: n in t && !n.L1? && x < 512 ==> Linked(m, t, n, x))
    && (forall n, n' :: n in t && n' in t && t[n] == t[n'] ==> n == n')
  }

  // ----- the flat view -----

  /** The 4 KiB leaf word of a page, 0 when no page table covers it. */
  ghost function Pte(m: Mem, t: Tables, p: Path): Word
    requires Wf(m, t) && InTables(p)
  {
    if L1(p.i, p.j, p.k) in t then m[t[L1(p.i, p.j, p.k)]][p.l] else 0
  }

  /** The 2 MiB leaf word that covers a page, 0 when there is none. */
  ghost function Pde(m: Mem, t: Tables, p: Path): Word
    requires Wf(m, t) && InTables(p)
  {
    if L2(p.i, p.j) in t && Large(m[t[L2(p.i, p.j)]][p.k]) then m[t[L2(p.i, p.j)]][p.k] else 0
  }

  /** Two paths lie in the same 2 MiB region. */
  predicate SameLarge(p: Path, q: Path) { p.i == q.i && p.j == q.j && p.k == q.k }

  /** A region is not covered by both kinds of leaf. */
  lemma OneKind(m: Mem, t: Tables, p: Path)
    requires Wf(m, t) && InTables(p)
    ensures Pde(m, t, p) != 0 ==> Large(Pde(m, t, p)) && Present(Pde(m, t, p)) && Pte(m, t, p) == 0
  {
    if L2(p.i, p.j) in t {
      assert Linked(m, t, L2(p.i, p.j), p.k);
    }
  }

  // ----- single stores -----

  function Put(m: Mem, f: nat, x: nat, e: Word): (r: Mem)
    requires f < |m| && x < 512
    ensures |r| == |m|
  {
    m[f := m[f][x := e]]
  }

  ghost predicate SameView(m: Mem, t: Tables, m': Mem, t': Tables)
    requires Wf(m, t) && Wf(m', t')
  {
    forall p :: InTables(p) ==> Pte(m', t', p) == Pte(m, t, p) && Pde(m', t', p) == Pde(m, t, p)
  }

  /** Memory outside the tables does not matter. */
  lemma Stable(m: Mem, m': Mem, t: Tables)
    requires Wf(m, t) && |m'| >= |m|
    requires forall n :: n in t ==> m'[t[n]] == m[t[n]]
    ensures Wf(m', t) && SameView(m, t, m', t)
  {
    hide FrameOf, Present, Large;
    forall n, x: nat | n in t && !n.L1? && x < 512 ensures Linked(m', t, n, x) {
      assert Linked(m, t, n, x);
    }
  }

  /** A store into a bottom table changes one page of the view. */
  lemma SetLeaf(m: Mem, t: Tables, p: Path, e: Word)
    requires Wf(m, t) && InTables(p) && L1(p.i, p.j, p.k) in t
    ensures var m' := Put(m, t[L1(p.i, p.j, p.k)], p.l, e);
            && Wf(m', t)
            && forall q :: InTables(q) ==>
                 && Pte(m', t, q) == (if q == p then e else Pte(m, t, q))
                 && Pde(m', t, q) == Pde(m, t, q)
  {
    hide FrameOf, Present, Large;
    var m' := Put(m, t[L1(p.i, p.j, p.k)], p.l, e);
    forall n, x: nat | n in t && !n.L1? && x < 512 ensures Linked(m', t, n, x) {
      assert Linked(m, t, n, x);
    }
  }

  lemma ZeroWord()
    ensures !Present(0) && !Large(0)
  {}

  /** `f` is a zeroed frame outside the tree, and `e` the word that links it at `Kid(n, x)`. */
  ghost predicate Linkable(m: Mem, t: Tables, n: Node, x: nat, f: nat, e: Word) {
    && Wf(m, t) && n in t && !n.L1? && x < 512
    && Kid(n, x) !in t && (n.L2? ==> !Large(m[t[n]][x]))
    && f < |m| && f !in t.Values && (forall y :: 0 <= y < 512 ==> m[f][y] == 0)
    && Present(e) && !Large(e) && FrameOf(e) == f
  }

  /** Linking a zeroed frame as a new table keeps the tree well formed ... */
  lemma AddTableWf(m: Mem, t: Tables, n: Node, x: nat, f: nat, e: Word)
    requires Linkable(m, t, n, x, f, e)
    ensures Wf(Put(m, t[n], x, e), t[Kid(n, x) := f])
  {
    hide FrameOf, Present, Large;
    assert !Present(0) && !Large(0) by { ZeroWord(); }
    var c := Kid(n, x);
    var m', t' := Put(m, t[n], x, e), t[c := f];
    forall n', y: nat | n' in t' && !n'.L1? && y < 512 ensures Linked(m', t', n', y) {
      if n' == c {
        assert m'[f][y] == 0;
        assert Parent(Kid(c, y)) == c;
      } else {
        assert Linked(m, t, n', y);
        assert Kid(n', y) == c ==> n' == n && y == x;
      }
    }
  }

  /** ... and leaves the view as it was. */
  lemma AddTable(m: Mem, t: Tables, n: Node, x: nat, f: nat, e: Word)
    requires Linkable(m, t, n, x, f, e)
    ensures Wf(Put(m, t[n], x, e), t[Kid(n, x) := f])
    ensures SameView(m, t, Put(m, t[n], x, e), t[Kid(n, x) := f])
  {
    hide FrameOf, Present, Large, Linked;
    AddTableWf(m, t, n, x, f, e);
    assert !Present(0) && !Large(0) by { ZeroWord(); }
    var m', t' := Put(m, t[n], x, e), t[Kid(n, x) := f];
    forall p | InTables(p) ensures Pte(m', t', p) == Pte(m, t, p) && Pde(m', t', p) == Pde(m, t, p) {
      assert t[n] in t.Values;
    }
  }

  /** Storing a 2 MiB leaf replaces whatever covered its region. */
  lemma SetLarge(m: Mem, t: Tables, p: Path, e: Word)
    requires Wf(m, t) && InTables(p) && L2(p.i, p.j) in t
    requires if e == 0 then L1(p.i, p.j, p.k) !in t else Present(e) && Large(e)
    ensures var m', t' := Put(m, t[L2(p.i, p.j)], p.k, e), t - {L1(p.i, p.j, p.k)};
            && Wf(m', t')
            && forall q :: InTables(q) ==>
                 && Pte(m', t', q) == (if SameLarge(p, q) then 0 else Pte(m, t, q))
                 && Pde(m', t', q) == (if SameLarge(p, q) then e else Pde(m, t, q))
  {
    hide FrameOf, Present, Large;
    assert !Present(0) && !Large(0) by { ZeroWord(); }
    var n := L2(p.i, p.j);
    var m', t' := Put(m, t[n], p.k, e), t - {L1(p.i, p.j, p.k)};
    forall n', y: nat | n' in t' && !n'.L1? && y < 512 ensures Linked(m', t', n', y) {
      assert Linked(m, t, n', y);
    }
  }
}
