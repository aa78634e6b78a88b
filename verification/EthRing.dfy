/** Rings of DMA descriptors laid out in memory, each with its buffer behind it, as
    libopencm3/lib/ethernet/mac_stm32fxx7.c builds them. */
module EthRing {
  import opened EthMemory

  /** Where a ring lies: n cells of `stride` bytes from base on, the descriptor in the first sz
      bytes of a cell and the buffer in the rest. */
  datatype Layout = Layout(base: nat, n: nat, sz: nat, room: nat) {
    ghost predicate Valid() { n > 0 && sz >= 16 && base > 0 && Cell(n) < TWO_32 }

    function Stride(): nat { sz + room }

    /** The address of cell i. */
    function Cell(i: nat): nat { if i == 0 then base else Cell(i - 1) + Stride() }

    /** The index after i, around the ring. */
    function After(i: nat): (j: nat)
      requires i < n
      ensures j < n
    {
      if i + 1 == n then 0 else i + 1
    }

    /** The index j places after i. */
    function Plus(i: nat, j: nat): (k: nat)
      requires i < n && j <= n
      ensures k < n
    {
      if i + j < n then i + j else i + j - n
    }

    lemma {:induction false} CellOrder(i: nat, j: nat)
      requires i < j
      ensures Cell(i) + Stride() <= Cell(j)
      decreases j
    {
      if i + 1 < j {
        CellOrder(i, j - 1);
      }
    }

    lemma {:induction false} CellIsProduct(i: nat)
      ensures Cell(i) == base + i * Stride()
    {
      if i > 0 {
        CellIsProduct(i - 1);
        assert i * Stride() == (i - 1) * Stride() + Stride();
      }
    }

    /** Cells do not overlap, and lie between base and the end of the area. */
    lemma CellsDisjoint(i: nat, j: nat)
      requires i < n && j < n && i != j
      ensures Cell(i) + Stride() <= Cell(j) || Cell(j) + Stride() <= Cell(i)
      ensures Cell(i) != Cell(j) || Stride() == 0
    {
      if i < j {
        CellOrder(i, j);
      } else {
        CellOrder(j, i);
      }
    }

    lemma CellBounds(i: nat)
      requires i < n
      ensures base <= Cell(i) && Cell(i) + Stride() <= Cell(n)
    {
      CellOrder(i, n);
      if i > 0 {
        CellOrder(0, i);
      }
    }

    lemma PlusAfter(i: nat, j: nat)
      requires i < n && j < n
      ensures After(Plus(i, j)) == Plus(i, j + 1) == Plus(After(i), j)
    {
    }

    /** Every cell is met once on the way around. */
    lemma PlusDistinct(i: nat, j: nat, k: nat)
      requires i < n && j < n && k < n && j != k
      ensures Plus(i, j) != Plus(i, k)
    {
    }

    /** The links: cell i points at its buffer and at the next cell. */
    ghost predicate Linked(m: Image) {
      forall i: nat | i < n :: LinkedCell(m, i)
    }

    ghost predicate LinkedCell(m: Image, i: nat)
      requires i < n
    {
      Word(m, Cell(i) + 8) == Cell(i) + sz && Word(m, Cell(i) + 12) == Cell(After(i))
    }

    /** Changes of the first two words and of the buffer of a cell leave all links. */
    lemma LinksKept(after: Image, before: Image, k: nat, a: nat, len: nat)
      requires n > 0 && sz >= 16 && k < n && Linked(before) && Only(after, before, a, len)
      requires (Cell(k) <= a && a + len <= Cell(k) + 8) || (Cell(k) + sz <= a && a + len <= Cell(k) + Stride())
      ensures Linked(after)
    {
      hide Cell, Word, Only;
      forall i: nat | i < n ensures LinkedCell(after, i) {
        assert LinkedCell(before, i);
        if i != k {
          CellsDisjoint(i, k);
        }
        WordKept(after, before, a, len, Cell(i) + 8);
        WordKept(after, before, a, len, Cell(i) + 12);
      }
    }

    /** Following the links k times from cell i. */
    function Walk(m: Image, a: nat, k: nat): nat
      decreases k
    {
      if k == 0 then a else Walk(m, Word(m, a + 12), k - 1)
    }

    /** The links form one cycle of exactly n cells: k steps from cell i lead to cell i + k, and n
        steps are the first to come back. */
    lemma {:induction false} WalkIsPlus(m: Image, i: nat, k: nat)
      requires Linked(m) && i < n && k <= n
      ensures Walk(m, Cell(i), k) == Cell(Plus(i, k))
      decreases k
    {
      hide Cell, Word;
      if k > 0 {
        assert LinkedCell(m, i);
        WalkIsPlus(m, After(i), k - 1);
        PlusAfter(i, k - 1);
      }
    }

    lemma CycleOfN(m: Image, i: nat, k: nat)
      requires Linked(m) && i < n && 0 < k <= n && Stride() > 0
      ensures Walk(m, Cell(i), k) == Cell(i) <==> k == n
    {
      hide Cell, Walk;
      WalkIsPlus(m, i, k);
      if k < n {
        CellsDisjoint(Plus(i, k), i);
      }
    }
  }
}
