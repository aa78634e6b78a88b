/** An RTT ring buffer in target memory, shared with a target that keeps running. */
module RttRing {
  import opened TargetMemory

  type byte = bv8

  /** Position i places behind `from` in a ring of `size` slots. */
  function Slot(from: nat, i: nat, size: nat): nat
    requires from < size && i <= size
    ensures Slot(from, i, size) < size
  {
    if from + i < size then from + i else from + i - size
  }

  /** How far `to` lies behind `from`. */
  function Distance(from: nat, to: nat, size: nat): (d: nat)
    requires from < size && to < size
    ensures d < size && Slot(from, d, size) == to
  {
    if to >= from then to - from else to + size - from
  }

  lemma DistanceOfSlot(from: nat, i: nat, size: nat)
    requires from < size && i < size
    ensures Distance(from, Slot(from, i, size), size) == i
  {
  }

  lemma SlotAdd(from: nat, i: nat, j: nat, size: nat)
    requires from < size && i + j <= size
    ensures Slot(Slot(from, i, size), j, size) == Slot(from, i + j, size)
  {
  }

  type Image = Address -> byte

  /** The contents of n slots of the ring at `base`. */
  function Slots(mem: Image, base: nat, size: nat, from: nat, n: nat): (s: seq<byte>)
    requires from < size && n <= size && base + size <= ADDRESS_SPACE
    ensures |s| == n
  {
    seq(n, i requires 0 <= i < n => mem(base + Slot(from, i, size)))
  }

  lemma SlotsConcat(mem: Image, base: nat, size: nat, from: nat, m: nat, n: nat)
    requires from < size && m < size && m + n <= size && base + size <= ADDRESS_SPACE
    ensures Slots(mem, base, size, from, m + n) ==
            Slots(mem, base, size, from, m) + Slots(mem, base, size, Slot(from, m, size), n)
  {
    forall i | 0 <= i < n ensures Slot(Slot(from, m, size), i, size) == Slot(from, m + i, size) {
      SlotAdd(from, m, i, size);
    }
  }

  function Poked(mem: Image, a: Address, b: byte): Image {
    (x: Address) => if x == a then b else mem(x)
  }

  /** Writes elsewhere leave the slots alone. */
  lemma SlotsKept(mem: Image, base: nat, size: nat, from: nat, n: nat, a: Address, b: byte)
    requires from < size && n < size && base + size <= ADDRESS_SPACE
    requires !(base <= a < base + size && Distance(from, a - base, size) < n)
    ensures Slots(Poked(mem, a, b), base, size, from, n) == Slots(mem, base, size, from, n)
  {
    forall i | 0 <= i < n ensures base + Slot(from, i, size) != a {
      DistanceOfSlot(from, i, size);
    }
  }

  /** What the target may do between two accesses of the probe: write any byte of memory outside
      the queue, and append slots behind the head to the queue, keeping one slot free. */
  datatype TargetStep = Poke(a: Address, b: byte) | Publish(n: nat)

  class Target {
    const bufAddr: nat
    const size: nat
    var mem: Image
    var head: nat
    var tail: nat
    // Every run is some agenda, of what the target does before each step of the probe, and some
    // pattern of failures, indexed by the accesses of the probe so far.
    var clock: nat
    const agenda: nat -> seq<TargetStep>
    var accesses: nat
    const fails: nat -> bool
    ghost var written: seq<byte>      // all the target ever appended
    ghost var consumed: seq<byte>     // the part of it given up by moves of the tail

    constructor (bufAddr: nat, size: nat, mem: Image, agenda: nat -> seq<TargetStep>, fails: nat -> bool)
      requires 0 < bufAddr && 0 < size && bufAddr + size <= ADDRESS_SPACE
      ensures Valid() && written == [] && consumed == [] && this.bufAddr == bufAddr && this.size == size
    {
      this.bufAddr, this.size := bufAddr, size;
      this.mem, head, tail, clock, accesses := mem, 0, 0, 0, 0;
      this.agenda, this.fails := agenda, fails;
      written, consumed := [], [];
    }

    predicate Shape()
      reads this
    {
      0 < bufAddr && bufAddr + size <= ADDRESS_SPACE && head < size && tail < size
    }

    function Used(): nat
      requires Shape()
      reads this
    {
      Distance(tail, head, size)
    }

    /** The bytes between tail and head, oldest first. */
    ghost function Queued(): (s: seq<byte>)
      requires Shape()
      reads this
      ensures |s| == Used()
    {
      Slots(mem, bufAddr, size, tail, Used())
    }

    ghost predicate Valid()
      reads this
    {
      Shape() && consumed + Queued() == written
    }

    predicate IsQueued(a: Address)
      requires Shape()
      reads this
    {
      bufAddr <= a < bufAddr + size && Distance(tail, a - bufAddr, size) < Used()
    }

    /** Bytes in the queue stay where and what they are. */
    lemma QueuedByte(i: nat)
      requires Valid() && i < Used()
      ensures |consumed| + i < |written| && mem(bufAddr + Slot(tail, i, size)) == written[|consumed| + i]
    {
      assert Queued()[i] == written[|consumed| + i];
    }

    /** A write of any byte outside the queue, or an append of any length that leaves a slot free. */
    method Do(s: TargetStep)
      requires Valid()
      modifies `mem, `head, `written
      ensures Valid() && old(written) <= written
      ensures s.Poke? ==>
        mem == if old(IsQueued(s.a)) then old(mem) else Poked(old(mem), s.a, s.b)
      ensures s.Publish? ==>
        && mem == old(mem) && Used() == old(Used()) + if old(Used()) + s.n < size then s.n else 0
    {
      hide Distance, Slots, Slot;
      match s {
        case Poke(a, b) => {
          if !IsQueued(a) {
            SlotsKept(mem, bufAddr, size, tail, Used(), a, b);
            mem := Poked(mem, a, b);
          }
        }
        case Publish(n) => {
          var used := Used();
          if used + n < size {
            written := written + Slots(mem, bufAddr, size, head, n);
            SlotsConcat(mem, bufAddr, size, tail, used, n);
            SlotAdd(tail, used, n, size);
            DistanceOfSlot(tail, used + n, size);
            assert consumed + (Queued() + Slots(mem, bufAddr, size, head, n)) == written;
            head := Slot(head, n, size);
          }
        }
      }
    }

    /** The target runs until the next step of the probe. */
    method Run()
      requires Valid()
      modifies `mem, `head, `written, `clock
      ensures Valid() && old(written) <= written
    {
      var steps := agenda(clock);
      for k := 0 to |steps|
        invariant Valid() && old(written) <= written
      {
        Do(steps[k]);
      }
      clock := clock + 1;
    }

    /** The target runs until the next access of the probe, which fails or not. */
    method Access() returns (failed: bool)
      requires Valid()
      modifies `mem, `head, `written, `clock, `accesses
      ensures Valid() && old(written) <= written
      ensures failed == fails(old(accesses)) && accesses == old(accesses) + 1
    {
      Run();
      failed := fails(accesses);
      accesses := accesses + 1;
    }
  }

  /** One of the accesses from the a-th up to the b-th fails. */
  ghost predicate Fault(fails: nat -> bool, a: nat, b: nat) {
    exists k: nat | a <= k < b :: fails(k)
  }

  lemma FaultNone(fails: nat -> bool, a: nat)
    ensures !Fault(fails, a, a)
  {
  }

  lemma FaultOne(fails: nat -> bool, a: nat)
    ensures Fault(fails, a, a + 1) <==> fails(a)
  {
  }

  lemma FaultConcat(fails: nat -> bool, a: nat, b: nat, c: nat)
    requires a <= b <= c
    ensures Fault(fails, a, c) <==> Fault(fails, a, b) || Fault(fails, b, c)
  {
  }
}
