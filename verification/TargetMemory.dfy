/** The memory of the debugged target as the probe sees it: 32-bit addresses that
    wrap around, and block reads that may fail. */
module TargetMemory {

  const ADDRESS_SPACE := 0x1_0000_0000

  type Address = a: int | 0 <= a < ADDRESS_SPACE witness 0

  function Wrap(a: nat): Address {
    a % ADDRESS_SPACE
  }

  lemma WrapAdd(a: nat, i: nat)
    ensures Wrap(Wrap(a) + i) == Wrap(a + i)
  {
    assert a == ADDRESS_SPACE * (a / ADDRESS_SPACE) + Wrap(a);
    var k := a / ADDRESS_SPACE;
    assert (a + i) - ADDRESS_SPACE * k == Wrap(a) + i;
  }

  /** A memory image. `readable(a, n)` says whether a block read of n bytes at a succeeds. */
  datatype Memory = Memory(byteAt: Address -> bv8, readable: (Address, nat) -> bool) {

    function Bytes(a: nat, len: nat): (s: seq<bv8>)
      ensures |s| == len
    {
      seq(len, i requires 0 <= i < len => byteAt(Wrap(a + i)))
    }

    /** target_mem_read: fills dest[offset..offset + len] or reports a failure, in which
        case that stretch of dest holds nothing useful. */
    method Read(dest: array<bv8>, offset: nat, a: Address, len: nat) returns (failed: bool)
      requires offset + len <= dest.Length
      modifies dest
      ensures failed == !readable(a, len)
      ensures !failed ==> dest[offset..offset + len] == Bytes(a, len)
      ensures dest[..offset] == old(dest[..offset])
      ensures dest[offset + len..] == old(dest[offset + len..])
    {
      failed := !readable(a, len);
      if !failed {
        forall i | 0 <= i < len {
          dest[offset + i] := byteAt(Wrap(a + i));
        }
      }
    }

    lemma BytesWrap(a: nat, len: nat)
      ensures Bytes(Wrap(a), len) == Bytes(a, len)
    {
      forall i {:trigger Bytes(a, len)[i]} | 0 <= i < len
        ensures Bytes(Wrap(a), len)[i] == Bytes(a, len)[i]
      {
        WrapAdd(a, i);
      }
    }

    lemma BytesSplit(a: nat, m: nat, n: nat)
      ensures Bytes(a, m + n) == Bytes(a, m) + Bytes(a + m, n)
    {}

    lemma BytesTake(a: nat, m: nat, n: nat)
      requires m <= n
      ensures Bytes(a, n)[..m] == Bytes(a, m)
    {}
  }
}
