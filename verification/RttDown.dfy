/** The down channel of RTT, from host to target: read_rtt of main/rtt.c, with the target taking
    bytes out between any two accesses of the probe. */
module RttDown {
  import opened Arithmetic
  import opened TargetMemory
  import opened RttRing
  import opened RttUp

  /** What the target may do in between: write memory outside the ring, and take bytes out. */
  datatype SinkStep = Scribble(a: Address, b: byte) | Consume(n: nat)

  class Sink {
    const bufAddr: nat
    const size: nat
    var mem: Image
    var head: nat
    var tail: nat
    const agenda: nat -> seq<SinkStep>
    var accesses: nat                 // of the probe so far
    const fails: nat -> bool
    ghost var free: seq<nat>          // how many bytes the ring had room for, access by access
    ghost var sent: seq<byte>         // all that was ever put in the queue
    ghost var received: seq<byte>     // what the target has taken out of it

    constructor (bufAddr: nat, size: nat, mem: Image, agenda: nat -> seq<SinkStep>, fails: nat -> bool)
      requires 0 < bufAddr && 0 < size && bufAddr + size <= ADDRESS_SPACE
      ensures Valid() && sent == [] && received == [] && accesses == 0
      ensures this.size == size && Used() == 0 && this.fails == fails
    {
      this.bufAddr, this.size := bufAddr, size;
      this.mem, head, tail, accesses := mem, 0, 0, 0;
      this.agenda, this.fails := agenda, fails;
      sent, received, free := [], [], [];
    }

    predicate Shape()
      reads this
    {
      0 < bufAddr && bufAddr + size <= ADDRESS_SPACE && head < size && tail < size
    }

    function Used(): nat
      requires Shape()
      reads this
    {
      Distance(tail, head, size)
    }

    ghost function Queued(): (s: seq<byte>)
      requires Shape()
      reads this
      ensures |s| == Used()
    {
      Slots(mem, bufAddr, size, tail, Used())
    }

    ghost predicate Valid()
      reads this
    {
      Shape() && received + Queued() == sent && |free| == accesses
    }

    /** The target only takes bytes out: slots that were free stay free. */
    method Do(s: SinkStep)
      requires Valid()
      modifies `mem, `tail, `received
      ensures Valid() && old(received) <= received && Used() <= old(Used())
      ensures forall x: nat :: bufAddr <= x < bufAddr + size ==> mem(x) == old(mem)(x)
    {
      hide Distance, Slots, Slot;
      match s {
        case Scribble(a, b) => {
          if !(bufAddr <= a < bufAddr + size) {
            SlotsKept(mem, bufAddr, size, tail, Used(), a, b);
            mem := Poked(mem, a, b);
          }
        }
        case Consume(n) => {
          var used := Used();
          if n <= used {
            SlotsConcat(mem, bufAddr, size, tail, n, used - n);
            DistanceFromSlot(tail, head, n, size);
            ghost var taken := Slots(mem, bufAddr, size, tail, n);
            tail := Slot(tail, n, size);
            assert received + (taken + Queued()) == sent;
            received := received + taken;
          }
        }
      }
    }

    /** The target runs until the next access of the probe. */
    method Run()
      requires Valid()
      modifies `mem, `tail, `received
      ensures Valid() && old(received) <= received && Used() <= old(Used())
      ensures forall x: nat :: bufAddr <= x < bufAddr + size ==> mem(x) == old(mem)(x)
    {
      var steps := agenda(accesses);
      for k := 0 to |steps|
        invariant Valid() && old(received) <= received && Used() <= old(Used())
        invariant forall x: nat :: bufAddr <= x < bufAddr + size ==> mem(x) == old(mem)(x)
      {
        Do(steps[k]);
      }
    }

    /** The target runs, then the probe makes an access, which fails or not. */
    method Access() returns (failed: bool)
      requires Valid()
      modifies `mem, `tail, `received, `accesses, `free
      ensures Valid() && old(received) <= received && Used() <= old(Used())
      ensures forall x: nat :: bufAddr <= x < bufAddr + size ==> mem(x) == old(mem)(x)
      ensures failed == fails(old(accesses)) && accesses == old(accesses) + 1
      ensures free == old(free) + [size - 1 - Used()]
    {
      Run();
      failed := fails(accesses);
      accesses := accesses + 1;
      free := free + [size - 1 - Used()];
    }
  }

  lemma DistanceFromSlot(from: nat, to: nat, n: nat, size: nat)
    requires from < size && to < size && n <= Distance(from, to, size)
    ensures Distance(Slot(from, n, size), to, size) == Distance(from, to, size) - n
  {
  }

  lemma SlotsSame(a: Image, b: Image, base: nat, size: nat, from: nat, n: nat)
    requires from < size && n <= size && base + size <= ADDRESS_SPACE
    requires forall x: nat :: base <= x < base + size ==> a(x) == b(x)
    ensures Slots(a, base, size, from, n) == Slots(b, base, size, from, n)
  {
    forall i | 0 <= i < n ensures a(base + Slot(from, i, size)) == b(base + Slot(from, i, size)) {
    }
  }

  /** The slot behind the pending bytes is neither queued nor pending. */
  lemma NextSlotIsFree(tail: nat, head: nat, n: nat, size: nat)
    requires tail < size && head < size && Distance(tail, head, size) + n < size
    ensures Distance(head, Slot(head, n, size), size) == n
    ensures Distance(tail, Slot(head, n, size), size) == Distance(tail, head, size) + n
  {
  }

  /** The guard of the source: the ring is full when the slot after the next is the tail. */
  lemma FullWhen(tail: nat, head: nat, n: nat, size: nat)
    requires tail < size && head < size && Distance(tail, head, size) + n < size
    ensures Slot(Slot(head, n, size), 1, size) == tail <==> Distance(tail, head, size) + n + 1 == size
    ensures Slot(Slot(head, n, size), 1, size) == Slot(head, n + 1, size)
  {
  }

  class DownChannel {
    const t: Sink
    var head: nat
    var tail: nat
    var input: seq<byte>          // what rtt_getchar will return

    constructor (t: Sink, input: seq<byte>)
      ensures this.t == t && this.input == input
    {
      this.t, this.input := t, input;
      head, tail := 0, 0;
    }

    /** n bytes wait behind the head of the target for the head to move over them. */
    ghost predicate Pending(taken: seq<byte>)
      reads this, t
    {
      && t.Valid() && t.Used() + |taken| < t.size && head == Slot(t.head, |taken|, t.size)
      && Slots(t.mem, t.bufAddr, t.size, t.head, |taken|) == taken
    }

    /** target_mem_write of one byte at the local head. */
    method WriteByte(ch: byte, ghost taken: seq<byte>) returns (failed: bool)
      requires Pending(taken) && t.Used() + |taken| + 1 < t.size
      modifies t`mem, t`tail, t`received, t`accesses, t`free
      ensures t.Valid() && t.Used() <= old(t.Used()) && old(t.received) <= t.received && old(t.free) <= t.free
      ensures failed == t.fails(old(t.accesses)) && t.accesses == old(t.accesses) + 1
      ensures !failed ==> Slots(t.mem, t.bufAddr, t.size, t.head, |taken| + 1) == taken + [ch]
    {
      hide Slots, Distance, Slot, Poked;
      ghost var before := t.mem;
      failed := t.Access();
      if !failed {
        SlotsSame(before, t.mem, t.bufAddr, t.size, t.head, |taken|);
        NextSlotIsFree(t.tail, t.head, |taken|, t.size);
        SlotsKept(t.mem, t.bufAddr, t.size, t.tail, t.Used(), t.bufAddr + head, ch);
        SlotsKept(t.mem, t.bufAddr, t.size, t.head, |taken|, t.bufAddr + head, ch);
        NewSlot(t.mem, t.bufAddr, t.size, head, ch);
        t.mem := Poked(t.mem, t.bufAddr + head, ch);
        SlotsConcat(t.mem, t.bufAddr, t.size, t.head, |taken|, 1);
      }
    }

    /** The probe moves the head of the target over the pending bytes. */
    method WriteHead(ghost taken: seq<byte>) returns (failed: bool)
      requires Pending(taken)
      modifies t
      ensures t.Valid() && old(t.received) <= t.received && old(t.free) <= t.free
      ensures failed == t.fails(old(t.accesses)) && t.accesses == old(t.accesses) + 1
      ensures t.sent == if failed then old(t.sent) else old(t.sent) + taken
      ensures t.head == if failed then old(t.head) else head
    {
      hide Slots, Distance, Slot;
      ghost var before := t.mem;
      failed := t.Access();
      if !failed {
        SlotsSame(before, t.mem, t.bufAddr, t.size, t.head, |taken|);
        NextSlotIsFree(t.tail, t.head, |taken|, t.size);
        HeadSlot(t.tail, t.head, t.size);
        SlotsConcat(t.mem, t.bufAddr, t.size, t.tail, t.Used(), |taken|);
        assert t.received + (t.Queued() + taken) == t.sent + taken;
        t.sent := t.sent + taken;
        t.head := head;
      }
    }

    /** read_rtt for a channel the target has set up; `head` and `tail` are the copy made by the
        last poll, since when the target may have taken bytes out.  One access for each character
        and one for the head: the first that fails ends it, and what was taken is gone. */
    method ReadRtt() returns (r: Status, ghost taken: seq<byte>)
      requires t.Valid() && head < t.size && tail < t.size
      requires head == t.head && t.Used() <= Distance(tail, head, t.size)
      modifies `head, `input, t
      ensures t.Valid() && old(t.received) <= t.received && old(t.free) <= t.free && old(input) == taken + input
      ensures r == RTT_IDLE <==> old(input) == []
      ensures r == RTT_IDLE ==> t.accesses == old(t.accesses)
      ensures r == RTT_ERR <==> Fault(t.fails, old(t.accesses), t.accesses)
      ensures r == RTT_ERR ==> !Fault(t.fails, old(t.accesses), t.accesses - 1)
      ensures r != RTT_IDLE ==>
        var n := Min(|old(input)|, t.size - 1 - Distance(tail, old(head), t.size));
        && old(t.accesses) < t.accesses && |taken| == Min(n, t.accesses - old(t.accesses))
        && (r == RTT_OK ==> t.accesses == old(t.accesses) + n + 1)
      ensures t.sent == if r == RTT_OK then old(t.sent) + taken else old(t.sent)
      ensures r != RTT_OK ==> t.head == old(t.head)
    {
      taken := [];
      hide Fault;
      FaultNone(t.fails, t.accesses);
      if input == [] {
        return RTT_IDLE, [];
      }
      StartPending();
      ghost var known, a0 := Distance(tail, head, t.size), t.accesses;
      hide *;
      var failed;
      failed, taken := WriteInput(known);
      if failed {
        return RTT_ERR, taken;
      }
      ghost var a1 := t.accesses;
      failed := WriteHead(taken);
      FaultOne(t.fails, a1);
      FaultConcat(t.fails, a0, a1, t.accesses);
      if failed {
        return RTT_ERR, taken;
      }
      return RTT_OK, taken;
    }

    /** The loop of read_rtt: one byte after the other, until the ring is full as far as the copy of
        the tail tells, or the input is empty. */
    method WriteInput(ghost known: nat) returns (failed: bool, ghost taken: seq<byte>)
      requires Pending([]) && head == t.head && tail < t.size
      requires known == Distance(tail, head, t.size) && t.Used() <= known
      modifies `head, `input, t`mem, t`tail, t`received, t`accesses, t`free
      ensures t.Valid() && old(t.received) <= t.received && old(t.free) <= t.free && old(input) == taken + input
      ensures failed == Fault(t.fails, old(t.accesses), t.accesses)
      ensures failed ==> !Fault(t.fails, old(t.accesses), t.accesses - 1)
      ensures |taken| == t.accesses - old(t.accesses) <= Min(|old(input)|, t.size - 1 - known)
      ensures failed ==> taken != []
      ensures !failed ==> Pending(taken) && |taken| == Min(|old(input)|, t.size - 1 - known)
    {
      taken := [];
      ghost var in0, out0, free0, a0 := input, t.received, t.free, t.accesses;
      WritingStarts(known);
      hide *;
      failed := false;
      while true
        invariant !failed && Writing(in0, out0, free0, a0, known, taken)
        decreases |input|
      {
        ghost var full := RoomLeft(in0, out0, free0, a0, known, taken);
        var nextHead := (head + 1) % t.size;
        if tail == nextHead {
          return false, taken;
        }
        if input == [] {
          return false, taken;
        }
        failed, taken := WriteStep(nextHead, in0, out0, free0, a0, known, taken);
        if failed {
          return true, taken;
        }
      }
    }

    /** In the loop, with `taken` written so far. */
    ghost predicate Writing(in0: seq<byte>, out0: seq<byte>, free0: seq<nat>, a0: nat, known: nat, taken: seq<byte>)
      reads this, t
    {
      && Pending(taken) && in0 == taken + input && |taken| <= t.size - 1 - known && t.Used() <= known
      && out0 <= t.received && free0 <= t.free && t.accesses == a0 + |taken| && !Fault(t.fails, a0, t.accesses)
      && tail < t.size && known == Distance(tail, t.head, t.size)
    }

    lemma WritingStarts(known: nat)
      requires Pending([]) && head == t.head && tail < t.size
      requires known == Distance(tail, head, t.size) && t.Used() <= known
      ensures Writing(input, t.received, t.free, t.accesses, known, [])
    {
    }

    /** What the two tests of the loop find out. */
    lemma RoomLeft(in0: seq<byte>, out0: seq<byte>, free0: seq<nat>, a0: nat, known: nat, taken: seq<byte>)
      returns (full: bool)
      requires Writing(in0, out0, free0, a0, known, taken)
      ensures t.size > 0 && full == (tail == (head + 1) % t.size)
      ensures |taken| == t.accesses - a0 <= Min(|in0|, t.size - 1 - known)
      ensures full || input == [] ==> |taken| == Min(|in0|, t.size - 1 - known)
      ensures t.Valid() && Pending(taken) && out0 <= t.received && free0 <= t.free && in0 == taken + input
      ensures !Fault(t.fails, a0, t.accesses)
      ensures !full ==> (head + 1) % t.size == Slot(t.head, |taken| + 1, t.size) && |taken| + 1 <= t.size - 1 - known
    {
      hide Slots, Slot, Fault;
      full := tail == (head + 1) % t.size;
      SlotIsRemainder(head, 1, t.size);
      FullWhen(tail, t.head, |taken|, t.size);
    }

    /** One pass of the loop, told in what was there before the loop. */
    method WriteStep(nextHead: nat, ghost in0: seq<byte>, ghost out0: seq<byte>, ghost free0: seq<nat>, ghost a0: nat,
                     ghost known: nat, ghost taken0: seq<byte>) returns (failed: bool, ghost taken: seq<byte>)
      requires Writing(in0, out0, free0, a0, known, taken0) && input != []
      requires |taken0| + 1 <= t.size - 1 - known && nextHead == Slot(t.head, |taken0| + 1, t.size)
      modifies `head, `input, t`mem, t`tail, t`received, t`accesses, t`free
      ensures |input| < |old(input)| && taken != []
      ensures !failed ==> Writing(in0, out0, free0, a0, known, taken)
      ensures failed ==>
        && t.Valid() && out0 <= t.received && free0 <= t.free && in0 == taken + input
        && |taken| == t.accesses - a0 <= Min(|in0|, t.size - 1 - known)
        && Fault(t.fails, a0, t.accesses) && !Fault(t.fails, a0, t.accesses - 1)
    {
      hide Slots, Slot, Fault, Distance;
      ghost var a1, ch := t.accesses, input[0];
      failed := WriteNext(nextHead, taken0);
      taken := taken0 + [ch];
      FaultOne(t.fails, a1);
      FaultConcat(t.fails, a0, a1, t.accesses);
    }

    /** One pass of the loop: a character is taken, written, and the local head moved over it. */
    method WriteNext(nextHead: nat, ghost taken: seq<byte>) returns (failed: bool)
      requires Pending(taken) && input != [] && t.Used() + |taken| + 1 < t.size
      requires nextHead == Slot(t.head, |taken| + 1, t.size)
      modifies `head, `input, t`mem, t`tail, t`received, t`accesses, t`free
      ensures t.Valid() && t.Used() <= old(t.Used()) && old(t.received) <= t.received && old(t.free) <= t.free
      ensures old(input) == [old(input[0])] + input
      ensures failed == t.fails(old(t.accesses)) && t.accesses == old(t.accesses) + 1
      ensures !failed ==> Pending(taken + [old(input[0])]) && head == nextHead
    {
      hide Slots, Slot, Distance;
      var ch := input[0];
      input := input[1..];
      failed := WriteByte(ch, taken);
      if !failed {
        head := nextHead;
      }
    }

    lemma StartPending()
      requires t.Valid() && head == t.head
      ensures Pending([])
    {
    }

    /** The channel's share of one poll_rtt: a new copy of the control block, then read_rtt.  It
        fails if and only if one of its accesses does; then the characters taken are lost. */
    method Poll() returns (r: Status, ghost taken: seq<byte>)
      requires t.Valid()
      modifies this, t
      ensures t.Valid() && old(t.received) <= t.received && old(input) == taken + input
      ensures old(t.free) <= t.free && old(t.accesses) < t.accesses
      ensures r == RTT_ERR <==> Fault(t.fails, old(t.accesses), t.accesses)
      ensures !Fault(t.fails, old(t.accesses), t.accesses - 1)
      ensures r == RTT_IDLE ==> old(input) == []
      ensures r == RTT_OK ==>
        |taken| == Min(|old(input)|, t.free[old(t.accesses)]) == t.accesses - old(t.accesses) - 2
      ensures
        var p := PollRecord(old(t.accesses), t.accesses, |old(input)|);
        && SentBy(p, t.fails, t.free) == (if r == RTT_OK then |taken| else 0)
        && Lost(p, t.fails, t.free) == (if r == RTT_OK then 0 else |taken|)
      ensures t.sent == if r == RTT_OK then old(t.sent) + taken else old(t.sent)
      ensures t.free[old(t.accesses)] >= t.size - 1 - old(t.Used())
    {
      hide *;
      ghost var a0, offered := t.accesses, |input|;
      Counted();
      var failed := t.Access();
      FaultOne(t.fails, a0);
      FaultNone(t.fails, a0 + 1);
      FaultNone(t.fails, a0);
      if failed {
        CopyFails(PollRecord(a0, a0 + 1, offered), t.fails, t.free);
        return RTT_ERR, [];
      }
      head, tail := t.head, t.tail;
      CopyIsTrue();
      ghost var free := t.free;
      r, taken := ReadRtt();
      assert t.free[a0] == free[a0];
      FaultConcat(t.fails, a0, a0 + 1, t.accesses);
      FaultConcat(t.fails, a0, t.accesses - 1, t.accesses);
      if r == RTT_ERR {
        FaultConcat(t.fails, a0, a0 + 1, t.accesses - 1);
      }
      PollCounts(PollRecord(a0, t.accesses, offered), t.fails, t.free, r, |taken|);
    }

    /** Every run: the target receives what it was sent, in order.  Each poll is offered what the
        polls before it left of the text, sends what `SentBy` says of it and loses what `Lost` says:
        so the text is what was sent and what is still to be typed if and only if no poll had an
        access fail behind the copy of the control block and room at that copy. */
    method Session(polls: nat) returns (ghost log: seq<PollRecord>)
      requires t.Valid()
      modifies this, t
      ensures t.Valid() && t.received + t.Queued() == t.sent
      ensures old(t.accesses) <= t.accesses == |t.free| && Chained(log, old(t.accesses), t.accesses) && |log| == polls
      ensures Offered(log, t.fails, t.free, |old(input)|, |input|)
      ensures t.sent == old(t.sent) + SentText(log, t.fails, t.free, old(input))
      ensures |input| <= |old(input)| && input == old(input)[|old(input)| - |input|..]
      ensures |t.sent| + |input| + LostInAll(log, t.fails, t.free) == |old(t.sent + input)|
      ensures t.sent + input == old(t.sent + input) <==>
        forall k :: 0 <= k < |log| ==> Lost(log[k], t.fails, t.free) == 0
      ensures !Fault(t.fails, old(t.accesses), t.accesses) ==> t.sent + input == old(t.sent + input)
    {
      ghost var a0, sent0, text := t.accesses, t.sent, input;
      log := [];
      BooksOpen();
      hide *;
      for k := 0 to polls
        invariant |log| == k && Books(log, a0, sent0, text)
      {
        log := PollOnce(log, a0, sent0, text);
      }
      BooksTell(log, a0, sent0, text);
    }

    /** The log so far and what came of the text. */
    ghost predicate Books(log: seq<PollRecord>, a0: nat, sent0: seq<byte>, text: seq<byte>)
      reads this, t
    {
      && t.Valid() && a0 <= t.accesses
      && Conserved(sent0 + text, t.sent, LostInAll(log, t.fails, t.free), input)
      && Logged(log, t.fails, t.free, a0, t.accesses, sent0, t.sent, text, input)
    }

    lemma BooksOpen()
      requires t.Valid()
      ensures Books([], t.accesses, t.sent, input)
    {
      StartOfBooks(t.sent, input);
      LogStarts(t.accesses, t.fails, t.free, t.sent, input);
    }

    /** One poll, entered in the log. */
    method PollOnce(ghost log0: seq<PollRecord>, ghost a0: nat, ghost sent0: seq<byte>, ghost text: seq<byte>)
      returns (ghost log: seq<PollRecord>)
      requires Books(log0, a0, sent0, text)
      modifies this, t
      ensures Books(log, a0, sent0, text) && |log| == |log0| + 1
    {
      hide *;
      BooksMean(log0, a0, sent0, text);
      ghost var sent, free, a1, offered := t.sent, t.free, t.accesses, |input|;
      ghost var lost := LostInAll(log0, t.fails, t.free);
      var r;
      ghost var taken;
      r, taken := Poll();
      Bookkeeping(sent0 + text, sent, lost, taken, input, r == RTT_OK);
      ghost var p := PollRecord(a1, t.accesses, offered);
      LogGrows(log0, p, t.fails, free, t.free, a0, sent0, sent, text, taken, input, r == RTT_OK);
      log := log0 + [p];
      Counted();
      BooksKept(log, a0, sent0, text);
    }

    lemma BooksMean(log: seq<PollRecord>, a0: nat, sent0: seq<byte>, text: seq<byte>)
      requires Books(log, a0, sent0, text)
      ensures t.Valid() && a0 <= t.accesses == |t.free|
      ensures Conserved(sent0 + text, t.sent, LostInAll(log, t.fails, t.free), input)
      ensures Logged(log, t.fails, t.free, a0, t.accesses, sent0, t.sent, text, input)
    {
      hide Logged, Conserved;
    }

    lemma BooksKept(log: seq<PollRecord>, a0: nat, sent0: seq<byte>, text: seq<byte>)
      requires t.Valid() && a0 <= t.accesses
      requires Conserved(sent0 + text, t.sent, LostInAll(log, t.fails, t.free), input)
      requires Logged(log, t.fails, t.free, a0, t.accesses, sent0, t.sent, text, input)
      ensures Books(log, a0, sent0, text)
    {
      hide Logged, Conserved;
    }

    lemma BooksTell(log: seq<PollRecord>, a0: nat, sent0: seq<byte>, text: seq<byte>)
      requires Books(log, a0, sent0, text)
      ensures t.Valid() && t.received + t.Queued() == t.sent
      ensures a0 <= t.accesses == |t.free| && Chained(log, a0, t.accesses)
      ensures Offered(log, t.fails, t.free, |text|, |input|)
      ensures t.sent == sent0 + SentText(log, t.fails, t.free, text)
      ensures |input| <= |text| && input == text[|text| - |input|..]
      ensures |t.sent| + |input| + LostInAll(log, t.fails, t.free) == |sent0 + text|
      ensures t.sent + input == sent0 + text <==>
        forall k :: 0 <= k < |log| ==> Lost(log[k], t.fails, t.free) == 0
      ensures !Fault(t.fails, a0, t.accesses) ==> t.sent + input == sent0 + text
    {
      hide Fault, Lost, LostInAll, Logged, Conserved, Chained, Offered, SentText, Slots;
      EndOfBooks(sent0 + text, t.sent, LostInAll(log, t.fails, t.free), input);
      LostNowhere(log, t.fails, t.free);
      LogTells(log, t.fails, t.free, a0, t.accesses, sent0, t.sent, text, input);
      if !Fault(t.fails, a0, t.accesses) {
        NoFaultNoLoss(log, a0, t.accesses, t.fails, t.free);
      }
    }

    /** The copy of the control block when it is made. */
    lemma CopyIsTrue()
      requires t.Valid() && head == t.head && tail == t.tail
      ensures head < t.size && tail < t.size && t.Used() == Distance(tail, head, t.size)
    {
    }

    lemma Counted()
      requires t.Valid()
      ensures |t.free| == t.accesses
    {
    }
  }

  /** One poll: its accesses, and how many characters were there to be sent. */
  datatype PollRecord = PollRecord(from: nat, to: nat, offered: nat)

  /** The log of the polls between two counts of accesses. */
  ghost predicate Chained(log: seq<PollRecord>, from: nat, to: nat) {
    if log == [] then from == to
    else
      var last := log[|log| - 1];
      from <= last.from < last.to == to && Chained(log[..|log| - 1], from, last.from)
  }

  /** How many characters a poll loses.  Its first access copies the control block; behind it the
      access that fails is the last, and with each of them one character went. */
  ghost function Lost(p: PollRecord, fails: nat -> bool, free: seq<nat>): nat {
    if p.from < |free| && Fault(fails, p.from + 1, p.to)
    then Min(Min(p.offered, free[p.from]), p.to - p.from - 1)
    else 0
  }

  /** How many it sends: nothing if an access fails, else what there is and what there is room for. */
  ghost function SentBy(p: PollRecord, fails: nat -> bool, free: seq<nat>): nat {
    if p.from < |free| && !Fault(fails, p.from, p.to) then Min(p.offered, free[p.from]) else 0
  }

  lemma CopyFails(p: PollRecord, fails: nat -> bool, free: seq<nat>)
    requires p.to == p.from + 1 && fails(p.from)
    ensures Lost(p, fails, free) == 0 && SentBy(p, fails, free) == 0
  {
  }

  lemma PollCounts(p: PollRecord, fails: nat -> bool, free: seq<nat>, r: Status, taken: nat)
    requires p.from < |free| && p.from < p.to && !fails(p.from)
    requires r == RTT_ERR <==> Fault(fails, p.from + 1, p.to)
    requires r == RTT_IDLE ==> p.offered == 0 && taken == 0
    requires r != RTT_IDLE ==>
      && taken == Min(Min(p.offered, free[p.from]), p.to - p.from - 1)
      && (r == RTT_OK ==> taken == Min(p.offered, free[p.from]))
    ensures SentBy(p, fails, free) == if r == RTT_OK then taken else 0
    ensures Lost(p, fails, free) == if r == RTT_OK then 0 else taken
  {
    hide Fault;
    FaultOne(fails, p.from);
    FaultConcat(fails, p.from, p.from + 1, p.to);
  }

  /** What a log of polls was offered: of `start` characters each takes some, and `left` are left. */
  ghost predicate Offered(log: seq<PollRecord>, fails: nat -> bool, free: seq<nat>, start: nat, left: nat) {
    if log == [] then left == start
    else
      var last := log[|log| - 1];
      && left == last.offered - SentBy(last, fails, free) - Lost(last, fails, free)
      && Offered(log[..|log| - 1], fails, free, start, last.offered)
  }

  function Part(s: seq<byte>, at: int, n: nat): seq<byte> {
    if 0 <= at && at + n <= |s| then s[at..at + n] else []
  }

  /** The characters of the text the polls sent. */
  ghost function SentText(log: seq<PollRecord>, fails: nat -> bool, free: seq<nat>, text: seq<byte>): seq<byte> {
    if log == [] then []
    else
      var last := log[|log| - 1];
      SentText(log[..|log| - 1], fails, free, text) + Part(text, |text| - last.offered, SentBy(last, fails, free))
  }

  ghost function LostInAll(log: seq<PollRecord>, fails: nat -> bool, free: seq<nat>): nat {
    if log == [] then 0
    else LostInAll(log[..|log| - 1], fails, free) + Lost(log[|log| - 1], fails, free)
  }

  /** A log, and what came of the text by it. */
  ghost predicate Logged(log: seq<PollRecord>, fails: nat -> bool, free: seq<nat>, from: nat, to: nat,
                         sent0: seq<byte>, sent: seq<byte>, text: seq<byte>, input: seq<byte>)
  {
    && Chained(log, from, to) && Offered(log, fails, free, |text|, |input|)
    && sent == sent0 + SentText(log, fails, free, text)
    && |input| <= |text| && input == text[|text| - |input|..]
  }

  lemma LogTells(log: seq<PollRecord>, fails: nat -> bool, free: seq<nat>, from: nat, to: nat,
                 sent0: seq<byte>, sent: seq<byte>, text: seq<byte>, input: seq<byte>)
    requires Logged(log, fails, free, from, to, sent0, sent, text, input)
    ensures Chained(log, from, to) && Offered(log, fails, free, |text|, |input|)
    ensures sent == sent0 + SentText(log, fails, free, text)
    ensures |input| <= |text| && input == text[|text| - |input|..]
  {
  }

  lemma LogStarts(a: nat, fails: nat -> bool, free: seq<nat>, sent: seq<byte>, text: seq<byte>)
    ensures Logged([], fails, free, a, a, sent, sent, text, text) && LostInAll([], fails, free) == 0
  {
    assert sent + [] == sent && text[0..] == text;
  }

  lemma {:induction false} LogStays(log: seq<PollRecord>, from: nat, to: nat, fails: nat -> bool, free: seq<nat>,
                                    later: seq<nat>, start: nat, left: nat, text: seq<byte>)
    requires to <= |free| && Chained(log, from, to) && free <= later
    ensures LostInAll(log, fails, later) == LostInAll(log, fails, free)
    ensures SentText(log, fails, later, text) == SentText(log, fails, free, text)
    ensures Offered(log, fails, free, start, left) ==> Offered(log, fails, later, start, left)
  {
    if log != [] {
      hide Fault, Part;
      var last := log[|log| - 1];
      LogStays(log[..|log| - 1], from, last.from, fails, free, later, start, last.offered, text);
      assert SentBy(last, fails, later) == SentBy(last, fails, free);
      assert Lost(last, fails, later) == Lost(last, fails, free);
    }
  }

  lemma LogGrows(log: seq<PollRecord>, p: PollRecord, fails: nat -> bool, free: seq<nat>, later: seq<nat>, from: nat,
                 sent0: seq<byte>, sent: seq<byte>, text: seq<byte>, taken: seq<byte>, input: seq<byte>, ok: bool)
    requires Logged(log, fails, free, from, p.from, sent0, sent, text, taken + input)
    requires from <= p.from == |free| && p.from < p.to && free <= later && p.offered == |taken + input|
    requires SentBy(p, fails, later) == (if ok then |taken| else 0)
    requires Lost(p, fails, later) == (if ok then 0 else |taken|)
    ensures Logged(log + [p], fails, later, from, p.to, sent0, if ok then sent + taken else sent, text, input)
    ensures LostInAll(log + [p], fails, later) == LostInAll(log, fails, free) + Lost(p, fails, later)
  {
    hide SentBy, Lost, Chained, Offered, SentText, LostInAll, Part;
    LogStays(log, from, p.from, fails, free, later, |text|, p.offered, text);
    OneMorePoll(log, p, from, fails, later, text, |input|);
    var at := |text| - p.offered;
    RestOfText(text, at, taken, input);
    var n := if ok then |taken| else 0;
    assert sent0 + SentText(log, fails, later, text) + Part(text, at, n)
        == sent0 + (SentText(log, fails, later, text) + Part(text, at, n));
    assert !ok ==> sent + [] == sent;
  }

  lemma OneMorePoll(log: seq<PollRecord>, p: PollRecord, from: nat, fails: nat -> bool, free: seq<nat>,
                    text: seq<byte>, left: nat)
    requires from <= p.from < p.to && Chained(log, from, p.from) && Offered(log, fails, free, |text|, p.offered)
    requires left == p.offered - SentBy(p, fails, free) - Lost(p, fails, free)
    ensures Chained(log + [p], from, p.to) && Offered(log + [p], fails, free, |text|, left)
    ensures LostInAll(log + [p], fails, free) == LostInAll(log, fails, free) + Lost(p, fails, free)
    ensures SentText(log + [p], fails, free, text)
         == SentText(log, fails, free, text) + Part(text, |text| - p.offered, SentBy(p, fails, free))
  {
    hide SentBy, Lost, Part;
    assert (log + [p])[..|log|] == log;
  }

  lemma RestOfText(text: seq<byte>, at: nat, taken: seq<byte>, input: seq<byte>)
    requires at <= |text| && text[at..] == taken + input
    ensures Part(text, at, |taken|) == taken && Part(text, at, 0) == []
    ensures |input| <= |text| && input == text[|text| - |input|..]
  {
    assert |text| == at + |taken| + |input|;
    assert text[at..][..|taken|] == taken && text[at..][|taken|..] == input;
  }

  lemma {:induction false} LostNowhere(log: seq<PollRecord>, fails: nat -> bool, free: seq<nat>)
    ensures LostInAll(log, fails, free) == 0 <==> forall k :: 0 <= k < |log| ==> Lost(log[k], fails, free) == 0
  {
    if log != [] {
      var init := log[..|log| - 1];
      LostNowhere(init, fails, free);
      assert forall k :: 0 <= k < |init| ==> log[k] == init[k];
    }
  }

  lemma {:induction false} NoFaultNoLoss(log: seq<PollRecord>, a: nat, b: nat, fails: nat -> bool, free: seq<nat>)
    requires Chained(log, a, b) && a <= b && !Fault(fails, a, b)
    ensures LostInAll(log, fails, free) == 0
  {
    if log != [] {
      var last := log[|log| - 1];
      FaultConcat(fails, a, last.from, b);
      FaultConcat(fails, last.from, last.from + 1, b);
      NoFaultNoLoss(log[..|log| - 1], a, last.from, fails, free);
    }
  }

  /** Input is sent, lost, or still to come. */
  predicate Conserved(total: seq<byte>, sent: seq<byte>, lost: nat, input: seq<byte>) {
    |sent| + lost + |input| == |total| && (lost == 0 ==> sent + input == total)
  }

  lemma StartOfBooks(sent: seq<byte>, input: seq<byte>)
    ensures Conserved(sent + input, sent, 0, input)
  {
  }

  lemma Bookkeeping(total: seq<byte>, sent: seq<byte>, lost: nat, taken: seq<byte>, input: seq<byte>, ok: bool)
    requires Conserved(total, sent, lost, taken + input)
    ensures Conserved(total, if ok then sent + taken else sent, lost + if ok then 0 else |taken|, input)
  {
    assert sent + (taken + input) == sent + taken + input;
    assert taken == [] ==> taken + input == input;
  }

  lemma EndOfBooks(total: seq<byte>, sent: seq<byte>, lost: nat, input: seq<byte>)
    requires Conserved(total, sent, lost, input)
    ensures |sent| + |input| + lost == |total| && (sent + input == total <==> lost == 0)
  {
  }

  /** A losing run: the one access that fails is the second, of the first character.  The poll
      sends nothing, and the character is gone. */
  method FirstIsLost(bufAddr: nat, size: nat, mem: Image, agenda: nat -> seq<SinkStep>, input: seq<byte>)
    returns (left: seq<byte>, ghost sent: seq<byte>)
    requires 0 < bufAddr && 1 < size && bufAddr + size <= ADDRESS_SPACE && input != []
    ensures left == input[1..] && sent == []
  {
    var t := new Sink(bufAddr, size, mem, agenda, (k: nat) => k == 1);
    var c := new DownChannel(t, input);
    var r;
    ghost var taken;
    r, taken := c.Poll();
    assert t.fails(1);
    return c.input, t.sent;
  }

  lemma NewSlot(mem: Image, base: nat, size: nat, at: nat, ch: byte)
    requires at < size && base + size <= ADDRESS_SPACE
    ensures Slots(Poked(mem, base + at, ch), base, size, at, 1) == [ch]
  {
  }

  lemma HeadSlot(tail: nat, head: nat, size: nat)
    requires tail < size && head < size
    ensures Slot(tail, Distance(tail, head, size), size) == head
  {
  }
}
