/** How far the copies of build_config_descriptor in libopencm3/lib/usb/usb_standard.c reach in
    memory: the function is told the length the host asked for, and not the size of the buffer. */
module UsbBuffer {
  import opened Arithmetic
  import opened UsbControl
  import opened UsbStandard

  type Image = nat -> byte

  // ---------- The copies ----------

  function EndpointChunks(es: seq<Endpoint>): seq<seq<byte>> {
    if es == [] then []
    else EndpointChunks(es[..|es| - 1]) + [es[|es| - 1].bytes, es[|es| - 1].extra]
  }

  function SettingChunks(ss: seq<Setting>): seq<seq<byte>> {
    if ss == [] then []
    else
      var s := ss[|ss| - 1];
      SettingChunks(ss[..|ss| - 1]) + [s.bytes, s.extra] + EndpointChunks(s.endpoints)
  }

  function InterfaceChunks(fs: seq<Interface>): seq<seq<byte>> {
    if fs == [] then []
    else
      var f := fs[|fs| - 1];
      InterfaceChunks(fs[..|fs| - 1]) + [f.association] + SettingChunks(f.settings)
  }

  /** What is copied, piece by piece. */
  function Chunks(c: Configuration): seq<seq<byte>> { [c.bytes] + InterfaceChunks(c.interfaces) }

  function Put(m: Image, a: nat, s: seq<byte>): Image {
    (x: nat) => if a <= x < a + |s| then s[x - a] else m(x)
  }

  /** One memcpy after the other, each cut to what is left of the length. */
  function CopyAll(m: Image, a: nat, chunks: seq<seq<byte>>, len: nat): Image
    decreases |chunks|
  {
    if chunks == [] then m
    else
      var count := Min(len, |chunks[0]|);
      CopyAll(Put(m, a, chunks[0][..count]), a + count, chunks[1..], len - count)
  }

  // ---------- What they amount to ----------

  function Joined(chunks: seq<seq<byte>>): seq<byte> {
    if chunks == [] then [] else chunks[0] + Joined(chunks[1..])
  }

  lemma {:induction false} JoinedConcat(a: seq<seq<byte>>, b: seq<seq<byte>>)
    ensures Joined(a + b) == Joined(a) + Joined(b)
    decreases |a|
  {
    if a == [] {
      assert a + b == b;
    } else {
      assert (a + b)[1..] == a[1..] + b;
      JoinedConcat(a[1..], b);
    }
  }

  lemma JoinedOne(a: seq<byte>)
    ensures Joined([a]) == a
  {
    assert [a][1..] == [];
  }

  lemma JoinedTwo(a: seq<byte>, b: seq<byte>)
    ensures Joined([a, b]) == a + b
  {
    JoinedOne(b);
    assert [a, b][1..] == [b];
  }

  lemma {:induction false} EndpointsJoined(es: seq<Endpoint>)
    ensures Joined(EndpointChunks(es)) == EndpointsBytes(es)
  {
    hide Joined;
    if es == [] {
      NothingJoined();
    } else {
      var e := es[|es| - 1];
      EndpointsJoined(es[..|es| - 1]);
      JoinedTwo(e.bytes, e.extra);
      JoinedConcat(EndpointChunks(es[..|es| - 1]), [e.bytes, e.extra]);
    }
  }

  lemma {:induction false} SettingsJoined(ss: seq<Setting>)
    ensures Joined(SettingChunks(ss)) == SettingsBytes(ss)
  {
    hide Joined, EndpointsBytes;
    if ss == [] {
      NothingJoined();
    } else {
      var s, front := ss[|ss| - 1], SettingChunks(ss[..|ss| - 1]);
      SettingsJoined(ss[..|ss| - 1]);
      EndpointsJoined(s.endpoints);
      JoinedTwo(s.bytes, s.extra);
      JoinedConcat(front, [s.bytes, s.extra]);
      JoinedConcat(front + [s.bytes, s.extra], EndpointChunks(s.endpoints));
      CopyRest(Joined(front), s.bytes + s.extra, EndpointsBytes(s.endpoints));
    }
  }

  lemma {:induction false} InterfacesJoined(fs: seq<Interface>)
    ensures Joined(InterfaceChunks(fs)) == InterfacesBytes(fs)
  {
    hide Joined, SettingsBytes;
    if fs == [] {
      NothingJoined();
    } else {
      var f, front := fs[|fs| - 1], InterfaceChunks(fs[..|fs| - 1]);
      InterfacesJoined(fs[..|fs| - 1]);
      SettingsJoined(f.settings);
      JoinedOne(f.association);
      JoinedConcat(front, [f.association]);
      JoinedConcat(front + [f.association], SettingChunks(f.settings));
      CopyRest(Joined(front), f.association, SettingsBytes(f.settings));
    }
  }

  lemma NothingJoined()
    ensures Joined([]) == []
  {
  }

  lemma ChunksJoined(c: Configuration)
    ensures Joined(Chunks(c)) == Serialised(c)
  {
    hide Joined;
    InterfacesJoined(c.interfaces);
    JoinedOne(c.bytes);
    JoinedConcat([c.bytes], InterfaceChunks(c.interfaces));
  }

  /** All copies together are one copy of the front of the whole. */
  lemma {:induction false} CopiedIsFront(m: Image, a: nat, chunks: seq<seq<byte>>, len: nat, x: nat)
    ensures CopyAll(m, a, chunks, len)(x) == Put(m, a, Joined(chunks)[..Min(len, |Joined(chunks)|)])(x)
    decreases |chunks|
  {
    if chunks != [] {
      var count := Min(len, |chunks[0]|);
      CopiedIsFront(Put(m, a, chunks[0][..count]), a + count, chunks[1..], len - count, x);
      var all, more := Joined(chunks), Joined(chunks[1..]);
      assert all[..Min(len, |all|)] == chunks[0][..count] + more[..Min(len - count, |more|)];
    }
  }

  // ---------- Where they end ----------

  /** The memory behind the function: the copies, and the two bytes of wTotalLength over them. */
  function Built(m: Image, a: nat, c: Configuration, len: nat): Image {
    var total := |Serialised(c)|;
    Put(CopyAll(m, a, Chunks(c), len), a + 2, [total % 256, total / 256 % 256])
  }

  ghost predicate StaysInside(m: Image, a: nat, c: Configuration, len: nat, room: nat) {
    forall x: nat :: !(a <= x < a + room) ==> Built(m, a, c, len)(x) == m(x)
  }

  /** The function stays inside a buffer of `room` bytes, whatever memory held before, if and only
      if the descriptor or the length asked for fits it. */
  lemma BuiltInside(a: nat, c: Configuration, len: nat, room: nat)
    requires room >= 4
    ensures Min(len, |Serialised(c)|) <= room <==> forall m: Image :: StaysInside(m, a, c, len, room)
  {
    if Min(len, |Serialised(c)|) <= room {
      forall m: Image ensures StaysInside(m, a, c, len, room) {
        FitsInside(m, a, c, len, room);
      }
    } else {
      var _ := RunsOver(a, c, len, room);
    }
  }

  lemma FitsInside(m: Image, a: nat, c: Configuration, len: nat, room: nat)
    requires room >= 4 && Min(len, |Serialised(c)|) <= room
    ensures StaysInside(m, a, c, len, room)
  {
    hide Serialised, Chunks, Joined, CopyAll;
    ChunksJoined(c);
    forall x: nat | !(a <= x < a + room) ensures Built(m, a, c, len)(x) == m(x) {
      CopiedIsFront(m, a, Chunks(c), len, x);
    }
  }

  lemma RunsOver(a: nat, c: Configuration, len: nat, room: nat) returns (m: Image)
    requires room >= 4 && Min(len, |Serialised(c)|) > room
    ensures !StaysInside(m, a, c, len, room)
  {
    hide Serialised, Chunks, Joined, CopyAll;
    ChunksJoined(c);
    var spilled := Serialised(c)[room];
    var other: byte := if spilled == 0 then 1 else 0;
    m := (x: nat) => other;
    CopiedIsFront(m, a, Chunks(c), len, a + room);
    assert Built(m, a, c, len)(a + room) == spilled != m(a + room);
  }
}
