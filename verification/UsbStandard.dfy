/** The configuration descriptor of libopencm3/lib/usb/usb_standard.c: a tree of descriptors
    serialised into a buffer of any length, and its use in enumeration. */
module UsbStandard {
  import opened Arithmetic
  import opened UsbControl
  import opened UsbTransfer

  /** Each node carries the bytes of its own descriptor (bLength of them) and, where there are
      any, the extra bytes that follow it. */
  datatype Endpoint = Endpoint(bytes: seq<byte>, extra: seq<byte>)
  datatype Setting = Setting(bytes: seq<byte>, extra: seq<byte>, endpoints: seq<Endpoint>)
  datatype Interface = Interface(association: seq<byte>, settings: seq<Setting>)
  datatype Configuration = Configuration(bytes: seq<byte>, interfaces: seq<Interface>)

  // ---------- The reference: preorder ----------

  function EndpointBytes(e: Endpoint): seq<byte> { e.bytes + e.extra }

  function EndpointsBytes(es: seq<Endpoint>): seq<byte> {
    if es == [] then [] else EndpointsBytes(es[..|es| - 1]) + EndpointBytes(es[|es| - 1])
  }

  function SettingBytes(s: Setting): seq<byte> { s.bytes + s.extra + EndpointsBytes(s.endpoints) }

  function SettingsBytes(ss: seq<Setting>): seq<byte> {
    if ss == [] then [] else SettingsBytes(ss[..|ss| - 1]) + SettingBytes(ss[|ss| - 1])
  }

  function InterfaceBytes(i: Interface): seq<byte> { i.association + SettingsBytes(i.settings) }

  function InterfacesBytes(fs: seq<Interface>): seq<byte> {
    if fs == [] then [] else InterfacesBytes(fs[..|fs| - 1]) + InterfaceBytes(fs[|fs| - 1])
  }

  function Serialised(c: Configuration): seq<byte> { c.bytes + InterfacesBytes(c.interfaces) }

  /** wTotalLength, bytes 2 and 3, set to `total` as far as a uint16_t holds it. */
  function WithTotal(s: seq<byte>, total: nat): (r: seq<byte>)
    ensures |r| == |s|
  {
    seq(|s|, k requires 0 <= k < |s| => if k == 2 then total % 256 else if k == 3 then total / 256 % 256 else s[k])
  }

  /** The full descriptor, as sections 9.4.3 and 9.6.3 of USB 2.0 describe it. */
  function Descriptor(c: Configuration): seq<byte> {
    WithTotal(Serialised(c), |Serialised(c)|)
  }

  // ---------- The serialiser as programmed ----------

  /** The local variables of build_config_descriptor: the write position `total`, the space left
      `len`, and the running total length, a uint16_t. */
  datatype Progress = Progress(total: nat, len: nat, totalLen: uint16)

  /** `full` is what would have been written into a buffer without limit. */
  ghost predicate Holds(p: Progress, buf: seq<byte>, full: seq<byte>, limit: nat) {
    && p.total == Min(limit, |full|) && p.len == limit - p.total
    && p.totalLen == |full| % 0x1_0000
    && p.total <= |buf| && buf[..p.total] == full[..p.total]
  }

  /** memcpy(buf, src, count = MIN(len, length)) with the four updates behind it. */
  method Copy(buf: array<byte>, src: seq<byte>, p: Progress, ghost full: seq<byte>, ghost limit: nat)
    returns (p': Progress)
    requires Holds(p, buf[..], full, limit)
    requires Min(limit, |full| + |src|) <= buf.Length
    modifies buf
    ensures Holds(p', buf[..], full + src, limit)
  {
    var count := Min(p.len, |src|);
    ghost var before := buf[..p.total];
    forall i | 0 <= i < count {
      buf[p.total + i] := src[i];
    }
    p' := Progress(p.total + count, p.len - count, (p.totalLen + |src|) % 0x1_0000);
    assert buf[..p'.total] == before + src[..count];
    assert (full + src)[..p'.total] == full[..p.total] + src[..count];
  }

  lemma CopyRest(a: seq<byte>, b: seq<byte>, c: seq<byte>)
    ensures a + b + c == a + (b + c)
  {}

  lemma {:induction false} EndpointsPrefix(es: seq<Endpoint>, k: nat)
    requires k < |es|
    ensures EndpointsBytes(es[..k + 1]) == EndpointsBytes(es[..k]) + EndpointBytes(es[k])
    ensures |EndpointsBytes(es[..k + 1])| <= |EndpointsBytes(es)|
    decreases |es| - k
  {
    assert es[..k + 1][..k] == es[..k];
    if k + 1 == |es| {
      assert es[..k + 1] == es;
    } else {
      EndpointsPrefix(es, k + 1);
    }
  }

  lemma {:induction false} SettingsPrefix(ss: seq<Setting>, k: nat)
    requires k < |ss|
    ensures SettingsBytes(ss[..k + 1]) == SettingsBytes(ss[..k]) + SettingBytes(ss[k])
    ensures |SettingsBytes(ss[..k + 1])| <= |SettingsBytes(ss)|
    decreases |ss| - k
  {
    assert ss[..k + 1][..k] == ss[..k];
    if k + 1 == |ss| {
      assert ss[..k + 1] == ss;
    } else {
      SettingsPrefix(ss, k + 1);
    }
  }

  lemma {:induction false} InterfacesPrefix(fs: seq<Interface>, k: nat)
    requires k < |fs|
    ensures InterfacesBytes(fs[..k + 1]) == InterfacesBytes(fs[..k]) + InterfaceBytes(fs[k])
    ensures |InterfacesBytes(fs[..k + 1])| <= |InterfacesBytes(fs)|
    decreases |fs| - k
  {
    assert fs[..k + 1][..k] == fs[..k];
    if k + 1 == |fs| {
      assert fs[..k + 1] == fs;
    } else {
      InterfacesPrefix(fs, k + 1);
    }
  }

  /** The loop over the endpoints of a setting. */
  method CopyEndpoints(buf: array<byte>, es: seq<Endpoint>, p: Progress, ghost full: seq<byte>, ghost limit: nat)
    returns (p': Progress)
    requires Holds(p, buf[..], full, limit)
    requires Min(limit, |full| + |EndpointsBytes(es)|) <= buf.Length
    modifies buf
    ensures Holds(p', buf[..], full + EndpointsBytes(es), limit)
  {
    hide Holds, EndpointsBytes;
    p' := p;
    EndpointsNone();
    assert full + [] == full && es[..0] == [];
    for k := 0 to |es|
      invariant Holds(p', buf[..], full + EndpointsBytes(es[..k]), limit)
    {
      EndpointsPrefix(es, k);
      ghost var done := full + EndpointsBytes(es[..k]);
      CopyRest(full, EndpointsBytes(es[..k]), EndpointBytes(es[k]));
      CopyRest(done, es[k].bytes, es[k].extra);
      p' := Copy(buf, es[k].bytes, p', done, limit);
      p' := Copy(buf, es[k].extra, p', done + es[k].bytes, limit);
    }
    assert es[..|es|] == es;
  }

  lemma EndpointsNone()
    ensures EndpointsBytes([]) == [] && SettingsBytes([]) == [] && InterfacesBytes([]) == []
  {}

  /** The loop over the alternate settings of an interface. */
  method CopySettings(buf: array<byte>, ss: seq<Setting>, p: Progress, ghost full: seq<byte>, ghost limit: nat)
    returns (p': Progress)
    requires Holds(p, buf[..], full, limit)
    requires Min(limit, |full| + |SettingsBytes(ss)|) <= buf.Length
    modifies buf
    ensures Holds(p', buf[..], full + SettingsBytes(ss), limit)
  {
    hide Holds, SettingsBytes, EndpointsBytes;
    p' := p;
    EndpointsNone();
    assert full + [] == full && ss[..0] == [];
    for j := 0 to |ss|
      invariant Holds(p', buf[..], full + SettingsBytes(ss[..j]), limit)
    {
      SettingsPrefix(ss, j);
      var s := ss[j];
      ghost var done := full + SettingsBytes(ss[..j]);
      CopyRest(full, SettingsBytes(ss[..j]), SettingBytes(s));
      CopyRest(done, s.bytes, s.extra);
      CopyRest(done, s.bytes + s.extra, EndpointsBytes(s.endpoints));
      p' := Copy(buf, s.bytes, p', done, limit);
      p' := Copy(buf, s.extra, p', done + s.bytes, limit);
      p' := CopyEndpoints(buf, s.endpoints, p', done + s.bytes + s.extra, limit);
    }
    assert ss[..|ss|] == ss;
  }

  /** build_config_descriptor: whatever the space, the buffer receives the first bytes of the
      full descriptor, and the result says how many. */
  method BuildConfigDescriptor(c: Configuration, buf: array<byte>, len: uint16) returns (total: nat)
    requires 4 <= buf.Length && Min(len, |Serialised(c)|) <= buf.Length
    modifies buf
    ensures total == Min(len, |Descriptor(c)|)
    ensures buf[..total] == Descriptor(c)[..total]
  {
    hide Holds, InterfacesBytes, SettingsBytes;
    var fs := c.interfaces;
    ghost var limit: nat := len;
    HoldsNothing(buf[..], limit);
    assert [] + c.bytes == c.bytes;
    var p := Copy(buf, c.bytes, Progress(0, len, 0), [], limit);
    EndpointsNone();
    assert c.bytes + [] == c.bytes && fs[..0] == [];
    for i := 0 to |fs|
      invariant Holds(p, buf[..], c.bytes + InterfacesBytes(fs[..i]), limit)
    {
      InterfacesPrefix(fs, i);
      var f := fs[i];
      ghost var done := c.bytes + InterfacesBytes(fs[..i]);
      CopyRest(c.bytes, InterfacesBytes(fs[..i]), InterfaceBytes(f));
      CopyRest(done, f.association, SettingsBytes(f.settings));
      p := Copy(buf, f.association, p, done, limit);
      p := CopySettings(buf, f.settings, p, done + f.association, limit);
    }
    assert fs[..|fs|] == fs;
    HoldsAtEnd(p, buf[..], Serialised(c), limit);
    ghost var written := buf[..];
    buf[2] := p.totalLen % 256;
    buf[3] := p.totalLen / 256;
    TotalWritten(written, buf[..], Serialised(c), p.total, p.totalLen);
    return p.total;
  }

  /** The field goes over the bytes copied. */
  lemma TotalWritten(before: seq<byte>, after: seq<byte>, full: seq<byte>, total: nat, field: uint16)
    requires 4 <= |before| && total <= |before| && total <= |full| && before[..total] == full[..total]
    requires field == |full| % 0x1_0000 && after == before[2 := field % 256][3 := field / 256]
    ensures after[..total] == WithTotal(full, |full|)[..total]
  {
    TotalBytes(|full|);
    var r := WithTotal(full, |full|);
    forall k | 0 <= k < total ensures after[k] == r[k] {
      assert before[..total][k] == full[..total][k];
    }
  }

  lemma HoldsNothing(buf: seq<byte>, limit: nat)
    ensures Holds(Progress(0, limit, 0), buf, [], limit)
  {}

  lemma HoldsAtEnd(p: Progress, buf: seq<byte>, full: seq<byte>, limit: nat)
    requires Holds(p, buf, full, limit)
    ensures p.total == Min(limit, |full|) && p.totalLen == |full| % 0x1_0000
    ensures p.total <= |buf| && buf[..p.total] == full[..p.total]
  {}

  lemma TotalBytes(n: nat)
    ensures n % 0x1_0000 % 256 == n % 256 && n % 0x1_0000 / 256 == n / 256 % 256
  {}

  // ---------- Enumeration ----------

  /** The length a host reads out of bytes 2 and 3. */
  function TotalLength(received: seq<byte>): nat
    requires |received| >= 4
  {
    var low: nat, high: nat := received[2], received[3];
    low + 256 * high
  }

  /** The field tells the length of the descriptor exactly when that length fits 16 bits. */
  lemma TotalLengthTells(c: Configuration, n: nat)
    requires 4 <= n <= |Serialised(c)|
    ensures TotalLength(Descriptor(c)[..n]) == |Descriptor(c)| % 0x1_0000
    ensures TotalLength(Descriptor(c)[..n]) == |Descriptor(c)| <==> |Descriptor(c)| < 0x1_0000
  {
    TotalBytes(|Serialised(c)|);
  }

  /** The answer of GET_DESCRIPTOR for a configuration. */
  function ConfigAnswer(c: Configuration, wLength: nat): Answer {
    Handled(Descriptor(c)[..Min(wLength, |Descriptor(c)|)], false)
  }

  /** How hosts enumerate: read the head of the descriptor, find the total length in it, read
      that much.  For every descriptor shorter than 64 KiB the second read brings all of it. */
  lemma Enumeration(k: Control, c: Configuration, head: Request, all: Request, z: Sizes)
    requires z.packet > 0 && DeviceToHost(head) && DeviceToHost(all)
    requires 4 <= head.wLength && 4 <= |Serialised(c)| < 0x1_0000
    ensures var first := ControlRead(k, head, ConfigAnswer(c, head.wLength), z);
      && first.Done? && first.received == Descriptor(c)[..Min(head.wLength, |Descriptor(c)|)]
      && TotalLength(first.received) == |Descriptor(c)|
      && (all.wLength == TotalLength(first.received) ==>
            ControlRead(first.control, all, ConfigAnswer(c, all.wLength), z).Done?
            && ControlRead(first.control, all, ConfigAnswer(c, all.wLength), z).received == Descriptor(c))
  {
    hide ControlRead, Serialised, WithTotal;
    var n := Min(head.wLength, |Descriptor(c)|);
    ControlReadDelivers(k, head, Descriptor(c)[..n], false, z);
    TotalLengthTells(c, n);
    if all.wLength == |Descriptor(c)| {
      var first := ControlRead(k, head, ConfigAnswer(c, head.wLength), z);
      assert Descriptor(c)[..|Descriptor(c)|] == Descriptor(c);
      ControlReadDelivers(first.control, all, Descriptor(c), false, z);
    }
  }

  // ---------- SET_ADDRESS ----------

  /** usb_standard_set_address. */
  function SetAddressAnswer(req: Request): Answer {
    if req.bmRequestType != 0 || req.wValue >= 128 then NotSupported else Handled([], false)
  }

  /** SET_ADDRESS, SETUP and status stage: a valid address comes into force, but not before the
      host has taken the status packet; any other is refused and leaves the address alone. */
  lemma SetAddressTransfer(k: Control, req: Request, z: Sizes)
    requires z.packet > 0 && req.bRequest == 5 && req.wLength == 0
    ensures var r0 := Setup(k, req, SetAddressAnswer(req), z);
      var r1 := In(r0.control, z);
      && r0.control.address == k.address
      && if req.bmRequestType == 0 && req.wValue < 128
         then r0.actions == [Write([])] && r1.control.address == req.wValue && r1.control.phase == IDLE
         else r0.actions == [Stall] && r1.control.address == k.address
  {
    if req.bmRequestType == 0 && req.wValue < 128 {
      ControlNoData(k, req, [], false, z);
    }
  }
}
