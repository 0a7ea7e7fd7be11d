/** The flasher's conversation with the device, as functions of the bus and of the
    program's side of it (main.c:101-192, 290-474). The class in module Flasher runs
    the same steps imperatively and is proved equal to these definitions. */
module Protocol {
  import opened Wrappers
  import opened Bytes
  import opened Transport
  import opened Arguments
  import opened DeviceMatch

  const RetryCnt := 5    // RETRY_CNT: write passes, and attempts per chunk
  const Retry := 7       // RETRY: device lookups after a reboot
  const ReadTries := 5   // attempts per read (main.c:435)

  const ErrFile := 2
  const ErrFileRead := 3
  const ErrReboot := 4
  const ErrWr := 5
  const ErrRd := 6
  const ErrChk := 7

  // ---------------------------------------------------------------- find_usb_device

  /** The checks of main.c:107-130 that a device passes before it is halted. */
  predicate Accepted(d: Device, name: seq<byte>)
  {
    d.descriptorOk && d.opens && d.serial.Some? && NameMatches(name, d.serial.value)
  }

  /** Where the probe of main.c:103-130 stops: the index of the device it keeps open,
      and whether the global handle is open afterwards. */
  datatype Probed = Probed(index: Option<nat>, open: bool)

  /** The probe from device i on, with the handle open or not on entry. A device that
      opens replaces the handle; one that then fails a check closes it. */
  function ProbeFrom(devs: seq<Device>, i: nat, name: seq<byte>, open: bool): Probed
    decreases |devs| - i
  {
    if i >= |devs| then Probed(None, open)
    else if !devs[i].descriptorOk || !devs[i].opens then ProbeFrom(devs, i + 1, name, open)
    else if Accepted(devs[i], name) then Probed(Some(i), true)
    else ProbeFrom(devs, i + 1, name, false)
  }

  /** The probe keeps the first accepted device, and finds none only when no device is
      accepted. */
  lemma {:induction false} ProbeFindsFirst(devs: seq<Device>, i: nat, name: seq<byte>, open: bool)
    ensures var p := ProbeFrom(devs, i, name, open);
      && (p.index.Some? ==>
            && i <= p.index.value < |devs| && Accepted(devs[p.index.value], name) && p.open
            && forall j :: i <= j < p.index.value ==> !Accepted(devs[j], name))
      && (p.index.None? <==> forall j :: i <= j < |devs| ==> !Accepted(devs[j], name))
    decreases |devs| - i
  {
    if i < |devs| && !Accepted(devs[i], name) {
      if !devs[i].descriptorOk || !devs[i].opens {
        ProbeFindsFirst(devs, i + 1, name, open);
      } else {
        ProbeFindsFirst(devs, i + 1, name, false);
      }
    }
  }

  /** The request that halts the device found (main.c:145); the sub-device name goes
      out with its length cast to uint16_t. */
  function HaltRequest(sub: Option<seq<byte>>, sel: FwSel): Request
  {
    if sub.Some? then HaltSpecific(SelIndex(sel), sub.value[..|sub.value| % 0x1_0000]) else Halt
  }

  /** The firmware type a DFU_GETSTATE reply leaves in fw_type (initialised to 0). */
  function FwType(r: Reply): byte
  {
    if r.status >= 1 then ByteAt(r, 0) else 0
  }

  /** The cases of main.c:161 and 174: the device runs the very firmware to be written,
      so it must first be rebooted into the other one. */
  predicate RebootRequested(sel: FwSel, fwType: byte)
  {
    (sel == App && fwType == SelIndex(App)) || (sel == Boot && fwType == SelIndex(Boot))
  }

  /** find_usb_device's return value, the index of the device it settled on, and the
      link afterwards. */
  datatype Found = Found(code: int, chosen: Option<nat>, link: Link)

  /** find_usb_device (main.c:101-192). */
  function Find(bus: Bus, l: Link, writing: bool, name: seq<byte>, sub: Option<seq<byte>>, sel: FwSel): Found
  {
    var p := ProbeFrom(l.devices, 0, name, l.handleOpen);
    var l0 := l.(handleOpen := p.open);
    if p.index.None? then Found(-1, None, l0)
    else
      var r0 := Next(bus, l0);
      var l1 := Send(l0, HaltRequest(sub, sel));
      if r0.status < 0 then Found(-2, p.index, l1)
      else if !writing then Found(0, p.index, l1)
      else
        var r1 := Next(bus, l1);
        var l2 := Send(l1, GetFwType);
        if r1.status < 0 then Found(-3, p.index, l2)
        else if RebootRequested(sel, FwType(r1)) then
          var r2 := Next(bus, l2);
          var l3 := Send(l2, Reboot(sub.Some?));
          if r2.status < 0 then Found(-3, p.index, l3)
          else Found(1, p.index, l3.(handleOpen := false))
        else Found(0, p.index, l2)
  }

  /** What find_usb_device promises: -1 exactly when no device is accepted, and then
      nothing is sent; otherwise the first accepted device is halted, and the result
      says how far the exchange got. 0 leaves the handle open for the caller, 1 asks
      for a new lookup after a reboot. */
  lemma FindOutcome(bus: Bus, l: Link, writing: bool, name: seq<byte>, sub: Option<seq<byte>>, sel: FwSel)
    ensures var f := Find(bus, l, writing, name, sub, sel);
      && f.code in {-3, -2, -1, 0, 1}
      && f.link.devices == l.devices && f.link.listsTaken == l.listsTaken
      && (f.code == -1 <==> forall j :: 0 <= j < |l.devices| ==> !Accepted(l.devices[j], name))
      && (f.code == -1 ==> f.link.sent == l.sent && f.chosen.None?)
      && (f.code != -1 ==>
            && f.chosen.Some? && f.chosen.value < |l.devices| && Accepted(l.devices[f.chosen.value], name)
            && (forall j :: 0 <= j < f.chosen.value ==> !Accepted(l.devices[j], name))
            && |f.link.sent| > |l.sent| && f.link.sent[|l.sent|] == HaltRequest(sub, sel)
            && (f.code == -2 <==> Next(bus, l).status < 0))
      && (f.code == 0 ==> f.link.handleOpen)
      && (f.code == 0 && !writing ==> f.link.sent == l.sent + [HaltRequest(sub, sel)])
      && (!writing ==> f.code in {-2, -1, 0})
      && (f.code == 1 <==>
            && f.code != -1 && f.code != -2 && writing
            && bus.replies(|l.sent| + 1).status >= 0
            && RebootRequested(sel, FwType(bus.replies(|l.sent| + 1)))
            && bus.replies(|l.sent| + 2).status >= 0)
      && (f.code == 1 ==>
            && f.link.sent == l.sent + [HaltRequest(sub, sel), GetFwType, Reboot(sub.Some?)]
            && !f.link.handleOpen)
      && (writing && f.code != -1 && f.code != -2 ==>
            (f.code == -3 <==>
               || bus.replies(|l.sent| + 1).status < 0
               || (RebootRequested(sel, FwType(bus.replies(|l.sent| + 1))) && bus.replies(|l.sent| + 2).status < 0)))
      && (f.code == 0 <==>
            && f.code != -1 && f.code != -2
            && (!writing ||
                  (bus.replies(|l.sent| + 1).status >= 0 && !RebootRequested(sel, FwType(bus.replies(|l.sent| + 1))))))
  {
    ProbeFindsFirst(l.devices, 0, name, l.handleOpen);
  }

  /** Outcome of the device lookup that precedes a write or a read: whether the program
      goes on, with the handle open, or exits with ERR_REBOOT. */
  datatype Lookup = Lookup(ok: bool, link: Link)

  /** The retry loop of main.c:322-337, from iteration i. (Here and in TryWrite,
      Passes and TryRead the link is a second, never needed component of the
      decreases clause: it stops the verifier from unrolling a call whose count is
      a constant all the way down.) */
  function Relook(bus: Bus, l: Link, c: Config, i: nat): Lookup
    requires i < Retry
    decreases Retry - i, l
  {
    var f := Find(bus, TakeList(bus, l), c.write, c.devName, c.subName, c.sel);
    if f.code != 0 && i == Retry - 1 then Lookup(false, f.link)
    else if f.code == 0 then Lookup(true, f.link)
    else Relook(bus, f.link, c, i + 1)
  }

  /** The lookup of the write path (main.c:312-343): one more round of lookups when the
      device had to be rebooted. */
  function LookupForWrite(bus: Bus, l: Link, c: Config): Lookup
  {
    var f := Find(bus, TakeList(bus, l), c.write, c.devName, c.subName, c.sel);
    if f.code == 1 then Relook(bus, f.link.(handleOpen := false), c, 0)
    else Lookup(f.code == 0, f.link)
  }

  /** The lookup of the read path (main.c:421-428). */
  function LookupForRead(bus: Bus, l: Link, c: Config): Lookup
  {
    var f := Find(bus, TakeList(bus, l), c.write, c.devName, c.subName, c.sel);
    Lookup(f.code == 0, f.link)
  }

  /** The retry loop's promise: it ends with the handle open after a lookup that
      returned 0, or after its seventh lookup; it fetches one device list per lookup. */
  lemma {:induction false} RelookBounded(bus: Bus, l: Link, c: Config, i: nat)
    requires i < Retry
    ensures var r := Relook(bus, l, c, i);
      && (r.ok ==> r.link.handleOpen)
      && l.listsTaken + 1 <= r.link.listsTaken <= l.listsTaken + Retry - i
      && (!r.ok ==> r.link.listsTaken == l.listsTaken + Retry - i)
    decreases Retry - i
  {
    var l1 := TakeList(bus, l);
    FindOutcome(bus, l1, c.write, c.devName, c.subName, c.sel);
    var f := Find(bus, l1, c.write, c.devName, c.subName, c.sel);
    if !(f.code != 0 && i == Retry - 1) && f.code != 0 {
      RelookBounded(bus, f.link, c, i + 1);
    }
  }

  /** A lookup goes on only with the handle open, after at most eight device lists. */
  lemma LookupOpensHandle(bus: Bus, l: Link, c: Config)
    ensures var r := LookupForWrite(bus, l, c);
      (r.ok ==> r.link.handleOpen) && l.listsTaken < r.link.listsTaken <= l.listsTaken + 1 + Retry
    ensures var r := LookupForRead(bus, l, c);
      (r.ok ==> r.link.handleOpen) && r.link.listsTaken == l.listsTaken + 1
  {
    var l1 := TakeList(bus, l);
    FindOutcome(bus, l1, c.write, c.devName, c.subName, c.sel);
    var f := Find(bus, l1, c.write, c.devName, c.subName, c.sel);
    if f.code == 1 {
      RelookBounded(bus, f.link.(handleOpen := false), c, 0);
    }
  }

  /** A reference for the retry loop: the results of n lookups in a row, each on a
      fresh device list and from the link the one before left, whatever they return. */
  function Lookups(bus: Bus, l: Link, c: Config, n: nat): (fs: seq<Found>)
    ensures |fs| == n
    decreases n
  {
    if n == 0 then []
    else
      var f := Find(bus, TakeList(bus, l), c.write, c.devName, c.subName, c.sel);
      [f] + Lookups(bus, f.link, c, n - 1)
  }

  /** What a run of lookups amounts to when it stops at the first that returns 0:
      that lookup's link, or the last link when none does. */
  function FirstZero(fs: seq<Found>): (r: Lookup)
    requires |fs| > 0
    ensures r.ok ==> exists j :: 0 <= j < |fs| && fs[j].code == 0
  {
    if fs[0].code == 0 then Lookup(true, fs[0].link)
    else if |fs| == 1 then Lookup(false, fs[0].link)
    else FirstZero(fs[1..])
  }

  lemma {:induction false} FirstZeroMeans(fs: seq<Found>)
    requires |fs| > 0
    ensures var r := FirstZero(fs);
      && (r.ok <==> exists j :: 0 <= j < |fs| && fs[j].code == 0)
      && (r.ok ==> exists j :: 0 <= j < |fs| && fs[j].code == 0 && r.link == fs[j].link
                     && forall k :: 0 <= k < j ==> fs[k].code != 0)
      && (!r.ok ==> r.link == fs[|fs| - 1].link)
  {
    if fs[0].code != 0 && |fs| > 1 {
      var rest := fs[1..];
      FirstZeroMeans(rest);
      var r := FirstZero(fs);
      if r.ok {
        var j :| 0 <= j < |rest| && rest[j].code == 0 && r.link == rest[j].link
                 && forall k :: 0 <= k < j ==> rest[k].code != 0;
        assert fs[j + 1] == rest[j];
        assert forall k :: 0 <= k < j + 1 ==> fs[k].code != 0 by {
          forall k | 0 < k < j + 1
            ensures fs[k].code != 0
          {
            assert fs[k] == rest[k - 1];
          }
        }
      } else {
        forall j | 0 <= j < |fs|
          ensures fs[j].code != 0
        {
          if j > 0 {
            assert fs[j] == rest[j - 1];
          }
        }
      }
    }
  }

  /** One turn of the retry loop, in terms of the lookup it makes. */
  lemma RelookUnfolds(bus: Bus, l: Link, c: Config, i: nat, f: Found)
    requires i < Retry
    requires f == Find(bus, TakeList(bus, l), c.write, c.devName, c.subName, c.sel)
    ensures Relook(bus, l, c, i) ==
      if f.code != 0 && i == Retry - 1 then Lookup(false, f.link)
      else if f.code == 0 then Lookup(true, f.link)
      else Relook(bus, f.link, c, i + 1)
    ensures Lookups(bus, l, c, Retry - i) == [f] + Lookups(bus, f.link, c, Retry - i - 1)
  {
  }

  /** Stopping at the first zero of a run with one more lookup in front. */
  lemma FirstZeroCons(f: Found, rest: seq<Found>)
    ensures FirstZero([f] + rest) ==
      if f.code != 0 && |rest| == 0 then Lookup(false, f.link)
      else if f.code == 0 then Lookup(true, f.link)
      else FirstZero(rest)
  {
    assert ([f] + rest)[0] == f && ([f] + rest)[1..] == rest;
  }

  lemma {:induction false} RelookIsFirstZero(bus: Bus, l: Link, c: Config, i: nat)
    requires i < Retry
    ensures Relook(bus, l, c, i) == FirstZero(Lookups(bus, l, c, Retry - i))
    decreases Retry - i
  {
    var f := Find(bus, TakeList(bus, l), c.write, c.devName, c.subName, c.sel);
    RelookUnfolds(bus, l, c, i, f);
    FirstZeroCons(f, Lookups(bus, f.link, c, Retry - i - 1));
    if f.code != 0 && i < Retry - 1 {
      RelookIsFirstZero(bus, f.link, c, i + 1);
    }
  }

  /** The retry loop from iteration i succeeds exactly when one of its remaining
      lookups returns 0, and then stops at the first such one, with that lookup's
      link; it fails after the last of them returned something else. */
  lemma RelookFindsFirstZero(bus: Bus, l: Link, c: Config, i: nat)
    requires i < Retry
    ensures var r := Relook(bus, l, c, i);
      var fs := Lookups(bus, l, c, Retry - i);
      && (r.ok <==> exists j :: 0 <= j < |fs| && fs[j].code == 0)
      && (r.ok ==> exists j :: 0 <= j < |fs| && fs[j].code == 0 && r.link == fs[j].link
                     && forall k :: 0 <= k < j ==> fs[k].code != 0)
      && (!r.ok ==> r.link == fs[|fs| - 1].link)
  {
    RelookIsFirstZero(bus, l, c, i);
    FirstZeroMeans(Lookups(bus, l, c, Retry - i));
  }

  /** The lookups of main.c:312-343 and 421-428: a first lookup that returns 0 goes
      on at once, one that returns neither 0 nor 1 exits (ERR_REBOOT), and after a
      reboot the write goes on exactly when one of the seven further lookups returns
      0; a read goes on exactly when its only lookup returns 0. */
  lemma LookupOutcome(bus: Bus, l: Link, c: Config)
    ensures var f := Find(bus, TakeList(bus, l), c.write, c.devName, c.subName, c.sel);
      var r := LookupForWrite(bus, l, c);
      && (f.code == 0 ==> r == Lookup(true, f.link))
      && (f.code != 0 && f.code != 1 ==> r == Lookup(false, f.link))
      && (f.code == 1 ==>
            var fs := Lookups(bus, f.link.(handleOpen := false), c, Retry);
            (r.ok <==> exists j :: 0 <= j < Retry && fs[j].code == 0)
            && (!r.ok ==> r.link == fs[Retry - 1].link))
    ensures var f := Find(bus, TakeList(bus, l), c.write, c.devName, c.subName, c.sel);
      LookupForRead(bus, l, c) == Lookup(f.code == 0, f.link)
  {
    var f := Find(bus, TakeList(bus, l), c.write, c.devName, c.subName, c.sel);
    if f.code == 1 {
      RelookFindsFirstZero(bus, f.link.(handleOpen := false), c, 0);
    }
  }

  // ---------------------------------------------------------------- the write passes

  /** How many bytes the chunk at off carries (main.c:359). */
  function ChunkSize(len: nat, off: nat, chunk: nat): nat
    requires off <= len
  {
    if len - off > chunk then chunk else len - off
  }

  /** The DFU_DNLOAD request for the chunk at off (main.c:357-365). */
  function WriteAt(content: seq<byte>, off: nat, chunk: nat, fwIndex: nat): Request
    requires off < |content| < 0x1_0000_0000
  {
    Write(fwIndex, off, content[off..off + ChunkSize(|content|, off, chunk)])
  }

  /** Whether an attempt got through, and the link after it. */
  datatype Attempt = Attempt(ok: bool, link: Link)

  /** The inner loop of main.c:363-366: up to `tries` more attempts at one request. */
  function TryWrite(bus: Bus, l: Link, req: Request, tries: nat): Attempt
    decreases tries, l
  {
    if tries == 0 then Attempt(false, l)
    else if Next(bus, l).status >= 0 then Attempt(true, Send(l, req))
    else TryWrite(bus, Send(l, req), req, tries - 1)
  }

  /** Retries repeat the same packet: an attempt sends it between one and `tries`
      times, and fails only when every one of those transfers failed. */
  lemma {:induction false} TryWriteRepeats(bus: Bus, l: Link, req: Request, tries: nat)
    ensures var a := TryWrite(bus, l, req, tries);
      && a.link.listsTaken == l.listsTaken && a.link.devices == l.devices && a.link.handleOpen == l.handleOpen
      && |l.sent| <= |a.link.sent| <= |l.sent| + tries && a.link.sent[..|l.sent|] == l.sent
      && (forall k :: |l.sent| <= k < |a.link.sent| ==> a.link.sent[k] == req)
      && (a.ok <==> |a.link.sent| > |l.sent| && bus.replies(|a.link.sent| - 1).status >= 0)
      && (forall k :: |l.sent| <= k < |a.link.sent| - 1 ==> bus.replies(k).status < 0)
      && (!a.ok ==> |a.link.sent| == |l.sent| + tries)
    decreases tries
  {
    if tries > 0 && Next(bus, l).status < 0 {
      var l1 := Send(l, req);
      TryWriteRepeats(bus, l1, req, tries - 1);
      var a := TryWrite(bus, l1, req, tries - 1);
      assert a.link.sent[..|l1.sent|] == l1.sent;
      assert a.link.sent[..|l.sent|] == l1.sent[..|l.sent|];
    }
  }

  /** One pass of main.c:350-379 from offset off: every chunk in turn, until one fails
      RetryCnt times. */
  function PassFrom(bus: Bus, l: Link, content: seq<byte>, chunk: nat, fwIndex: nat, off: nat): Attempt
    requires 1 <= chunk && |content| < 0x1_0000_0000
    decreases |content| - off
  {
    if off >= |content| then Attempt(true, l)
    else
      var a := TryWrite(bus, l, WriteAt(content, off, chunk, fwIndex), RetryCnt);
      if !a.ok then a
      else PassFrom(bus, a.link, content, chunk, fwIndex, off + chunk)
  }

  /** The outer loop of main.c:347-382, with `passes` passes left. */
  function Passes(bus: Bus, l: Link, content: seq<byte>, chunk: nat, fwIndex: nat, passes: nat): Attempt
    requires 1 <= chunk && |content| < 0x1_0000_0000
    decreases passes, l
  {
    if passes == 0 then Attempt(false, l)
    else
      var p := PassFrom(bus, l, content, chunk, fwIndex, 0);
      if p.ok then p else Passes(bus, p.link, content, chunk, fwIndex, passes - 1)
  }

  // The chunk plan, as a reference: the requests one pass sends when no transfer fails.

  /** The plan of a pass from off on. */
  function Chunks(content: seq<byte>, chunk: nat, fwIndex: nat, off: nat): seq<Request>
    requires 1 <= chunk && |content| < 0x1_0000_0000
    decreases |content| - off
  {
    if off >= |content| then []
    else [WriteAt(content, off, chunk, fwIndex)] + Chunks(content, chunk, fwIndex, off + chunk)
  }

  /** The image bytes a sequence of write requests carries. */
  function Payloads(reqs: seq<Request>): seq<byte>
  {
    if reqs == [] then []
    else (if reqs[0].Write? then reqs[0].payload else []) + Payloads(reqs[1..])
  }

  /** The plan covers the image exactly once, in order: request i writes at offset
      off + i * chunk between 1 and chunk bytes of the selected region, and the payloads
      put together are the rest of the image. */
  lemma ChunksCoverImage(content: seq<byte>, chunk: nat, fwIndex: nat, off: nat)
    requires 1 <= chunk && |content| < 0x1_0000_0000 && off <= |content|
    ensures var cs := Chunks(content, chunk, fwIndex, off);
      && (forall i :: 0 <= i < |cs| ==> ChunkAt(cs[i], fwIndex, off + i * chunk, chunk))
      && Payloads(cs) == content[off..]
  {
    ChunksShape(content, chunk, fwIndex, off);
    ChunksPayloads(content, chunk, fwIndex, off);
  }

  /** A write of between 1 and chunk bytes of the selected region at offset. */
  predicate ChunkAt(req: Request, fwIndex: nat, offset: int, chunk: nat)
  {
    req.Write? && req.fwIndex == fwIndex && req.offset == offset && 1 <= |req.payload| <= chunk
  }

  /** Request i of the plan writes at off + i * chunk between 1 and chunk bytes. */
  lemma {:induction false} ChunksShape(content: seq<byte>, chunk: nat, fwIndex: nat, off: nat)
    requires 1 <= chunk && |content| < 0x1_0000_0000 && off <= |content|
    ensures forall i :: 0 <= i < |Chunks(content, chunk, fwIndex, off)| ==>
      ChunkAt(Chunks(content, chunk, fwIndex, off)[i], fwIndex, off + i * chunk, chunk)
    decreases |content| - off
  {
    var cs := Chunks(content, chunk, fwIndex, off);
    if off < |content| {
      var tail := Chunks(content, chunk, fwIndex, off + chunk);
      var w := WriteAt(content, off, chunk, fwIndex);
      assert cs == [w] + tail;
      assert ChunkAt(w, fwIndex, off, chunk);
      if off + chunk <= |content| {
        ChunksShape(content, chunk, fwIndex, off + chunk);
        forall i | 0 < i < |cs|
          ensures ChunkAt(cs[i], fwIndex, off + i * chunk, chunk)
        {
          var k := i - 1;
          assert 0 <= k < |tail| && cs[i] == tail[k];
          assert ChunkAt(tail[k], fwIndex, off + chunk + k * chunk, chunk);
          assert off + i * chunk == off + chunk + k * chunk;
        }
      }
    }
  }

  /** The payloads of the plan put together are the image from off on. */
  lemma {:induction false} ChunksPayloads(content: seq<byte>, chunk: nat, fwIndex: nat, off: nat)
    requires 1 <= chunk && |content| < 0x1_0000_0000 && off <= |content|
    ensures Payloads(Chunks(content, chunk, fwIndex, off)) == content[off..]
    decreases |content| - off
  {
    var cs := Chunks(content, chunk, fwIndex, off);
    if off < |content| {
      var n := ChunkSize(|content|, off, chunk);
      var tail := Chunks(content, chunk, fwIndex, off + chunk);
      assert cs[0] == WriteAt(content, off, chunk, fwIndex) && cs[1..] == tail;
      assert Payloads(cs) == content[off..off + n] + Payloads(tail);
      if off + chunk <= |content| {
        ChunksPayloads(content, chunk, fwIndex, off + chunk);
        assert n == chunk;
      } else {
        assert tail == [];
        assert content[off + n..] == [];
      }
      assert content[off..] == content[off..off + n] + content[off + n..];
    }
  }

  /** A chunk written at the first attempt moves the pass on to the next one. */
  lemma PassStepAccepted(bus: Bus, l: Link, content: seq<byte>, chunk: nat, fwIndex: nat, off: nat)
    requires 1 <= chunk && off < |content| < 0x1_0000_0000
    requires Next(bus, l).status >= 0
    ensures PassFrom(bus, l, content, chunk, fwIndex, off)
         == PassFrom(bus, Send(l, WriteAt(content, off, chunk, fwIndex)), content, chunk, fwIndex, off + chunk)
  {
    var req := WriteAt(content, off, chunk, fwIndex);
    assert TryWrite(bus, l, req, RetryCnt) == Attempt(true, Send(l, req));
  }

  /** A device that accepts every transfer gets the plan: one pass, each request once. */
  lemma {:induction false} ReliablePassSendsPlan(bus: Bus, l: Link, content: seq<byte>, chunk: nat, fwIndex: nat, off: nat)
    requires 1 <= chunk && |content| < 0x1_0000_0000
    requires forall k :: k >= |l.sent| ==> bus.replies(k).status >= 0
    ensures PassFrom(bus, l, content, chunk, fwIndex, off).ok
    ensures PassFrom(bus, l, content, chunk, fwIndex, off).link.sent == l.sent + Chunks(content, chunk, fwIndex, off)
    decreases |content| - off
  {
    if off < |content| {
      var req := WriteAt(content, off, chunk, fwIndex);
      var l1 := Send(l, req);
      PassStepAccepted(bus, l, content, chunk, fwIndex, off);
      ReliablePassSendsPlan(bus, l1, content, chunk, fwIndex, off + chunk);
      assert l.sent + Chunks(content, chunk, fwIndex, off) == l1.sent + Chunks(content, chunk, fwIndex, off + chunk);
    }
  }

  /** l' is l with only DFU_DNLOAD requests for region fwIndex sent after it. */
  predicate WritesOnly(l: Link, l': Link, fwIndex: nat)
  {
    && |l'.sent| >= |l.sent| && l'.sent[..|l.sent|] == l.sent
    && (forall k :: |l.sent| <= k < |l'.sent| ==> l'.sent[k].Write? && l'.sent[k].fwIndex == fwIndex)
    && l'.handleOpen == l.handleOpen && l'.listsTaken == l.listsTaken && l'.devices == l.devices
  }

  lemma WritesOnlyTrans(l0: Link, l1: Link, l2: Link, fwIndex: nat)
    requires WritesOnly(l0, l1, fwIndex) && WritesOnly(l1, l2, fwIndex)
    ensures WritesOnly(l0, l2, fwIndex)
  {
    assert l2.sent[..|l0.sent|] == l2.sent[..|l1.sent|][..|l0.sent|];
  }

  lemma {:induction false} TryWriteWritesOnly(bus: Bus, l: Link, req: Request, tries: nat)
    requires req.Write?
    ensures WritesOnly(l, TryWrite(bus, l, req, tries).link, req.fwIndex)
    decreases tries
  {
    if tries > 0 {
      var l1 := Send(l, req);
      assert WritesOnly(l, l1, req.fwIndex);
      if Next(bus, l).status < 0 {
        TryWriteWritesOnly(bus, l1, req, tries - 1);
        WritesOnlyTrans(l, l1, TryWrite(bus, l1, req, tries - 1).link, req.fwIndex);
      }
    }
  }

  /** Only DFU_DNLOAD requests for the selected region are sent while writing. */
  lemma {:induction false} PassSendsOnlyWrites(bus: Bus, l: Link, content: seq<byte>, chunk: nat, fwIndex: nat, off: nat)
    requires 1 <= chunk && |content| < 0x1_0000_0000
    ensures WritesOnly(l, PassFrom(bus, l, content, chunk, fwIndex, off).link, fwIndex)
    decreases |content| - off
  {
    if off < |content| {
      var req := WriteAt(content, off, chunk, fwIndex);
      TryWriteWritesOnly(bus, l, req, RetryCnt);
      var a := TryWrite(bus, l, req, RetryCnt);
      if a.ok {
        PassSendsOnlyWrites(bus, a.link, content, chunk, fwIndex, off + chunk);
        WritesOnlyTrans(l, a.link, PassFrom(bus, a.link, content, chunk, fwIndex, off + chunk).link, fwIndex);
      }
    } else {
      assert l.sent[..|l.sent|] == l.sent;
    }
  }

  /** So are all five passes. */
  lemma {:induction false} PassesSendOnlyWrites(bus: Bus, l: Link, content: seq<byte>, chunk: nat, fwIndex: nat, passes: nat)
    requires 1 <= chunk && |content| < 0x1_0000_0000
    ensures WritesOnly(l, Passes(bus, l, content, chunk, fwIndex, passes).link, fwIndex)
    decreases passes
  {
    if passes == 0 {
      assert l.sent[..|l.sent|] == l.sent;
    } else {
      PassSendsOnlyWrites(bus, l, content, chunk, fwIndex, 0);
      var p := PassFrom(bus, l, content, chunk, fwIndex, 0);
      if !p.ok {
        PassesSendOnlyWrites(bus, p.link, content, chunk, fwIndex, passes - 1);
        WritesOnlyTrans(l, p.link, Passes(bus, p.link, content, chunk, fwIndex, passes - 1).link, fwIndex);
      }
    }
  }

  /** An empty image needs no transfer at all. */
  lemma EmptyImageWritesNothing(bus: Bus, l: Link, chunk: nat, fwIndex: nat, passes: nat)
    requires 1 <= chunk && passes >= 1
    ensures Passes(bus, l, [], chunk, fwIndex, passes) == Attempt(true, l)
  {
  }

  // What a pass sends when transfers fail: each request of the plan in order, each
  // repeated between one and RetryCnt times, the last one RetryCnt times when the pass
  // gives up.

  /** n copies of one request. */
  function Repeat(req: Request, n: nat): (s: seq<Request>)
    ensures |s| == n && forall i :: 0 <= i < n ==> s[i] == req
  {
    seq(n, _ => req)
  }

  /** The plan with plan[i] repeated counts[i] times. */
  function Expand(plan: seq<Request>, counts: seq<nat>): seq<Request>
    requires |plan| == |counts|
    decreases |plan|
  {
    if |plan| == 0 then [] else Repeat(plan[0], counts[0]) + Expand(plan[1..], counts[1..])
  }

  /** Every count is a number of attempts the inner loop can make at a chunk. */
  predicate AttemptCounts(counts: seq<nat>)
  {
    forall i :: 0 <= i < |counts| ==> 1 <= counts[i] <= RetryCnt
  }

  /** An attempt sends its request as many times as it tried. */
  lemma TryWriteSendsRepeat(bus: Bus, l: Link, req: Request, tries: nat)
    ensures var a := TryWrite(bus, l, req, tries);
      && |l.sent| <= |a.link.sent|
      && a.link.sent == l.sent + Repeat(req, |a.link.sent| - |l.sent|)
      && (a.ok ==> 1 <= |a.link.sent| - |l.sent| <= tries)
      && (!a.ok ==> |a.link.sent| - |l.sent| == tries)
  {
    TryWriteRepeats(bus, l, req, tries);
    var a := TryWrite(bus, l, req, tries);
    var n := |a.link.sent| - |l.sent|;
    assert a.link.sent == a.link.sent[..|l.sent|] + a.link.sent[|l.sent|..];
    assert a.link.sent[|l.sent|..] == Repeat(req, n);
  }

  /** What a pass that started after `before` and left `after` has sent, given its
      plan and whether it succeeded: every request of the plan in order, each between
      one and RetryCnt times; or, when it failed, a prefix of the plan so and then the
      next request RetryCnt times. */
  ghost predicate SentWithRetries(before: seq<Request>, after: seq<Request>, plan: seq<Request>, ok: bool)
  {
    if ok then
      exists counts :: |counts| == |plan| && AttemptCounts(counts) && after == before + Expand(plan, counts)
    else
      exists j, counts :: 0 <= j < |plan| && |counts| == j && AttemptCounts(counts)
                          && after == before + Expand(plan[..j], counts) + Repeat(plan[j], RetryCnt)
  }

  lemma AppendAssocRequests(a: seq<Request>, b: seq<Request>, c: seq<Request>)
    ensures a + b + c == a + (b + c)
  {
  }

  /** Nothing to send: an empty pass succeeds. */
  lemma RetriesNone(before: seq<Request>)
    ensures SentWithRetries(before, before, [], true)
  {
    assert before == before + Expand([], []);
  }

  /** A first request that failed RetryCnt times ends the pass. */
  lemma RetriesGiveUp(before: seq<Request>, req: Request, rest: seq<Request>)
    ensures SentWithRetries(before, before + Repeat(req, RetryCnt), [req] + rest, false)
  {
    var plan := [req] + rest;
    assert plan[..0] == [] && plan[0] == req;
    assert before + Repeat(req, RetryCnt) == before + Expand(plan[..0], []) + Repeat(plan[0], RetryCnt);
  }

  /** Expanding a plan with one more request in front. */
  lemma ExpandCons(req: Request, n: nat, rest: seq<Request>, counts: seq<nat>)
    requires |rest| == |counts|
    ensures Expand([req] + rest, [n] + counts) == Repeat(req, n) + Expand(rest, counts)
  {
    assert ([req] + rest)[1..] == rest && ([n] + counts)[1..] == counts;
  }

  lemma CountsCons(n: nat, counts: seq<nat>)
    requires 1 <= n <= RetryCnt && AttemptCounts(counts)
    ensures AttemptCounts([n] + counts)
  {
    assert forall i :: 1 <= i < |counts| + 1 ==> ([n] + counts)[i] == counts[i - 1];
  }

  /** A first request that got through after n tries, in front of the rest of the pass. */
  lemma RetriesCons(before: seq<Request>, mid: seq<Request>, after: seq<Request>, req: Request, n: nat,
                    rest: seq<Request>, ok: bool)
    requires mid == before + Repeat(req, n) && 1 <= n <= RetryCnt
    requires SentWithRetries(mid, after, rest, ok)
    ensures SentWithRetries(before, after, [req] + rest, ok)
  {
    if ok {
      RetriesConsOk(before, mid, after, req, n, rest);
    } else {
      RetriesConsFailed(before, mid, after, req, n, rest);
    }
  }

  lemma RetriesConsOk(before: seq<Request>, mid: seq<Request>, after: seq<Request>, req: Request, n: nat,
                      rest: seq<Request>)
    requires mid == before + Repeat(req, n) && 1 <= n <= RetryCnt
    requires SentWithRetries(mid, after, rest, true)
    ensures SentWithRetries(before, after, [req] + rest, true)
  {
    var counts :| |counts| == |rest| && AttemptCounts(counts) && after == mid + Expand(rest, counts);
    ExpandCons(req, n, rest, counts);
    AppendAssocRequests(before, Repeat(req, n), Expand(rest, counts));
    CountsCons(n, counts);
    assert after == before + Expand([req] + rest, [n] + counts);
  }

  lemma RetriesConsFailed(before: seq<Request>, mid: seq<Request>, after: seq<Request>, req: Request, n: nat,
                          rest: seq<Request>)
    requires mid == before + Repeat(req, n) && 1 <= n <= RetryCnt
    requires SentWithRetries(mid, after, rest, false)
    ensures SentWithRetries(before, after, [req] + rest, false)
  {
    var plan := [req] + rest;
    var j, counts :| 0 <= j < |rest| && |counts| == j && AttemptCounts(counts)
                     && after == mid + Expand(rest[..j], counts) + Repeat(rest[j], RetryCnt);
    PrefixCons(req, rest, j);
    ExpandCons(req, n, rest[..j], counts);
    AppendAssocRequests(before, Repeat(req, n), Expand(rest[..j], counts));
    CountsCons(n, counts);
    var pre := before + Expand(plan[..j + 1], [n] + counts);
    assert after == pre + Repeat(plan[j + 1], RetryCnt);
  }

  lemma PrefixCons(req: Request, rest: seq<Request>, j: nat)
    requires j < |rest|
    ensures ([req] + rest)[..j + 1] == [req] + rest[..j] && ([req] + rest)[j + 1] == rest[j]
  {
  }

  /** The plan from off is the chunk at off, then the plan from the next offset. */
  lemma ChunksUnfold(content: seq<byte>, chunk: nat, fwIndex: nat, off: nat)
    requires 1 <= chunk && off < |content| < 0x1_0000_0000
    ensures Chunks(content, chunk, fwIndex, off)
         == [WriteAt(content, off, chunk, fwIndex)] + Chunks(content, chunk, fwIndex, off + chunk)
  {
  }

  /** A pass that ends in an attempt, in terms of that attempt. */
  lemma PassFromUnfolds(bus: Bus, l: Link, content: seq<byte>, chunk: nat, fwIndex: nat, off: nat, a: Attempt)
    requires 1 <= chunk && off < |content| < 0x1_0000_0000
    requires a == TryWrite(bus, l, WriteAt(content, off, chunk, fwIndex), RetryCnt)
    ensures PassFrom(bus, l, content, chunk, fwIndex, off)
         == if !a.ok then a else PassFrom(bus, a.link, content, chunk, fwIndex, off + chunk)
  {
  }

  /** A pass from off that succeeds sends every request of the plan from off in order,
      each between one and RetryCnt times; one that fails sends a prefix of the plan so,
      then the next request RetryCnt times. */
  lemma {:induction false} PassSendsPlanWithRetries(bus: Bus, l: Link, content: seq<byte>, chunk: nat, fwIndex: nat, off: nat)
    requires 1 <= chunk && |content| < 0x1_0000_0000
    ensures var p := PassFrom(bus, l, content, chunk, fwIndex, off);
      SentWithRetries(l.sent, p.link.sent, Chunks(content, chunk, fwIndex, off), p.ok)
    decreases |content| - off
  {
    if off >= |content| {
      RetriesNone(l.sent);
    } else {
      var req := WriteAt(content, off, chunk, fwIndex);
      var a := TryWrite(bus, l, req, RetryCnt);
      PassFromUnfolds(bus, l, content, chunk, fwIndex, off, a);
      ChunksUnfold(content, chunk, fwIndex, off);
      TryWriteSendsRepeat(bus, l, req, RetryCnt);
      var rest := Chunks(content, chunk, fwIndex, off + chunk);
      if !a.ok {
        RetriesGiveUp(l.sent, req, rest);
      } else {
        PassSendsPlanWithRetries(bus, a.link, content, chunk, fwIndex, off + chunk);
        var p := PassFrom(bus, a.link, content, chunk, fwIndex, off + chunk);
        RetriesCons(l.sent, a.link.sent, p.link.sent, req, |a.link.sent| - |l.sent|, rest, p.ok);
      }
    }
  }

  // The outer loop as a sequence of passes: each one starts again at offset 0 on the
  // link the previous one left, and the loop stops at the first pass that gets through.

  /** The results of n passes in a row, whether or not they succeed. */
  function PassRuns(bus: Bus, l: Link, content: seq<byte>, chunk: nat, fwIndex: nat, n: nat): (runs: seq<Attempt>)
    requires 1 <= chunk && |content| < 0x1_0000_0000
    ensures |runs| == n
    decreases n
  {
    if n == 0 then []
    else
      var p := PassFrom(bus, l, content, chunk, fwIndex, 0);
      [p] + PassRuns(bus, p.link, content, chunk, fwIndex, n - 1)
  }

  /** The link pass k of runs started on. */
  function StartOf(l: Link, runs: seq<Attempt>, k: nat): Link
    requires k <= |runs|
  {
    if k == 0 then l else runs[k - 1].link
  }

  /** r is what a loop over runs that stops at the first success returns: that first
      successful run, or a failure on the link of the last run. */
  ghost predicate FirstOk(l: Link, runs: seq<Attempt>, r: Attempt)
  {
    && (r.ok <==> exists i :: 0 <= i < |runs| && runs[i].ok)
    && (r.ok ==> exists i :: 0 <= i < |runs| && r == runs[i] && forall k :: 0 <= k < i ==> !runs[k].ok)
    && (!r.ok ==> r.link == StartOf(l, runs, |runs|))
  }

  lemma FirstOkHead(l: Link, p: Attempt, rest: seq<Attempt>)
    requires p.ok
    ensures FirstOk(l, [p] + rest, p)
  {
    assert ([p] + rest)[0] == p;
  }

  lemma FirstOkTail(l: Link, p: Attempt, rest: seq<Attempt>, r: Attempt)
    requires !p.ok && FirstOk(p.link, rest, r)
    ensures FirstOk(l, [p] + rest, r)
  {
    var runs := [p] + rest;
    assert forall i :: 0 <= i < |rest| ==> runs[i + 1] == rest[i];
    if r.ok {
      var i :| 0 <= i < |rest| && r == rest[i] && forall k :: 0 <= k < i ==> !rest[k].ok;
      assert runs[i + 1] == r;
      assert forall k :: 0 <= k < i + 1 ==> !runs[k].ok by {
        forall k | 0 <= k < i + 1 ensures !runs[k].ok {
          if k > 0 { assert runs[k] == rest[k - 1]; }
        }
      }
    } else {
      assert forall i :: 0 <= i < |runs| ==> !runs[i].ok by {
        forall i | 0 <= i < |runs| ensures !runs[i].ok {
          if i > 0 { assert runs[i] == rest[i - 1]; }
        }
      }
      if |rest| > 0 { assert runs[|runs| - 1] == rest[|rest| - 1]; }
    }
  }

  lemma PassRunsUnfolds(bus: Bus, l: Link, content: seq<byte>, chunk: nat, fwIndex: nat, n: nat, p: Attempt)
    requires 1 <= chunk && |content| < 0x1_0000_0000 && n >= 1
    requires p == PassFrom(bus, l, content, chunk, fwIndex, 0)
    ensures PassRuns(bus, l, content, chunk, fwIndex, n) == [p] + PassRuns(bus, p.link, content, chunk, fwIndex, n - 1)
    ensures Passes(bus, l, content, chunk, fwIndex, n)
         == if p.ok then p else Passes(bus, p.link, content, chunk, fwIndex, n - 1)
  {
  }

  /** Each of the runs restarts at offset 0 on the link the one before left. */
  lemma {:induction false} PassRunsRestart(bus: Bus, l: Link, content: seq<byte>, chunk: nat, fwIndex: nat, n: nat)
    requires 1 <= chunk && |content| < 0x1_0000_0000
    ensures var runs := PassRuns(bus, l, content, chunk, fwIndex, n);
      forall k :: 0 <= k < n ==> runs[k] == PassFrom(bus, StartOf(l, runs, k), content, chunk, fwIndex, 0)
    decreases n
  {
    if n > 0 {
      var p := PassFrom(bus, l, content, chunk, fwIndex, 0);
      PassRunsUnfolds(bus, l, content, chunk, fwIndex, n, p);
      PassRunsRestart(bus, p.link, content, chunk, fwIndex, n - 1);
      var rest := PassRuns(bus, p.link, content, chunk, fwIndex, n - 1);
      var runs := [p] + rest;
      forall k | 0 <= k < n
        ensures runs[k] == PassFrom(bus, StartOf(l, runs, k), content, chunk, fwIndex, 0)
      {
        if k > 0 {
          assert runs[k] == rest[k - 1] && StartOf(l, runs, k) == StartOf(p.link, rest, k - 1);
        }
      }
    }
  }

  /** The outer loop returns the first of the runs that succeeds; it fails, on the link
      of the last pass, only when every pass failed. */
  lemma {:induction false} PassesFirstOk(bus: Bus, l: Link, content: seq<byte>, chunk: nat, fwIndex: nat, passes: nat)
    requires 1 <= chunk && |content| < 0x1_0000_0000
    ensures FirstOk(l, PassRuns(bus, l, content, chunk, fwIndex, passes), Passes(bus, l, content, chunk, fwIndex, passes))
    decreases passes
  {
    if passes > 0 {
      var p := PassFrom(bus, l, content, chunk, fwIndex, 0);
      PassRunsUnfolds(bus, l, content, chunk, fwIndex, passes, p);
      PassesFirstOk(bus, p.link, content, chunk, fwIndex, passes - 1);
      var rest := PassRuns(bus, p.link, content, chunk, fwIndex, passes - 1);
      if p.ok {
        FirstOkHead(l, p, rest);
      } else {
        FirstOkTail(l, p, rest, Passes(bus, p.link, content, chunk, fwIndex, passes - 1));
      }
    }
  }

  /** The outer loop makes at most `passes` passes, each from offset 0 on the link the
      one before left, and returns the first that succeeds; it fails, on the link of
      the last pass, only when every pass failed. */
  lemma PassesFindFirstOk(bus: Bus, l: Link, content: seq<byte>, chunk: nat, fwIndex: nat, passes: nat)
    requires 1 <= chunk && |content| < 0x1_0000_0000
    ensures var runs := PassRuns(bus, l, content, chunk, fwIndex, passes);
      && (forall k :: 0 <= k < passes ==> runs[k] == PassFrom(bus, StartOf(l, runs, k), content, chunk, fwIndex, 0))
      && FirstOk(l, runs, Passes(bus, l, content, chunk, fwIndex, passes))
  {
    PassRunsRestart(bus, l, content, chunk, fwIndex, passes);
    PassesFirstOk(bus, l, content, chunk, fwIndex, passes);
  }

  /** What every pass sends: the whole plan from offset 0, each chunk between one and
      RetryCnt times, or a prefix of it and then RetryCnt copies of the chunk where the
      pass gave up. */
  lemma PassesSendPlans(bus: Bus, l: Link, content: seq<byte>, chunk: nat, fwIndex: nat, passes: nat)
    requires 1 <= chunk && |content| < 0x1_0000_0000
    ensures var runs := PassRuns(bus, l, content, chunk, fwIndex, passes);
      forall k :: 0 <= k < passes ==>
        SentWithRetries(StartOf(l, runs, k).sent, runs[k].link.sent, Chunks(content, chunk, fwIndex, 0), runs[k].ok)
  {
    PassesFindFirstOk(bus, l, content, chunk, fwIndex, passes);
    var runs := PassRuns(bus, l, content, chunk, fwIndex, passes);
    forall k | 0 <= k < passes
      ensures SentWithRetries(StartOf(l, runs, k).sent, runs[k].link.sent, Chunks(content, chunk, fwIndex, 0), runs[k].ok)
    {
      PassSendsPlanWithRetries(bus, StartOf(l, runs, k), content, chunk, fwIndex, 0);
    }
  }

  // ---------------------------------------------------------------- after the write

  /** Whether the three DFU_GETSTATUS bytes report a fault (main.c:390). */
  predicate StatusFault(r: Reply)
  {
    ByteAt(r, 0) != 0 || ByteAt(r, 1) != 0 || ByteAt(r, 2) != 0
  }

  /** The exit code of the write path and the link at exit. */
  datatype Exit = Exit(code: int, link: Link)

  /** main.c:345-409 after a lookup that left the handle open: the passes, the status
      check for firmware regions, and the final reboot. */
  function WriteImage(bus: Bus, l: Link, content: seq<byte>, c: Config): Exit
    requires 1 <= c.chunk && |content| < 0x1_0000_0000
  {
    var p := Passes(bus, l, content, c.chunk, SelIndex(c.sel), RetryCnt);
    var errc := if p.ok then 0 else ErrWr;
    var l1 := p.link;
    var checked :=
      if errc == 0 && SelIndex(c.sel) <= SelIndex(App) then
        Exit(if StatusFault(Next(bus, l1)) then ErrChk else 0, Send(l1, GetFwStatus))
      else Exit(errc, l1);
    if checked.code == 0 then
      var r := Next(bus, checked.link);
      Exit(if r.status < 0 then ErrReboot else 0, Send(checked.link, Reboot(c.subName.Some?)))
    else checked
  }

  /** The write path's exit codes: 0 only when a pass went through, the status (for a
      firmware region) reported no fault and the reboot was accepted, and always as the
      last request a reboot; ERR_WR when all five passes failed, and then nothing is
      sent after the failed writes. */
  lemma WriteImageCodes(bus: Bus, l: Link, content: seq<byte>, c: Config)
    requires 1 <= c.chunk && |content| < 0x1_0000_0000
    ensures var e := WriteImage(bus, l, content, c);
      var p := Passes(bus, l, content, c.chunk, SelIndex(c.sel), RetryCnt);
      && e.code in {0, ErrReboot, ErrWr, ErrChk}
      && (e.code == ErrWr <==> !p.ok)
      && (e.code == ErrWr ==> e.link == p.link)
      && (e.code == ErrChk ==> c.sel != Cfg && e.link.sent == p.link.sent + [GetFwStatus])
      && (e.code == 0 ==>
            && p.ok
            && |e.link.sent| > |p.link.sent| && e.link.sent[|e.link.sent| - 1] == Reboot(c.subName.Some?)
            && (c.sel == Cfg <==> |e.link.sent| == |p.link.sent| + 1)
            && (c.sel != Cfg ==> !StatusFault(Next(bus, p.link))))
      && (e.code == ErrChk <==> p.ok && c.sel != Cfg && StatusFault(Next(bus, p.link)))
      && var beforeReboot := if c.sel != Cfg then Send(p.link, GetFwStatus) else p.link;
         && (e.code == ErrReboot <==>
               p.ok && !(c.sel != Cfg && StatusFault(Next(bus, p.link))) && Next(bus, beforeReboot).status < 0)
         && (e.code == 0 <==>
               p.ok && !(c.sel != Cfg && StatusFault(Next(bus, p.link))) && Next(bus, beforeReboot).status >= 0)
         && (e.code in {0, ErrReboot} ==> e.link.sent == beforeReboot.sent + [Reboot(c.subName.Some?)])
  {
  }

  // ---------------------------------------------------------------- the read loop

  /** The size of pkt and of every read request (QUANT_FLASH). */
  const ReadSize := 256

  /** What a dfu_read call (main.c:91-99) got: the bytes the IN transfer delivered into
      pkt, or None when one of its two transfers failed. */
  datatype ReadTry = ReadTry(got: Option<seq<byte>>, link: Link)

  function ReadOnce(bus: Bus, l: Link, fwIndex: nat, offset: uint32): (t: ReadTry)
    ensures t.got.Some? ==> |t.got.value| <= ReadSize
  {
    var l1 := Send(l, ReadSetup(fwIndex, offset, ReadSize));
    if Next(bus, l).status < 0 then ReadTry(None, l1)
    else
      var l2 := Send(l1, ReadData(fwIndex));
      var r := Next(bus, l1);
      ReadTry(if r.status < 0 then None else Some(Received(r, ReadSize)), l2)
  }

  /** A dfu_read call sends the DFU_UPLOAD setup for the offset, and the IN transfer
      only when the setup was accepted; it gets nothing when either transfer fails, and
      otherwise the bytes the IN transfer delivered. */
  lemma ReadOnceSends(bus: Bus, l: Link, fwIndex: nat, offset: uint32)
    ensures var t := ReadOnce(bus, l, fwIndex, offset);
      && t.link.listsTaken == l.listsTaken && t.link.devices == l.devices && t.link.handleOpen == l.handleOpen
      && t.link.sent == l.sent + [ReadSetup(fwIndex, offset, ReadSize)]
                           + (if bus.replies(|l.sent|).status < 0 then [] else [ReadData(fwIndex)])
      && (t.got.None? <==> bus.replies(|l.sent|).status < 0 || bus.replies(|l.sent| + 1).status < 0)
      && (t.got.Some? ==> t.got.value == Received(bus.replies(|l.sent| + 1), ReadSize))
  {
  }

  /** Up to `tries` more calls of dfu_read at one offset (main.c:435-447). */
  function TryRead(bus: Bus, l: Link, fwIndex: nat, offset: uint32, tries: nat): ReadTry
    decreases tries, l
  {
    if tries == 0 then ReadTry(None, l)
    else
      var t := ReadOnce(bus, l, fwIndex, offset);
      if t.got.Some? then t else TryRead(bus, t.link, fwIndex, offset, tries - 1)
  }

  /** A try that got nothing is followed by the remaining tries. */
  lemma TryReadUnfolds(bus: Bus, l: Link, fwIndex: nat, offset: uint32, tries: nat)
    requires tries > 0
    ensures var t1 := ReadOnce(bus, l, fwIndex, offset);
      TryRead(bus, l, fwIndex, offset, tries) == if t1.got.Some? then t1 else TryRead(bus, t1.link, fwIndex, offset, tries - 1)
  {
  }

  /** The retries at one offset keep what was sent before and touch nothing else of
      the link; they start with a DFU_UPLOAD setup when any try is left. */
  lemma {:induction false} TryReadFrame(bus: Bus, l: Link, fwIndex: nat, offset: uint32, tries: nat)
    ensures var t := TryRead(bus, l, fwIndex, offset, tries);
      && t.link.listsTaken == l.listsTaken && t.link.devices == l.devices && t.link.handleOpen == l.handleOpen
      && |l.sent| <= |t.link.sent| && t.link.sent[..|l.sent|] == l.sent
      && (tries > 0 ==> |t.link.sent| > |l.sent| && t.link.sent[|l.sent|] == ReadSetup(fwIndex, offset, ReadSize))
      && (tries == 0 ==> t == ReadTry(None, l))
    decreases tries
  {
    if tries > 0 {
      var t1 := ReadOnce(bus, l, fwIndex, offset);
      TryReadUnfolds(bus, l, fwIndex, offset, tries);
      ReadOnceSends(bus, l, fwIndex, offset);
      if t1.got.None? {
        TryReadFrame(bus, t1.link, fwIndex, offset, tries - 1);
        var sent := TryRead(bus, t1.link, fwIndex, offset, tries - 1).link.sent;
        assert sent[..|l.sent|] == sent[..|t1.link.sent|][..|l.sent|];
        assert sent[|l.sent|] == sent[..|t1.link.sent|][|l.sent|];
      }
    }
  }

  /** Every request the retries send is the setup at that offset or the IN transfer,
      and an IN transfer always comes right after a setup. */
  lemma {:induction false} TryReadRequests(bus: Bus, l: Link, fwIndex: nat, offset: uint32, tries: nat)
    ensures var setup := ReadSetup(fwIndex, offset, ReadSize);
      var sent := TryRead(bus, l, fwIndex, offset, tries).link.sent;
      && (forall k :: |l.sent| <= k < |sent| ==> sent[k] == setup || sent[k] == ReadData(fwIndex))
      && (forall k :: |l.sent| <= k < |sent| && sent[k] == ReadData(fwIndex) ==> k > |l.sent| && sent[k - 1] == setup)
    decreases tries
  {
    if tries > 0 {
      var t1 := ReadOnce(bus, l, fwIndex, offset);
      TryReadUnfolds(bus, l, fwIndex, offset, tries);
      ReadOnceSends(bus, l, fwIndex, offset);
      if t1.got.None? {
        TryReadRequests(bus, t1.link, fwIndex, offset, tries - 1);
        TryReadFrame(bus, t1.link, fwIndex, offset, tries - 1);
        var sent := TryRead(bus, t1.link, fwIndex, offset, tries - 1).link.sent;
        forall k | |l.sent| <= k < |t1.link.sent|
          ensures sent[k] == t1.link.sent[k]
        {
          assert sent[k] == sent[..|t1.link.sent|][k];
        }
      }
    }
  }

  /** An IN transfer follows a setup exactly when that setup was accepted, and only the
      last request can be an IN transfer that was accepted. */
  predicate Answered(bus: Bus, sent: seq<Request>, from: nat)
  {
    && (forall k :: from <= k < |sent| && sent[k].ReadSetup? ==>
          (bus.replies(k).status >= 0 <==> k + 1 < |sent| && sent[k + 1].ReadData?))
    && (forall k :: from <= k < |sent| - 1 && sent[k].ReadData? ==> bus.replies(k).status < 0)
  }

  /** One failed dfu_read call in front of requests that are answered as above. */
  lemma AnsweredAfterFailedCall(bus: Bus, before: seq<Request>, call: seq<Request>, sent: seq<Request>,
                                fwIndex: nat, offset: uint32)
    requires call == before + [ReadSetup(fwIndex, offset, ReadSize)]
                           + (if bus.replies(|before|).status < 0 then [] else [ReadData(fwIndex)])
    requires bus.replies(|before|).status < 0 || bus.replies(|before| + 1).status < 0
    requires |call| <= |sent| && sent[..|call|] == call && Answered(bus, sent, |call|)
    requires |call| < |sent| ==> sent[|call|].ReadSetup?
    ensures Answered(bus, sent, |before|)
  {
    var from := |before|;
    assert sent[from] == call[from];
    if bus.replies(from).status >= 0 {
      assert sent[from + 1] == call[from + 1];
    }
  }

  lemma {:induction false} TryReadAccepted(bus: Bus, l: Link, fwIndex: nat, offset: uint32, tries: nat)
    ensures Answered(bus, TryRead(bus, l, fwIndex, offset, tries).link.sent, |l.sent|)
    decreases tries
  {
    if tries > 0 {
      var t1 := ReadOnce(bus, l, fwIndex, offset);
      TryReadUnfolds(bus, l, fwIndex, offset, tries);
      ReadOnceSends(bus, l, fwIndex, offset);
      if t1.got.None? {
        TryReadAccepted(bus, t1.link, fwIndex, offset, tries - 1);
        TryReadFrame(bus, t1.link, fwIndex, offset, tries - 1);
        AnsweredAfterFailedCall(bus, l.sent, t1.link.sent, TryRead(bus, t1.link, fwIndex, offset, tries - 1).link.sent,
                                fwIndex, offset);
      }
    }
  }

  /** The retries make between one and `tries` dfu_read calls (one setup each), and
      all `tries` of them when nothing came back. */
  lemma {:induction false} TryReadCount(bus: Bus, l: Link, fwIndex: nat, offset: uint32, tries: nat)
    ensures var t := TryRead(bus, l, fwIndex, offset, tries);
      && |l.sent| <= |t.link.sent|
      && var calls := multiset(t.link.sent[|l.sent|..])[ReadSetup(fwIndex, offset, ReadSize)];
      && calls <= tries && (tries > 0 ==> calls >= 1)
      && (t.got.None? ==> calls == tries)
    decreases tries
  {
    TryReadFrame(bus, l, fwIndex, offset, tries);
    if tries > 0 {
      var t1 := ReadOnce(bus, l, fwIndex, offset);
      TryReadUnfolds(bus, l, fwIndex, offset, tries);
      ReadOnceSends(bus, l, fwIndex, offset);
      CountAfterCall(bus, l.sent, t1.link.sent, t1.link.sent, fwIndex, offset);
      if t1.got.None? {
        TryReadCount(bus, t1.link, fwIndex, offset, tries - 1);
        TryReadFrame(bus, t1.link, fwIndex, offset, tries - 1);
        CountAfterCall(bus, l.sent, t1.link.sent, TryRead(bus, t1.link, fwIndex, offset, tries - 1).link.sent,
                       fwIndex, offset);
      }
    }
  }

  /** A dfu_read call holds one setup. */
  lemma CountAfterCall(bus: Bus, before: seq<Request>, call: seq<Request>, sent: seq<Request>,
                       fwIndex: nat, offset: uint32)
    requires call == before + [ReadSetup(fwIndex, offset, ReadSize)]
                           + (if bus.replies(|before|).status < 0 then [] else [ReadData(fwIndex)])
    requires |call| <= |sent| && sent[..|call|] == call
    ensures var setup := ReadSetup(fwIndex, offset, ReadSize);
      multiset(sent[|before|..])[setup] == 1 + multiset(sent[|call|..])[setup]
  {
    var setup := ReadSetup(fwIndex, offset, ReadSize);
    var once := call[|before|..];
    if bus.replies(|before|).status < 0 {
      assert once == [setup];
    } else {
      assert once == [setup, ReadData(fwIndex)];
    }
    assert sent[|before|..] == once + sent[|call|..];
  }

  /** The retries come back with data exactly when their last request is an accepted
      IN transfer, and the data is what that transfer delivered. */
  lemma {:induction false} TryReadGot(bus: Bus, l: Link, fwIndex: nat, offset: uint32, tries: nat)
    ensures var t := TryRead(bus, l, fwIndex, offset, tries);
      var sent := t.link.sent;
      && (t.got.Some? <==> |sent| > |l.sent| && sent[|sent| - 1].ReadData? && bus.replies(|sent| - 1).status >= 0)
      && (t.got.Some? ==> t.got.value == Received(bus.replies(|sent| - 1), ReadSize))
    decreases tries
  {
    if tries > 0 {
      var t1 := ReadOnce(bus, l, fwIndex, offset);
      TryReadUnfolds(bus, l, fwIndex, offset, tries);
      ReadOnceSends(bus, l, fwIndex, offset);
      if t1.got.None? {
        TryReadGot(bus, t1.link, fwIndex, offset, tries - 1);
        TryReadFrame(bus, t1.link, fwIndex, offset, tries - 1);
        var sent := TryRead(bus, t1.link, fwIndex, offset, tries - 1).link.sent;
        var n1 := |t1.link.sent|;
        if |sent| == n1 {
          assert sent == t1.link.sent;
        }
      }
    }
  }

  /** What the retries at one offset (main.c:435-447) send and get, all together. */
  lemma TryReadRepeats(bus: Bus, l: Link, fwIndex: nat, offset: uint32, tries: nat)
    ensures var t := TryRead(bus, l, fwIndex, offset, tries);
      var setup := ReadSetup(fwIndex, offset, ReadSize);
      var sent := t.link.sent;
      && t.link.listsTaken == l.listsTaken && t.link.devices == l.devices && t.link.handleOpen == l.handleOpen
      && |l.sent| <= |sent| && sent[..|l.sent|] == l.sent
      && (tries > 0 ==> |sent| > |l.sent| && sent[|l.sent|] == setup)
      && (forall k :: |l.sent| <= k < |sent| ==> sent[k] == setup || sent[k] == ReadData(fwIndex))
      && Answered(bus, sent, |l.sent|)
      && multiset(sent[|l.sent|..])[setup] <= tries
      && (t.got.None? ==> multiset(sent[|l.sent|..])[setup] == tries)
      && (t.got.Some? <==> |sent| > |l.sent| && sent[|sent| - 1] == ReadData(fwIndex) && bus.replies(|sent| - 1).status >= 0)
      && (t.got.Some? ==> t.got.value == Received(bus.replies(|sent| - 1), ReadSize))
  {
    TryReadFrame(bus, l, fwIndex, offset, tries);
    TryReadRequests(bus, l, fwIndex, offset, tries);
    TryReadAccepted(bus, l, fwIndex, offset, tries);
    TryReadCount(bus, l, fwIndex, offset, tries);
    TryReadGot(bus, l, fwIndex, offset, tries);
  }

  /** Where the read loop is: still going, or how it ended: the device sent an empty
      chunk, a read failed five times, a write to the file failed, or the model's
      bound on the number of chunks ran out. */
  datatype ReadEnd = Going | Complete | ReadFailed | FileFailed | Unfinished

  /** The state the read loop carries and ends with: the file's bytes, the uint32_t
      offset and readed_length, and how many chunks were written to the file. */
  datatype Reading = Reading(end: ReadEnd, file: seq<byte>, offset: uint32, readLength: uint32, writes: nat, link: Link)

  /** One round of the loop body (main.c:434-470); fileOk(k) says whether the k-th
      fwrite writes all its bytes. */
  function ReadStep(bus: Bus, fileOk: nat -> bool, fwIndex: nat, s: Reading): Reading
  {
    ReadRound(fileOk, s, TryRead(bus, s.link, fwIndex, s.offset, ReadTries))
  }

  /** The rest of a round once the retries at s.offset have given t (main.c:448-469). */
  function ReadRound(fileOk: nat -> bool, s: Reading, t: ReadTry): Reading
  {
    if t.got.None? then s.(end := ReadFailed, link := t.link)
    else
      var got := t.got.value;
      var readLength := (s.readLength + |got|) % 0x1_0000_0000;
      if |got| == 0 then s.(end := Complete, readLength := readLength, link := t.link)
      else if !fileOk(s.writes) then s.(end := FileFailed, readLength := readLength, link := t.link)
      else Reading(Going, s.file + got, (s.offset + |got|) % 0x1_0000_0000, readLength, s.writes + 1, t.link)
  }

  /** The read loop of main.c:430-471 with at most `fuel` more rounds. */
  function ReadFrom(bus: Bus, fileOk: nat -> bool, fwIndex: nat, s: Reading, fuel: nat): Reading
    decreases fuel
  {
    if fuel == 0 then s.(end := Unfinished)
    else
      var s1 := ReadStep(bus, fileOk, fwIndex, s);
      if s1.end == Going then ReadFrom(bus, fileOk, fwIndex, s1, fuel - 1) else s1
  }

  /** The counters agree with the file: offset always, readed_length while the loop is
      going and when it completes. */
  predicate Tracks(s: Reading)
  {
    s.offset == |s.file| % 0x1_0000_0000 && (s.end in {Going, Complete} ==> s.readLength == |s.file| % 0x1_0000_0000)
  }

  /** One round appends the chunk it got, and nothing else, to the file, whatever the
      retries gave. */
  lemma ReadStepTracks(fileOk: nat -> bool, s: Reading, t: ReadTry)
    requires s.end == Going && Tracks(s)
    ensures var s1 := ReadRound(fileOk, s, t);
      && Tracks(s1) && s1.end != Unfinished
      && |s1.file| >= |s.file| && s1.file[..|s.file|] == s.file
      && s1.writes - s.writes <= |s1.file| - |s.file|
      && (s1.end == Going ==> s1.writes == s.writes + 1 && |s1.file| > |s.file|)
      && (s1.end == Going ==> s1.file == s.file + t.got.value)
      && (s1.end != Going ==> s1.file == s.file)
      && (s1.end == Complete <==> t.got == Some([]))
      && (s1.end == ReadFailed <==> t.got.None?)
      && (s1.end == FileFailed <==> t.got.Some? && |t.got.value| > 0 && !fileOk(s.writes))
      && s1.link == t.link
  {
    var s1 := ReadRound(fileOk, s, t);
    if t.got.None? {
      assert s1 == s.(end := ReadFailed, link := t.link);
    } else {
      var got := t.got.value;
      var readLength := (s.readLength + |got|) % 0x1_0000_0000;
      if |got| == 0 {
        assert s1 == s.(end := Complete, readLength := readLength, link := t.link);
        assert readLength == s.readLength;
      } else if !fileOk(s.writes) {
        assert s1 == s.(end := FileFailed, readLength := readLength, link := t.link);
      } else {
        assert s1 == Reading(Going, s.file + got, (s.offset + |got|) % 0x1_0000_0000, readLength, s.writes + 1, t.link);
        ModAdd(|s.file|, |got|);
        assert (s.file + got)[..|s.file|] == s.file;
      }
    }
  }

  /** The read loop keeps offset and readed_length equal to the file's length modulo
      2^32, and the file holds the chunks in the order they arrived. */
  lemma {:induction false} ReadKeepsOffset(bus: Bus, fileOk: nat -> bool, fwIndex: nat, s: Reading, fuel: nat)
    requires s.end == Going && Tracks(s)
    ensures var r := ReadFrom(bus, fileOk, fwIndex, s, fuel);
      && Tracks(r) && r.end != Going
      && |r.file| >= |s.file| && r.file[..|s.file|] == s.file
      && r.writes - s.writes <= |r.file| - |s.file|
    decreases fuel
  {
    if fuel > 0 {
      var t := TryRead(bus, s.link, fwIndex, s.offset, ReadTries);
      ReadStepTracks(fileOk, s, t);
      var s1 := ReadStep(bus, fileOk, fwIndex, s);
      assert s1 == ReadRound(fileOk, s, t);
      if s1.end == Going {
        ReadKeepsOffset(bus, fileOk, fwIndex, s1, fuel - 1);
        var r := ReadFrom(bus, fileOk, fwIndex, s1, fuel - 1);
        assert r.file[..|s.file|] == r.file[..|s1.file|][..|s.file|];
      }
    }
  }

  /** The reference for what the device delivered: in the order they were sent, the
      bytes of every accepted IN transfer of a DFU_UPLOAD among requests from..to. */
  function Delivered(bus: Bus, sent: seq<Request>, from: nat, to: nat): seq<byte>
    requires from <= to <= |sent|
    decreases |sent| - from
  {
    if from == to then []
    else
      (if sent[from].ReadData? && bus.replies(from).status >= 0 then Received(bus.replies(from), ReadSize) else [])
      + Delivered(bus, sent, from + 1, to)
  }

  lemma {:induction false} DeliveredSplit(bus: Bus, sent: seq<Request>, a: nat, b: nat, c: nat)
    requires a <= b <= c <= |sent|
    ensures Delivered(bus, sent, a, c) == Delivered(bus, sent, a, b) + Delivered(bus, sent, b, c)
    decreases b - a
  {
    if a < b {
      DeliveredSplit(bus, sent, a + 1, b, c);
    }
  }

  /** What was delivered up to `to` does not depend on what was sent after it. */
  lemma {:induction false} DeliveredPrefix(bus: Bus, sent: seq<Request>, longer: seq<Request>, a: nat, b: nat)
    requires a <= b <= |sent| <= |longer| && longer[..|sent|] == sent
    ensures Delivered(bus, longer, a, b) == Delivered(bus, sent, a, b)
    decreases b - a
  {
    if a < b {
      assert longer[a] == longer[..|sent|][a];
      DeliveredPrefix(bus, sent, longer, a + 1, b);
    }
  }

  /** Among requests answered as the retries answer them, only the last can deliver. */
  lemma {:induction false} DeliveredBeforeLast(bus: Bus, sent: seq<Request>, a: nat, b: nat)
    requires a <= b < |sent| && Answered(bus, sent, a)
    ensures Delivered(bus, sent, a, b) == []
    decreases b - a
  {
    if a < b {
      DeliveredBeforeLast(bus, sent, a + 1, b);
    }
  }

  /** The last request's share of what was delivered. */
  lemma DeliveredLast(bus: Bus, sent: seq<Request>, a: nat)
    requires a < |sent|
    ensures var k := |sent| - 1;
      Delivered(bus, sent, a, |sent|) == Delivered(bus, sent, a, k)
        + (if sent[k].ReadData? && bus.replies(k).status >= 0 then Received(bus.replies(k), ReadSize) else [])
  {
    var k := |sent| - 1;
    DeliveredSplit(bus, sent, a, k, |sent|);
    assert Delivered(bus, sent, k, |sent|)
        == (if sent[k].ReadData? && bus.replies(k).status >= 0 then Received(bus.replies(k), ReadSize) else []) + [];
  }

  /** What the retries at one offset leave: the link they started from extended, and
      among the new requests, exactly the chunk they came back with delivered, by the
      last request. */
  predicate TryDelivered(bus: Bus, l: Link, t: ReadTry)
  {
    && |l.sent| <= |t.link.sent| && t.link.sent[..|l.sent|] == l.sent
    && Delivered(bus, t.link.sent, |l.sent|, |t.link.sent|) == (if t.got.Some? then t.got.value else [])
    && (t.got.Some? ==> |t.link.sent| > |l.sent| && Delivered(bus, t.link.sent, |l.sent|, |t.link.sent| - 1) == [])
  }

  /** The retries at one offset deliver exactly the chunk they come back with. */
  lemma TryReadDelivers(bus: Bus, l: Link, fwIndex: nat, offset: uint32, tries: nat)
    ensures TryDelivered(bus, l, TryRead(bus, l, fwIndex, offset, tries))
  {
    TryReadFrame(bus, l, fwIndex, offset, tries);
    TryReadAccepted(bus, l, fwIndex, offset, tries);
    TryReadGot(bus, l, fwIndex, offset, tries);
    var sent := TryRead(bus, l, fwIndex, offset, tries).link.sent;
    if |sent| > |l.sent| {
      DeliveredBeforeLast(bus, sent, |l.sent|, |sent| - 1);
      DeliveredLast(bus, sent, |l.sent|);
    }
  }

  /** What the read loop from s leaves in r: the link extended, a failed file write
      only after a chunk came in, and in the file everything the device delivered, in
      the order it arrived, except a last chunk that the file did not take. */
  predicate FileDelivered(bus: Bus, s: Reading, r: Reading)
  {
    && |s.link.sent| <= |r.link.sent| && r.link.sent[..|s.link.sent|] == s.link.sent
    && (r.end == FileFailed ==> |r.link.sent| > |s.link.sent|)
    && r.file == s.file + Delivered(bus, r.link.sent, |s.link.sent|,
                                     if r.end == FileFailed then |r.link.sent| - 1 else |r.link.sent|)
  }

  /** Appending one round's delivery to the file, then the rest of the loop's. */
  lemma DeliveredAfter(bus: Bus, before: seq<Request>, mid: seq<Request>, after: seq<Request>, e: nat,
                       file: seq<byte>, got: seq<byte>, final: seq<byte>)
    requires |before| <= |mid| <= e <= |after| && after[..|mid|] == mid
    requires Delivered(bus, mid, |before|, |mid|) == got
    requires final == file + got + Delivered(bus, after, |mid|, e)
    ensures final == file + Delivered(bus, after, |before|, e)
  {
    var rest := Delivered(bus, after, |mid|, e);
    DeliveredSplit(bus, after, |before|, |mid|, e);
    DeliveredPrefix(bus, mid, after, |before|, |mid|);
    assert Delivered(bus, after, |before|, e) == got + rest;
    AppendAssoc(file, got, rest);
  }

  lemma AppendAssoc(a: seq<byte>, b: seq<byte>, c: seq<byte>)
    ensures a + b + c == a + (b + c)
  {
  }

  /** One round followed by the rest of the loop, on values: whatever the retries gave,
      if the rest of the loop keeps FileDelivered from the round's state, the loop from
      s keeps it. */
  lemma FileDeliveredStep(bus: Bus, fileOk: nat -> bool, s: Reading, t: ReadTry, rest: Reading)
    requires s.end == Going && Tracks(s) && TryDelivered(bus, s.link, t)
    requires var s1 := ReadRound(fileOk, s, t);
      s1.end == Going ==> FileDelivered(bus, s1, rest)
    ensures var s1 := ReadRound(fileOk, s, t);
      FileDelivered(bus, s, if s1.end == Going then rest else s1)
  {
    ReadStepTracks(fileOk, s, t);
    var s1 := ReadRound(fileOk, s, t);
    if s1.end == Going {
      FileDeliveredGoing(bus, s, t, s1, rest);
    } else {
      FileDeliveredStopped(bus, s, t, s1);
    }
  }

  /** A round that appended its chunk, then the rest of the loop. */
  lemma FileDeliveredGoing(bus: Bus, s: Reading, t: ReadTry, s1: Reading, rest: Reading)
    requires TryDelivered(bus, s.link, t) && s1.link == t.link
    requires t.got.Some? && s1.file == s.file + t.got.value
    requires FileDelivered(bus, s1, rest)
    ensures FileDelivered(bus, s, rest)
  {
    var sent := t.link.sent;
    var e := if rest.end == FileFailed then |rest.link.sent| - 1 else |rest.link.sent|;
    DeliveredAfter(bus, s.link.sent, sent, rest.link.sent, e, s.file, t.got.value, rest.file);
    assert rest.link.sent[..|s.link.sent|] == rest.link.sent[..|sent|][..|s.link.sent|];
  }

  /** A round that ended the loop leaves the file as it was. */
  lemma FileDeliveredStopped(bus: Bus, s: Reading, t: ReadTry, s1: Reading)
    requires TryDelivered(bus, s.link, t) && s1.link == t.link && s1.file == s.file
    requires s1.end == FileFailed ==> t.got.Some? && |t.got.value| > 0
    requires s1.end != FileFailed ==> t.got.None? || t.got == Some([])
    ensures FileDelivered(bus, s, s1)
  {
    var sent := t.link.sent;
    var e := if s1.end == FileFailed then |sent| - 1 else |sent|;
    assert Delivered(bus, sent, |s.link.sent|, e) == [];
    assert s1.file == s.file + [];
  }

  /** One round of the read loop, in terms of what its retries gave. */
  lemma ReadFromUnfolds(bus: Bus, fileOk: nat -> bool, fwIndex: nat, s: Reading, fuel: nat, t: ReadTry)
    requires fuel > 0 && t == TryRead(bus, s.link, fwIndex, s.offset, ReadTries)
    ensures var s1 := ReadRound(fileOk, s, t);
      ReadFrom(bus, fileOk, fwIndex, s, fuel) == if s1.end == Going then ReadFrom(bus, fileOk, fwIndex, s1, fuel - 1) else s1
  {
  }

  /** The file the read loop writes is everything the device delivered, in the order it
      arrived, except a last chunk that the file did not take. */
  lemma {:induction false} ReadFileIsDelivered(bus: Bus, fileOk: nat -> bool, fwIndex: nat, s: Reading, fuel: nat)
    requires s.end == Going && Tracks(s)
    ensures FileDelivered(bus, s, ReadFrom(bus, fileOk, fwIndex, s, fuel))
    decreases fuel
  {
    if fuel > 0 {
      var t := TryRead(bus, s.link, fwIndex, s.offset, ReadTries);
      ReadFromUnfolds(bus, fileOk, fwIndex, s, fuel, t);
      ReadStepTracks(fileOk, s, t);
      TryReadDelivers(bus, s.link, fwIndex, s.offset, ReadTries);
      var s1 := ReadRound(fileOk, s, t);
      if s1.end == Going {
        ReadFileIsDelivered(bus, fileOk, fwIndex, s1, fuel - 1);
      }
      FileDeliveredStep(bus, fileOk, s, t, ReadFrom(bus, fileOk, fwIndex, s1, fuel - 1));
    } else {
      assert Delivered(bus, s.link.sent, |s.link.sent|, |s.link.sent|) == [];
    }
  }

  /** r is what the round from s' leaves, and its exit code says how that round ended:
      0 for an empty chunk, 1 when all the reads failed or the file took the chunk
      short. */
  ghost predicate LastRound(bus: Bus, fileOk: nat -> bool, fwIndex: nat, s': Reading, r: Reading)
  {
    var t := TryRead(bus, s'.link, fwIndex, s'.offset, ReadTries);
    && s'.end == Going && Tracks(s')
    && r == ReadRound(fileOk, s', t)
    && (ReadExit(r) == 0 <==> t.got == Some([]))
    && (ReadExit(r) == 1 <==> t.got.None? || (|t.got.value| > 0 && !fileOk(s'.writes)))
  }

  /** The read loop ends on a round that says how it ended: errc is 0 exactly when the
      device answered at the current offset with an empty chunk, and 1 exactly when
      five reads in a row failed or a write to the file fell short (or the model's
      bound on rounds ran out). */
  lemma {:induction false} ReadEndsOnRound(bus: Bus, fileOk: nat -> bool, fwIndex: nat, s: Reading, fuel: nat)
    requires s.end == Going && Tracks(s)
    ensures var r := ReadFrom(bus, fileOk, fwIndex, s, fuel);
      r.end == Unfinished || exists s' :: LastRound(bus, fileOk, fwIndex, s', r)
    decreases fuel
  {
    if fuel > 0 {
      var t := TryRead(bus, s.link, fwIndex, s.offset, ReadTries);
      ReadFromUnfolds(bus, fileOk, fwIndex, s, fuel, t);
      ReadStepTracks(fileOk, s, t);
      var s1 := ReadRound(fileOk, s, t);
      if s1.end == Going {
        ReadEndsOnRound(bus, fileOk, fwIndex, s1, fuel - 1);
      } else {
        assert LastRound(bus, fileOk, fwIndex, s, s1);
      }
    }
  }

  /** Adding to a uint32_t counter that holds a length modulo 2^32. */
  lemma ModAdd(a: nat, b: nat)
    ensures (a % 0x1_0000_0000 + b) % 0x1_0000_0000 == (a + b) % 0x1_0000_0000
  {
  }

  /** Which parser main.c:459-460 runs on the file read. */
  datatype Parser = NoParser | ConfigParser | FirmwareParser

  function ParserAfterRead(sel: FwSel, r: Reading): Parser
  {
    if r.end != Complete || r.readLength == 0 then NoParser
    else if sel == Cfg then ConfigParser
    else FirmwareParser
  }

  /** The read path's exit code: 0 only when the device ended the transfer (main.c:456
      leaves errc at 0); every failure exits with 1, so ERR_RD is never returned. */
  function ReadExit(r: Reading): int
  {
    if r.end == Complete then 0 else 1
  }

  /** One of the two parsers runs exactly when the read completed with a length that is
      not 0 modulo 2^32. */
  lemma ParserRunsOnData(bus: Bus, fileOk: nat -> bool, fwIndex: nat, sel: FwSel, s: Reading, fuel: nat)
    requires s.end == Going && Tracks(s)
    ensures var r := ReadFrom(bus, fileOk, fwIndex, s, fuel);
      && (ParserAfterRead(sel, r) != NoParser <==> ReadExit(r) == 0 && |r.file| % 0x1_0000_0000 != 0)
      && (ParserAfterRead(sel, r) == ConfigParser ==> sel == Cfg)
      && ReadExit(r) in {0, 1}
  {
    ReadKeepsOffset(bus, fileOk, fwIndex, s, fuel);
  }

  // ---------------------------------------------------------------- main

  /** What fopen, file_len and fread give for the image file: it cannot be opened,
      fewer bytes than its length can be read, or these are its bytes. For the read
      path only whether it opens matters. */
  datatype FileInput = CannotOpen | ShortRead | Contents(bytes: seq<byte>)

  /** The whole run: the exit code, the link, the file written by a read and which
      parser then runs. */
  datatype Run = Run(code: int, link: Link, file: seq<byte>, parser: Parser)

  /** main (main.c:278-475) as one session of a fresh program; `fuel` bounds the
      number of chunks the read loop takes. */
  function Session(bus: Bus, argv: seq<seq<byte>>, input: FileInput, fileOk: nat -> bool, fuel: nat): Run
    requires input.Contents? ==> |input.bytes| < 0x1_0000_0000
  {
    var l := Link([], 0, [], false);
    var a := ParseArg(argv);
    if a.None? then Run(ErrArgc, l, [], NoParser)
    else
      var c := a.value;
      if input.CannotOpen? then Run(ErrFile, l, [], NoParser)
      else if c.write then
        if input.ShortRead? then Run(ErrFileRead, l, [], NoParser)
        else
          var k := LookupForWrite(bus, l, c);
          if !k.ok then Run(ErrReboot, k.link, [], NoParser)
          else
            var e := WriteImage(bus, k.link, input.bytes, c);
            Run(e.code, e.link, [], NoParser)
      else
        var k := LookupForRead(bus, l, c);
        if !k.ok then Run(ErrReboot, k.link, [], NoParser)
        else
          var r := ReadFrom(bus, fileOk, SelIndex(c.sel), Reading(Going, [], 0, 0, 0, k.link), fuel);
          Run(ReadExit(r), r.link, r.file, ParserAfterRead(c.sel, r))
  }

  /** The exit codes main can return, and the arguments it refuses before touching the
      bus: a bad command line, a PREBOOT write among them, exits with ERR_ARGC before
      any device list is fetched. ERR_RD is never returned: a failed read exits with 1,
      the value of ERR_ARGC. */
  lemma SessionCodes(bus: Bus, argv: seq<seq<byte>>, input: FileInput, fileOk: nat -> bool, fuel: nat)
    requires input.Contents? ==> |input.bytes| < 0x1_0000_0000
    ensures var r := Session(bus, argv, input, fileOk, fuel);
      && r.code in {0, ErrArgc, ErrFile, ErrFileRead, ErrReboot, ErrWr, ErrChk}
      && (ParseArg(argv).None? ==> r.code == ErrArgc && r.link.sent == [] && r.link.listsTaken == 0)
      && (|argv| >= 3 && argv[1] == Word('w') && argv[2] == Word('p') ==> r.code == ErrArgc && r.link.sent == [])
      && (input.CannotOpen? ==> r.code in {ErrArgc, ErrFile} && r.link.sent == [])
      && (r.code in {ErrWr, ErrChk} ==> ParseArg(argv).Some? && ParseArg(argv).value.write)
      && (r.parser != NoParser ==> r.code == 0 && ParseArg(argv).Some? && !ParseArg(argv).value.write)
  {
    var l := Link([], 0, [], false);
    var a := ParseArg(argv);
    if a.Some? && !input.CannotOpen? {
      var c := a.value;
      if c.write {
        if input.Contents? {
          var k := LookupForWrite(bus, l, c);
          if k.ok {
            WriteImageCodes(bus, k.link, input.bytes, c);
          }
        }
      } else {
        var k := LookupForRead(bus, l, c);
        if k.ok {
          ParserRunsOnData(bus, fileOk, SelIndex(c.sel), c.sel, Reading(Going, [], 0, 0, 0, k.link), fuel);
        }
      }
    }
  }
}
