/** The flasher program itself (main.c:60-475): the global libusb handle, device list
    and output file as the fields of one object, and main's loops as methods over
    them. Every method is proved to do exactly what the matching definition of module
    Protocol says, so the properties proved there hold of the program. */
module Flasher {
  import opened Wrappers
  import opened Bytes
  import opened Transport
  import opened Arguments
  import opened DeviceMatch
  import opened Protocol

  class Flasher {
    /** What the bus answers, and whether the k-th fwrite to the output file writes
        all its bytes. */
    const bus: Bus
    const fileOk: nat -> bool

    /** The program's side of the bus: the control transfers issued so far, the
        device lists fetched (`list` and `cnt`), and whether `handle` is open. */
    var link: Link
    /** The bytes written to the output file, and how many fwrite calls succeeded. */
    var file: seq<byte>
    var writes: nat

    /** The program at start-up: nothing sent, no list, no handle, no file. */
    constructor(bus: Bus, fileOk: nat -> bool)
      ensures this.bus == bus && this.fileOk == fileOk
      ensures link == Link([], 0, [], false) && file == [] && writes == 0
    {
      this.bus := bus;
      this.fileOk := fileOk;
      link := Link([], 0, [], false);
      file, writes := [], 0;
    }

    /** libusb_control_transfer on the open handle (main.c:84-98). */
    method ControlTransfer(req: Request) returns (r: Reply)
      modifies this
      ensures r == Next(bus, old(link)) && link == Send(old(link), req)
      ensures file == old(file) && writes == old(writes)
    {
      r := bus.replies(|link.sent|);
      link := link.(sent := link.sent + [req]);
    }

    /** libusb_get_device_list (main.c:312, 326, 421). */
    method GetDeviceList()
      modifies this
      ensures link == TakeList(bus, old(link))
      ensures file == old(file) && writes == old(writes)
    {
      link := link.(listsTaken := link.listsTaken + 1, devices := bus.lists(link.listsTaken));
    }

    /** handle_close (main.c:60-67). */
    method HandleClose()
      modifies this
      ensures link == old(link).(handleOpen := false)
      ensures file == old(file) && writes == old(writes)
    {
      link := link.(handleOpen := false);
    }

    /** The probe of main.c:103-130: the index of the first device accepted, left
        open, or None. */
    method Probe(name: seq<byte>) returns (chosen: Option<nat>)
      modifies this
      ensures Probed(chosen, link.handleOpen) == ProbeFrom(old(link.devices), 0, name, old(link.handleOpen))
      ensures link == old(link).(handleOpen := link.handleOpen)
      ensures file == old(file) && writes == old(writes)
    {
      ghost var probe := ProbeFrom(link.devices, 0, name, link.handleOpen);
      var i := 0;
      chosen := None;
      while i < |link.devices| && chosen.None?
        invariant i <= |link.devices|
        invariant link == old(link).(handleOpen := link.handleOpen)
        invariant file == old(file) && writes == old(writes)
        invariant chosen.None? ==> ProbeFrom(link.devices, i, name, link.handleOpen) == probe
        invariant chosen.Some? ==> probe == Probed(chosen, true) && link.handleOpen
        decreases |link.devices| - i, if chosen.Some? then 0 else 1
      {
        var d := link.devices[i];
        if !d.descriptorOk || !d.opens {
          // libusb_get_device_descriptor or libusb_open failed: next device
          i := i + 1;
        } else {
          link := link.(handleOpen := true);
          if d.serial.None? {
            HandleClose();
            i := i + 1;
          } else {
            var nameSize := CStrLen(name);
            if CStrLen(d.serial.value) < nameSize {
              HandleClose();
              i := i + 1;
            } else {
              var cmp := StrncmpLwr(name, d.serial.value, nameSize);
              if cmp != 0 {
                HandleClose();
                i := i + 1;
              } else {
                chosen := Some(i);
              }
            }
          }
        }
      }
    }

    /** find_usb_device (main.c:101-192): probe the devices in turn, halt the first
        one accepted and, when writing, reboot it if it runs the firmware to be
        replaced. */
    method FindUsbDevice(writing: bool, name: seq<byte>, sub: Option<seq<byte>>, sel: FwSel) returns (code: int)
      modifies this
      ensures var f := Find(bus, old(link), writing, name, sub, sel);
        code == f.code && link == f.link
      ensures file == old(file) && writes == old(writes)
    {
      var chosen := Probe(name);
      if chosen.None? {
        return -1;
      }
      var r := ControlTransfer(HaltRequest(sub, sel));
      if r.status < 0 {
        return -2;
      }
      if !writing {
        return 0;
      }
      r := ControlTransfer(GetFwType);
      if r.status < 0 {
        return -3;
      }
      if RebootRequested(sel, FwType(r)) {
        r := ControlTransfer(Reboot(sub.Some?));
        if r.status < 0 {
          return -3;
        }
        HandleClose();
        return 1;
      }
      return 0;
    }

    /** The device lookup before a write (main.c:312-343), with the seven further
        lookups after a reboot; false where main exits with ERR_REBOOT. */
    method LookupWrite(c: Config) returns (ok: bool)
      modifies this
      ensures Lookup(ok, link) == LookupForWrite(bus, old(link), c)
      ensures file == old(file) && writes == old(writes)
    {
      GetDeviceList();
      var sts := FindUsbDevice(c.write, c.devName, c.subName, c.sel);
      if sts != 1 {
        return sts == 0;
      }
      HandleClose();
      ghost var goal := Relook(bus, link, c, 0);
      ok := false;
      var i := 0;
      var done := false;
      while !done
        invariant i < Retry
        invariant file == old(file) && writes == old(writes)
        invariant !done ==> Relook(bus, link, c, i) == goal
        invariant done ==> Lookup(ok, link) == goal
        decreases Retry - i, if done then 0 else 1
      {
        ghost var l := link;
        GetDeviceList();
        sts := FindUsbDevice(c.write, c.devName, c.subName, c.sel);
        RelookStep(bus, l, c, i, Found(sts, None, link));
        if sts != 0 && i == Retry - 1 {
          ok, done := false, true;
        } else if sts == 0 {
          ok, done := true, true;
        } else {
          i := i + 1;
        }
      }
    }

    /** The device lookup before a read (main.c:421-428). */
    method LookupRead(c: Config) returns (ok: bool)
      modifies this
      ensures Lookup(ok, link) == LookupForRead(bus, old(link), c)
      ensures file == old(file) && writes == old(writes)
    {
      GetDeviceList();
      var sts := FindUsbDevice(c.write, c.devName, c.subName, c.sel);
      ok := sts == 0;
    }

    /** One chunk of a pass (main.c:357-366): its DFU_DNLOAD request, sent until a
        transfer succeeds, at most RETRY_CNT times. */
    method WriteChunk(content: seq<byte>, off: nat, chunk: nat, fwIndex: nat) returns (ok: bool)
      requires 1 <= chunk && off < |content| < 0x1_0000_0000
      modifies this
      ensures Attempt(ok, link) == TryWrite(bus, old(link), WriteAt(content, off, chunk, fwIndex), RetryCnt)
      ensures file == old(file) && writes == old(writes)
    {
      var size := if |content| - off > chunk then chunk else |content| - off;
      var pkt := Write(fwIndex, off, content[off..off + size]);
      ghost var goal := TryWrite(bus, link, pkt, RetryCnt);
      ok := false;
      var tries := 0;
      while tries < RetryCnt && !ok
        invariant tries <= RetryCnt
        invariant file == old(file) && writes == old(writes)
        invariant !ok ==> TryWrite(bus, link, pkt, RetryCnt - tries) == goal
        invariant ok ==> Attempt(true, link) == goal
        decreases RetryCnt - tries, if ok then 0 else 1
      {
        ghost var l := link;
        var r := ControlTransfer(pkt);
        TryWriteStep(bus, l, pkt, RetryCnt - tries);
        if r.status >= 0 {
          ok := true;
        } else {
          tries := tries + 1;
        }
      }
    }

    /** The chunk at off as a step of the pass: written, the pass goes on from the
        next chunk; else it has failed. */
    method PassChunk(content: seq<byte>, off: nat, chunk: nat, fwIndex: nat) returns (written: bool)
      requires 1 <= chunk && off < |content| < 0x1_0000_0000
      modifies this
      ensures written ==>
        PassFrom(bus, old(link), content, chunk, fwIndex, off) == PassFrom(bus, link, content, chunk, fwIndex, off + chunk)
      ensures !written ==> PassFrom(bus, old(link), content, chunk, fwIndex, off) == Attempt(false, link)
      ensures file == old(file) && writes == old(writes)
    {
      ghost var l := link;
      written := WriteChunk(content, off, chunk, fwIndex);
      PassFromStep(bus, l, content, chunk, fwIndex, off, Attempt(written, link));
    }

    /** One pass over the image (main.c:350-379): every chunk in turn, until one
        cannot be written. */
    method WritePass(content: seq<byte>, chunk: nat, fwIndex: nat) returns (ok: bool)
      requires 1 <= chunk && |content| < 0x1_0000_0000
      modifies this
      ensures Attempt(ok, link) == PassFrom(bus, old(link), content, chunk, fwIndex, 0)
      ensures file == old(file) && writes == old(writes)
    {
      ghost var goal := PassFrom(bus, link, content, chunk, fwIndex, 0);
      var off := 0;
      ok := true;
      while off < |content|
        invariant file == old(file) && writes == old(writes)
        invariant PassFrom(bus, link, content, chunk, fwIndex, off) == goal
        decreases |content| - off
      {
        var written := PassChunk(content, off, chunk, fwIndex);
        if !written {
          ok := false;
          break;
        }
        off := off + chunk;
      }
    }

    /** The write path after the lookup (main.c:345-409): up to RETRY_CNT passes, the
        status check for a firmware region, and the final reboot; the exit code. */
    method WriteFirmware(content: seq<byte>, c: Config) returns (errc: int)
      requires 1 <= c.chunk && |content| < 0x1_0000_0000
      modifies this
      ensures Exit(errc, link) == WriteImage(bus, old(link), content, c)
      ensures file == old(file) && writes == old(writes)
    {
      var fwIndex := SelIndex(c.sel);
      ghost var goal := Passes(bus, link, content, c.chunk, fwIndex, RetryCnt);
      errc := 1;
      var retry := 0;
      while retry < RetryCnt && errc != 0
        invariant retry <= RetryCnt
        invariant file == old(file) && writes == old(writes)
        invariant errc in {0, 1, ErrWr} && (errc == 1 <==> retry == 0)
        invariant errc != 0 ==> Passes(bus, link, content, c.chunk, fwIndex, RetryCnt - retry) == goal
        invariant errc == 0 ==> Attempt(true, link) == goal
      {
        var ok := WritePass(content, c.chunk, fwIndex);
        errc := if ok then 0 else ErrWr;
        retry := retry + 1;
      }
      if errc == 0 && fwIndex <= SelIndex(App) {
        var r := ControlTransfer(GetFwStatus);
        if StatusFault(r) {
          errc := ErrChk;
        }
      }
      if errc == 0 {
        var r := ControlTransfer(Reboot(c.subName.Some?));
        if r.status < 0 {
          errc := ErrReboot;
        }
      }
    }

    /** dfu_read (main.c:91-99): the UPLOAD setup, then the IN transfer into pkt; the
        bytes delivered, or None when either transfer failed. */
    method DfuRead(fwIndex: nat, offset: uint32) returns (got: Option<seq<byte>>)
      modifies this
      ensures ReadTry(got, link) == ReadOnce(bus, old(link), fwIndex, offset)
      ensures file == old(file) && writes == old(writes)
    {
      var r := ControlTransfer(ReadSetup(fwIndex, offset, ReadSize));
      if r.status < 0 {
        return None;
      }
      r := ControlTransfer(ReadData(fwIndex));
      got := if r.status < 0 then None else Some(Received(r, ReadSize));
    }

    /** The five attempts of main.c:435-447 at one offset. */
    method ReadWithRetries(fwIndex: nat, offset: uint32) returns (got: Option<seq<byte>>)
      modifies this
      ensures ReadTry(got, link) == TryRead(bus, old(link), fwIndex, offset, ReadTries)
      ensures file == old(file) && writes == old(writes)
    {
      ghost var goal := TryRead(bus, link, fwIndex, offset, ReadTries);
      got := None;
      var tries := 0;
      while tries < ReadTries && got.None?
        invariant tries <= ReadTries
        invariant file == old(file) && writes == old(writes)
        invariant got.None? ==> TryRead(bus, link, fwIndex, offset, ReadTries - tries) == goal
        invariant got.Some? ==> ReadTry(got, link) == goal
        decreases ReadTries - tries, if got.Some? then 0 else 1
      {
        got := DfuRead(fwIndex, offset);
        if got.None? {
          tries := tries + 1;
        }
      }
    }

    /** fwrite of one chunk to the output file (main.c:464-465). */
    method FileWrite(data: seq<byte>) returns (ok: bool)
      modifies this
      ensures ok == fileOk(old(writes)) && link == old(link)
      ensures file == (if ok then old(file) + data else old(file))
      ensures writes == (if ok then old(writes) + 1 else old(writes))
    {
      ok := fileOk(writes);
      if ok {
        file := file + data;
        writes := writes + 1;
      }
    }

    /** The rest of a round of the read loop once the retries at the offset have given
        `got` (main.c:448-470): how the round ended (Going when the loop goes on), and
        the counters after it. */
    method FinishRound(ghost s: Reading, offset: uint32, readLength: uint32, got: Option<seq<byte>>)
      returns (end: ReadEnd, offset': uint32, readLength': uint32)
      requires s == Reading(Going, file, offset, readLength, writes, s.link)
      modifies this
      ensures Reading(end, file, offset', readLength', writes, link) == ReadRound(fileOk, s, ReadTry(got, old(link)))
    {
      end, offset', readLength' := Going, offset, readLength;
      if got.None? {
        end := ReadFailed;
      } else {
        readLength' := (readLength + |got.value|) % 0x1_0000_0000;
        if |got.value| == 0 {
          end := Complete;
        } else {
          var ok := FileWrite(got.value);
          if !ok {
            end := FileFailed;
          } else {
            offset' := (offset + |got.value|) % 0x1_0000_0000;
          }
        }
      }
    }

    /** The read loop (main.c:430-471), at most `fuel` rounds of it: how it ended, and
        the final offset and readed_length. */
    method ReadImage(fwIndex: nat, fuel: nat) returns (end: ReadEnd, offset: uint32, readLength: uint32)
      modifies this
      ensures Reading(end, file, offset, readLength, writes, link)
           == ReadFrom(bus, fileOk, fwIndex, Reading(Going, old(file), 0, 0, old(writes), old(link)), fuel)
    {
      ghost var goal := ReadFrom(bus, fileOk, fwIndex, Reading(Going, file, 0, 0, writes, link), fuel);
      end, offset, readLength := Going, 0, 0;
      var rounds := 0;
      while end == Going && rounds < fuel
        invariant rounds <= fuel
        invariant end == Going ==> ReadFrom(bus, fileOk, fwIndex, Reading(Going, file, offset, readLength, writes, link), fuel - rounds) == goal
        invariant end != Going ==> Reading(end, file, offset, readLength, writes, link) == goal
      {
        ghost var s := Reading(Going, file, offset, readLength, writes, link);
        var got := ReadWithRetries(fwIndex, offset);
        ReadStepIsRound(bus, fileOk, fwIndex, s, ReadTry(got, link));
        end, offset, readLength := FinishRound(s, offset, readLength, got);
        ReadFromStep(bus, fileOk, fwIndex, s, fuel - rounds);
        rounds := rounds + 1;
      }
      if end == Going {
        end := Unfinished;
      }
    }

    /** main (main.c:278-475) on a fresh program: the exit code and which parser runs
        on the bytes read. */
    method Execute(argv: seq<seq<byte>>, input: FileInput, fuel: nat) returns (code: int, parser: Parser)
      requires input.Contents? ==> |input.bytes| < 0x1_0000_0000
      requires link == Link([], 0, [], false) && file == [] && writes == 0
      modifies this
      ensures var r := Session(bus, argv, input, fileOk, fuel);
        code == r.code && link == r.link && file == r.file && parser == r.parser
    {
      parser := NoParser;
      var a := ParseArg(argv);
      if a.None? {
        return ErrArgc, parser;
      }
      var c := a.value;
      if input.CannotOpen? {
        return ErrFile, parser;
      }
      if c.write {
        if input.ShortRead? {
          return ErrFileRead, parser;
        }
        var found := LookupWrite(c);
        if !found {
          return ErrReboot, parser;
        }
        code := WriteFirmware(input.bytes, c);
      } else {
        var found := LookupRead(c);
        if !found {
          return ErrReboot, parser;
        }
        var end, offset, readLength := ReadImage(SelIndex(c.sel), fuel);
        code := if end == Complete then 0 else 1;
        if end == Complete && readLength != 0 {
          parser := if c.sel == Cfg then ConfigParser else FirmwareParser;
        }
      }
    }
  }

  /** One round of the read loop, as ReadImage takes it: a round that went on leaves
      the rest of the loop to do, any other ends it. */
  lemma ReadFromStep(bus: Bus, fileOk: nat -> bool, fwIndex: nat, s: Reading, fuel: nat)
    requires fuel > 0
    ensures var s1 := ReadStep(bus, fileOk, fwIndex, s);
      ReadFrom(bus, fileOk, fwIndex, s, fuel) == if s1.end == Going then ReadFrom(bus, fileOk, fwIndex, s1, fuel - 1) else s1
  {
  }

  /** A round is the retries at its offset followed by the rest of its body. */
  lemma ReadStepIsRound(bus: Bus, fileOk: nat -> bool, fwIndex: nat, s: Reading, t: ReadTry)
    requires t == TryRead(bus, s.link, fwIndex, s.offset, ReadTries)
    ensures ReadStep(bus, fileOk, fwIndex, s) == ReadRound(fileOk, s, t)
  {
  }

  /** One chunk of a pass: its attempt a, then the rest of the pass if it got through. */
  lemma PassFromStep(bus: Bus, l: Link, content: seq<byte>, chunk: nat, fwIndex: nat, off: nat, a: Attempt)
    requires 1 <= chunk && off < |content| < 0x1_0000_0000
    requires a == TryWrite(bus, l, WriteAt(content, off, chunk, fwIndex), RetryCnt)
    ensures PassFrom(bus, l, content, chunk, fwIndex, off)
         == if a.ok then PassFrom(bus, a.link, content, chunk, fwIndex, off + chunk) else a
  {
  }

  /** One attempt at a chunk: done if the transfer succeeded, else one try fewer. */
  lemma TryWriteStep(bus: Bus, l: Link, req: Request, tries: nat)
    requires tries > 0
    ensures TryWrite(bus, l, req, tries)
         == if Next(bus, l).status >= 0 then Attempt(true, Send(l, req)) else TryWrite(bus, Send(l, req), req, tries - 1)
  {
  }

  /** One lookup of the retry loop after a reboot, whose code and link f gives. */
  lemma RelookStep(bus: Bus, l: Link, c: Config, i: nat, f: Found)
    requires i < Retry
    requires f.code == Find(bus, TakeList(bus, l), c.write, c.devName, c.subName, c.sel).code
    requires f.link == Find(bus, TakeList(bus, l), c.write, c.devName, c.subName, c.sel).link
    ensures Relook(bus, l, c, i)
         == if f.code != 0 && i == Retry - 1 then Lookup(false, f.link)
            else if f.code == 0 then Lookup(true, f.link)
            else Relook(bus, f.link, c, i + 1)
  {
  }
}
