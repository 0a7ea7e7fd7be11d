/** What the flasher exchanges with libusb (main.c:84-99, 101-113, 312, 326, 421).

    The bus is an input of the model: the k-th control transfer the program issues gets
    the k-th reply of `replies`, the k-th device list it asks for is `lists(k)`, and
    every device in a list says whether its descriptor can be read, whether it can be
    opened and which serial-number string it reports. */
module Transport {
  import opened Wrappers
  import opened Bytes

  /** A control transfer's outcome: libusb_control_transfer's return value (negative
      on failure, else the byte count) and the buffer's contents after the call. */
  datatype Reply = Reply(status: int, data: seq<byte>)

  /** The buffer byte at index i after the call (0 past the bytes given). */
  function ByteAt(r: Reply, i: nat): byte
  {
    if i < |r.data| then r.data[i] else 0
  }

  /** The bytes an IN transfer with a buffer of `max` bytes has delivered. */
  function Received(r: Reply, max: nat): (s: seq<byte>)
    requires r.status >= 0
    ensures |s| == if r.status < max then r.status else max
  {
    var n := if r.status < max then r.status else max;
    seq(n, i requires 0 <= i < n => ByteAt(r, i))
  }

  /** Those bytes are the buffer's first ones. */
  lemma ReceivedBytes(r: Reply, max: nat)
    requires r.status >= 0
    ensures forall i :: 0 <= i < |Received(r, max)| ==> Received(r, max)[i] == ByteAt(r, i)
  {
  }

  /** The class requests of the DFU protocol the program issues, with the wValue and
      the OUT data they carry. */
  datatype Request =
    | Halt                                    // DFU_CLRSTATUS, no data (main.c:88)
    | HaltSpecific(fwIndex: nat, app: seq<byte>)  // DFU_CLRSTATUS naming a sub-device (main.c:89)
    | GetFwType                               // DFU_GETSTATE, one byte in (main.c:87)
    | Reboot(sub: bool)                       // DFU_DETACH (main.c:84)
    | Write(fwIndex: nat, offset: uint32, payload: seq<byte>)  // DFU_DNLOAD (main.c:85)
    | GetFwStatus                             // DFU_GETSTATUS, three bytes in (main.c:86)
    | ReadSetup(fwIndex: nat, offset: uint32, length: uint32)  // DFU_UPLOAD out (main.c:93-96)
    | ReadData(fwIndex: nat)                  // DFU_UPLOAD in (main.c:98)

  /** One entry of libusb_get_device_list's result, as far as find_usb_device looks at
      it; `serial` is None when the string descriptor cannot be read. */
  datatype Device = Device(descriptorOk: bool, opens: bool, serial: Option<seq<byte>>)

  /** Everything the bus will answer. A device list that cannot be fetched is empty. */
  datatype Bus = Bus(replies: nat -> Reply, lists: nat -> seq<Device>)

  /** The program's side of the bus: the requests issued so far, in order, how many
      device lists it has fetched, the current list, and whether the global handle is
      open. */
  datatype Link = Link(sent: seq<Request>, listsTaken: nat, devices: seq<Device>, handleOpen: bool)

  /** The reply the next control transfer gets. */
  function Next(bus: Bus, l: Link): Reply
  {
    bus.replies(|l.sent|)
  }

  /** The link after one more control transfer. */
  function Send(l: Link, req: Request): (l': Link)
    ensures l'.sent == l.sent + [req]
    ensures l'.listsTaken == l.listsTaken && l'.devices == l.devices && l'.handleOpen == l.handleOpen
  {
    l.(sent := l.sent + [req])
  }

  /** libusb_get_device_list (main.c:312, 326, 421). */
  function TakeList(bus: Bus, l: Link): (l': Link)
    ensures l'.devices == bus.lists(l.listsTaken) && l'.listsTaken == l.listsTaken + 1
    ensures l'.sent == l.sent && l'.handleOpen == l.handleOpen
  {
    l.(listsTaken := l.listsTaken + 1, devices := bus.lists(l.listsTaken))
  }

  /** The OUT data a request carries on the wire: the DNLOAD packet is the offset,
      little-endian, then the payload (main.c:357-360); the UPLOAD setup is the offset
      and the length (main.c:93-95); the named halt carries the name. */
  function OutData(req: Request): seq<byte>
  {
    match req
    case Write(_, offset, payload) => EncodeLeU32(offset) + payload
    case ReadSetup(_, offset, length) => EncodeLeU32(offset) + EncodeLeU32(length)
    case HaltSpecific(_, app) => app
    case _ => []
  }

  /** The device can take both packets apart again. */
  lemma OutDataDecodes(req: Request)
    ensures req.Write? ==> var d := OutData(req);
      |d| == 4 + |req.payload| && LeU32(d, 0) == req.offset && d[4..] == req.payload
    ensures req.ReadSetup? ==> var d := OutData(req);
      |d| == 8 && LeU32(d, 0) == req.offset && LeU32(d, 4) == req.length
  {
    if req.ReadSetup? {
      var d := OutData(req);
      assert d[4..8] == EncodeLeU32(req.length);
    }
  }
}
