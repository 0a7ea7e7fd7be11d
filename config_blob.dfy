/** The configuration blob parser of parser_cfg.c.

    A blob is a little-endian 32-bit size_config, size_config payload bytes and a
    little-endian CRC32 word. The payload is a run of entries decoded by a
    byte-at-a-time machine (Finish, Key, Length, Value) whose state lives in a static
    struct and survives across the 32-byte read windows, positions being absolute
    offsets in the blob. */
module ConfigBlob {
  import opened Bytes

  const ConfigMaxKeySize := 32  // CONFIG_MAX_KEY_SIZE: key bytes plus its NUL
  const DataOffset := 4         // DATA_OFFSET: the payload starts after size_config
  const BufferSize := 32        // BUFFER_SIZE: bytes handed to the machine at a time

  /** config_sts_t, in the source's order. */
  datatype Status =
    | Ok
    | StorageReadError
    | StorageWriteError
    | StorageWrongFormat
    | StorageOutOfBounds
    | WrongSizeConfig
    | CrcInvalid
    | KeyLong
    | KeyShort
    | LengthDataZero
    | ParserNotFinished
    | NoData

  /** sts_t: the phase of the entry machine. */
  datatype Phase = Finish | Key | Length | Value

  /** The parser struct as a value: the key bytes written so far (NUL included once it
      arrived), the length being assembled and how many of its bytes arrived, and the
      absolute offset of the value once it is known. */
  datatype ParserState = ParserState(
    phase: Phase,
    name: seq<byte>,
    lengthData: nat,
    lengthSize: nat,
    valueStart: nat)

  /** The struct after memset(&parser, 0, sizeof(parser)). */
  const Initial := ParserState(Finish, [], 0, 0, 0)

  /** A decoded entry: key (without its NUL), declared length, value bytes and the
      absolute offset the value starts at (config_entry_t). */
  datatype Entry = Entry(key: seq<byte>, length: nat, value: seq<byte>, offset: nat)

  /** The effect of one byte: next state, the status parse_data would return (Ok
      when it goes on) and the entry printed, if any. */
  datatype Stepped = Stepped(next: ParserState, status: Status, emitted: seq<Entry>)

  /** The result of running the machine over a range of the blob. */
  datatype Outcome = Outcome(status: Status, entries: seq<Entry>, state: ParserState)

  /** The blob verdict and the entries printed before it. */
  datatype Report = Report(status: Status, entries: seq<Entry>)

  /** What the machine state promises about the byte at absolute offset pos that it
      is about to read. Every state reachable from Initial satisfies it. */
  ghost predicate Wf(s: ParserState, pos: nat)
  {
    match s.phase
    case Finish => s == Initial
    case Key =>
      && 1 <= |s.name| < ConfigMaxKeySize
      && (forall i :: 0 <= i < |s.name| ==> s.name[i] != 0)
      && s.lengthData == 0 && s.lengthSize == 0 && s.valueStart == 0
    case Length =>
      && KeyComplete(s.name)
      && s.lengthSize < 2 && s.valueStart == 0
      && (if s.lengthSize == 0 then s.lengthData == 0 else s.lengthData < 0x100)
    case Value =>
      && KeyComplete(s.name)
      && s.lengthSize == 2
      && 0 < s.lengthData < 0x1_0000
      && s.valueStart <= pos < s.valueStart + s.lengthData
  }

  /** A key buffer holding one to 31 non-NUL bytes followed by its NUL. */
  ghost predicate KeyComplete(name: seq<byte>)
  {
    && 2 <= |name| <= ConfigMaxKeySize
    && name[|name| - 1] == 0
    && forall i :: 0 <= i < |name| - 1 ==> name[i] != 0
  }

  /** What every printed entry satisfies: a key of 1 to 31 non-NUL bytes, a nonzero
      16-bit length, and the value bytes taken from the blob at its offset. */
  ghost predicate WfEntry(content: seq<byte>, e: Entry)
  {
    && 1 <= |e.key| < ConfigMaxKeySize
    && (forall i :: 0 <= i < |e.key| ==> e.key[i] != 0)
    && 0 < e.length < 0x1_0000
    && e.offset + e.length <= |content|
    && e.value == content[e.offset..e.offset + e.length]
  }

  /** Entries in input order: each ends before the next one starts. */
  ghost predicate InOrder(es: seq<Entry>)
  {
    forall i, j :: 0 <= i < j < |es| ==> es[i].offset + es[i].length <= es[j].offset
  }

  /** parser_cfg.c:85-91: byte b added to the key buffer. */
  function KeyByte(s: ParserState, b: byte): Stepped
  {
    var name := s.name + [b];
    var t := s.(phase := Key, name := name);
    if |name| >= ConfigMaxKeySize && b != 0 then Stepped(t, KeyLong, [])
    else if b == 0 && |name| <= 1 then Stepped(t, KeyShort, [])
    else if b == 0 then Stepped(t.(phase := Length), Ok, [])
    else Stepped(t, Ok, [])
  }

  /** One iteration of the switch in parse_data (parser_cfg.c:80-120) on the byte at
      absolute offset pos. */
  function Step(content: seq<byte>, pos: nat, s: ParserState): Stepped
    requires pos < |content|
  {
    var b := content[pos];
    match s.phase
    case Finish =>
      // NUL bytes between entries are padding; anything else starts a key
      if b == 0 then Stepped(s, Ok, []) else KeyByte(s, b)
    case Key => KeyByte(s, b)
    case Length =>
      // `length_data |= b << (8 * length_size)`: the low byte arrives while lengthData
      // is still 0 (Wf), so the OR adds disjoint bits
      var ld := s.lengthData + (if s.lengthSize == 0 then b as int else 0x100 * (b as int));
      var ls := s.lengthSize + 1;
      if ls < 2 then Stepped(s.(lengthData := ld, lengthSize := ls), Ok, [])
      else if ld == 0 then Stepped(s.(lengthData := ld, lengthSize := ls), LengthDataZero, [])
      else Stepped(s.(phase := Value, lengthData := ld, lengthSize := ls, valueStart := pos + 1), Ok, [])
    case Value =>
      if s.valueStart + s.lengthData == pos + 1 then
        // the entry is complete: print it and clear the whole struct
        Stepped(Initial, Ok, [Entry(UntilNul(s.name), s.lengthData, content[s.valueStart..pos + 1], s.valueStart)])
      else Stepped(s, Ok, [])
  }

  /** One step keeps the machine well formed, and a printed entry is well formed and
      ends exactly at the byte that completed it. */
  lemma StepWf(content: seq<byte>, pos: nat, s: ParserState)
    requires pos < |content|
    ensures Wf(s, pos) ==> var st := Step(content, pos, s);
      && st.status in {Ok, KeyLong, LengthDataZero}
      && (st.status == Ok ==> Wf(st.next, pos + 1))
      && (st.status != Ok ==> st.next.phase != Value)
      && |st.emitted| <= 1
      && (forall e :: e in st.emitted ==> WfEntry(content, e) && e.offset + e.length == pos + 1 && e.offset == s.valueStart)
      && (st.emitted != [] ==> s.phase == Value)
      && (st.next.phase == Value && s.phase != Value ==> st.next.valueStart == pos + 1)
      && (st.next.phase == Value && s.phase == Value ==> st.next.valueStart == s.valueStart)
  {
    if Wf(s, pos) {
      StepKeepsWf(content, pos, s);
      StepEntryWf(content, pos, s);
      StepValueStart(content, pos, s);
    }
  }

  /** The state part of StepWf. */
  lemma StepKeepsWf(content: seq<byte>, pos: nat, s: ParserState)
    requires pos < |content| && Wf(s, pos)
    ensures var st := Step(content, pos, s);
      && st.status in {Ok, KeyLong, LengthDataZero}
      && (st.status == Ok ==> Wf(st.next, pos + 1))
      && (st.status != Ok ==> st.next.phase != Value)
  {
  }

  /** The entry part of StepWf. */
  lemma StepEntryWf(content: seq<byte>, pos: nat, s: ParserState)
    requires pos < |content| && Wf(s, pos)
    ensures var st := Step(content, pos, s);
      && |st.emitted| <= 1
      && (forall e :: e in st.emitted ==> WfEntry(content, e) && e.offset + e.length == pos + 1 && e.offset == s.valueStart)
      && (st.emitted != [] ==> s.phase == Value)
  {
    var st := Step(content, pos, s);
    if s.phase == Value && st.emitted != [] {
      var key := UntilNul(s.name);
      assert s.name[|s.name| - 1] == 0;
      assert |key| == |s.name| - 1;
    }
  }

  /** Where the value of any entry completed from state s at offset pos can start. */
  function LowerBound(s: ParserState, pos: nat): nat
  {
    if s.phase == Value then s.valueStart else pos
  }

  /** The machine run over content[lo..hi) from state s, stopping at the first byte
      that makes parse_data return an error (defined from the end, as the loop
      extends it). */
  function Run(content: seq<byte>, lo: nat, hi: nat, s: ParserState): Outcome
    requires lo <= hi <= |content|
    decreases hi
  {
    if hi == lo then Outcome(Ok, [], s)
    else
      var r := Run(content, lo, hi - 1, s);
      if r.status != Ok then r
      else
        var st := Step(content, hi - 1, r.state);
        Outcome(st.status, r.entries + st.emitted, st.next)
  }

  /** From a well-formed state the machine never reports KEY_SHORT, stays well formed
      while it goes on, and prints well-formed entries in blob order, each inside the
      bytes read and after the point the run started. */
  lemma RunWf(content: seq<byte>, lo: nat, hi: nat, s: ParserState)
    requires lo <= hi <= |content| && Wf(s, lo)
    ensures var r := Run(content, lo, hi, s);
      && r.status in {Ok, KeyLong, LengthDataZero}
      && (r.status == Ok ==> Wf(r.state, hi))
      && (r.status != Ok ==> r.state.phase != Value)
      && (forall e :: e in r.entries ==> WfEntry(content, e) && LowerBound(s, lo) <= e.offset && e.offset + e.length <= hi)
      && InOrder(r.entries)
      && (r.state.phase == Value ==> LowerBound(s, lo) <= r.state.valueStart)
      && (r.status == Ok && r.state.phase == Value ==>
            forall e :: e in r.entries ==> e.offset + e.length <= r.state.valueStart)
  {
    RunStateWf(content, lo, hi, s);
    RunEntriesWf(content, lo, hi, s);
    RunInOrder(content, lo, hi, s);
    RunBeforeValue(content, lo, hi, s);
  }

  /** The state part of RunWf. */
  lemma {:induction false} RunStateWf(content: seq<byte>, lo: nat, hi: nat, s: ParserState)
    requires lo <= hi <= |content| && Wf(s, lo)
    decreases hi
    ensures var r := Run(content, lo, hi, s);
      && r.status in {Ok, KeyLong, LengthDataZero}
      && (r.status == Ok ==> Wf(r.state, hi))
      && (r.status != Ok ==> r.state.phase != Value)
      && (r.state.phase == Value ==> LowerBound(s, lo) <= r.state.valueStart)
  {
    if hi > lo {
      RunStateWf(content, lo, hi - 1, s);
      var r := Run(content, lo, hi - 1, s);
      if r.status == Ok {
        StepWf(content, hi - 1, r.state);
      }
    }
  }

  /** The entries part of RunWf. */
  lemma {:induction false} RunEntriesWf(content: seq<byte>, lo: nat, hi: nat, s: ParserState)
    requires lo <= hi <= |content| && Wf(s, lo)
    decreases hi
    ensures var r := Run(content, lo, hi, s);
      forall e :: e in r.entries ==> WfEntry(content, e) && LowerBound(s, lo) <= e.offset && e.offset + e.length <= hi
  {
    if hi > lo {
      RunEntriesWf(content, lo, hi - 1, s);
      var r := Run(content, lo, hi - 1, s);
      if r.status == Ok {
        RunStateWf(content, lo, hi - 1, s);
        StepWf(content, hi - 1, r.state);
        var st := Step(content, hi - 1, r.state);
        assert forall e :: e in r.entries + st.emitted ==> e in r.entries || e in st.emitted;
      }
    }
  }

  /** Where a value being read starts, by Step alone: a step into Value fixes it at the
      next offset, a step within Value keeps it, and neither prints anything. */
  lemma StepValueStart(content: seq<byte>, pos: nat, s: ParserState)
    requires pos < |content|
    ensures var st := Step(content, pos, s);
      st.next.phase == Value ==>
        && st.emitted == []
        && st.next.valueStart == (if s.phase == Value then s.valueStart else pos + 1)
  {
  }

  /** A printed entry, by Step alone: only the Value phase prints, and the entry starts
      where the value did. */
  lemma StepEmits(content: seq<byte>, pos: nat, s: ParserState)
    requires pos < |content|
    ensures var st := Step(content, pos, s);
      st.emitted != [] ==>
        && s.phase == Value && |st.emitted| == 1 && st.emitted[0].offset == s.valueStart
        && st.emitted[0].offset + st.emitted[0].length == pos + 1
  {
  }

  /** While a value is being read, every entry printed so far ended before it. */
  lemma {:induction false} RunBeforeValue(content: seq<byte>, lo: nat, hi: nat, s: ParserState)
    requires lo <= hi <= |content| && Wf(s, lo)
    decreases hi
    ensures var r := Run(content, lo, hi, s);
      r.status == Ok && r.state.phase == Value ==>
        forall e :: e in r.entries ==> e.offset + e.length <= r.state.valueStart
  {
    if hi > lo {
      var r := Run(content, lo, hi - 1, s);
      if r.status == Ok {
        var st := Step(content, hi - 1, r.state);
        StepValueStart(content, hi - 1, r.state);
        if st.next.phase == Value {
          if r.state.phase == Value {
            RunBeforeValue(content, lo, hi - 1, s);
          } else {
            RunEntriesWf(content, lo, hi - 1, s);
          }
          assert r.entries + st.emitted == r.entries;
        }
      }
    }
  }

  /** The order part of RunWf: entries in blob order. */
  lemma {:induction false} RunInOrder(content: seq<byte>, lo: nat, hi: nat, s: ParserState)
    requires lo <= hi <= |content| && Wf(s, lo)
    decreases hi
    ensures InOrder(Run(content, lo, hi, s).entries)
  {
    if hi > lo {
      RunInOrder(content, lo, hi - 1, s);
      var r := Run(content, lo, hi - 1, s);
      if r.status == Ok {
        var st := Step(content, hi - 1, r.state);
        StepEmits(content, hi - 1, r.state);
        if st.emitted != [] {
          RunBeforeValue(content, lo, hi - 1, s);
          var es := r.entries + st.emitted;
          assert InOrder(es) by {
            forall i, j | 0 <= i < j < |es|
              ensures es[i].offset + es[i].length <= es[j].offset
            {
              if j >= |r.entries| {
                assert es[j] == st.emitted[0];
                assert es[i] in r.entries;
              }
            }
          }
        } else {
          assert r.entries + st.emitted == r.entries;
        }
      }
    }
  }

  /** The part of RunWf a caller feeding more bytes needs. */
  lemma RunKeepsWf(content: seq<byte>, lo: nat, hi: nat, s: ParserState)
    requires lo <= hi <= |content| && Wf(s, lo) && Run(content, lo, hi, s).status == Ok
    ensures Wf(Run(content, lo, hi, s).state, hi)
  {
    RunWf(content, lo, hi, s);
  }

  /** Running on from mid to hi after a run up to mid; an error stops everything. */
  function Then(content: seq<byte>, r: Outcome, mid: nat, hi: nat): Outcome
    requires mid <= hi <= |content|
  {
    if r.status != Ok then r
    else
      var r2 := Run(content, mid, hi, r.state);
      Outcome(r2.status, r.entries + r2.entries, r2.state)
  }

  /** The machine state carries everything: a run may be cut at any offset and resumed
      from the state reached there. */
  lemma {:induction false} RunSplit(content: seq<byte>, lo: nat, mid: nat, hi: nat, s: ParserState)
    requires lo <= mid <= hi <= |content|
    ensures Run(content, lo, hi, s) == Then(content, Run(content, lo, mid, s), mid, hi)
    decreases hi
  {
    var a := Run(content, lo, mid, s);
    if hi == mid {
      if a.status == Ok {
        assert a.entries + [] == a.entries;
      }
    } else {
      RunSplit(content, lo, mid, hi - 1, s);
      if a.status == Ok {
        var r2 := Run(content, mid, hi - 1, a.state);
        if r2.status == Ok {
          var st := Step(content, hi - 1, r2.state);
          assert (a.entries + r2.entries) + st.emitted == a.entries + (r2.entries + st.emitted);
        }
      }
    }
  }

  /** One more byte after a run that went on. */
  lemma RunNext(content: seq<byte>, lo: nat, hi: nat, s: ParserState)
    requires lo <= hi < |content| && Run(content, lo, hi, s).status == Ok
    ensures var r := Run(content, lo, hi, s);
      var st := Step(content, hi, r.state);
      && Run(content, lo, hi + 1, s).status == st.status
      && Run(content, lo, hi + 1, s).entries == r.entries + st.emitted
      && Run(content, lo, hi + 1, s).state == st.next
  {
  }

  /** What a loop feeding one more byte needs: the state reached is well formed, and
      the byte extends the run by one step. */
  lemma RunAdvances(content: seq<byte>, lo: nat, hi: nat, s: ParserState)
    requires lo <= hi < |content| && Wf(s, lo) && Run(content, lo, hi, s).status == Ok
    ensures Wf(Run(content, lo, hi, s).state, hi)
    ensures var st := Step(content, hi, Run(content, lo, hi, s).state);
      && Run(content, lo, hi + 1, s).status == st.status
      && Run(content, lo, hi + 1, s).entries == Run(content, lo, hi, s).entries + st.emitted
      && Run(content, lo, hi + 1, s).state == st.next
  {
    RunKeepsWf(content, lo, hi, s);
    RunNext(content, lo, hi, s);
  }

  /** RunSplit after a prefix that went on, field by field. */
  lemma RunAppend(content: seq<byte>, lo: nat, mid: nat, hi: nat, s: ParserState)
    requires lo <= mid <= hi <= |content| && Run(content, lo, mid, s).status == Ok
    ensures var r := Run(content, lo, mid, s);
      var r2 := Run(content, mid, hi, r.state);
      && Run(content, lo, hi, s).status == r2.status
      && Run(content, lo, hi, s).entries == r.entries + r2.entries
      && Run(content, lo, hi, s).state == r2.state
  {
    RunSplit(content, lo, mid, hi, s);
  }

  /** A window parsed after a run that went on extends that run. */
  lemma WindowStep(content: seq<byte>, lo: nat, mid: nat, hi: nat, s: ParserState,
                   before: Outcome, status: Status, emitted: seq<Entry>, after: ParserState)
    requires lo <= mid <= hi <= |content|
    requires Run(content, lo, mid, s) == before && before.status == Ok
    requires Run(content, mid, hi, before.state).status == status
    requires Run(content, mid, hi, before.state).entries == emitted
    requires Run(content, mid, hi, before.state).state == after
    ensures Run(content, lo, hi, s) == Outcome(status, before.entries + emitted, after)
  {
    RunAppend(content, lo, mid, hi, s);
  }

  /** Once parse_data has returned an error, later bytes change nothing. */
  lemma RunStopsAtError(content: seq<byte>, lo: nat, mid: nat, hi: nat, s: ParserState)
    requires lo <= mid <= hi <= |content|
    requires Run(content, lo, mid, s).status != Ok
    ensures Run(content, lo, hi, s).status == Run(content, lo, mid, s).status
    ensures Run(content, lo, hi, s).entries == Run(content, lo, mid, s).entries
    ensures Run(content, lo, hi, s).state == Run(content, lo, mid, s).state
  {
    RunSplit(content, lo, mid, hi, s);
  }

  /** The payload fed to the machine in windows of at most w bytes, as the driver loop
      of parse (parser_cfg.c:153-172) does with w = BufferSize. */
  function RunWindows(content: seq<byte>, lo: nat, hi: nat, w: nat, s: ParserState): Outcome
    requires lo <= hi <= |content| && 1 <= w
    decreases hi as int - lo
  {
    if lo == hi then Outcome(Ok, [], s)
    else
      var size := if w < hi - lo then w else hi - lo;
      var r := Run(content, lo, lo + size, s);
      if r.status != Ok then r
      else
        var r2 := RunWindows(content, lo + size, hi, w, r.state);
        Outcome(r2.status, r.entries + r2.entries, r2.state)
  }

  /** Resumability: whatever the window size, the verdict, the printed entries and the
      final state are those of the byte-at-a-time run. */
  lemma {:induction false} WindowSizeIrrelevant(content: seq<byte>, lo: nat, hi: nat, w: nat, s: ParserState)
    requires lo <= hi <= |content| && 1 <= w
    ensures RunWindows(content, lo, hi, w, s) == Run(content, lo, hi, s)
    decreases hi - lo
  {
    if lo < hi {
      var size := if w < hi - lo then w else hi - lo;
      RunSplit(content, lo, lo + size, hi, s);
      var r := Run(content, lo, lo + size, s);
      if r.status == Ok {
        WindowSizeIrrelevant(content, lo + size, hi, w, r.state);
      }
    }
  }

  /** NUL bytes met between entries are skipped as padding. */
  lemma {:induction false} PaddingSkipped(content: seq<byte>, lo: nat, hi: nat)
    requires lo <= hi <= |content|
    requires forall i :: lo <= i < hi ==> content[i] == 0
    ensures Run(content, lo, hi, Initial) == Outcome(Ok, [], Initial)
    decreases hi
  {
    if lo < hi {
      PaddingSkipped(content, lo, hi - 1);
    }
  }

  /** Non-NUL bytes after Finish accumulate in the key buffer (fewer than 32 of them). */
  lemma {:induction false} KeyAccumulates(content: seq<byte>, p: nat, q: nat)
    requires p < q <= |content| && q - p < ConfigMaxKeySize
    requires forall i :: p <= i < q ==> content[i] != 0
    ensures Run(content, p, q, Initial) == Outcome(Ok, [], ParserState(Key, content[p..q], 0, 0, 0))
    decreases q
  {
    var key := ParserState(Key, content[p..q], 0, 0, 0);
    if q - 1 == p {
      assert Step(content, p, Initial) == Stepped(key, Ok, []);
      RunNext(content, p, p, Initial);
    } else {
      KeyAccumulates(content, p, q - 1);
      var s1 := ParserState(Key, content[p..q - 1], 0, 0, 0);
      assert content[p..q - 1] + [content[q - 1]] == content[p..q];
      assert Step(content, q - 1, s1) == Stepped(key, Ok, []);
      RunNext(content, p, q - 1, Initial);
    }
  }

  /** A key of 31 non-NUL bytes and its NUL is accepted: the machine moves on to the
      length with a full 32-byte key buffer. */
  lemma LongestKeyAccepted(content: seq<byte>, p: nat)
    requires p + ConfigMaxKeySize <= |content|
    requires forall i :: p <= i < p + ConfigMaxKeySize - 1 ==> content[i] != 0
    requires content[p + ConfigMaxKeySize - 1] == 0
    ensures Run(content, p, p + ConfigMaxKeySize, Initial)
         == Outcome(Ok, [], ParserState(Length, content[p..p + ConfigMaxKeySize], 0, 0, 0))
  {
    var q := p + ConfigMaxKeySize - 1;
    KeyAccumulates(content, p, q);
    assert content[p..q] + [content[q]] == content[p..q + 1];
    RunNext(content, p, q, Initial);
  }

  /** A 32nd non-NUL key byte is rejected with KEY_LONG. */
  lemma KeyTooLongRejected(content: seq<byte>, p: nat)
    requires p + ConfigMaxKeySize <= |content|
    requires forall i :: p <= i < p + ConfigMaxKeySize ==> content[i] != 0
    ensures Run(content, p, p + ConfigMaxKeySize, Initial).status == KeyLong
  {
    var q := p + ConfigMaxKeySize - 1;
    KeyAccumulates(content, p, q);
    RunNext(content, p, q, Initial);
  }

  /** The two bytes after the key's NUL are the little-endian length; zero is rejected,
      otherwise the value starts right after them. */
  lemma LengthDecoded(content: seq<byte>, p: nat, name: seq<byte>)
    requires p + 2 <= |content| && KeyComplete(name)
    ensures var s := ParserState(Length, name, 0, 0, 0);
      Run(content, p, p + 2, s)
        == if LeU16(content, p) == 0 then Outcome(LengthDataZero, [], s.(lengthSize := 2))
           else Outcome(Ok, [], ParserState(Value, name, LeU16(content, p), 2, p + 2))
  {
    var s := ParserState(Length, name, 0, 0, 0);
    var s1 := s.(lengthData := content[p] as int, lengthSize := 1);
    assert Run(content, p, p + 1, s) == Outcome(Ok, [], s1);
    var st := Step(content, p + 1, s1);
    assert st.next.lengthData == LeU16(content, p);
  }

  /** Inside the value the machine prints nothing and keeps its state. */
  lemma {:induction false} ValuePending(content: seq<byte>, s: ParserState, q: nat)
    requires s.phase == Value && Wf(s, s.valueStart)
    requires s.valueStart <= q < s.valueStart + s.lengthData <= |content|
    ensures Run(content, s.valueStart, q, s) == Outcome(Ok, [], s)
    decreases q
  {
    if q > s.valueStart {
      ValuePending(content, s, q - 1);
    }
  }

  /** The Value phase consumes exactly lengthData bytes, then prints the entry with the
      value taken from the blob and clears the whole state. */
  lemma ValueDone(content: seq<byte>, s: ParserState, hi: nat)
    requires s.phase == Value && Wf(s, s.valueStart)
    requires hi == s.valueStart + s.lengthData <= |content|
    ensures Run(content, s.valueStart, hi, s)
         == Outcome(Ok, [Entry(UntilNul(s.name), s.lengthData, content[s.valueStart..hi], s.valueStart)], Initial)
  {
    ValuePending(content, s, hi - 1);
    var e := Entry(UntilNul(s.name), s.lengthData, content[s.valueStart..hi], s.valueStart);
    assert Step(content, hi - 1, s) == Stepped(Initial, Ok, [e]);
    assert [] + [e] == [e];
  }

  /** One whole entry: key bytes k, NUL, a nonzero little-endian length L and L value
      bytes decode, from the initial state, to exactly the entry (k, L, value) and leave
      the machine ready for the next one. */
  lemma DecodesOneEntry(content: seq<byte>, p: nat, k: seq<byte>, len: nat)
    requires 1 <= |k| < ConfigMaxKeySize && forall i :: 0 <= i < |k| ==> k[i] != 0
    requires p + |k| + 3 + len <= |content|
    requires content[p..p + |k|] == k && content[p + |k|] == 0
    requires len == LeU16(content, p + |k| + 1) && len > 0
    ensures var start := p + |k| + 3;
      Run(content, p, start + len, Initial)
        == Outcome(Ok, [Entry(k, len, content[start..start + len], start)], Initial)
  {
    var n := |k|;
    var start := p + n + 3;
    var name := k + [0];
    KeyRead(content, p, k);
    SilentPrefix(content, p, p + n + 1, start + len, Initial, ParserState(Length, name, 0, 0, 0));
    LengthDecoded(content, p + n + 1, name);
    var sv := ParserState(Value, name, len, 2, start);
    SilentPrefix(content, p + n + 1, start, start + len, ParserState(Length, name, 0, 0, 0), sv);
    ValueRead(content, k, len, start, start + len);
  }

  /** The value of an entry whose key k has been read, at its start offset. */
  lemma ValueRead(content: seq<byte>, k: seq<byte>, len: nat, start: nat, end: nat)
    requires 1 <= |k| < ConfigMaxKeySize && forall i :: 0 <= i < |k| ==> k[i] != 0
    requires 0 < len < 0x1_0000 && end == start + len <= |content|
    ensures Run(content, start, end, ParserState(Value, k + [0], len, 2, start))
         == Outcome(Ok, [Entry(k, len, content[start..end], start)], Initial)
  {
    var name := k + [0];
    var sv := ParserState(Value, name, len, 2, start);
    assert KeyComplete(name) by {
      assert forall i :: 0 <= i < |name| - 1 ==> name[i] == k[i];
    }
    ValueDone(content, sv, end);
    UntilNulTerminated(k);
  }

  /** A key of one to 31 non-NUL bytes and its NUL, from the initial state. */
  lemma KeyRead(content: seq<byte>, p: nat, k: seq<byte>)
    requires 1 <= |k| < ConfigMaxKeySize && forall i :: 0 <= i < |k| ==> k[i] != 0
    requires p + |k| + 1 <= |content|
    requires content[p..p + |k|] == k && content[p + |k|] == 0
    ensures Run(content, p, p + |k| + 1, Initial) == Outcome(Ok, [], ParserState(Length, k + [0], 0, 0, 0))
  {
    var n := |k|;
    assert content[p..p + n + 1] == k + [0] by {
      assert content[p..p + n + 1] == content[p..p + n] + [content[p + n]];
    }
    KeyAccumulates(content, p, p + n);
    var sk := ParserState(Key, k, 0, 0, 0);
    assert Step(content, p + n, sk) == Stepped(ParserState(Length, k + [0], 0, 0, 0), Ok, []);
    RunNext(content, p, p + n, Initial);
  }

  /** A run that printed nothing and went on may be skipped: what follows starts from
      the state it reached. */
  lemma SilentPrefix(content: seq<byte>, lo: nat, mid: nat, hi: nat, s: ParserState, s1: ParserState)
    requires lo <= mid <= hi <= |content|
    requires Run(content, lo, mid, s) == Outcome(Ok, [], s1)
    ensures Run(content, lo, hi, s) == Run(content, mid, hi, s1)
  {
    RunSplit(content, lo, mid, hi, s);
    assert [] + Run(content, mid, hi, s1).entries == Run(content, mid, hi, s1).entries;
  }

  /** The size check the source evidently means: at least two words, a whole number of
      words, and the size field, payload and CRC word all inside the buffer. */
  predicate SizeConfigAccepted(sizeConfig: nat, contentLength: nat)
  {
    sizeConfig >= 8 && sizeConfig % 4 == 0 && DataOffset + sizeConfig + 4 <= contentLength
  }

  /** The size check as parser_cfg.c:136-138 writes it. */
  predicate SizeConfigAcceptedAsWritten(sizeConfig: nat, contentLength: nat)
  {
    !(sizeConfig < 8 || sizeConfig > DataOffset + contentLength + 4 || sizeConfig % 4 != 0)
  }

  /** The guard as written lets through a size whose payload and CRC word lie past the
      end of the buffer: a 12-byte buffer declaring 8 payload bytes needs 16. */
  lemma AsWrittenGuardAdmitsOverread()
    ensures SizeConfigAcceptedAsWritten(8, 12) && DataOffset + 8 + 4 > 12
    ensures !SizeConfigAccepted(8, 12)
  {
  }

  /** The corrected guard accepts exactly the sizes the written one accepts whose reads
      at parser_cfg.c:143 and :148 stay inside the buffer. */
  lemma CorrectedGuardIsWrittenGuardInBounds(sizeConfig: nat, contentLength: nat)
    ensures SizeConfigAccepted(sizeConfig, contentLength)
        <==> SizeConfigAcceptedAsWritten(sizeConfig, contentLength) && DataOffset + sizeConfig + 4 <= contentLength
  {
  }

  /** parse (parser_cfg.c:125-173): the blob verdict and the entries printed on the way.
      A buffer shorter than the size field is rejected as WRONG_SIZE_CONFIG (the source
      reads the four bytes unchecked). */
  function ParseSpec(content: seq<byte>, crc: Crc32): (r: Report)
    ensures r.status in {Ok, WrongSizeConfig, CrcInvalid, KeyLong, LengthDataZero, ParserNotFinished}
    ensures r.status == WrongSizeConfig
        <==> |content| < DataOffset || !SizeConfigAccepted(LeU32(content, 0), |content|)
    ensures r.status == CrcInvalid
        <==> && |content| >= DataOffset
             && SizeConfigAccepted(LeU32(content, 0), |content|)
             && crc(content[..DataOffset + LeU32(content, 0)]) != LeU32(content, DataOffset + LeU32(content, 0))
    ensures r.status in {WrongSizeConfig, CrcInvalid} ==> r.entries == []
    ensures r.entries != [] ==> |content| >= DataOffset
    ensures forall e :: e in r.entries ==>
      && WfEntry(content, e)
      && DataOffset <= e.offset
      && e.offset + e.length <= DataOffset + LeU32(content, 0)
    ensures InOrder(r.entries)
  {
    if |content| < DataOffset then Report(WrongSizeConfig, [])
    else
      var sizeConfig := LeU32(content, 0);
      var endData := DataOffset + sizeConfig;
      if !SizeConfigAccepted(sizeConfig, |content|) then Report(WrongSizeConfig, [])
      else if crc(content[..endData]) != LeU32(content, endData) then Report(CrcInvalid, [])
      else
        RunWf(content, DataOffset, endData, Initial);
        PayloadVerdict(content, DataOffset, endData)
  }

  /** The payload run of parse: the first error parse_data reports, otherwise Ok exactly
      when the last entry was complete. */
  function PayloadVerdict(content: seq<byte>, lo: nat, hi: nat): Report
    requires lo <= hi <= |content|
  {
    var r := Run(content, lo, hi, Initial);
    if r.status != Ok then Report(r.status, r.entries)
    else if r.state.phase != Finish then Report(ParserNotFinished, r.entries)
    else Report(Ok, r.entries)
  }

  /** The static parser struct of parser_cfg.c:44-54, updated byte by byte. */
  class ConfigParser {
    const nameBuffer: array<byte>  // name_buffer[CONFIG_MAX_KEY_SIZE]
    var nameBufferSize: nat        // name_buffer_size
    var lengthData: nat            // length_data (a uint16_t; Wf keeps it below 0x1_0000)
    var lengthSize: nat            // length_size
    var offsetEntryData: nat       // offset_entry_data
    var sts: Phase                 // sts

    ghost predicate Valid()
      reads this
    {
      nameBuffer.Length == ConfigMaxKeySize && nameBufferSize <= ConfigMaxKeySize
    }

    /** The struct as a value. */
    ghost function State(): ParserState
      reads this, nameBuffer
      requires Valid()
    {
      ParserState(sts, nameBuffer[..nameBufferSize], lengthData, lengthSize, offsetEntryData)
    }

    /** The zero-initialised static struct. */
    constructor ()
      ensures Valid() && State() == Initial && fresh(nameBuffer)
    {
      nameBuffer := new byte[ConfigMaxKeySize](_ => 0);
      nameBufferSize, lengthData, lengthSize, offsetEntryData := 0, 0, 0, 0;
      sts := Finish;
    }

    /** memset(&parser, 0, sizeof(parser)). */
    method Clear()
      requires Valid()
      modifies this, nameBuffer
      ensures Valid() && State() == Initial
    {
      forall i | 0 <= i < nameBuffer.Length {
        nameBuffer[i] := 0;
      }
      nameBufferSize, lengthData, lengthSize, offsetEntryData := 0, 0, 0, 0;
      sts := Finish;
    }

    /** One pass of the switch in parse_data (parser_cfg.c:80-120) on the byte at
        absolute offset pos; a status other than Ok is the one parse_data returns. */
    method Consume(content: seq<byte>, pos: nat) returns (status: Status, emitted: seq<Entry>)
      requires Valid() && pos < |content| && Wf(State(), pos)
      modifies this, nameBuffer
      ensures Valid()
      ensures status == Step(content, pos, old(State())).status
      ensures emitted == Step(content, pos, old(State())).emitted
      ensures State() == Step(content, pos, old(State())).next
    {
      var b := content[pos];
      emitted := [];
      status := Ok;
      if sts == Finish && b == 0 {
        // padding is made of NUL bytes
      } else if sts == Finish || sts == Key {
        sts := Key;
        nameBuffer[nameBufferSize] := b;
        nameBufferSize := nameBufferSize + 1;
        assert nameBuffer[..nameBufferSize] == old(State()).name + [b];
        if nameBufferSize >= ConfigMaxKeySize && b != 0 {
          status := KeyLong;
        } else if b == 0 && nameBufferSize <= 1 {
          status := KeyShort;
        } else if b == 0 {
          sts := Length;
        }
      } else if sts == Length {
        // length_data |= data[i] << (8 * length_size)
        lengthData := lengthData + (if lengthSize == 0 then b as int else 0x100 * (b as int));
        lengthSize := lengthSize + 1;
        if lengthSize >= 2 {
          if lengthData == 0 {
            status := LengthDataZero;
          } else {
            sts := Value;
            offsetEntryData := pos + 1;
          }
        }
      } else if offsetEntryData + lengthData == pos + 1 {
        // the entry is ready: print it, then clear the struct
        var key := UntilNul(nameBuffer[..nameBufferSize]);
        emitted := [Entry(key, lengthData, content[offsetEntryData..offsetEntryData + lengthData], offsetEntryData)];
        Clear();
      }
    }

    /** parse_data (parser_cfg.c:76-123): feeds the window data, which holds the bytes of
        content from absolute offset offsetData, through the machine. */
    method ParseData(content: seq<byte>, offsetData: nat, data: seq<byte>) returns (status: Status, emitted: seq<Entry>)
      requires Valid() && Wf(State(), offsetData)
      requires offsetData + |data| <= |content| && data == content[offsetData..offsetData + |data|]
      modifies this, nameBuffer
      ensures Valid()
      ensures status == Run(content, offsetData, offsetData + |data|, old(State())).status
      ensures emitted == Run(content, offsetData, offsetData + |data|, old(State())).entries
      ensures State() == Run(content, offsetData, offsetData + |data|, old(State())).state
    {
      ghost var s0 := State();
      ghost var hi := offsetData + |data|;
      emitted := [];
      status := Ok;
      var i := 0;
      while i < |data| && status == Ok
        invariant 0 <= i <= |data| && Valid()
        invariant Run(content, offsetData, offsetData + i, s0).status == status
        invariant Run(content, offsetData, offsetData + i, s0).entries == emitted
        invariant Run(content, offsetData, offsetData + i, s0).state == State()
      {
        RunAdvances(content, offsetData, offsetData + i, s0);
        var out;
        status, out := Consume(content, offsetData + i);
        emitted := emitted + out;
        i := i + 1;
      }
      if status != Ok {
        RunStopsAtError(content, offsetData, offsetData + i, hi, s0);
      }
    }
  }

  /** The CRC loop of parse (parser_cfg.c:139-146): crc32_start over the size field,
      then the payload fed word by word, then crc32_end. */
  method StreamCrc(content: seq<byte>, sizeConfig: nat, crc: Crc32) returns (crcCalc: uint32)
    requires 0 < sizeConfig && sizeConfig % 4 == 0 && DataOffset + sizeConfig <= |content|
    ensures crcCalc == crc(content[..DataOffset + sizeConfig])
  {
    var fed := content[..DataOffset];
    crcCalc := 0;
    var i := 0;
    while i < sizeConfig
      invariant i <= sizeConfig && i % 4 == 0
      invariant fed == content[..DataOffset + i]
      invariant 0 < i ==> crcCalc == crc(fed)
    {
      var word := content[DataOffset + i..DataOffset + i + 4];
      fed := fed + word;
      crcCalc := crc(fed);
      i := i + 4;
    }
  }

  /** The parsing loop of parse (parser_cfg.c:151-172): the cleared struct, then the
      payload content[DataOffset..endData) handed to parse_data in windows of BufferSize
      bytes at their absolute offsets, until the window that ends at endData. */
  method ParsePayload(content: seq<byte>, endData: nat) returns (status: Status, entries: seq<Entry>)
    requires DataOffset < endData <= |content|
    ensures status == PayloadVerdict(content, DataOffset, endData).status
    ensures entries == PayloadVerdict(content, DataOffset, endData).entries
  {
    var parser := new ConfigParser();
    entries := [];
    status := Ok;
    var offsetRead := DataOffset;
    while offsetRead < endData && status == Ok
      invariant DataOffset <= offsetRead <= endData
      invariant parser.Valid() && fresh(parser.nameBuffer)
      invariant Run(content, DataOffset, offsetRead, Initial) == Outcome(status, entries, parser.State())
      decreases endData - offsetRead
    {
      var size := BufferSize;
      if size > endData - offsetRead {
        size := endData - offsetRead;
      }
      var window := content[offsetRead..offsetRead + size];
      RunKeepsWf(content, DataOffset, offsetRead, Initial);
      ghost var before := Run(content, DataOffset, offsetRead, Initial);
      var emitted;
      status, emitted := parser.ParseData(content, offsetRead, window);
      WindowStep(content, DataOffset, offsetRead, offsetRead + size, Initial, before, status, emitted, parser.State());
      entries := entries + emitted;
      offsetRead := offsetRead + size;
    }
    if status != Ok {
      RunStopsAtError(content, DataOffset, offsetRead, endData, Initial);
    } else if parser.sts != Finish {
      // the last window ended inside an entry
      status := ParserNotFinished;
    }
  }

  /** parse (parser_cfg.c:125-173) on the whole buffer. */
  method ParseConfig(content: seq<byte>, crc: Crc32) returns (status: Status, entries: seq<Entry>)
    ensures status == ParseSpec(content, crc).status
    ensures entries == ParseSpec(content, crc).entries
  {
    if |content| < DataOffset {
      // the source copies the four bytes of size_config without checking the length
      return WrongSizeConfig, [];
    }
    var sizeConfig := LeU32(content, 0);
    var endData := DataOffset + sizeConfig;
    if !SizeConfigAccepted(sizeConfig, |content|) {
      return WrongSizeConfig, [];
    }
    var crcCalc := StreamCrc(content, sizeConfig, crc);
    var crcEnd := LeU32(content, endData);
    if crcEnd != crcCalc {
      return CrcInvalid, [];
    }
    status, entries := ParsePayload(content, endData);
  }
}
