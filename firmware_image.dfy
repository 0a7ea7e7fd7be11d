/** The firmware image validator of parser_fw.c.

    An image carries, at some offset, a 16-byte header: the firmware size counted from
    the start of the image, a CRC32 over the image with the header left out, the offset
    of a field table and a reserved word. The validator scans candidate offsets upward
    and, at the first that passes, walks the field table: NUL-terminated strings that
    alternate between keys and values. */
module FirmwareImage {
  import opened Wrappers
  import opened Bytes

  const HeaderSize := 16   // sizeof(fw_header_v1_t)
  const ScanStart := 4     // the first offset tried
  const ScanFloor := 0x800 // offsets below this are tried however short the file

  /** FW_HDR_LOCK_t, in the source's order. */
  datatype Lock =
    | LockNone
    | LockByCrc
    | LockByAddr
    | LockBySizeSmall
    | LockByZeroFieldsCount
    | LockNoProdField
    | LockNoProdNameField
    | LockProdMismatch
    | LockProdNameFault

  /** fw_header_v1_t. */
  datatype Header = Header(fwSize: uint32, fwCrc32: uint32, fieldsAddrOffset: uint32, reserved2: uint32)

  /** The header a memcpy of 16 bytes at offset ho yields (little-endian words). */
  function HeaderAt(content: seq<byte>, ho: nat): Header
    requires ho + HeaderSize <= |content|
  {
    Header(LeU32(content, ho), LeU32(content, ho + 4), LeU32(content, ho + 8), LeU32(content, ho + 12))
  }

  /** The range checks of parse (parser_fw.c:66-69): the size-too-small lock is assigned
      second, so it wins when both hold. */
  function SizeLock(fwSize: nat, contentLength: nat, ho: nat): (l: Lock)
    ensures l in {LockNone, LockByAddr, LockBySizeSmall}
    ensures l == LockBySizeSmall <==> fwSize <= ho + HeaderSize
    ensures l == LockByAddr <==> ho + HeaderSize < fwSize && fwSize > contentLength
  {
    var locked := if fwSize > contentLength then LockByAddr else LockNone;
    if fwSize <= ho + HeaderSize then LockBySizeSmall else locked
  }

  /** The bytes the CRC of parse covers (parser_fw.c:72-73): the image before the header,
      then the image after it up to fw_size. */
  function CrcInput(content: seq<byte>, ho: nat, fwSize: nat): (s: seq<byte>)
    requires ho + HeaderSize <= fwSize <= |content|
    ensures |s| == fwSize - HeaderSize
    ensures forall i :: 0 <= i < ho ==> s[i] == content[i]
    ensures forall i :: ho <= i < |s| ==> s[i] == content[i + HeaderSize]
  {
    content[..ho] + content[ho + HeaderSize..fwSize]
  }

  /** parse (parser_fw.c:61-76) at header offset ho. hdr is what the memcpy at :64
      produced: the header bytes when they lie inside the image, and whatever memory
      follows it otherwise, which the model leaves unconstrained. */
  function Parse(content: seq<byte>, ho: nat, hdr: Header, crc: Crc32): (l: Lock)
    requires ho + HeaderSize <= |content| ==> hdr == HeaderAt(content, ho)
    ensures l in {LockNone, LockByCrc, LockByAddr, LockBySizeSmall}
    ensures l == LockBySizeSmall <==> hdr.fwSize <= ho + HeaderSize
    ensures l == LockByAddr <==> ho + HeaderSize < hdr.fwSize && hdr.fwSize > |content|
    ensures l == LockByCrc <==>
      && ho + HeaderSize < hdr.fwSize <= |content|
      && crc(CrcInput(content, ho, hdr.fwSize)) != hdr.fwCrc32
  {
    var locked := SizeLock(hdr.fwSize, |content|, ho);
    if locked != LockNone then locked
    else if crc(CrcInput(content, ho, hdr.fwSize)) != hdr.fwCrc32 then LockByCrc
    else LockNone
  }

  /** A header read past the end of the image can never pass, whatever the memory
      beyond holds: it is rejected by the size checks, so the scan goes on exactly as it
      would for an in-range header that fails. */
  lemma OverreadHeaderRejected(content: seq<byte>, ho: nat, hdr: Header, crc: Crc32)
    requires |content| < ho + HeaderSize
    ensures Parse(content, ho, hdr, crc) in {LockByAddr, LockBySizeSmall}
  {
  }

  /** The header offset ho holds a header that passes every check. */
  predicate Passes(content: seq<byte>, ho: nat, crc: Crc32)
  {
    ho + HeaderSize <= |content| && Parse(content, ho, HeaderAt(content, ho), crc) == LockNone
  }

  /** A passing header lies inside the image with at least one image byte after it, so
      the offsets from the file end up to 0x800 that the scan also tries never pass. */
  lemma PassingHeaderInside(content: seq<byte>, ho: nat, crc: Crc32)
    requires Passes(content, ho, crc)
    ensures ho + HeaderSize < |content|
    ensures ho + HeaderSize < HeaderAt(content, ho).fwSize <= |content|
    ensures crc(CrcInput(content, ho, HeaderAt(content, ho).fwSize)) == HeaderAt(content, ho).fwCrc32
  {
  }

  /** The reserved word is not checked: images that differ only there get the same
      lock at that offset. */
  lemma ReservedIgnored(content: seq<byte>, other: seq<byte>, ho: nat, crc: Crc32)
    requires |other| == |content| && ho + HeaderSize <= |content|
    requires forall i :: 0 <= i < |content| && !(ho + 12 <= i < ho + HeaderSize) ==> other[i] == content[i]
    ensures Parse(other, ho, HeaderAt(other, ho), crc) == Parse(content, ho, HeaderAt(content, ho), crc)
  {
    var h, g := HeaderAt(content, ho), HeaderAt(other, ho);
    assert g.fwSize == h.fwSize && g.fwCrc32 == h.fwCrc32;
    if ho + HeaderSize < h.fwSize <= |content| {
      assert CrcInput(other, ho, h.fwSize) == CrcInput(content, ho, h.fwSize);
    }
  }

  /** The first offset the scan of parse_file_fw tries past the last one. */
  function ScanEnd(contentLength: nat): nat
  {
    if contentLength > ScanFloor then contentLength else ScanFloor
  }

  /** The offset scan of parse_file_fw (parser_fw.c:133-146): offsets 4, 5, 6, ... while
      below 0x800 or below the file size, stopping at the first whose header passes.
      overread stands for the memory the header copy reads at offsets whose header
      would extend past the image. */
  method ScanHeaders(content: seq<byte>, crc: Crc32, overread: nat -> Header) returns (found: Option<nat>)
    requires |content| < 0x1_0000_0000
    ensures found.Some? ==> ScanStart <= found.value < ScanEnd(|content|) && Passes(content, found.value, crc)
    ensures found.Some? ==> forall o :: ScanStart <= o < found.value ==> !Passes(content, o, crc)
    ensures found.None? ==> forall o :: ScanStart <= o < ScanEnd(|content|) ==> !Passes(content, o, crc)
  {
    var offset := ScanStart;
    while offset < ScanFloor || offset < |content|
      invariant ScanStart <= offset <= ScanEnd(|content|)
      invariant forall o :: ScanStart <= o < offset ==> !Passes(content, o, crc)
      decreases ScanEnd(|content|) - offset
    {
      var hdr := if offset + HeaderSize <= |content| then HeaderAt(content, offset) else overread(offset);
      var sts := Parse(content, offset, hdr, crc);
      if sts == LockByAddr || sts == LockByCrc || sts == LockBySizeSmall {
        offset := offset + 1;
      } else {
        // parse returns no other lock, so the error report at parser_fw.c:143 is never made
        assert sts == LockNone;
        return Some(offset);
      }
    }
    return None;
  }

  /** The field region of parse_file_fw (parser_fw.c:150): from fields_addr_offset to the
      end of the file, empty when the offset lies past it. */
  function FieldRegionSize(fileSize: nat, fieldsAddrOffset: nat): (n: nat)
    ensures fieldsAddrOffset <= fileSize ==> fieldsAddrOffset + n == fileSize
    ensures fieldsAddrOffset > fileSize ==> n == 0
  {
    if fileSize < fieldsAddrOffset then 0 else fileSize - fieldsAddrOffset
  }

  /** The regionSize bytes of content from start; print_fields reads nothing when the
      size is 0, wherever start points. */
  function Region(content: seq<byte>, start: nat, regionSize: nat): seq<byte>
    requires regionSize == 0 || start + regionSize <= |content|
  {
    if regionSize == 0 then [] else content[start..start + regionSize]
  }

  /** A printed row: a key and the string that follows it. */
  datatype Field = Field(key: seq<byte>, value: seq<byte>)

  /** strlen from index i of the region, cut at the region end: the index of the first
      NUL at or after i, or |r|. */
  function StrEnd(r: seq<byte>, i: nat): (j: nat)
    requires i <= |r|
    ensures i <= j <= |r| && (j < |r| ==> r[j] == 0)
    ensures forall t :: i <= t < j ==> r[t] != 0
    decreases |r| - i
  {
    if i == |r| || r[i] == 0 then i else StrEnd(r, i + 1)
  }

  /** The string printed as the value of a key that ends at j: the one starting after
      the key's NUL, empty when the key runs to the region end. */
  function ValueAfter(r: seq<byte>, j: nat): seq<byte>
    requires j <= |r|
  {
    if j + 1 <= |r| then r[j + 1..StrEnd(r, j + 1)] else []
  }

  /** The field table as strings: the region holds non-empty strings, each ended by one
      NUL, up to a doubled NUL or the region end; the strings of even index are keys and
      each is printed with the string after it. */
  function FieldPairs(r: seq<byte>): seq<Field>
  {
    if |r| == 0 || r[0] == 0 then [] else Strings(r, 0, true)
  }

  /** The strings from the one starting at i, which is a key when key holds. */
  function Strings(r: seq<byte>, i: nat, key: bool): seq<Field>
    requires i < |r| && r[i] != 0
    decreases |r| - i
  {
    var j := StrEnd(r, i);
    var rest := if j + 1 < |r| && r[j + 1] != 0 then Strings(r, j + 1, !key) else [];
    if key then [Field(r[i..j], ValueAfter(r, j))] + rest else rest
  }

  /** What one pass of the loop body of print_fields (parser_fw.c:82-103) leaves: the
      rows printed in it, whether the loop stops there, null_term_count, the parity of
      element_count (evenCount: the next string is a key) and null_captured. */
  datatype Scan = Scan(printed: seq<Field>, stop: bool, nulTermCount: nat, evenCount: bool, nulCaptured: bool)

  /** That pass at index i of the region. A NUL at index 0 stops the loop at once; a NUL
      elsewhere ends a string, and a second one in a row ends the table; the first byte
      of a string after a NUL prints a row when the string is a key. */
  function ScanByte(r: seq<byte>, i: nat, nulTermCount: nat, evenCount: bool, nulCaptured: bool): Scan
    requires i < |r|
  {
    if r[i] == 0 then
      if i == 0 then Scan([], true, nulTermCount, evenCount, nulCaptured)
      else
        var ntc := nulTermCount + 1;
        Scan([], ntc >= 2, ntc, if ntc == 1 then !evenCount else evenCount, true)
    else
      var j := StrEnd(r, i);
      var row := if nulCaptured && evenCount then [Field(r[i..j], ValueAfter(r, j))] else [];
      Scan(row, false, 0, evenCount, false)
  }

  /** The loop of print_fields (parser_fw.c:80-104) from index i of the region, with
      null_term_count, the parity of element_count (evenCount: the next string is a
      key) and null_captured: the rows it still prints. */
  function Walk(r: seq<byte>, i: nat, nulTermCount: nat, evenCount: bool, nulCaptured: bool): seq<Field>
    decreases |r| - i
  {
    if i >= |r| then []
    else if r[i] == 0 then
      if i == 0 then []
      else
        var ntc := nulTermCount + 1;
        var even := if ntc == 1 then !evenCount else evenCount;
        if ntc >= 2 then [] else Walk(r, i + 1, ntc, even, true)
    else
      var rest := Walk(r, i + 1, 0, evenCount, false);
      var j := StrEnd(r, i);
      if nulCaptured && evenCount then [Field(r[i..j], ValueAfter(r, j))] + rest else rest
  }

  /** Inside a string the loop prints nothing until the string's end. */
  lemma {:induction false} WalkInsideString(r: seq<byte>, m: nat, j: nat, even: bool)
    requires m <= j <= |r| && forall t :: m <= t < j ==> r[t] != 0
    ensures Walk(r, m, 0, even, false) == Walk(r, j, 0, even, false)
    decreases j - m
  {
    if m < j {
      WalkInsideString(r, m + 1, j, even);
    }
  }

  /** Just past a string the loop goes on to the next one after a single NUL, and
      prints nothing more after a doubled NUL or at the region end. */
  lemma WalkAfterString(r: seq<byte>, j: nat, key: bool)
    requires 0 < j <= |r| && (j < |r| ==> r[j] == 0)
    ensures j + 1 < |r| && r[j + 1] != 0 ==> Walk(r, j, 0, key, false) == Walk(r, j + 1, 1, !key, true)
    ensures !(j + 1 < |r| && r[j + 1] != 0) ==> Walk(r, j, 0, key, false) == []
  {
  }

  /** At the start of a string the loop prints what the string view says. */
  lemma {:induction false} WalkAtString(r: seq<byte>, i: nat, ntc: nat, key: bool)
    requires i < |r| && r[i] != 0
    ensures Walk(r, i, ntc, key, true) == Strings(r, i, key)
    decreases |r| - i
  {
    var j := StrEnd(r, i);
    WalkInsideString(r, i + 1, j, key);
    WalkAfterString(r, j, key);
    if j + 1 < |r| && r[j + 1] != 0 {
      WalkAtString(r, j + 1, 1, !key);
    }
  }

  /** The loop started as print_fields starts it prints exactly the field table. */
  lemma WalkIsFieldPairs(r: seq<byte>)
    ensures Walk(r, 0, 0, true, true) == FieldPairs(r)
  {
    if |r| > 0 && r[0] != 0 {
      WalkAtString(r, 0, 0, true);
    }
  }

  /** print_fields (parser_fw.c:78-105) on the region of regionSize bytes of content
      starting at start; the rows are returned instead of printed. Strings are cut at
      the region end. */
  method PrintFields(content: seq<byte>, start: nat, regionSize: nat) returns (rows: seq<Field>)
    requires regionSize == 0 || start + regionSize <= |content|
    ensures rows == FieldPairs(Region(content, start, regionSize))
  {
    // the bytes the fields pointer addresses
    var r := Region(content, start, regionSize);
    WalkIsFieldPairs(r);
    var nulTermCount, elementCount, nulCaptured := 0, 0, true;
    rows := [];
    var i, done := 0, false;
    // the rows the loop has still to print
    ghost var pending := Walk(r, 0, 0, true, true);
    while i < |r| && !done
      invariant i <= |r|
      invariant rows + pending == FieldPairs(r)
      invariant !done ==> pending == Walk(r, i, nulTermCount, elementCount % 2 == 0, nulCaptured)
      invariant done ==> pending == []
      decreases |r| - i, if done then 0 else 1
    {
      WalkUnfold(r, i, nulTermCount, elementCount % 2 == 0, nulCaptured);
      var printed;
      printed, done, nulTermCount, elementCount, nulCaptured := PrintStep(r, i, nulTermCount, elementCount, nulCaptured);
      ghost var rest := if done then [] else Walk(r, i + 1, nulTermCount, elementCount % 2 == 0, nulCaptured);
      ConcatAssoc(rows, printed, rest);
      rows, pending := rows + printed, rest;
      if !done {
        i := i + 1;
      }
    }
  }

  /** The loop from index i is one pass followed by the loop from i + 1. */
  lemma WalkUnfold(r: seq<byte>, i: nat, nulTermCount: nat, evenCount: bool, nulCaptured: bool)
    requires i < |r|
    ensures var s := ScanByte(r, i, nulTermCount, evenCount, nulCaptured);
      Walk(r, i, nulTermCount, evenCount, nulCaptured)
        == s.printed + if s.stop then [] else Walk(r, i + 1, s.nulTermCount, s.evenCount, s.nulCaptured)
  {
  }

  lemma ConcatAssoc<T>(a: seq<T>, b: seq<T>, c: seq<T>)
    ensures a + b + c == a + (b + c)
  {
  }

  /** One pass of the loop body of print_fields (parser_fw.c:82-103) at index i, on the
      source's counters: it does what ScanByte says. */
  method PrintStep(r: seq<byte>, i: nat, nulTermCount: nat, elementCount: nat, nulCaptured: bool)
    returns (printed: seq<Field>, stop: bool, ntc: nat, count: nat, captured: bool)
    requires i < |r|
    ensures var s := ScanByte(r, i, nulTermCount, elementCount % 2 == 0, nulCaptured);
      printed == s.printed && stop == s.stop && ntc == s.nulTermCount
      && (count % 2 == 0) == s.evenCount && captured == s.nulCaptured
  {
    printed, stop, ntc, count, captured := [], false, nulTermCount, elementCount, nulCaptured;
    if r[i] == 0 {
      if i == 0 {
        stop := true;
      } else {
        ntc := nulTermCount + 1;
        if ntc == 1 {
          count := elementCount + 1;
        }
        captured := true;
        stop := ntc >= 2;
      }
    } else {
      ntc := 0;
      if nulCaptured {
        captured := false;
        if elementCount % 2 == 0 {
          // both strings are printed with %s: each runs to its NUL
          var keyEnd := StrEnd(r, i);
          printed := [Field(r[i..keyEnd], ValueAfter(r, keyEnd))];
        }
      }
    }
  }

  /** A byte string without NUL. */
  predicate NulFree(s: seq<byte>)
  {
    forall i :: 0 <= i < |s| ==> s[i] != 0
  }

  /** Every printed key is a non-empty string without NUL, and so is its value apart
      from being possibly empty. */
  lemma {:induction false} StringsWellFormed(r: seq<byte>, i: nat, key: bool)
    requires i < |r| && r[i] != 0
    ensures forall f :: f in Strings(r, i, key) ==> 1 <= |f.key| && NulFree(f.key) && NulFree(f.value)
    decreases |r| - i
  {
    var j := StrEnd(r, i);
    if j + 1 < |r| && r[j + 1] != 0 {
      StringsWellFormed(r, j + 1, !key);
    }
    if j + 1 <= |r| {
      var v := r[j + 1..StrEnd(r, j + 1)];
      assert NulFree(v) by {
        forall t | 0 <= t < |v| ensures v[t] != 0 {
          assert v[t] == r[j + 1 + t];
        }
      }
    }
    assert NulFree(r[i..j]) by {
      forall t | 0 <= t < j - i ensures r[i..j][t] != 0 {
        assert r[i..j][t] == r[i + t];
      }
    }
  }

  /** The rows of a whole region are well formed. */
  lemma FieldPairsWellFormed(r: seq<byte>)
    ensures forall f :: f in FieldPairs(r) ==> 1 <= |f.key| && NulFree(f.key) && NulFree(f.value)
  {
    if |r| > 0 && r[0] != 0 {
      StringsWellFormed(r, 0, true);
    }
  }

  /** StrEnd is the first NUL at or after i: any index with no NUL before it and a NUL
      (or the region end) at it is StrEnd's. */
  lemma {:induction false} StrEndIsFirstNul(r: seq<byte>, i: nat, j: nat)
    requires i <= j <= |r| && (j < |r| ==> r[j] == 0)
    requires forall t :: i <= t < j ==> r[t] != 0
    ensures StrEnd(r, i) == j
    decreases j - i
  {
    if i < j {
      StrEndIsFirstNul(r, i + 1, j);
    }
  }

  /** A region "product\0Widget\0\0" (in bytes) prints exactly the row
      ("product", "Widget"). */
  lemma OneFieldExample()
    ensures FieldPairs([112, 114, 111, 100, 117, 99, 116, 0, 87, 105, 100, 103, 101, 116, 0, 0])
         == [Field([112, 114, 111, 100, 117, 99, 116], [87, 105, 100, 103, 101, 116])]
  {
    var key: seq<byte> := [112, 114, 111, 100, 117, 99, 116];
    var value: seq<byte> := [87, 105, 100, 103, 101, 116];
    var r: seq<byte> := [112, 114, 111, 100, 117, 99, 116, 0, 87, 105, 100, 103, 101, 116, 0, 0];
    assert r == key + [0] + value + [0, 0];
    assert r[0..7] == key;
    assert r[8..14] == value;
    StrEndIsFirstNul(r, 0, 7);
    StrEndIsFirstNul(r, 8, 14);
    assert ValueAfter(r, 7) == value;
    assert Strings(r, 8, false) == [];
    assert Strings(r, 0, true) == [Field(key, value)];
  }

  /** What parse_file_fw (parser_fw.c:131-152) reports for a loaded file: the offset of
      the first passing header and the rows of its field table, or nothing. */
  method ParseFileFw(content: seq<byte>, crc: Crc32, overread: nat -> Header) returns (found: Option<nat>, rows: seq<Field>)
    requires |content| < 0x1_0000_0000
    ensures found.Some? ==> ScanStart <= found.value && Passes(content, found.value, crc)
    ensures found.Some? ==> forall o :: ScanStart <= o < found.value ==> !Passes(content, o, crc)
    ensures found.None? <==> forall o :: ScanStart <= o < ScanEnd(|content|) ==> !Passes(content, o, crc)
    ensures found.None? ==> rows == []
    ensures found.Some? ==>
      var fao := HeaderAt(content, found.value).fieldsAddrOffset;
      rows == FieldPairs(Region(content, fao, FieldRegionSize(|content|, fao)))
  {
    found := ScanHeaders(content, crc, overread);
    rows := [];
    if found.Some? {
      PassingHeaderInside(content, found.value, crc);
      var hdr := HeaderAt(content, found.value);
      var fao := hdr.fieldsAddrOffset;
      rows := PrintFields(content, fao, FieldRegionSize(|content|, fao));
    }
  }
}
