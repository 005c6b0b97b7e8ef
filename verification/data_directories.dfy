/** The optional header's table of sixteen data-directory slots: parsing a
    declared number of entries, writing the full table back, the fixed-index
    accessors and the enumeration of present slots. */
module Table {
  import opened Errors
  import opened Bytes
  import opened Entry
  import opened DirectoryType

  const NUM_DATA_DIRECTORIES: nat := 16

  /** Size of the serialised table, sixteen slots of eight bytes: every slot is
      written, present or not. */
  const TABLE_SIZE: nat := 128

  type Slots = s: seq<Option<DataDirectory>> | |s| == NUM_DATA_DIRECTORIES witness seq(NUM_DATA_DIRECTORIES, _ => None)

  datatype DataDirectories = DataDirectories(dataDirectories: Slots)

  /** The message reported for a declared count above the table's capacity:
      the count in decimal between a fixed prefix and a suffix naming the
      maximum, sixteen. */
  function CountMessage(count: nat): (m: string)
    ensures var pre, post := "data directory count (", ") is greater than maximum number of data directories (16)";
            |m| > |pre| + |post| && m[..|pre|] == pre && m[|m| - |post|..] == post
            && (forall k :: |pre| <= k < |m| - |post| ==> IsDigit(m[k]))
            && (|m| - |post| == |pre| + 1 || m[|pre|] != '0')
            && DecimalValue(m[|pre| .. |m| - |post|]) == count
  {
    var digits := DecimalString(count);
    var post := ") is greater than maximum number of data directories (" + DecimalString(NUM_DATA_DIRECTORIES) + ")";
    MaximumSuffix();
    MessageParts("data directory count (", digits, post);
    "data directory count (" + digits + post
  }

  /** The suffix names the maximum, sixteen, in decimal. */
  lemma MaximumSuffix()
    ensures ") is greater than maximum number of data directories (" + DecimalString(NUM_DATA_DIRECTORIES) + ")"
            == ") is greater than maximum number of data directories (16)"
  {
    assert DecimalString(1) == ['1'];
  }

  lemma MessageParts(pre: string, mid: string, post: string)
    ensures var m := pre + mid + post;
            m[..|pre|] == pre && m[|m| - |post|..] == post && m[|pre| .. |m| - |post|] == mid
  {
  }

  // ---------------------------------------------------------------- parsing

  /** The eight bytes of entry `i` of a table whose first entry is at `start`. */
  function EntryBytes(bytes: seq<byte>, start: nat, i: nat): (b: seq<byte>)
    requires start + 8 * i + 8 <= |bytes|
    ensures |b| == SIZEOF_DATA_DIRECTORY
  {
    bytes[start + 8 * i .. start + 8 * i + 8]
  }

  /** The slot the parser fills from entry `i`: absent for the all-zero pair,
      otherwise the decoded pair with the cursor that follows it. */
  function SlotAt(bytes: seq<byte>, start: nat, i: nat): Option<DataDirectory>
    requires start + 8 * i + 8 <= |bytes|
  {
    var inner := DecodeInner(EntryBytes(bytes, start, i), LE);
    if IsZero(inner) then None
    else Some(DataDirectory(inner, Some(start + 8 * i + 8)))
  }

  /** The `count` entries starting at `start` lie within `bytes` (trivially so
      when there are none to read). */
  predicate EntriesFit(bytes: seq<byte>, count: nat, start: nat)
  {
    count == 0 || start + 8 * count <= |bytes|
  }

  /** The table a successful parse of `count` entries at `start` produces. */
  function ParsedTable(bytes: seq<byte>, count: nat, start: nat): DataDirectories
    requires count <= NUM_DATA_DIRECTORIES && EntriesFit(bytes, count, start)
  {
    DataDirectories(seq(NUM_DATA_DIRECTORIES, i requires 0 <= i < NUM_DATA_DIRECTORIES => if i < count then SlotAt(bytes, start, i) else None))
  }

  /** Number of whole entries that fit between `start` and the end of `bytes`. */
  function WholeEntries(bytes: seq<byte>, start: nat): nat
  {
    if start <= |bytes| then (|bytes| - start) / 8 else 0
  }

  lemma WholeEntriesAt(bytes: seq<byte>, start: nat, i: nat)
    requires start + 8 * i <= |bytes| < start + 8 * i + 8
    ensures WholeEntries(bytes, start) == i
  {
    var n := |bytes| - start;
    assert n == 8 * i + (n - 8 * i);
  }

  /** What each slot of a parsed table holds: slots past `count` are absent; a
      slot below `count` is absent exactly when its eight bytes are zero, and
      otherwise holds the pair those bytes encode and the cursor after them. */
  lemma ParsedSlot(bytes: seq<byte>, count: nat, start: nat, i: nat)
    requires count <= NUM_DATA_DIRECTORIES && EntriesFit(bytes, count, start)
    requires i < NUM_DATA_DIRECTORIES
    ensures i >= count ==> ParsedTable(bytes, count, start).dataDirectories[i].None?
    ensures i < count ==>
              (ParsedTable(bytes, count, start).dataDirectories[i].None? <==> AllZero(EntryBytes(bytes, start, i)))
    ensures i < count && ParsedTable(bytes, count, start).dataDirectories[i].Some? ==>
              var d := ParsedTable(bytes, count, start).dataDirectories[i].value;
              EncodeInner(d.inner, LE) == EntryBytes(bytes, start, i)
              && d.offset == Some(start + 8 * i + 8)
  {
    if i < count {
      var b := EntryBytes(bytes, start, i);
      EncodeDecodeInner(b, LE);
      assert b[..SIZEOF_DATA_DIRECTORY] == b;
      EncodeInnerZero(DecodeInner(b, LE), LE);
    }
  }

  /** An entry read at slot `i` becomes the slot `SlotAt` describes. */
  lemma SlotFromEntry(bytes: seq<byte>, start: nat, i: nat, d: DataDirectory)
    requires start + 8 * i + 8 <= |bytes|
    requires EncodeInner(d.inner, LE) == bytes[start + 8 * i .. start + 8 * i + 8]
    requires d.offset == Some(start + 8 * i + 8)
    ensures SlotAt(bytes, start, i) == if IsZero(d.inner) then None else Some(d)
  {
    DecodeEncodeInner(d.inner, LE);
  }

  /** Slots filled entry by entry up to `count`, and absent after, are the
      parsed table. */
  lemma FilledTable(slots: seq<Option<DataDirectory>>, bytes: seq<byte>, count: nat, start: nat)
    requires count <= NUM_DATA_DIRECTORIES && EntriesFit(bytes, count, start)
    requires |slots| == NUM_DATA_DIRECTORIES
    requires forall k :: 0 <= k < count ==> slots[k] == SlotAt(bytes, start, k)
    requires forall k :: count <= k < NUM_DATA_DIRECTORIES ==> slots[k] == None
    ensures slots == ParsedTable(bytes, count, start).dataDirectories
  {
  }

  /** `DataDirectories::parse`: rejects a declared count above sixteen before
      reading anything; otherwise reads `count` entries into a table of sixteen
      absent slots, leaving all-zero entries absent. A read past the end of
      `bytes` fails with the cursor left after the last whole entry read. */
  method Parse(bytes: seq<byte>, count: nat, offset: nat) returns (r: Result<DataDirectories>, offset': nat)
    ensures (r.Err? && r.error.Malformed?) <==> count > NUM_DATA_DIRECTORIES
    ensures count > NUM_DATA_DIRECTORIES ==> r == Err(Malformed(CountMessage(count))) && offset' == offset
    ensures count <= NUM_DATA_DIRECTORIES && EntriesFit(bytes, count, offset) ==>
              r == Ok(ParsedTable(bytes, count, offset)) && offset' == offset + 8 * count
    ensures count <= NUM_DATA_DIRECTORIES && !EntriesFit(bytes, count, offset) ==>
              r == Err(Scroll) && offset' == offset + 8 * WholeEntries(bytes, offset)
  {
    if count > NUM_DATA_DIRECTORIES {
      return Err(Malformed(CountMessage(count))), offset;
    }
    r, offset' := ReadEntries(bytes, count, offset);
  }

  /** The loop of `DataDirectories::parse`: fills the first `count` of sixteen
      absent slots entry by entry, stopping at the first read that fails. */
  method ReadEntries(bytes: seq<byte>, count: nat, offset: nat) returns (r: Result<DataDirectories>, offset': nat)
    requires count <= NUM_DATA_DIRECTORIES
    ensures EntriesFit(bytes, count, offset) ==>
              r == Ok(ParsedTable(bytes, count, offset)) && offset' == offset + 8 * count
    ensures !EntriesFit(bytes, count, offset) ==>
              r == Err(Scroll) && offset' == offset + 8 * WholeEntries(bytes, offset)
  {
    var dataDirectories := new Option<DataDirectory>[NUM_DATA_DIRECTORIES](_ => None);
    offset' := offset;
    var i := 0;
    while i < count
      invariant 0 <= i <= count
      invariant offset' == offset + 8 * i
      invariant i > 0 ==> offset' <= |bytes|
      invariant forall k :: 0 <= k < i ==> dataDirectories[k] == SlotAt(bytes, offset, k)
      invariant forall k :: i <= k < NUM_DATA_DIRECTORIES ==> dataDirectories[k] == None
    {
      var slot;
      slot, offset' := ReadSlot(bytes, offset, i, offset');
      if slot.Err? {
        return Err(slot.error), offset';
      }
      dataDirectories[i] := slot.value;
      i := i + 1;
    }
    FilledTable(dataDirectories[..], bytes, count, offset);
    r := Ok(DataDirectories(dataDirectories[..]));
  }

  /** One step of the loop: reads entry `i` at the cursor and keeps it only
      when it is not the all-zero pair. */
  method ReadSlot(bytes: seq<byte>, start: nat, i: nat, cursor: nat) returns (r: Result<Option<DataDirectory>>, cursor': nat)
    requires cursor == start + 8 * i
    requires i > 0 ==> cursor <= |bytes|
    ensures r.Ok? <==> cursor + 8 <= |bytes|
    ensures r.Ok? ==> r.value == SlotAt(bytes, start, i) && cursor' == cursor + 8
    ensures r.Err? ==> r == Err(Scroll) && cursor' == start + 8 * WholeEntries(bytes, start)
  {
    var dd;
    dd, cursor' := Entry.Parse(bytes, cursor);
    if dd.Err? {
      if cursor <= |bytes| {
        WholeEntriesAt(bytes, start, i);
      }
      return Err(dd.error), cursor';
    }
    SlotFromEntry(bytes, start, i, dd.value);
    r := Ok(if IsZero(dd.value.inner) then None else Some(dd.value));
  }

  // ---------------------------------------------------------- serialising

  /** The eight bytes written for one slot: the pair, or zeros when absent. */
  function EncodeSlot(s: Option<DataDirectory>, e: Endian): (b: seq<byte>)
    ensures |b| == SIZEOF_DATA_DIRECTORY
  {
    match s
    case Some(d) => EncodeInner(d.inner, e)
    case None => Zeros(SIZEOF_DATA_DIRECTORY)
  }

  /** The slots written one after another. */
  function SerializeSlots(s: seq<Option<DataDirectory>>, e: Endian): (b: seq<byte>)
    ensures |b| == 8 * |s|
  {
    if s == [] then [] else SerializeSlots(s[..|s| - 1], e) + EncodeSlot(s[|s| - 1], e)
  }

  /** The serialised table. */
  function Serialize(t: DataDirectories, e: Endian): (b: seq<byte>)
    ensures |b| == TABLE_SIZE
  {
    SerializeSlots(t.dataDirectories, e)
  }

  /** The slots before `i` are written in the first `8 * i` bytes. */
  lemma {:induction false} SerializeSlotsPrefix(s: seq<Option<DataDirectory>>, e: Endian, i: nat)
    requires i <= |s|
    ensures SerializeSlots(s[..i], e) == SerializeSlots(s, e)[..8 * i]
    decreases |s|
  {
    if i < |s| {
      var init := s[..|s| - 1];
      assert s[..i] == init[..i];
      SerializeSlotsPrefix(init, e, i);
    } else {
      assert s[..i] == s;
    }
  }

  /** Slot `i` is written at bytes `8 * i` to `8 * i + 8`. */
  lemma SerializeSlotsAt(s: seq<Option<DataDirectory>>, e: Endian, i: nat)
    requires i < |s|
    ensures Chunk(SerializeSlots(s, e), i) == EncodeSlot(s[i], e)
  {
    var init := s[..i + 1];
    var pre := SerializeSlots(init, e);
    SerializeSlotsPrefix(s, e, i + 1);
    assert init[..|init| - 1] == s[..i] && init[|init| - 1] == s[i];
    assert pre == SerializeSlots(s[..i], e) + EncodeSlot(s[i], e);
    assert pre[8 * i .. 8 * i + 8] == EncodeSlot(s[i], e);
  }

  /** The serialised table is 128 bytes holding, for every slot `i` at byte
      `8 * i`, the pair of a present slot or eight zeros for an absent one. */
  lemma SerializeLayout(t: DataDirectories, e: Endian, i: nat)
    requires i < NUM_DATA_DIRECTORIES
    ensures |Serialize(t, e)| == TABLE_SIZE
    ensures t.dataDirectories[i].Some? ==>
              Serialize(t, e)[8 * i .. 8 * i + 8] == EncodeInner(t.dataDirectories[i].value.inner, e)
    ensures t.dataDirectories[i].None? ==> AllZero(Serialize(t, e)[8 * i .. 8 * i + 8])
  {
    SerializeSlotsAt(t.dataDirectories, e, i);
  }

  /** How many bytes a failed write leaves written into a buffer of `len`
      bytes: all whole slots that fit, plus the address field of the next slot
      when it is present and its four bytes fit. */
  function WrittenBeforeFailure(t: DataDirectories, len: nat): nat
    requires len < TABLE_SIZE
  {
    var j := len / 8;
    8 * j + (if t.dataDirectories[j].Some? && len - 8 * j >= 4 then 4 else 0)
  }

  /** Copies `src` into `bytes` at `at`. */
  method WriteBytes(bytes: array<byte>, at: nat, src: seq<byte>)
    requires at + |src| <= bytes.Length
    modifies bytes
    ensures bytes[..] == old(bytes[..at]) + src + old(bytes[at + |src|..])
  {
    forall k | at <= k < at + |src| {
      bytes[k] := src[k - at];
    }
  }

  /** The bytes of one slot a write leaves behind when only `room` bytes are
      left: the address field of a present slot if four bytes fit, else none. */
  function PartialSlot(slot: Option<DataDirectory>, e: Endian, room: int): (b: seq<byte>)
    requires room < SIZEOF_DATA_DIRECTORY
    ensures |b| <= 4 && b == EncodeSlot(slot, e)[..|b|]
  {
    if slot.Some? && room >= 4 then EncodeSlot(slot, e)[..4] else []
  }

  /** Writes one slot at `offset`: a present pair as two 32-bit fields, an
      absent slot as eight zeros. Each field, and the zero block, is written
      only when it fits entirely. */
  method WriteSlot(bytes: array<byte>, offset: nat, slot: Option<DataDirectory>, e: Endian) returns (ok: bool)
    requires offset <= bytes.Length
    modifies bytes
    ensures ok <==> offset + SIZEOF_DATA_DIRECTORY <= bytes.Length
    ensures ok ==> bytes[..] == old(bytes[..offset]) + EncodeSlot(slot, e) + old(bytes[offset + SIZEOF_DATA_DIRECTORY..])
    ensures !ok ==>
              var w := PartialSlot(slot, e, bytes.Length - offset);
              bytes[..] == old(bytes[..offset]) + w + old(bytes[offset + |w|..])
  {
    ghost var before := bytes[..];
    assert before == before[..offset] + before[offset..];
    match slot
    case Some(dd) =>
      if offset + 4 > bytes.Length {
        return false;
      }
      var va := EncodeU32(dd.inner.virtualAddress, e);
      WriteBytes(bytes, offset, va);
      if offset + 8 > bytes.Length {
        assert EncodeSlot(slot, e)[..4] == va;
        return false;
      }
      ghost var mid := bytes[..];
      var size := EncodeU32(dd.inner.size, e);
      WriteBytes(bytes, offset + 4, size);
      TwoWrites(before, mid, bytes[..], offset, va, size);
      ok := true;
    case None =>
      if offset + SIZEOF_DATA_DIRECTORY > bytes.Length {
        return false;
      }
      WriteBytes(bytes, offset, Zeros(SIZEOF_DATA_DIRECTORY));
      ok := true;
  }

  /** Two adjacent writes amount to one write of both. */
  lemma TwoWrites(s0: seq<byte>, s1: seq<byte>, s2: seq<byte>, at: nat, x: seq<byte>, y: seq<byte>)
    requires at + |x| + |y| <= |s0|
    requires s1 == s0[..at] + x + s0[at + |x|..]
    requires s2 == s1[..at + |x|] + y + s1[at + |x| + |y|..]
    ensures s2 == s0[..at] + (x + y) + s0[at + |x| + |y|..]
  {
    assert s1[..at + |x|] == s0[..at] + x;
    assert s1[at + |x| + |y|..] == s0[at + |x| + |y|..];
  }

  /** `try_into_ctx`: writes all sixteen slots from the start of `bytes`, each
      present pair field by field in byte order `e` and each absent slot as
      eight zeros, and reports 128 bytes. A buffer shorter than 128 bytes makes
      it fail part-way, after writing a prefix of the serialised table. */
  method TryIntoCtx(t: DataDirectories, bytes: array<byte>, e: Endian) returns (r: Result<nat>)
    modifies bytes
    ensures bytes.Length >= TABLE_SIZE ==>
              r == Ok(TABLE_SIZE) && bytes[..TABLE_SIZE] == Serialize(t, e)
              && bytes[TABLE_SIZE..] == old(bytes[TABLE_SIZE..])
    ensures bytes.Length < TABLE_SIZE ==>
              r == Err(Scroll)
              && var k := WrittenBeforeFailure(t, bytes.Length);
                 bytes[..k] == Serialize(t, e)[..k] && bytes[k..] == old(bytes[k..])
  {
    ghost var before := bytes[..];
    var ok := WriteSlots(t, bytes, e);
    if !ok {
      return Err(Scroll);
    }
    WroteTable(Serialize(t, e), before, bytes[..]);
    r := Ok(TABLE_SIZE);
  }

  /** The loop of `try_into_ctx`: writes the slots in order until one does not fit. */
  method WriteSlots(t: DataDirectories, bytes: array<byte>, e: Endian) returns (ok: bool)
    modifies bytes
    ensures ok <==> bytes.Length >= TABLE_SIZE
    ensures ok ==> bytes[..] == Serialize(t, e)[..TABLE_SIZE] + old(bytes[..])[TABLE_SIZE..]
    ensures !ok ==>
              var k := WrittenBeforeFailure(t, bytes.Length);
              bytes[..k] == Serialize(t, e)[..k] && bytes[k..] == old(bytes[..])[k..]
  {
    ghost var before := bytes[..];
    for i := 0 to NUM_DATA_DIRECTORIES
      invariant 8 * i <= bytes.Length
      invariant bytes[..] == Serialize(t, e)[..8 * i] + before[8 * i..]
    {
      ok := WriteSlotAt(t, bytes, i, e, before);
      if !ok {
        return;
      }
    }
    ok := true;
  }

  /** After the last slot, the buffer holds the table followed by what was there. */
  lemma WroteTable(ser: seq<byte>, before: seq<byte>, after: seq<byte>)
    requires |ser| == TABLE_SIZE <= |before|
    requires after == ser[..TABLE_SIZE] + before[TABLE_SIZE..]
    ensures after[..TABLE_SIZE] == ser && after[TABLE_SIZE..] == before[TABLE_SIZE..]
  {
  }

  /** One step of `TryIntoCtx`: writes slot `i` after the slots before it. */
  method WriteSlotAt(t: DataDirectories, bytes: array<byte>, i: nat, e: Endian, ghost before: seq<byte>) returns (ok: bool)
    requires i < NUM_DATA_DIRECTORIES && 8 * i <= bytes.Length == |before|
    requires bytes[..] == Serialize(t, e)[..8 * i] + before[8 * i..]
    modifies bytes
    ensures ok <==> 8 * i + 8 <= bytes.Length
    ensures ok ==> bytes[..] == Serialize(t, e)[..8 * i + 8] + before[8 * i + 8..]
    ensures !ok ==>
              bytes.Length < TABLE_SIZE
              && var k := WrittenBeforeFailure(t, bytes.Length);
                 bytes[..k] == Serialize(t, e)[..k] && bytes[k..] == before[k..]
  {
    ghost var prev := bytes[..];
    ok := WriteSlot(bytes, 8 * i, t.dataDirectories[i], e);
    if ok {
      WroteSlot(t, e, before, prev, bytes[..], i);
    } else {
      StoppedAtSlot(t, e, before, prev, bytes[..], i);
    }
  }

  /** Writing slot `i` in full extends the serialised prefix by eight bytes. */
  lemma WroteSlot(t: DataDirectories, e: Endian, before: seq<byte>, prev: seq<byte>, after: seq<byte>, i: nat)
    requires i < NUM_DATA_DIRECTORIES && 8 * i + 8 <= |before|
    requires prev == Serialize(t, e)[..8 * i] + before[8 * i..]
    requires after == prev[..8 * i] + EncodeSlot(t.dataDirectories[i], e) + prev[8 * i + 8..]
    ensures after == Serialize(t, e)[..8 * i + 8] + before[8 * i + 8..]
  {
    SerializeSlotsAt(t.dataDirectories, e, i);
    Splice(Serialize(t, e), before, prev, after, 8 * i, EncodeSlot(t.dataDirectories[i], e));
    assert after == after[..8 * i + 8] + after[8 * i + 8..];
  }

  /** A write stopped at slot `i` leaves the buffer the contract of
      `TryIntoCtx` describes. */
  lemma StoppedAtSlot(t: DataDirectories, e: Endian, before: seq<byte>, prev: seq<byte>, after: seq<byte>, i: nat)
    requires i < NUM_DATA_DIRECTORIES && 8 * i <= |before| < 8 * i + 8
    requires prev == Serialize(t, e)[..8 * i] + before[8 * i..]
    requires var w := PartialSlot(t.dataDirectories[i], e, |before| - 8 * i);
             after == prev[..8 * i] + w + prev[8 * i + |w|..]
    ensures |before| < TABLE_SIZE
    ensures var k := WrittenBeforeFailure(t, |before|);
            after[..k] == Serialize(t, e)[..k] && after[k..] == before[k..]
  {
    var w := PartialSlot(t.dataDirectories[i], e, |before| - 8 * i);
    PartialSlotInTable(t, e, i, |before| - 8 * i);
    StopPoint(t, e, |before|, i);
    Splice(Serialize(t, e), before, prev, after, 8 * i, w);
  }

  /** The bytes a stopped write leaves of slot `i` continue the serialised table. */
  lemma PartialSlotInTable(t: DataDirectories, e: Endian, i: nat, room: int)
    requires i < NUM_DATA_DIRECTORIES && room < SIZEOF_DATA_DIRECTORY
    ensures var w := PartialSlot(t.dataDirectories[i], e, room);
            w == Serialize(t, e)[8 * i .. 8 * i + |w|]
  {
    var w := PartialSlot(t.dataDirectories[i], e, room);
    SerializeSlotsAt(t.dataDirectories, e, i);
    assert Serialize(t, e)[8 * i .. 8 * i + |w|] == Chunk(Serialize(t, e), i)[..|w|];
  }

  /** Where a write into a buffer of `len` bytes stops. */
  lemma StopPoint(t: DataDirectories, e: Endian, len: nat, i: nat)
    requires i < NUM_DATA_DIRECTORIES && 8 * i <= len < 8 * i + 8
    ensures len < TABLE_SIZE
    ensures WrittenBeforeFailure(t, len) == 8 * i + |PartialSlot(t.dataDirectories[i], e, len - 8 * i)|
  {
    DivideByEntrySize(len, i);
  }

  /** Writing the next `|w|` bytes of `ser` over a buffer that already starts
      with `ser[..off]` extends the agreeing prefix and touches nothing else. */
  lemma Splice(ser: seq<byte>, before: seq<byte>, prev: seq<byte>, after: seq<byte>, off: nat, w: seq<byte>)
    requires off + |w| <= |ser| && off + |w| <= |before|
    requires prev == ser[..off] + before[off..]
    requires w == ser[off..off + |w|]
    requires after == prev[..off] + w + prev[off + |w|..]
    ensures after[..off + |w|] == ser[..off + |w|] && after[off + |w|..] == before[off + |w|..]
  {
    assert ser[..off + |w|] == ser[..off] + ser[off..off + |w|];
  }

  /** Proof step: the slot a byte count falls in. */
  lemma DivideByEntrySize(n: nat, i: nat)
    requires 8 * i <= n < 8 * i + 8
    ensures n / 8 == i
  {
  }

  // ------------------------------------------------------------ round trips

  /** A chunk of eight bytes: the encoding of slot `i`. */
  function Chunk(b: seq<byte>, i: nat): seq<byte>
    requires 8 * i + 8 <= |b|
  {
    EntryBytes(b, 0, i)
  }

  /** Two tables' worth of bytes that agree slot by slot are equal. */
  lemma ChunksEqual(a: seq<byte>, b: seq<byte>)
    requires |a| == |b| == TABLE_SIZE
    requires forall i :: 0 <= i < NUM_DATA_DIRECTORIES ==> Chunk(a, i) == Chunk(b, i)
    ensures a == b
  {
    forall k | 0 <= k < TABLE_SIZE
      ensures a[k] == b[k]
    {
      var i := k / 8;
      assert a[k] == Chunk(a, i)[k - 8 * i] && b[k] == Chunk(b, i)[k - 8 * i];
    }
  }

  /** A table's slots without their parse-time offsets: what serialisation keeps. */
  function Pairs(t: DataDirectories): (p: seq<Option<DataDirectoryInner>>)
    ensures |p| == NUM_DATA_DIRECTORIES
  {
    seq(NUM_DATA_DIRECTORIES, i requires 0 <= i < NUM_DATA_DIRECTORIES =>
      if t.dataDirectories[i].Some? then Some(t.dataDirectories[i].value.inner) else None)
  }

  /** No present slot holds the all-zero pair (a parsed table never does, as
      `ParsedTableNoZeroEntries` shows). */
  predicate NoZeroEntries(t: DataDirectories)
  {
    forall i :: 0 <= i < NUM_DATA_DIRECTORIES && t.dataDirectories[i].Some? ==>
      !IsZero(t.dataDirectories[i].value.inner)
  }

  /** A parsed table keeps no all-zero pair, so `SerializeThenParse` applies to it. */
  lemma ParsedTableNoZeroEntries(bytes: seq<byte>, count: nat, start: nat)
    requires count <= NUM_DATA_DIRECTORIES && EntriesFit(bytes, count, start)
    ensures NoZeroEntries(ParsedTable(bytes, count, start))
  {
    var t := ParsedTable(bytes, count, start);
    forall i | 0 <= i < NUM_DATA_DIRECTORIES && t.dataDirectories[i].Some?
      ensures !IsZero(t.dataDirectories[i].value.inner)
    {
      ParsedSlot(bytes, count, start, i);
      EncodeInnerZero(t.dataDirectories[i].value.inner, LE);
    }
  }

  /** Serialising a table whose present pairs are non-zero and parsing the 128
      bytes back with a count of sixteen recovers every slot's presence and
      pair; only the recorded offsets change, to the cursor after each entry. */
  lemma SerializeThenParse(t: DataDirectories)
    requires NoZeroEntries(t)
    ensures EntriesFit(Serialize(t, LE), NUM_DATA_DIRECTORIES, 0)
    ensures Pairs(ParsedTable(Serialize(t, LE), NUM_DATA_DIRECTORIES, 0)) == Pairs(t)
    ensures forall i :: 0 <= i < NUM_DATA_DIRECTORIES &&
                        ParsedTable(Serialize(t, LE), NUM_DATA_DIRECTORIES, 0).dataDirectories[i].Some? ==>
              ParsedTable(Serialize(t, LE), NUM_DATA_DIRECTORIES, 0).dataDirectories[i].value.offset == Some(8 * i + 8)
  {
    var b := Serialize(t, LE);
    var p := ParsedTable(b, NUM_DATA_DIRECTORIES, 0);
    forall i | 0 <= i < NUM_DATA_DIRECTORIES
      ensures Pairs(p)[i] == Pairs(t)[i]
    {
      SerializeSlotsAt(t.dataDirectories, LE, i);
      assert EntryBytes(b, 0, i) == EncodeSlot(t.dataDirectories[i], LE);
      match t.dataDirectories[i]
      case Some(d) =>
        DecodeEncodeInner(d.inner, LE);
      case None =>
        DecodeEncodeInner(DataDirectoryInner(0, 0), LE);
        assert EncodeInner(DataDirectoryInner(0, 0), LE) == Zeros(8);
    }
  }

  /** A slot below `count` of a parsed table is written back as the eight
      bytes it was read from. */
  lemma ReadSlotWrittenBack(bytes: seq<byte>, count: nat, start: nat, i: nat)
    requires count <= NUM_DATA_DIRECTORIES && start + 8 * count <= |bytes| && i < count
    ensures EncodeSlot(ParsedTable(bytes, count, start).dataDirectories[i], LE) == EntryBytes(bytes, start, i)
  {
    ParsedSlot(bytes, count, start, i);
    if ParsedTable(bytes, count, start).dataDirectories[i].None? {
      assert EntryBytes(bytes, start, i) == Zeros(8);
    }
  }

  /** Proof step: a slice of a slice is a slice of the whole. */
  lemma SliceOfSlice(b: seq<byte>, lo: nat, hi: nat, i: nat, j: nat)
    requires i <= j && lo + j <= hi <= |b|
    ensures b[lo..hi][i..j] == b[lo + i..lo + j]
  {
    assert forall k :: 0 <= k < j - i ==> b[lo..hi][i..j][k] == b[lo + i..lo + j][k];
  }

  /** Chunks of the bytes read followed by zero padding. */
  lemma PaddedChunk(read: seq<byte>, count: nat, i: nat)
    requires count <= NUM_DATA_DIRECTORIES && |read| == 8 * count && i < NUM_DATA_DIRECTORIES
    ensures |read + Zeros(TABLE_SIZE - 8 * count)| == TABLE_SIZE
    ensures i < count ==> Chunk(read + Zeros(TABLE_SIZE - 8 * count), i) == read[8 * i .. 8 * i + 8]
    ensures i >= count ==> Chunk(read + Zeros(TABLE_SIZE - 8 * count), i) == Zeros(8)
  {
    var padded := read + Zeros(TABLE_SIZE - 8 * count);
    if i < count {
      assert forall k :: 0 <= k < 8 ==> Chunk(padded, i)[k] == read[8 * i + k];
    } else {
      assert forall k :: 0 <= k < 8 ==> Chunk(padded, i)[k] == 0;
    }
  }

  /** Slot `i` of a parsed-then-serialised table is written as the bytes it
      was read from, or as zeros past `count`. */
  lemma ParseThenSerializeChunk(bytes: seq<byte>, count: nat, start: nat, i: nat)
    requires count <= NUM_DATA_DIRECTORIES && start + 8 * count <= |bytes| && i < NUM_DATA_DIRECTORIES
    ensures Chunk(Serialize(ParsedTable(bytes, count, start), LE), i)
            == Chunk(bytes[start .. start + 8 * count] + Zeros(TABLE_SIZE - 8 * count), i)
  {
    ParsedSlotBytes(bytes, count, start, i);
    SerializeSlotsAt(ParsedTable(bytes, count, start).dataDirectories, LE, i);
  }

  /** The eight bytes slot `i` of a parsed table encodes to are those it was
      read from, or zeros past `count`. */
  lemma ParsedSlotBytes(bytes: seq<byte>, count: nat, start: nat, i: nat)
    requires count <= NUM_DATA_DIRECTORIES && start + 8 * count <= |bytes| && i < NUM_DATA_DIRECTORIES
    ensures |bytes[start .. start + 8 * count] + Zeros(TABLE_SIZE - 8 * count)| == TABLE_SIZE
    ensures EncodeSlot(ParsedTable(bytes, count, start).dataDirectories[i], LE)
            == Chunk(bytes[start .. start + 8 * count] + Zeros(TABLE_SIZE - 8 * count), i)
  {
    PaddedChunk(bytes[start .. start + 8 * count], count, i);
    if i < count {
      ReadSlotWrittenBack(bytes, count, start, i);
      SliceOfSlice(bytes, start, start + 8 * count, 8 * i, 8 * i + 8);
    } else {
      ParsedSlot(bytes, count, start, i);
    }
  }

  /** Parsing `count` entries and serialising the table reproduces the bytes
      read, padded with zeros to 128 bytes. */
  lemma ParseThenSerialize(bytes: seq<byte>, count: nat, start: nat)
    requires count <= NUM_DATA_DIRECTORIES && start + 8 * count <= |bytes|
    ensures Serialize(ParsedTable(bytes, count, start), LE)
            == bytes[start .. start + 8 * count] + Zeros(TABLE_SIZE - 8 * count)
  {
    forall i | 0 <= i < NUM_DATA_DIRECTORIES
      ensures Chunk(Serialize(ParsedTable(bytes, count, start), LE), i)
              == Chunk(bytes[start .. start + 8 * count] + Zeros(TABLE_SIZE - 8 * count), i)
    {
      ParseThenSerializeChunk(bytes, count, start, i);
    }
    ChunksEqual(Serialize(ParsedTable(bytes, count, start), LE),
                bytes[start .. start + 8 * count] + Zeros(TABLE_SIZE - 8 * count));
  }

  // -------------------------------------------------------------- accessors

  function GetExportTable(t: DataDirectories): (r: Option<DataDirectory>)
    ensures r == t.dataDirectories[IndexOf(ExportTable)]
  {
    t.dataDirectories[0]
  }

  function GetImportTable(t: DataDirectories): (r: Option<DataDirectory>)
    ensures r == t.dataDirectories[IndexOf(ImportTable)]
  {
    t.dataDirectories[1]
  }

  function GetResourceTable(t: DataDirectories): (r: Option<DataDirectory>)
    ensures r == t.dataDirectories[IndexOf(ResourceTable)]
  {
    t.dataDirectories[2]
  }

  function GetExceptionTable(t: DataDirectories): (r: Option<DataDirectory>)
    ensures r == t.dataDirectories[IndexOf(ExceptionTable)]
  {
    t.dataDirectories[3]
  }

  function GetCertificateTable(t: DataDirectories): (r: Option<DataDirectory>)
    ensures r == t.dataDirectories[IndexOf(CertificateTable)]
  {
    t.dataDirectories[4]
  }

  function GetBaseRelocationTable(t: DataDirectories): (r: Option<DataDirectory>)
    ensures r == t.dataDirectories[IndexOf(BaseRelocationTable)]
  {
    t.dataDirectories[5]
  }

  function GetDebugTable(t: DataDirectories): (r: Option<DataDirectory>)
    ensures r == t.dataDirectories[IndexOf(DebugTable)]
  {
    t.dataDirectories[6]
  }

  function GetArchitecture(t: DataDirectories): (r: Option<DataDirectory>)
    ensures r == t.dataDirectories[IndexOf(Architecture)]
  {
    t.dataDirectories[7]
  }

  function GetGlobalPtr(t: DataDirectories): (r: Option<DataDirectory>)
    ensures r == t.dataDirectories[IndexOf(GlobalPtr)]
  {
    t.dataDirectories[8]
  }

  function GetTlsTable(t: DataDirectories): (r: Option<DataDirectory>)
    ensures r == t.dataDirectories[IndexOf(TlsTable)]
  {
    t.dataDirectories[9]
  }

  function GetLoadConfigTable(t: DataDirectories): (r: Option<DataDirectory>)
    ensures r == t.dataDirectories[IndexOf(LoadConfigTable)]
  {
    t.dataDirectories[10]
  }

  function GetBoundImportTable(t: DataDirectories): (r: Option<DataDirectory>)
    ensures r == t.dataDirectories[IndexOf(BoundImportTable)]
  {
    t.dataDirectories[11]
  }

  function GetImportAddressTable(t: DataDirectories): (r: Option<DataDirectory>)
    ensures r == t.dataDirectories[IndexOf(ImportAddressTable)]
  {
    t.dataDirectories[12]
  }

  function GetDelayImportDescriptor(t: DataDirectories): (r: Option<DataDirectory>)
    ensures r == t.dataDirectories[IndexOf(DelayImportDescriptor)]
  {
    t.dataDirectories[13]
  }

  function GetClrRuntimeHeader(t: DataDirectories): (r: Option<DataDirectory>)
    ensures r == t.dataDirectories[IndexOf(ClrRuntimeHeader)]
  {
    t.dataDirectories[14]
  }

  /** The accessor a caller uses for kind `ty`. */
  function Accessor(t: DataDirectories, ty: DataDirectoryType): Option<DataDirectory>
  {
    match ty
    case ExportTable => GetExportTable(t)
    case ImportTable => GetImportTable(t)
    case ResourceTable => GetResourceTable(t)
    case ExceptionTable => GetExceptionTable(t)
    case CertificateTable => GetCertificateTable(t)
    case BaseRelocationTable => GetBaseRelocationTable(t)
    case DebugTable => GetDebugTable(t)
    case Architecture => GetArchitecture(t)
    case GlobalPtr => GetGlobalPtr(t)
    case TlsTable => GetTlsTable(t)
    case LoadConfigTable => GetLoadConfigTable(t)
    case BoundImportTable => GetBoundImportTable(t)
    case ImportAddressTable => GetImportAddressTable(t)
    case DelayImportDescriptor => GetDelayImportDescriptor(t)
    case ClrRuntimeHeader => GetClrRuntimeHeader(t)
  }

  // ------------------------------------------------------------ enumeration

  /** Number of present slots from `from` up to 14, the last slot with a kind. */
  function PresentCount(s: Slots, from: nat): nat
    decreases 15 - from
  {
    if from >= 15 then 0 else (if s[from].Some? then 1 else 0) + PresentCount(s, from + 1)
  }

  lemma {:induction false} NoPresentSlots(s: Slots, from: nat)
    requires forall k :: from <= k < 15 ==> s[k].None?
    ensures PresentCount(s, from) == 0
    decreases 15 - from
  {
    if from < 15 {
      NoPresentSlots(s, from + 1);
    }
  }

  /** `items` enumerates the present slots of `s` from index `from` on: each
      item names a present slot by its kind, the items follow ascending slot
      order, every present slot from `from` up to 14 is among them, and there
      are as many items as such slots. */
  ghost predicate Enumerates(s: Slots, from: nat, items: seq<(DataDirectoryType, DataDirectory)>)
  {
    |items| == PresentCount(s, from) &&
    (forall j :: 0 <= j < |items| ==>
       from <= IndexOf(items[j].0) && s[IndexOf(items[j].0)] == Some(items[j].1))
    && (forall j, k :: 0 <= j < k < |items| ==> IndexOf(items[j].0) < IndexOf(items[k].0))
    && (forall k :: from <= k < 15 && s[k].Some? ==> (DeclarationOrder[k], s[k].value) in items)
  }

  /** Nothing is left to enumerate past the last slot. */
  lemma EnumeratesNothing(s: Slots)
    ensures Enumerates(s, NUM_DATA_DIRECTORIES, [])
  {
  }

  /** Skipping slot `i`, absent or without a kind, keeps the enumeration. */
  lemma EnumeratesSkip(s: Slots, i: nat, rest: seq<(DataDirectoryType, DataDirectory)>)
    requires i < NUM_DATA_DIRECTORIES && (i == 15 || s[i].None?)
    requires Enumerates(s, i + 1, rest)
    ensures Enumerates(s, i, rest)
  {
  }

  /** A present slot `i` with a kind goes in front of the later items. */
  lemma EnumeratesCons(s: Slots, i: nat, v: DataDirectory, rest: seq<(DataDirectoryType, DataDirectory)>)
    requires i < 15 && s[i] == Some(v)
    requires Enumerates(s, i + 1, rest)
    ensures Enumerates(s, i, [(DeclarationOrder[i], v)] + rest)
  {
    var items := [(DeclarationOrder[i], v)] + rest;
    IndexOfDeclarationOrder(i);
    forall j | 0 <= j < |items|
      ensures i <= IndexOf(items[j].0) && s[IndexOf(items[j].0)] == Some(items[j].1)
    {
      if j > 0 { assert items[j] == rest[j - 1]; }
    }
    forall j, k | 0 <= j < k < |items|
      ensures IndexOf(items[j].0) < IndexOf(items[k].0)
    {
      assert items[k] == rest[k - 1];
      if j > 0 { assert items[j] == rest[j - 1]; }
    }
    forall k | i <= k < 15 && s[k].Some?
      ensures (DeclarationOrder[k], s[k].value) in items
    {
      if k > i { assert (DeclarationOrder[k], s[k].value) in rest; }
    }
  }

  /** Running `dirs()` to exhaustion: either every item is yielded, or the
      conversion of a slot index panics after the items before it were yielded. */
  datatype DirsOutcome =
    | Finished(items: seq<(DataDirectoryType, DataDirectory)>)
    | Panicked(items: seq<(DataDirectoryType, DataDirectory)>)

  /** `dirs()` from slot `i` on, with the unwrapped index conversion. */
  function DirsFrom(s: Slots, i: nat): (r: DirsOutcome)
    requires i <= NUM_DATA_DIRECTORIES
    ensures r.Finished? <==> (i == NUM_DATA_DIRECTORIES || s[15].None?)
    ensures Enumerates(s, i, r.items)
    decreases NUM_DATA_DIRECTORIES - i
  {
    if i == NUM_DATA_DIRECTORIES then EnumeratesNothing(s); Finished([])
    else
      match s[i]
      case None =>
        var rest := DirsFrom(s, i + 1);
        EnumeratesSkip(s, i, rest.items);
        rest
      case Some(v) =>
        match TryFrom(i)
        case Ok(ty) =>
          var rest := DirsFrom(s, i + 1);
          EnumeratesCons(s, i, v, rest.items);
          rest.(items := [(ty, v)] + rest.items)
        case Err(_) => EnumeratesNothing(s); EnumeratesSkip(s, i, []); Panicked([])
  }

  /** `dirs()` as written: the present slots paired with their kinds in slot
      order, running to completion exactly when the reserved slot 15 is absent
      and panicking on it otherwise. */
  function Dirs(t: DataDirectories): (r: DirsOutcome)
    ensures r.Finished? <==> t.dataDirectories[15].None?
    ensures Enumerates(t.dataDirectories, 0, r.items)
  {
    DirsFrom(t.dataDirectories, 0)
  }

  /** The enumeration with the index conversion checked instead of unwrapped:
      a slot whose index names no kind is skipped. */
  function TypedDirsFrom(s: Slots, i: nat): (items: seq<(DataDirectoryType, DataDirectory)>)
    requires i <= NUM_DATA_DIRECTORIES
    ensures Enumerates(s, i, items)
    decreases NUM_DATA_DIRECTORIES - i
  {
    if i == NUM_DATA_DIRECTORIES then EnumeratesNothing(s); []
    else
      var rest := TypedDirsFrom(s, i + 1);
      match s[i]
      case None => EnumeratesSkip(s, i, rest); rest
      case Some(v) =>
        match TryFrom(i)
        case Ok(ty) => EnumeratesCons(s, i, v, rest); [(ty, v)] + rest
        case Err(_) => EnumeratesSkip(s, i, rest); rest
  }

  /** The corrected enumeration: never fails, and yields the present slots
      0 to 14 paired with their kinds in slot order. */
  function TypedDirs(t: DataDirectories): (items: seq<(DataDirectoryType, DataDirectory)>)
    ensures Enumerates(t.dataDirectories, 0, items)
  {
    TypedDirsFrom(t.dataDirectories, 0)
  }

  /** Whether or not it panics, `dirs()` yields exactly what the corrected
      enumeration yields. */
  lemma {:induction false} DirsFromYieldsTypedDirs(s: Slots, i: nat)
    requires i <= NUM_DATA_DIRECTORIES
    ensures DirsFrom(s, i).items == TypedDirsFrom(s, i)
    decreases NUM_DATA_DIRECTORIES - i
  {
    if i < NUM_DATA_DIRECTORIES {
      DirsFromYieldsTypedDirs(s, i + 1);
    }
  }

  lemma DirsYieldsTypedDirs(t: DataDirectories)
    ensures Dirs(t).items == TypedDirs(t)
    ensures t.dataDirectories[15].None? ==> Dirs(t) == Finished(TypedDirs(t))
  {
    DirsFromYieldsTypedDirs(t.dataDirectories, 0);
  }

  /** The accessor for a kind returns a present entry exactly when the
      enumeration yields that kind, and then with the same entry. */
  lemma AccessorAgreesWithTypedDirs(t: DataDirectories, ty: DataDirectoryType)
    ensures Accessor(t, ty).Some? ==> (ty, Accessor(t, ty).value) in TypedDirs(t)
    ensures forall d :: (ty, d) in TypedDirs(t) ==> Accessor(t, ty) == Some(d)
  {
    var k := IndexOf(ty);
    assert Accessor(t, ty) == t.dataDirectories[k];
    forall d | (ty, d) in TypedDirs(t)
      ensures Accessor(t, ty) == Some(d)
    {
      var j :| 0 <= j < |TypedDirs(t)| && TypedDirs(t)[j] == (ty, d);
    }
  }

  /** A table parsed from all-zero entries has nothing to enumerate. */
  lemma ZeroEntriesEnumerateNothing(bytes: seq<byte>, count: nat, start: nat)
    requires count <= NUM_DATA_DIRECTORIES && start + 8 * count <= |bytes|
    requires AllZero(bytes[start .. start + 8 * count])
    ensures Dirs(ParsedTable(bytes, count, start)) == Finished([])
  {
    var t := ParsedTable(bytes, count, start);
    forall i | 0 <= i < NUM_DATA_DIRECTORIES
      ensures t.dataDirectories[i].None?
    {
      ParsedSlot(bytes, count, start, i);
      if i < count {
        assert forall k :: 0 <= k < 8 ==> EntryBytes(bytes, start, i)[k] == bytes[start .. start + 8 * count][8 * i + k];
      }
    }
    NoPresentSlots(t.dataDirectories, 0);
  }

  /** A parse with a count of sixteen stores a non-zero reserved slot 15, and
      `dirs()` on the resulting table panics; the corrected enumeration skips it. */
  lemma DirsPanicsOnReservedSlot()
    ensures var t := ParsedTable(Zeros(120) + [1, 0, 0, 0, 0, 0, 0, 0], NUM_DATA_DIRECTORIES, 0);
            t.dataDirectories[15].Some? && Dirs(t).Panicked? && TypedDirs(t) == []
  {
    var b := Zeros(120) + [1, 0, 0, 0, 0, 0, 0, 0];
    var t := ParsedTable(b, NUM_DATA_DIRECTORIES, 0);
    assert EntryBytes(b, 0, 15) == [1, 0, 0, 0, 0, 0, 0, 0];
    assert DecodeInner(EntryBytes(b, 0, 15), LE).virtualAddress == 1;
    forall i | 0 <= i < 15
      ensures t.dataDirectories[i].None?
    {
      assert EntryBytes(b, 0, i) == Zeros(8);
      assert DecodeInner(Zeros(8), LE) == DataDirectoryInner(0, 0);
    }
    NoPresentSlots(t.dataDirectories, 0);
  }
}
