/** One optional-header data directory: an (address, size) pair of 32-bit
    fields, eight bytes on disk, plus the cursor position recorded at parse time. */
module Entry {
  import opened Errors
  import opened Bytes

  const SIZEOF_DATA_DIRECTORY: nat := 8

  /** The on-disk pair: virtual address (a file offset for the certificate
      directory) and size. */
  datatype DataDirectoryInner = DataDirectoryInner(virtualAddress: u32, size: u32)

  /** `offset` is the reader's cursor just AFTER the eight bytes of the entry,
      or None when the entry was decoded from a detached buffer. */
  datatype DataDirectory = DataDirectory(inner: DataDirectoryInner, offset: Option<nat>)

  predicate IsZero(d: DataDirectoryInner)
  {
    d.virtualAddress == 0 && d.size == 0
  }

  /** The eight bytes of an entry: the address, then the size. */
  function EncodeInner(d: DataDirectoryInner, e: Endian): (b: seq<byte>)
    ensures |b| == SIZEOF_DATA_DIRECTORY
    ensures DecodeU32(b[0..4], e) == d.virtualAddress && DecodeU32(b[4..8], e) == d.size
  {
    var b := EncodeU32(d.virtualAddress, e) + EncodeU32(d.size, e);
    assert b[0..4] == EncodeU32(d.virtualAddress, e) && b[4..8] == EncodeU32(d.size, e);
    DecodeEncodeU32(d.virtualAddress, e);
    DecodeEncodeU32(d.size, e);
    b
  }

  /** The entry stored in the first eight bytes of `b`: the address is the
      value the first four bytes encode, the size that of the next four. */
  function DecodeInner(b: seq<byte>, e: Endian): (d: DataDirectoryInner)
    requires |b| >= SIZEOF_DATA_DIRECTORY
    ensures EncodeU32(d.virtualAddress, e) == b[0..4] && EncodeU32(d.size, e) == b[4..8]
  {
    DataDirectoryInner(DecodeU32(b[0..4], e), DecodeU32(b[4..8], e))
  }

  /** Decoding an encoded entry gives it back. */
  lemma DecodeEncodeInner(d: DataDirectoryInner, e: Endian)
    ensures DecodeInner(EncodeInner(d, e), e) == d
  {
    var b := EncodeInner(d, e);
    assert b[0..4] == EncodeU32(d.virtualAddress, e);
    assert b[4..8] == EncodeU32(d.size, e);
    DecodeEncodeU32(d.virtualAddress, e);
    DecodeEncodeU32(d.size, e);
  }

  /** Encoding a decoded entry reproduces the eight bytes it came from. */
  lemma EncodeDecodeInner(b: seq<byte>, e: Endian)
    requires |b| >= SIZEOF_DATA_DIRECTORY
    ensures EncodeInner(DecodeInner(b, e), e) == b[..SIZEOF_DATA_DIRECTORY]
  {
    assert b[..8] == b[0..4] + b[4..8];
  }

  /** An entry is the all-zero pair exactly when its eight bytes are zero. */
  lemma EncodeInnerZero(d: DataDirectoryInner, e: Endian)
    ensures AllZero(EncodeInner(d, e)) <==> IsZero(d)
  {
    var b := EncodeInner(d, e);
    assert b[0..4] == EncodeU32(d.virtualAddress, e);
    assert b[4..8] == EncodeU32(d.size, e);
    EncodeU32Zero(d.virtualAddress, e);
    EncodeU32Zero(d.size, e);
    if AllZero(b[0..4]) && AllZero(b[4..8]) {
      forall k | 0 <= k < 8 ensures b[k] == 0 {
        if k < 4 { assert b[k] == b[0..4][k]; } else { assert b[k] == b[4..8][k - 4]; }
      }
    }
  }

  /** `DataDirectory::parse`: reads a little-endian entry at the cursor and
      advances the cursor by eight; the recorded offset is the advanced cursor.
      The read fails, leaving the cursor where it was, when fewer than eight
      bytes remain. */
  method Parse(bytes: seq<byte>, offset: nat) returns (r: Result<DataDirectory>, offset': nat)
    ensures r.Ok? <==> offset + SIZEOF_DATA_DIRECTORY <= |bytes|
    ensures r.Err? ==> r.error == Scroll && offset' == offset
    ensures r.Ok? ==> offset' == offset + SIZEOF_DATA_DIRECTORY && r.value.offset == Some(offset')
    ensures r.Ok? ==> EncodeInner(r.value.inner, LE) == bytes[offset..offset']
  {
    if offset + SIZEOF_DATA_DIRECTORY > |bytes| {
      return Err(Scroll), offset;
    }
    var inner := DecodeInner(bytes[offset..], LE);
    EncodeDecodeInner(bytes[offset..], LE);
    offset' := offset + SIZEOF_DATA_DIRECTORY;
    r := Ok(DataDirectory(inner, Some(offset')));
  }

  /** `DataDirectory::data`: the `size` bytes of `pe` starting at the recorded
      offset. Fails when no offset was recorded or the range runs past the end. */
  function Data(d: DataDirectory, pe: seq<byte>): (r: Result<seq<byte>>)
    ensures d.offset.None? ==> r == Err(Malformed("Data directory loaded without offset information"))
    ensures d.offset.Some? && d.offset.value + d.inner.size > |pe| ==> r == Err(Malformed("Invalid data directory range"))
    ensures r.Ok? <==> d.offset.Some? && d.offset.value + d.inner.size <= |pe|
    ensures r.Ok? ==> |r.value| == d.inner.size
    ensures r.Ok? ==> forall k :: 0 <= k < d.inner.size ==> r.value[k] == pe[d.offset.value + k]
  {
    match d.offset
    case None => Err(Malformed("Data directory loaded without offset information"))
    case Some(start) =>
      var end := start + d.inner.size;
      if end <= |pe| then Ok(pe[start..end]) else Err(Malformed("Invalid data directory range"))
  }

  /** The context-driven reader: decodes an entry at the start of `from` in
      byte order `e`, records no offset, and reports eight bytes consumed. */
  function TryFromCtx(from: seq<byte>, e: Endian): (r: Result<(DataDirectory, nat)>)
    ensures r.Ok? <==> |from| >= SIZEOF_DATA_DIRECTORY
    ensures r.Err? ==> r.error == Scroll
    ensures r.Ok? ==> r.value.1 == SIZEOF_DATA_DIRECTORY && r.value.0.offset.None?
    ensures r.Ok? ==> EncodeInner(r.value.0.inner, e) == from[..SIZEOF_DATA_DIRECTORY]
  {
    if |from| < SIZEOF_DATA_DIRECTORY then Err(Scroll)
    else
      EncodeDecodeInner(from, e);
      Ok((DataDirectory(DecodeInner(from, e), None), SIZEOF_DATA_DIRECTORY))
  }

  /** Reading back an encoded entry, whatever follows it, gives the entry. */
  lemma TryFromCtxRoundTrip(d: DataDirectoryInner, e: Endian, rest: seq<byte>)
    ensures TryFromCtx(EncodeInner(d, e) + rest, e) == Ok((DataDirectory(d, None), SIZEOF_DATA_DIRECTORY))
  {
    var b := EncodeInner(d, e) + rest;
    assert b[..8] == EncodeInner(d, e);
    assert b[0..4] == EncodeInner(d, e)[0..4];
    assert b[4..8] == EncodeInner(d, e)[4..8];
    DecodeEncodeInner(d, e);
  }
}
