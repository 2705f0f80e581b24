/** Handles, the footer and stored blocks of a table file (table/format.cc, table/format.h).  Blocks are stored
    uncompressed. */
module TableFormat {
  import opened InternalKeys
  import opened Coding
  import Checksums

  const TRAILER_SIZE: nat := 5
  const FOOTER_SIZE: nat := 48
  const NO_COMPRESSION: Byte := 0
  const MAGIC: Word64 := 0xdb47_7524_8b80_fb57

  // --- BlockHandle ---

  datatype Handle = Handle(offset: nat, size: nat)

  predicate HandleOk(h: Handle) {
    h.offset < TWO64 && h.size < TWO64
  }

  function EncodeHandle(h: Handle): Bytes {
    EncodeVarint(h.offset) + EncodeVarint(h.size)
  }

  function DecodeHandle(s: Bytes): Parsed<Handle> {
    match GetVarint64(s)
    case Bad => Bad
    case Good(offset, s1) =>
      match GetVarint64(s1)
      case Bad => Bad
      case Good(size, rest) => Good(Handle(offset, size), rest)
  }

  lemma HandleRoundTrip(h: Handle, rest: Bytes)
    requires HandleOk(h)
    ensures DecodeHandle(EncodeHandle(h) + rest) == Good(h, rest)
  {
    hide GetVarint64, EncodeVarint;
    Varint64RoundTrip(h.offset, EncodeVarint(h.size) + rest);
    Varint64RoundTrip(h.size, rest);
    assert EncodeHandle(h) + rest == EncodeVarint(h.offset) + (EncodeVarint(h.size) + rest);
  }

  lemma {:induction false} VarintLength(v: nat, n: nat)
    requires n > 0 && v < Pow128(n)
    ensures |EncodeVarint(v)| <= n
    decreases n
  {
    if v >= 128 {
      VarintLength(v / 128, n - 1);
    }
  }

  lemma HandleLength(h: Handle)
    requires HandleOk(h)
    ensures |EncodeHandle(h)| <= 20
  {
    hide EncodeVarint;
    Pow128Values();
    VarintLength(h.offset, 10);
    VarintLength(h.size, 10);
  }

  // --- Footer ---

  datatype Footer = Footer(metaindex: Handle, index: Handle)

  // Two handles padded to 40 bytes, then the magic number.
  function EncodeFooter(f: Footer): (b: Bytes)
    ensures HandleOk(f.metaindex) && HandleOk(f.index) ==> |b| == FOOTER_SIZE
  {
    var handles := EncodeHandle(f.metaindex) + EncodeHandle(f.index);
    assert HandleOk(f.metaindex) && HandleOk(f.index) ==> |handles| <= 40 by {
      if HandleOk(f.metaindex) && HandleOk(f.index) {
        HandleLength(f.metaindex);
        HandleLength(f.index);
      }
    }
    handles + Zeros(if |handles| <= 40 then 40 - |handles| else 0) + EncodeFixed(MAGIC % TWO32, 4) + EncodeFixed(MAGIC / TWO32, 4)
  }

  function DecodeFooter(s: Bytes): Option<Footer>
    requires |s| == FOOTER_SIZE
  {
    if DecodeFixed(s[40..44]) + TWO32 * DecodeFixed(s[44..48]) != MAGIC then None
    else
      match DecodeHandle(s)
      case Bad => None
      case Good(metaindex, rest) =>
        match DecodeHandle(rest)
        case Bad => None
        case Good(index, _) => Some(Footer(metaindex, index))
  }

  lemma FooterRoundTrip(f: Footer)
    requires HandleOk(f.metaindex) && HandleOk(f.index)
    ensures DecodeFooter(EncodeFooter(f)) == Some(f)
  {
    hide DecodeHandle, EncodeHandle, EncodeFixed, DecodeFixed;
    HandleLength(f.metaindex);
    HandleLength(f.index);
    var a, b := EncodeHandle(f.metaindex), EncodeHandle(f.index);
    var lo, hi := EncodeFixed(MAGIC % TWO32, 4), EncodeFixed(MAGIC / TWO32, 4);
    var pad := Zeros(40 - |a + b|);
    var s := EncodeFooter(f);
    assert s[40..44] == lo && s[44..48] == hi;
    Fixed32RoundTrip(MAGIC % TWO32);
    Fixed32RoundTrip(MAGIC / TWO32);
    HandleRoundTrip(f.metaindex, b + (pad + lo + hi));
    HandleRoundTrip(f.index, pad + lo + hi);
    assert s == a + (b + (pad + lo + hi));
  }

  // --- Stored blocks: contents, a type byte and a masked checksum of both ---

  function Trailer(contents: Bytes): (b: Bytes)
    ensures |b| == TRAILER_SIZE
  {
    [NO_COMPRESSION] + EncodeFixed32(Mask(Extend(CrcValue(contents), [NO_COMPRESSION])))
  }

  ghost predicate StoredAt(file: Bytes, h: Handle, contents: Bytes) {
    && h.size == |contents| && h.offset + h.size + TRAILER_SIZE <= |file|
    && file[h.offset..h.offset + h.size + TRAILER_SIZE] == contents + Trailer(contents)
  }

  lemma StoredStays(file: Bytes, h: Handle, contents: Bytes, more: Bytes)
    requires StoredAt(file, h, contents)
    ensures StoredAt(file + more, h, contents)
  {
    hide Trailer;
    var end := h.offset + h.size + TRAILER_SIZE;
    assert (file + more)[h.offset..end] == file[h.offset..end];
  }

  lemma StoredHere(file: Bytes, contents: Bytes)
    ensures StoredAt(file + contents + Trailer(contents), Handle(|file|, |contents|), contents)
  {
    hide Trailer;
    var all := file + contents + Trailer(contents);
    assert all[|file|..] == contents + Trailer(contents);
    assert all[|file|..|all|] == all[|file|..];
  }

  // ReadBlock; a read past the end of the file is short.
  method ReadBlock(file: Bytes, h: Handle, verifyChecksums: bool) returns (r: Option<Bytes>)
    ensures forall contents :: StoredAt(file, h, contents) ==> r == Some(contents)
    ensures verifyChecksums && r.Some? ==> StoredAt(file, h, r.value)
    ensures r.Some? ==> h.offset + h.size + TRAILER_SIZE <= |file| && r.value == file[h.offset..h.offset + h.size]
  {
    hide EncodeFixed, DecodeFixed, Extend, Mask, Unmask;
    var n := h.size;
    if h.offset + n + TRAILER_SIZE > |file| {
      return None;
    }
    var data := file[h.offset..h.offset + n + TRAILER_SIZE];
    forall contents | StoredAt(file, h, contents)
      ensures data[..n] == contents && data[n] == NO_COMPRESSION
      ensures Unmask(DecodeFixed(data[n + 1..n + 5]) % TWO32) == CrcValue(data[..n + 1])
    {
      var checksum := Extend(CrcValue(contents), [NO_COMPRESSION]);
      assert data[..n + 1] == contents + [NO_COMPRESSION];
      ExtendAppend(0, contents, [NO_COMPRESSION]);
      assert data[n + 1..n + 5] == EncodeFixed32(Mask(checksum));
      Fixed32RoundTrip(Mask(checksum));
      MaskRoundTrip(checksum);
    }
    if verifyChecksums && Unmask(DecodeFixed(data[n + 1..n + 5]) % TWO32) != CrcValue(data[..n + 1]) {
      return None;
    }
    if data[n] != NO_COMPRESSION {
      return None;
    }
    if verifyChecksums {
      OnlyTrailer(data, n);
    }
    return Some(data[..n]);
  }

  // With a matching checksum the last five bytes are the trailer that was written.
  lemma OnlyTrailer(data: Bytes, n: nat)
    requires |data| == n + TRAILER_SIZE && data[n] == NO_COMPRESSION
    requires Unmask(DecodeFixed(data[n + 1..n + 5]) % TWO32) == CrcValue(data[..n + 1])
    ensures data == data[..n] + Trailer(data[..n])
  {
    hide EncodeFixed, DecodeFixed, Extend, Mask, Unmask;
    var word := data[n + 1..n + 5];
    DecodeFixedBound(word);
    assert Pow256(4) == 256 * (256 * (256 * (256 * Pow256(0))));
    UnmaskRoundTrip(DecodeFixed(word) % TWO32);
    FixedReencodes(word);
    ExtendAppend(0, data[..n], [NO_COMPRESSION]);
    assert data[..n + 1] == data[..n] + [NO_COMPRESSION];
    assert data == data[..n] + ([NO_COMPRESSION] + word);
  }

  // A block damaged within four neighbouring bytes of its contents and type fails the checksum.
  lemma DamagedBlock(file: Bytes, h: Handle, contents: Bytes, before: Bytes, w: Bytes, w': Bytes, after: Bytes)
    requires contents + Trailer(contents)[..1] == before + w + after && |w| == |w'| <= 4 && w != w'
    requires h.size == |contents| && h.offset + h.size + TRAILER_SIZE <= |file|
    requires file[h.offset..h.offset + h.size + TRAILER_SIZE] == before + w' + after + Trailer(contents)[1..]
    ensures forall c :: !StoredAt(file, h, c)
  {
    forall c ensures !StoredAt(file, h, c) {
      if StoredAt(file, h, c) {
        SameChecksum(contents, c, before + w' + after);
        Checksums.BurstIsDetected(0, before, w, w', after);
      }
    }
  }

  lemma SameChecksum(contents: Bytes, c: Bytes, typed: Bytes)
    requires |c| == |contents| && c + Trailer(c) == typed + Trailer(contents)[1..] && |typed| == |c| + 1
    ensures typed == c + [NO_COMPRESSION] && CrcValue(typed) == CrcValue(contents + [NO_COMPRESSION])
  {
    hide Mask, EncodeFixed32, Extend;
    assert typed == (c + Trailer(c))[..|c| + 1] == c + [NO_COMPRESSION];
    assert (c + Trailer(c))[|c| + 1..] == Trailer(c)[1..];
    assert (typed + Trailer(contents)[1..])[|c| + 1..] == Trailer(contents)[1..];
    var x, y := Extend(CrcValue(c), [NO_COMPRESSION]), Extend(CrcValue(contents), [NO_COMPRESSION]);
    assert Trailer(c)[1..] == EncodeFixed32(Mask(x)) && Trailer(contents)[1..] == EncodeFixed32(Mask(y));
    Fixed32RoundTrip(Mask(x));
    Fixed32RoundTrip(Mask(y));
    MaskRoundTrip(x);
    MaskRoundTrip(y);
    ExtendAppend(0, c, [NO_COMPRESSION]);
    ExtendAppend(0, contents, [NO_COMPRESSION]);
  }
}
