/** The write-ahead log (db/log_format.h, db/log_writer.cc, db/log_reader.cc with initial_offset 0 and checksums on).

    A file is a byte sequence.  A record is cut into fragments that never cross a 32 KiB block boundary; each fragment
    carries a masked checksum, a length and a type.  The reader returns logical records and reports corruption. */
module Log {
  import opened InternalKeys
  import opened Coding
  import Checksums

  const BLOCK: nat := 32768
  const HEADER: nat := 7

  const FULL: Byte := 1
  const FIRST: Byte := 2
  const MIDDLE: Byte := 3
  const LAST: Byte := 4

  function Min(a: nat, b: nat): nat { if a < b then a else b }

  function BlockEnd(p: nat): (e: nat)
    ensures p < e <= p + BLOCK && e % BLOCK == 0
  {
    p - p % BLOCK + BLOCK
  }

  // --- Writer ---

  // Where the next header goes: a block tail shorter than a header is skipped.
  function HeaderStart(p: nat): (q: nat)
    ensures p <= q && q % BLOCK + HEADER <= BLOCK
    ensures BlockEnd(p) - p >= HEADER ==> q == p
    ensures BlockEnd(p) - p < HEADER ==> q == BlockEnd(p)
  {
    if BlockEnd(p) - p < HEADER then BlockEnd(p) else p
  }

  function FragmentType(begin: bool, end: bool): Byte {
    if begin && end then FULL else if begin then FIRST else if end then LAST else MIDDLE
  }

  function Header(kind: Byte, payload: Bytes): (b: Bytes)
    requires |payload| < 0x1_0000
    ensures |b| == HEADER
  {
    EncodeFixed32(Mask(Extend(CrcValue([kind]), payload))) + [|payload| % 256, |payload| / 256, kind]
  }

  function Fragment(kind: Byte, payload: Bytes): (b: Bytes)
    requires |payload| < 0x1_0000
    ensures |b| == HEADER + |payload|
  {
    Header(kind, payload) + payload
  }

  function Padded(file: Bytes): (out: Bytes)
    ensures |out| == HeaderStart(|file|) && file <= out
  {
    file + Zeros(HeaderStart(|file|) - |file|)
  }

  // How much of `data` the next fragment takes.
  function FragmentLength(file: Bytes, data: Bytes): (n: nat)
    ensures n <= |data| && HeaderStart(|file|) % BLOCK + HEADER + n <= BLOCK
    ensures n < |data| ==> HeaderStart(|file|) % BLOCK + HEADER + n == BLOCK
  {
    Min(|data|, BLOCK - HeaderStart(|file|) % BLOCK - HEADER)
  }

  function AddFragment(file: Bytes, data: Bytes, begin: bool): (out: Bytes)
    ensures file <= out && |out| == HeaderStart(|file|) + HEADER + FragmentLength(file, data)
  {
    var n := FragmentLength(file, data);
    Padded(file) + Fragment(FragmentType(begin, n == |data|), data[..n])
  }

  lemma Remainder(x: nat, k: nat, r: nat)
    requires x == BLOCK * k + r && r < BLOCK
    ensures x % BLOCK == r
  {
  }

  lemma SameRemainder(a: nat, b: nat, n: nat)
    requires a % BLOCK == b % BLOCK
    ensures (a + n) % BLOCK == (b + n) % BLOCK
  {
    Remainder(a + n, (a + n) / BLOCK, (a + n) % BLOCK);
    Remainder(b + n, (a + n) / BLOCK - a / BLOCK + b / BLOCK, (a + n) % BLOCK);
  }

  // An unfinished record continues at the start of a block.
  lemma FillsBlock(file: Bytes, data: Bytes, begin: bool)
    requires FragmentLength(file, data) < |data|
    ensures HeaderStart(|AddFragment(file, data, begin)|) % BLOCK == 0
  {
    var q := HeaderStart(|file|);
    Remainder(q + HEADER + FragmentLength(file, data), q / BLOCK + 1, 0);
  }

  // The file after the remaining part `data` of a record has been added.
  function AddFrom(file: Bytes, data: Bytes, begin: bool): (out: Bytes)
    ensures file <= out && |out| >= |file| + HEADER
    decreases |data|, HeaderStart(|file|) % BLOCK
  {
    var n := FragmentLength(file, data);
    var out := AddFragment(file, data, begin);
    if n == |data| then out
    else
      FillsBlock(file, data, begin);
      AddFrom(out, data[n..], false)
  }

  function WriteAll(records: seq<Bytes>): (file: Bytes) {
    if records == [] then [] else AddFrom(WriteAll(records[..|records| - 1]), records[|records| - 1], true)
  }

  // log::Writer on a new file.
  class Writer {
    var dest: Bytes
    var blockOffset: nat

    ghost predicate Valid()
      reads this
    {
      blockOffset <= BLOCK && blockOffset % BLOCK == |dest| % BLOCK
    }

    constructor ()
      ensures Valid() && dest == []
    {
      dest, blockOffset := [], 0;
    }

    method AddRecord(slice: Bytes)
      requires Valid()
      modifies this
      ensures Valid() && dest == AddFrom(old(dest), slice, true)
    {
      var left, begin := slice, true;
      var more := true;
      while more
        invariant Valid()
        invariant (if more then AddFrom(dest, left, begin) else dest) == AddFrom(old(dest), slice, true)
        decreases more, |left|, HeaderStart(|dest|) % BLOCK
      {
        ghost var before := dest;
        var length := EmitFragment(left, begin);
        if length < |left| {
          FillsBlock(before, left, begin);
        }
        left, begin, more := left[length..], false, length < |left|;
      }
    }

    // One turn of the loop.
    method EmitFragment(left: Bytes, begin: bool) returns (length: nat)
      requires Valid()
      modifies this
      ensures Valid() && length == FragmentLength(old(dest), left) && dest == AddFragment(old(dest), left, begin)
    {
      SwitchBlock();
      var avail := BLOCK - blockOffset - HEADER;
      length := if |left| < avail then |left| else avail;
      var end := |left| == length;
      EmitPhysicalRecord(FragmentType(begin, end), left[..length]);
    }

    // Fills a block tail that cannot hold a header (lines 45-55).
    method SwitchBlock()
      requires Valid()
      modifies this
      ensures Valid() && dest == Padded(old(dest)) && blockOffset == |dest| % BLOCK
    {
      var leftover := BLOCK - blockOffset;
      assert leftover == 0 || leftover == BlockEnd(|dest|) - |dest|;
      if leftover < HEADER {
        if leftover > 0 {
          dest := dest + Zeros(leftover);
        }
        blockOffset := 0;
      }
    }

    method EmitPhysicalRecord(kind: Byte, payload: Bytes)
      requires Valid() && blockOffset + HEADER + |payload| <= BLOCK
      modifies this
      ensures Valid() && dest == old(dest) + Fragment(kind, payload)
    {
      hide Mask, Extend, CrcValue, EncodeFixed;
      var crc := Extend(CrcValue([kind]), payload);
      var header := EncodeFixed32(Mask(crc)) + [|payload| % 256, |payload| / 256, kind];
      dest := dest + header;
      dest := dest + payload;
      SameRemainder(blockOffset, |old(dest)|, HEADER + |payload|);
      blockOffset := blockOffset + HEADER + |payload|;
    }
  }

  // --- Reader ---

  datatype Physical =
    | Eof
    | BadRecord(next: nat, reports: nat)
    | Rec(kind: Byte, payload: Bytes, next: nat)

  datatype Parse = Truncated | Drop(reports: nat) | Frag(kind: Byte, payload: Bytes)

  // The fragment at the front of a buffer; `short` when the buffer ends with the file and not with its block.
  function ParseFragment(buffer: Bytes, short: bool): (r: Parse)
    requires |buffer| >= HEADER
    ensures r.Frag? ==> HEADER + |r.payload| <= |buffer|
  {
    var length := LengthField(buffer[..HEADER]);
    if HEADER + length > |buffer| then
      if short then Truncated else Drop(1)
    else if buffer[6] == 0 && length == 0 then Drop(0)
    else if CrcValue(buffer[6..HEADER + length]) != Unmask(StoredCrc(buffer[..HEADER])) then Drop(1)
    else Frag(buffer[6], buffer[HEADER..HEADER + length])
  }

  // ReadPhysicalRecord at file position p.
  function NextPhysical(file: Bytes, p: nat): (r: Physical)
    ensures !r.Eof? ==> p < r.next <= |file|
  {
    var q := HeaderStart(p);
    var end := Min(BlockEnd(q), |file|);
    if q + HEADER > end then Eof
    else
      match ParseFragment(file[q..end], |file| < BlockEnd(q))
      case Truncated => Eof
      case Drop(reports) => BadRecord(end, reports)
      case Frag(kind, payload) => Rec(kind, payload, q + HEADER + |payload|)
  }

  function LengthField(header: Bytes): nat
    requires |header| == HEADER
  {
    256 * (header[5] as int) + header[4]
  }

  function StoredCrc(header: Bytes): Word32
    requires |header| == HEADER
  {
    DecodeFixedBound(header[..4]);
    assert Pow256(4) == 256 * (256 * (256 * (256 * Pow256(0))));
    DecodeFixed(header[..4])
  }

  datatype Outcome = NoRecord(reports: nat) | Record(data: Bytes, next: nat, reports: nat)

  function Report(n: nat, o: Outcome): Outcome {
    match o
    case NoRecord(r) => NoRecord(n + r)
    case Record(data, next, r) => Record(data, next, n + r)
  }

  datatype Step = Return(data: Bytes, reports: nat) | Continue(scratch: Bytes, inFragment: bool, reports: nat)

  // What one fragment does to the record being assembled (the switch of ReadRecord).
  function Assemble(kind: Byte, payload: Bytes, scratch: Bytes, inFragment: bool): Step {
    var lost := if inFragment && scratch != [] then 1 else 0;
    if kind == FULL then Return(payload, lost)
    else if kind == FIRST then Continue(payload, true, lost)
    else if kind == MIDDLE && inFragment then Continue(scratch + payload, true, 0)
    else if kind == LAST && inFragment then Return(scratch + payload, 0)
    else if kind == MIDDLE || kind == LAST then Continue(scratch, false, 1)
    else Continue([], false, 1)
  }

  // The loop of ReadRecord from file position p.
  function ReadFrom(file: Bytes, p: nat, scratch: Bytes, inFragment: bool): Outcome
    requires p <= |file|
    decreases |file| - p
  {
    match NextPhysical(file, p)
    case Eof => NoRecord(0)
    case BadRecord(next, reports) =>
      Report(reports + if inFragment then 1 else 0, ReadFrom(file, next, [], false))
    case Rec(kind, payload, next) =>
      match Assemble(kind, payload, scratch, inFragment)
      case Return(data, n) => Record(data, next, n)
      case Continue(scratch', inFragment', n) => Report(n, ReadFrom(file, next, scratch', inFragment'))
  }

  lemma {:induction false} ReadFromAdvances(file: Bytes, p: nat, scratch: Bytes, inFragment: bool)
    requires p <= |file|
    ensures var o := ReadFrom(file, p, scratch, inFragment); o.Record? ==> p < o.next <= |file|
    decreases |file| - p
  {
    hide NextPhysical, Assemble;
    match NextPhysical(file, p)
    case Eof =>
    case BadRecord(next, reports) => ReadFromAdvances(file, next, [], false);
    case Rec(kind, payload, next) =>
      match Assemble(kind, payload, scratch, inFragment)
      case Return(_, _) =>
      case Continue(scratch', inFragment', _) => ReadFromAdvances(file, next, scratch', inFragment');
  }

  // Every record until the end of the file, and the number of corruption reports.
  function ReadAll(file: Bytes, p: nat): (seq<Bytes>, nat)
    requires p <= |file|
    decreases |file| - p
  {
    ReadFromAdvances(file, p, [], false);
    match ReadFrom(file, p, [], false)
    case NoRecord(reports) => ([], reports)
    case Record(data, next, reports) =>
      var (rest, n) := ReadAll(file, next);
      ([data] + rest, reports + n)
  }

  // log::Reader: block-sized reads into a buffer that is consumed from the front.
  class Reader {
    const file: Bytes
    var consumed: nat        // bytes taken from the file: end_of_buffer_offset_
    var buffer: Bytes
    var eof: bool
    var reports: nat

    ghost predicate Valid()
      reads this
    {
      && |buffer| <= consumed <= |file|
      && buffer == file[consumed - |buffer|..consumed]
      && |buffer| <= BLOCK
      && (!eof ==> consumed % BLOCK == 0)
      && (eof ==> consumed == |file| && |buffer| <= consumed % BLOCK)
    }

    ghost function Position(): (p: nat)
      requires Valid()
      reads this
      ensures p <= |file|
    {
      consumed - |buffer|
    }

    constructor (file: Bytes)
      ensures Valid() && Position() == 0 && reports == 0 && this.file == file
    {
      this.file := file;
      consumed, buffer, eof, reports := 0, [], false, 0;
    }

    // file_->Read(kBlockSize): short only at the end of the file.
    method ReadBlock()
      requires Valid() && !eof
      modifies this
      ensures Valid() && reports == old(reports) && Position() == old(consumed)
      ensures consumed > old(consumed) || eof
    {
      var n := Min(BLOCK, |file| - consumed);
      SameRemainder(consumed, 0, n);
      buffer := file[consumed..consumed + n];
      consumed := consumed + n;
      eof := n < BLOCK;
    }

    // Reads blocks until a header is in the buffer.
    method FillBuffer() returns (ok: bool)
      requires Valid()
      modifies this
      ensures Valid() && reports == old(reports)
      ensures ok ==> |buffer| >= HEADER && Position() == HeaderStart(old(Position()))
      ensures ok ==> consumed == Min(BlockEnd(Position()), |file|) && (eof <==> |file| < BlockEnd(Position()))
      ensures !ok ==> NextPhysical(file, old(Position())).Eof?
    {
      while |buffer| < HEADER
        invariant Valid() && reports == old(reports)
        invariant HeaderStart(Position()) == HeaderStart(old(Position()))
        decreases |file| - consumed, !eof
      {
        if eof {
          EofAtEnd(file, Position());
          buffer := [];
          return false;
        }
        NextBlock(Position(), consumed);
        ReadBlock();
      }
      InBuffer(Position(), consumed, |buffer|, |file|, eof);
      return true;
    }

    // Takes the fragment at the front of the buffer (lines 215-269).
    method TakeFragment() returns (r: Parse)
      requires |buffer| >= HEADER
      modifies this`buffer, this`reports
      ensures r == ParseFragment(old(buffer), eof)
      ensures buffer == if r.Frag? then old(buffer)[HEADER + |r.payload|..] else []
      ensures reports == old(reports) + if r.Drop? then r.reports else 0
    {
      hide Unmask, StoredCrc, CrcValue, LengthField;
      var header := buffer[..HEADER];
      var length := LengthField(header);
      if HEADER + length > |buffer| {
        buffer := [];
        if !eof {
          reports := reports + 1;
          return Drop(1);
        }
        return Truncated;
      }
      if header[6] == 0 && length == 0 {
        buffer := [];
        return Drop(0);
      }
      if CrcValue(buffer[6..HEADER + length]) != Unmask(StoredCrc(header)) {
        buffer := [];
        reports := reports + 1;
        return Drop(1);
      }
      r := Frag(header[6], buffer[HEADER..HEADER + length]);
      buffer := buffer[HEADER + length..];
    }

    method ReadPhysicalRecord() returns (r: Physical)
      requires Valid()
      modifies this
      ensures Valid() && r == NextPhysical(file, old(Position()))
      ensures !r.Eof? ==> Position() == r.next
      ensures reports == old(reports) + if r.BadRecord? then r.reports else 0
    {
      hide ParseFragment;
      var ok := FillBuffer();
      if !ok {
        return Eof;
      }
      var fragment := TakeFragment();
      match fragment
      case Truncated => return Eof;
      case Drop(n) => return BadRecord(consumed, n);
      case Frag(kind, payload) => return Rec(kind, payload, consumed - |buffer|);
    }

    method ReadRecord() returns (record: Option<Bytes>)
      requires Valid()
      modifies this
      ensures Valid()
      ensures match ReadFrom(file, old(Position()), [], false)
              case NoRecord(n) => record == None && reports == old(reports) + n
              case Record(data, next, n) => record == Some(data) && Position() == next && reports == old(reports) + n
    {
      hide NextPhysical, Assemble;
      var scratch: Bytes, inFragment := [], false;
      while true
        invariant Valid() && reports >= old(reports) && (inFragment || scratch == [])
        invariant Report(reports - old(reports), ReadFrom(file, Position(), scratch, inFragment))
                  == ReadFrom(file, old(Position()), [], false)
        decreases |file| - Position()
      {
        var r := ReadPhysicalRecord();
        match r
        case Eof =>
          return None;
        case BadRecord(_, _) =>
          if inFragment {
            reports := reports + 1;
            inFragment := false;
            scratch := [];
          }
        case Rec(kind, fragment, _) =>
          var step := TakeIn(kind, fragment, scratch, inFragment);
          match step
          case Return(data, _) => return Some(data);
          case Continue(scratch', inFragment', _) => scratch, inFragment := scratch', inFragment';
      }
    }

    // The switch of ReadRecord (lines 99-186).
    method TakeIn(kind: Byte, fragment: Bytes, scratch: Bytes, inFragment: bool) returns (step: Step)
      requires inFragment || scratch == []
      modifies this`reports
      ensures step == Assemble(kind, fragment, scratch, inFragment)
      ensures step.Continue? && !step.inFragment ==> step.scratch == []
      ensures reports == old(reports) + step.reports
    {
      if kind == FULL || kind == FIRST {
        var lost := if inFragment && scratch != [] then 1 else 0;
        reports := reports + lost;
        return if kind == FULL then Return(fragment, lost) else Continue(fragment, true, lost);
      }
      if kind == MIDDLE || kind == LAST {
        if inFragment {
          return if kind == LAST then Return(scratch + fragment, 0) else Continue(scratch + fragment, true, 0);
        }
        reports := reports + 1;
        return Continue(scratch, false, 1);
      }
      reports := reports + 1;
      return Continue([], false, 1);
    }
  }

  // The buffer ends with its block, or with the file when the last read was short.
  lemma InBuffer(p: nat, consumed: nat, n: nat, size: nat, eof: bool)
    requires p + n == consumed <= size && HEADER <= n <= BLOCK
    requires !eof ==> consumed % BLOCK == 0
    requires eof ==> consumed == size && n <= consumed % BLOCK
    ensures HeaderStart(p) == p && consumed == Min(BlockEnd(p), size) && (eof <==> size < BlockEnd(p))
  {
    if eof {
      Remainder(p, size / BLOCK, size % BLOCK - n);
    } else if n < BLOCK {
      Remainder(p, consumed / BLOCK - 1, BLOCK - n);
    }
  }

  // A full block leaves the reader at a block boundary.
  lemma NextBlock(p: nat, consumed: nat)
    requires p <= consumed < p + HEADER && consumed % BLOCK == 0
    ensures HeaderStart(p) == HeaderStart(consumed) == consumed
  {
  }

  lemma EofAtEnd(file: Bytes, p: nat)
    requires p <= |file| < p + HEADER && |file| - p <= |file| % BLOCK
    ensures NextPhysical(file, p).Eof?
  {
  }

  // --- What may be returned as a record, from any file ---

  // The rest of a record: middle fragments and a last one, each directly after the other.
  ghost predicate Ending(file: Bytes, p: nat, data: Bytes, next: nat)
    requires p <= |file|
    decreases |file| - p
  {
    match NextPhysical(file, p)
    case Rec(kind, payload, q) =>
      || (kind == LAST && data == payload && next == q)
      || (kind == MIDDLE && payload <= data && Ending(file, q, data[|payload|..], next))
    case _ => false
  }

  // A whole record: one full fragment, or a first one and the rest right after it.
  ghost predicate WholeRecord(file: Bytes, p: nat, data: Bytes, next: nat)
    requires p <= |file|
  {
    match NextPhysical(file, p)
    case Rec(kind, payload, q) =>
      || (kind == FULL && data == payload && next == q)
      || (kind == FIRST && payload <= data && Ending(file, q, data[|payload|..], next))
    case _ => false
  }

  ghost predicate WholeFrom(file: Bytes, p: nat, data: Bytes, next: nat) {
    exists q :: p <= q <= |file| && WholeRecord(file, q, data, next)
  }

  // The payloads of all fragments from file position p on, joined.
  function Payloads(file: Bytes, p: nat): Bytes
    requires p <= |file|
    decreases |file| - p
  {
    match NextPhysical(file, p)
    case Eof => []
    case BadRecord(next, _) => Payloads(file, next)
    case Rec(_, payload, next) => payload + Payloads(file, next)
  }

  function Concat(records: seq<Bytes>): Bytes {
    if records == [] then [] else records[0] + Concat(records[1..])
  }

  lemma {:induction false} RecordLosesNothing(file: Bytes, p: nat, scratch: Bytes, inFragment: bool)
    requires p <= |file| && (inFragment || scratch == [])
    ensures match ReadFrom(file, p, scratch, inFragment)
            case Record(data, next, 0) => next <= |file| && scratch + Payloads(file, p) == data + Payloads(file, next)
            case _ => true
    decreases |file| - p
  {
    hide NextPhysical;
    ReadFromAdvances(file, p, scratch, inFragment);
    match NextPhysical(file, p)
    case Eof =>
    case BadRecord(next, _) => RecordLosesNothing(file, next, [], false);
    case Rec(_, payload, next) =>
      match Assemble(NextPhysical(file, p).kind, payload, scratch, inFragment)
      case Return(_, _) =>
      case Continue(scratch', inFragment', _) => RecordLosesNothing(file, next, scratch', inFragment');
  }

  // Nothing is dropped silently: without a report the records hold every byte of every fragment up to the last one's end.
  lemma {:induction false} NothingDroppedSilently(file: Bytes, p: nat)
    requires p <= |file| && ReadAll(file, p).1 == 0
    ensures Concat(ReadAll(file, p).0) <= Payloads(file, p)
    decreases |file| - p
  {
    hide NextPhysical, ReadFrom, Payloads;
    ReadFromAdvances(file, p, [], false);
    RecordLosesNothing(file, p, [], false);
    match ReadFrom(file, p, [], false)
    case NoRecord(_) =>
    case Record(data, next, _) =>
      NothingDroppedSilently(file, next);
      assert [] + Payloads(file, p) == Payloads(file, p);
      assert ReadAll(file, p).0 == [data] + ReadAll(file, next).0;
      assert ReadAll(file, p).0[1..] == ReadAll(file, next).0;
  }

  // Whatever a file holds, damaged or not, a returned record is a whole one: no piece is missing, and no two records are
  // mixed.
  lemma {:induction false} ReturnsWhole(file: Bytes, p: nat, scratch: Bytes, inFragment: bool)
    requires p <= |file|
    ensures match ReadFrom(file, p, scratch, inFragment)
            case Record(data, next, _) =>
              || (inFragment && scratch <= data && Ending(file, p, data[|scratch|..], next))
              || WholeFrom(file, p, data, next)
            case _ => true
    decreases |file| - p
  {
    hide NextPhysical;
    match NextPhysical(file, p)
    case Eof =>
    case BadRecord(next, _) => ReturnsWhole(file, next, [], false);
    case Rec(kind, payload, next) =>
      match Assemble(kind, payload, scratch, inFragment)
      case Return(data, _) =>
        if kind == FULL {
          assert WholeRecord(file, p, data, next);
        } else {
          assert data[|scratch|..] == payload;
        }
      case Continue(scratch', inFragment', _) =>
        ReturnsWhole(file, next, scratch', inFragment');
        var o := ReadFrom(file, next, scratch', inFragment');
        if o.Record? && inFragment' && scratch' <= o.data && Ending(file, next, o.data[|scratch'|..], o.next) {
          if kind == FIRST {
            assert WholeRecord(file, p, o.data, o.next);
          } else {
            MiddleJoins(file, p, scratch, payload, o.data, next, o.next);
          }
        }
  }

  lemma MiddleJoins(file: Bytes, p: nat, scratch: Bytes, payload: Bytes, data: Bytes, q: nat, next: nat)
    requires p <= |file| && NextPhysical(file, p) == Rec(MIDDLE, payload, q)
    requires scratch + payload <= data && Ending(file, q, data[|scratch + payload|..], next)
    ensures scratch <= data && Ending(file, p, data[|scratch|..], next)
  {
    assert data[..|scratch + payload|] == scratch + payload;
    assert scratch == data[..|scratch|];
    var tail := data[|scratch|..];
    assert tail[..|payload|] == payload && tail[|payload|..] == data[|scratch + payload|..];
  }

  // --- Reading back what was written, also from a truncated file ---

  lemma HeaderFields(kind: Byte, payload: Bytes)
    requires |payload| < 0x1_0000
    ensures var h := Header(kind, payload);
            LengthField(h) == |payload| && h[6] == kind && Unmask(StoredCrc(h)) == CrcValue([kind] + payload)
  {
    var crc := Extend(CrcValue([kind]), payload);
    var h := Header(kind, payload);
    ExtendAppend(0, [kind], payload);
    assert h[..4] == EncodeFixed32(Mask(crc));
    Fixed32RoundTrip(Mask(crc));
    MaskRoundTrip(crc);
  }

  // A whole fragment parses back, whatever follows it.
  lemma ParsesBack(kind: Byte, payload: Bytes, rest: Bytes, short: bool)
    requires |payload| < 0x1_0000 && kind != 0
    ensures ParseFragment(Fragment(kind, payload) + rest, short) == Frag(kind, payload)
  {
    hide Header, Unmask, StoredCrc, LengthField, CrcValue;
    HeaderFields(kind, payload);
    var b := Fragment(kind, payload) + rest;
    assert b[..HEADER] == Header(kind, payload);
    assert b[6..HEADER + |payload|] == [kind] + payload;
    assert b[HEADER..HEADER + |payload|] == payload;
  }

  // A reader accepts only what a writer writes: any accepted bytes are the fragment of that type and payload, with its
  // own checksum.
  lemma AcceptsOnlyFragments(buffer: Bytes, short: bool)
    requires |buffer| >= HEADER
    ensures match ParseFragment(buffer, short)
            case Frag(kind, payload) => |payload| < 0x1_0000 && Fragment(kind, payload) <= buffer
            case _ => true
  {
    hide CrcValue, Unmask, Mask, DecodeFixed, EncodeFixed, Extend;
    var parsed := ParseFragment(buffer, short);
    if parsed.Frag? {
      var h, kind, payload := buffer[..HEADER], parsed.kind, parsed.payload;
      assert buffer[6..HEADER + |payload|] == [kind] + payload;
      ExtendAppend(0, [kind], payload);
      CrcOf(kind, payload);
      UnmaskRoundTrip(StoredCrc(h));
      FixedReencodes(h[..4]);
      LengthBytes(h, |payload|);
      assert h == h[..4] + [h[4], h[5], h[6]];
      assert Fragment(kind, payload) == buffer[..HEADER + |payload|];
    }
  }

  lemma CrcOf(kind: Byte, payload: Bytes)
    ensures CrcValue([kind] + payload) == Extend(CrcValue([kind]), payload)
  {
    ExtendAppend(0, [kind], payload);
  }

  lemma LengthBytes(h: Bytes, n: nat)
    requires |h| == HEADER && LengthField(h) == n
    ensures n < 0x1_0000 && h[4] == n % 256 && h[5] == n / 256
  {
  }

  // The same at any position of any file, damaged or not: what is taken for a fragment there is one, inside one block.
  lemma ReadsOnlyFragments(file: Bytes, p: nat)
    ensures match NextPhysical(file, p)
            case Rec(kind, payload, next) =>
              && |payload| < 0x1_0000 && next == HeaderStart(p) + HEADER + |payload| <= Min(BlockEnd(HeaderStart(p)), |file|)
              && file[HeaderStart(p)..next] == Fragment(kind, payload)
            case _ => true
  {
    hide ParseFragment, Header;
    var q := HeaderStart(p);
    var end := Min(BlockEnd(q), |file|);
    if q + HEADER <= end {
      AcceptsOnlyFragments(file[q..end], |file| < BlockEnd(q));
    }
  }

  // A fragment that is whole in its block but whose checksum, type or payload has changed is reported and dropped with
  // the rest of the block, unless it looks like unused space.
  lemma DamageIsReported(file: Bytes, p: nat, n: nat)
    requires WholeAt(file, HeaderStart(p), n) && n < 0x1_0000
    requires var q := HeaderStart(p);
             && (file[q + 6] != 0 || n != 0)
             && file[q..q + HEADER + n] != Fragment(file[q + 6], file[q + HEADER..q + HEADER + n])
    ensures NextPhysical(file, p) == BadRecord(Min(BlockEnd(HeaderStart(p)), |file|), 1)
  {
    hide CrcValue, Unmask, Mask, DecodeFixed, EncodeFixed, Extend, Fragment, StoredCrc, LengthField;
    var q := HeaderStart(p);
    var end := Min(BlockEnd(q), |file|);
    var buffer, short := file[q..end], |file| < BlockEnd(q);
    var size := HEADER + n;
    assert |buffer| == end - q && size <= end - q;
    Slices(file, q, end, HEADER, n);
    AcceptsOnlyFragments(buffer, short);
    NotAccepted(buffer, short, n);
  }

  // Damage within four neighbouring bytes of the type and payload is dropped with a report, except that an empty
  // fragment whose type has become zero looks like unused space.
  lemma BurstIsDropped(kind: Byte, payload: Bytes, before: Bytes, w: Bytes, w': Bytes, after: Bytes, rest: Bytes, short: bool)
    requires |payload| < 0x1_0000 && [kind] + payload == before + w + after && |w| == |w'| <= 4 && w != w'
    ensures var damaged := before + w' + after;
            ParseFragment(Header(kind, payload)[..6] + damaged + rest, short)
            == Drop(if payload == [] && damaged[0] == 0 then 0 else 1)
  {
    hide Header, Unmask, StoredCrc, CrcValue;
    var damaged := before + w' + after;
    var b := Header(kind, payload)[..6] + damaged + rest;
    HeaderFields(kind, payload);
    assert StoredCrc(b[..HEADER]) == StoredCrc(Header(kind, payload)) by { SameStart(b, Header(kind, payload)); }
    assert b[6..HEADER + |payload|] == damaged;
    BurstDiffers(before, w, w', after);
  }

  lemma SameStart(b: Bytes, h: Bytes)
    requires |h| == HEADER && 6 < |b| && b[..6] == h[..6] && HEADER <= |b|
    ensures b[..HEADER][..4] == h[..4] && StoredCrc(b[..HEADER]) == StoredCrc(h)
  {
    assert b[..HEADER][..4] == b[..6][..4] && h[..6][..4] == h[..4];
  }

  lemma BurstDiffers(before: Bytes, w: Bytes, w': Bytes, after: Bytes)
    requires |w| == |w'| <= 4 && w != w'
    ensures CrcValue(before + w + after) != CrcValue(before + w' + after)
  {
    Checksums.BurstIsDetected(0, before, w, w', after);
  }

  lemma Slices(file: Bytes, q: nat, end: nat, h: nat, n: nat)
    requires q + h + n <= end <= |file|
    ensures var b := file[q..end];
            b[..h] == file[q..q + h] && b[..h + n] == file[q..q + h + n] && b[h..h + n] == file[q + h..q + h + n]
    ensures forall k :: 0 <= k < h ==> file[q..end][k] == file[q + k]
  {
  }

  // The length field of a header at q keeps its fragment inside the block and the file.
  predicate WholeAt(file: Bytes, q: nat, n: nat) {
    q + HEADER + n <= Min(BlockEnd(q), |file|) && LengthField(file[q..q + HEADER]) == n
  }

  lemma NotAccepted(buffer: Bytes, short: bool, n: nat)
    requires n < 0x1_0000 && HEADER + n <= |buffer| && LengthField(buffer[..HEADER]) == n && (buffer[6] != 0 || n != 0)
    requires buffer[..HEADER + n] != Fragment(buffer[6], buffer[HEADER..HEADER + n])
    ensures ParseFragment(buffer, short) == Drop(1)
  {
    hide CrcValue, Unmask, Mask, DecodeFixed, EncodeFixed, Extend, Fragment, StoredCrc, LengthField;
    AcceptsOnlyFragments(buffer, short);
  }

  // A fragment cut short by the end of the file is not an error.
  lemma CutFragment(kind: Byte, payload: Bytes, n: nat)
    requires |payload| < 0x1_0000 && HEADER <= n < HEADER + |payload|
    ensures ParseFragment(Fragment(kind, payload)[..n], true) == Truncated
  {
    HeaderFields(kind, payload);
    assert Fragment(kind, payload)[..n][..HEADER] == Header(kind, payload);
  }

  // The block holds all of a fragment.
  lemma InOneBlock(file: Bytes, data: Bytes)
    ensures HeaderStart(HeaderStart(|file|)) == HeaderStart(|file|)
    ensures HeaderStart(|file|) + HEADER + FragmentLength(file, data) <= BlockEnd(HeaderStart(|file|))
  {
  }

  lemma ReadsFragment(disk: Bytes, file: Bytes, data: Bytes, begin: bool)
    requires AddFragment(file, data, begin) <= disk
    ensures var n := FragmentLength(file, data);
            NextPhysical(disk, |file|)
            == Rec(FragmentType(begin, n == |data|), data[..n], |AddFragment(file, data, begin)|)
  {
    hide ParseFragment, Header;
    var n := FragmentLength(file, data);
    var q := HeaderStart(|file|);
    var end := Min(BlockEnd(q), |disk|);
    var kind := FragmentType(begin, n == |data|);
    InOneBlock(file, data);
    var fragment := Fragment(kind, data[..n]);
    var rest := disk[q + |fragment|..end];
    assert disk[q..end] == fragment + rest by {
      assert disk[..q + |fragment|] == Padded(file) + fragment;
    }
    ParsesBack(kind, data[..n], rest, |disk| < BlockEnd(q));
  }

  lemma CutsFragment(disk: Bytes, file: Bytes, data: Bytes, begin: bool)
    requires file <= disk <= AddFragment(file, data, begin) && |disk| < |AddFragment(file, data, begin)|
    ensures NextPhysical(disk, |file|) == Eof
  {
    var n := FragmentLength(file, data);
    var q := HeaderStart(|file|);
    var kind := FragmentType(begin, n == |data|);
    InOneBlock(file, data);
    if q + HEADER <= |disk| {
      assert disk[q..|disk|] == Fragment(kind, data[..n])[..|disk| - q];
      CutFragment(kind, data[..n], |disk| - q);
    }
  }

  // One record, from its remaining part on: it is returned when all of it is on disk, and else nothing is, and in
  // neither case is corruption reported.
  lemma {:induction false} ReadsBack(disk: Bytes, file: Bytes, data: Bytes, begin: bool, scratch: Bytes)
    requires file <= disk && (begin ==> scratch == [])
    ensures AddFrom(file, data, begin) <= disk ==>
              ReadFrom(disk, |file|, scratch, !begin) == Record(scratch + data, |AddFrom(file, data, begin)|, 0)
    ensures disk < AddFrom(file, data, begin) ==> ReadFrom(disk, |file|, scratch, !begin) == NoRecord(0)
    decreases |data|, HeaderStart(|file|) % BLOCK
  {
    hide NextPhysical, Padded, Fragment, HeaderStart;
    var n := FragmentLength(file, data);
    var out := AddFragment(file, data, begin);
    var whole := AddFrom(file, data, begin);
    if out <= disk {
      ReadsFragment(disk, file, data, begin);
      if n < |data| {
        FillsBlock(file, data, begin);
        ReadsBack(disk, out, data[n..], false, scratch + data[..n]);
        assert scratch + data[..n] + data[n..] == scratch + data;
        assert data[..n] == scratch + data[..n] || !begin;
      } else {
        assert data[..n] == data;
      }
    } else if disk < whole {
      assert out <= whole;
      PrefixesNest(disk, out, whole);
      CutsFragment(disk, file, data, begin);
    }
  }

  lemma PrefixesNest(a: Bytes, b: Bytes, whole: Bytes)
    requires a <= whole && b <= whole && |a| <= |b|
    ensures a <= b
  {
  }

  lemma {:induction false} WritesGrow(records: seq<Bytes>, i: nat, j: nat)
    requires i <= j <= |records|
    ensures WriteAll(records[..i]) <= WriteAll(records[..j])
    ensures |WriteAll(records[..i])| + HEADER * (j - i) <= |WriteAll(records[..j])|
    decreases j
  {
    hide AddFrom;
    if i < j {
      WritesGrow(records, i, j - 1);
      assert records[..j][..j - 1] == records[..j - 1];
    }
  }

  lemma WriteNext(records: seq<Bytes>, i: nat)
    requires i < |records|
    ensures WriteAll(records[..i + 1]) == AddFrom(WriteAll(records[..i]), records[i], true)
  {
    assert records[..i + 1][..i] == records[..i];
  }

  // k records are whole on a disk that holds `size` bytes of the log.
  ghost predicate WholeRecords(records: seq<Bytes>, size: nat, k: nat) {
    && k <= |records|
    && |WriteAll(records[..k])| <= size
    && (k < |records| ==> size < |WriteAll(records[..k + 1])|)
  }

  // Reading any byte-truncated prefix of a log returns exactly the records that end before the cut and reports no
  // corruption.
  lemma TruncatedRoundTrip(records: seq<Bytes>, disk: Bytes, k: nat)
    requires disk <= WriteAll(records) && WholeRecords(records, |disk|, k)
    ensures ReadAll(disk, 0) == (records[..k], 0)
  {
    ReadsFrom(records, disk, k, 0);
    assert records[0..k] == records[..k];
  }

  lemma {:induction false} ReadsFrom(records: seq<Bytes>, disk: Bytes, k: nat, i: nat)
    requires disk <= WriteAll(records) && WholeRecords(records, |disk|, k) && i <= k
    ensures |WriteAll(records[..i])| <= |disk|
    ensures ReadAll(disk, |WriteAll(records[..i])|) == (records[i..k], 0)
    decreases k - i
  {
    hide ReadFrom, WriteAll, ReadAll;
    ReadsOne(records, disk, k, i);
    ReadsNext(disk, |WriteAll(records[..i])|);
    if i < k {
      ReadsFrom(records, disk, k, i + 1);
      assert [records[i]] + records[i + 1..k] == records[i..k];
    } else {
      assert records[i..k] == [];
    }
  }

  // The next call of ReadRecord after i records.
  lemma ReadsOne(records: seq<Bytes>, disk: Bytes, k: nat, i: nat)
    requires disk <= WriteAll(records) && WholeRecords(records, |disk|, k) && i <= k
    ensures |WriteAll(records[..i])| <= |disk|
    ensures ReadFrom(disk, |WriteAll(records[..i])|, [], false)
            == if i < k then Record(records[i], |WriteAll(records[..i + 1])|, 0) else NoRecord(0)
  {
    hide ReadFrom, AddFrom, WriteAll;
    var n := |records|;
    assert records[..n] == records;
    WritesGrow(records, i, k);
    WritesGrow(records, i, n);
    var file := WriteAll(records[..i]);
    PrefixesNest(file, disk, WriteAll(records));
    if i < n {
      WriteNext(records, i);
      WritesGrow(records, i + 1, n);
      if i < k {
        WritesGrow(records, i + 1, k);
      }
      OneRecord(disk, file, records[i], WriteAll(records), i < k);
    } else {
      NothingLeft(disk);
    }
  }

  lemma OneRecord(disk: Bytes, file: Bytes, data: Bytes, whole: Bytes, complete: bool)
    requires file <= disk <= whole && AddFrom(file, data, true) <= whole
    requires complete <==> |AddFrom(file, data, true)| <= |disk|
    ensures ReadFrom(disk, |file|, [], false)
            == if complete then Record(data, |AddFrom(file, data, true)|, 0) else NoRecord(0)
  {
    hide ReadFrom, AddFrom;
    ReadsBack(disk, file, data, true, []);
    assert [] + data == data;
  }

  lemma NothingLeft(disk: Bytes)
    ensures ReadFrom(disk, |disk|, [], false) == NoRecord(0)
  {
  }

  lemma RoundTrip(records: seq<Bytes>)
    ensures ReadAll(WriteAll(records), 0) == (records, 0)
  {
    assert records[..|records|] == records;
    TruncatedRoundTrip(records, WriteAll(records), |records|);
  }

  function Rest(records: seq<Bytes>, reports: nat, rest: (seq<Bytes>, nat)): (seq<Bytes>, nat) {
    (records + rest.0, reports + rest.1)
  }

  lemma ReadsNext(file: Bytes, p: nat)
    requires p <= |file|
    ensures match ReadFrom(file, p, [], false)
            case NoRecord(n) => ReadAll(file, p) == ([], n)
            case Record(data, next, n) =>
              && p < next <= |file|
              && ReadAll(file, p) == ([data] + ReadAll(file, next).0, n + ReadAll(file, next).1)
  {
    hide ReadFrom, NextPhysical;
    ReadFromAdvances(file, p, [], false);
  }

  // The read loop of recovery (db/db_impl.cc 427-429) over a whole log.
  method ReadLog(file: Bytes) returns (records: seq<Bytes>, reports: nat)
    ensures (records, reports) == ReadAll(file, 0)
  {
    hide ReadFrom, NextPhysical, ReadAll;
    hide Reader.Valid;
    var reader := new Reader(file);
    records := [];
    assert [] + ReadAll(file, 0).0 == ReadAll(file, 0).0;
    while true
      invariant fresh(reader) && reader.Valid() && reader.file == file
      invariant Rest(records, reader.reports, ReadAll(file, reader.Position())) == ReadAll(file, 0)
      decreases |file| - reader.Position()
    {
      ReadsNext(file, reader.Position());
      var record := reader.ReadRecord();
      if record.None? {
        assert records + [] == records;
        return records, reader.reports;
      }
      ghost var rest := ReadAll(file, reader.Position()).0;
      assert records + ([record.value] + rest) == records + [record.value] + rest;
      records := records + [record.value];
    }
  }
}
