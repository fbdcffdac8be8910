/** DiagCacheStream: a one-way stream of matrix diagonals backed by one cache
    file per block row. A writer appends the header and tables before its
    first row and one frame per row after that; a reader decodes the header
    and tables when it opens the file, then returns one row per ReadDiag
    until the file runs out, and can be rewound to the first row. The file
    system is a map from file names to contents; a stream works on its own
    copy of its file's contents. */
module CacheStream {
  import opened Wrappers
  import opened Bytes
  import opened CoeffCodec
  import opened HeaderCodec
  import opened RowCodec
  import opened FileNames
  import opened CacheFile

  /** Writing and Reading are the two kinds of open stream; Aborted is a
      writer that hit a fatal error (the process exits there). */
  datatype Mode = Writing | Reading | Closed | Aborted

  /** The ways opening or writing a stream fails fatally. */
  datatype StreamError =
    | CacheMiss             // opening for reading a file that does not exist
    | TruncatedPrologue     // the file is shorter than its header and tables
    | TablePrintOutOfRange  // the debug print of the first ten table entries
    | MissingIndexTables    // writing the header before SetIndexTables

  datatype WriteOutcome = Written | WriteFailed(error: StreamError)

  /** A row whose first slot can supply the header: it is present, has at
      least one modulus, and every header field fits in a u64. */
  predicate FirstRowUsable(pv: seq<Slot>) {
    && 0 < |pv| && pv[0].Some? && 0 < |pv[0].value.coeffs|
    && |pv| < 0x1_0000_0000_0000_0000
    && |pv[0].value.coeffs| < 0x1_0000_0000_0000_0000
    && |pv[0].value.coeffs[0]| < 0x1_0000_0000_0000_0000
    && RowSize(|pv|, SlotBytes(|pv[0].value.coeffs[0]|, |pv[0].value.coeffs|)) < 0x1_0000_0000_0000_0000
  }

  /** The header the first WriteDiag derives from pv[0]. */
  function HeaderOf(pv: seq<Slot>): (h: Header)
    requires FirstRowUsable(pv)
    ensures h.vectorLen == |pv| && h.rowSize == RowSize(h.vectorLen, SlotBytes(h.n, h.numModuli))
    ensures h.level == pv[0].value.level && h.scaleBits == pv[0].value.scaleBits
    ensures h.n == |pv[0].value.coeffs[0]| && h.numModuli == |pv[0].value.coeffs|
  {
    var p := pv[0].value;
    var n, m := |p.coeffs[0]|, |p.coeffs|;
    Header(|pv|, p.level, p.scaleBits, n, m, RowSize(|pv|, SlotBytes(n, m)))
  }

  /** The header the first WriteDiag fixes admits every later row of at
      most vectorLen slots shaped like pv[0], the first row included: its
      encoding fits the rowSize bytes of the row buffer. */
  lemma HeaderAdmitsRows(pv: seq<Slot>, row: seq<Slot>)
    requires FirstRowUsable(pv)
    requires |row| <= |pv|
    requires forall s <- row :: SlotFits(s, HeaderOf(pv).n, HeaderOf(pv).numModuli)
    ensures RowWritable(row, HeaderOf(pv))
  {
    var h := HeaderOf(pv);
    var sb := SlotBytes(h.n, h.numModuli);
    RowSizeBound(Row(0, row), h.n, h.numModuli);
    MulLeq(|row|, |pv|, 1 + sb);
    assert (1 + sb) * |row| <= (1 + sb) * |pv|;
  }

  /** A row read under a header whose rowSize is the one WriteDiag derives
      fits that header's row buffer, so it can be passed to WriteDiag again. */
  lemma ReadRowWritable(file: seq<byte>, cursor: nat, buffer: seq<byte>, h: Header)
    requires ReadSafe(file, cursor, buffer, h)
    requires h.rowSize == RowSize(h.vectorLen, SlotBytes(h.n, h.numModuli))
    ensures var r := ReadStep(file, cursor, buffer, h);
            r.slots.Some? ==> RowWritable(r.slots.value, h)
  {
    var r := ReadStep(file, cursor, buffer, h);
    if r.slots.Some? {
      ReadStepFits(file, cursor, buffer, h);
      RowSizeBound(Row(0, r.slots.value), h.n, h.numModuli);
    }
  }

  /** How the header part of the first WriteDiag ends: fatally when a table
      was never set, or when a table has fewer than the ten entries the
      debug print shows. */
  function HeaderOutcome(baby: Option<seq<bool>>, giant: Option<seq<bool>>): WriteOutcome {
    if baby.None? || giant.None? then WriteFailed(MissingIndexTables)
    else if |baby.value| < 10 || |giant.value| < 10 then WriteFailed(TablePrintOutOfRange)
    else Written
  }

  /** The table block the first WriteDiag writes: none when a table is nil. */
  function TablesWritten(baby: Option<seq<bool>>, giant: Option<seq<bool>>): seq<byte> {
    if baby.None? || giant.None? then [] else EncodeTables(baby.value, giant.value)
  }

  /** A row the writer can encode into its row buffer: every present slot
      has the header's shape and the encoding fits in rowSize bytes. */
  predicate RowWritable(pv: seq<Slot>, h: Header) {
    && (forall s <- pv :: SlotFits(s, h.n, h.numModuli))
    && 4 + |EncodeSlots(pv)| <= h.rowSize
  }

  class DiagCacheStream {
    const filename: string
    var mode: Mode
    /** The bytes of the file: everything written so far, or what was found
        when it was opened for reading. */
    var file: seq<byte>
    /** The reader's position in file. */
    var cursor: nat
    /** The row buffer, rowSize bytes once the header is known. */
    var buf: array<byte>
    var atHead: bool

    var vectorLen: u64
    var level: u64
    var scaleBits: u64
    var n: u64
    var numModuli: u64
    var rowSize: u64

    var babyTable: Option<seq<bool>>
    var giantTable: Option<seq<bool>>

    /** Where the first row frame starts. */
    const resetPosition: nat

    /** The rows written so far, and the tables that went into the file. */
    ghost var rows: seq<Row>
    ghost var writtenBaby: seq<bool>
    ghost var writtenGiant: seq<bool>

    /** The six header fields of the stream. */
    function Params(): Header
      reads this`vectorLen, this`level, this`scaleBits, this`n, this`numModuli, this`rowSize
    {
      Header(vectorLen, level, scaleBits, n, numModuli, rowSize)
    }

    /** A writer's file is the image of what it has written: nothing before
        the first row, then the header, the tables and one frame per row,
        with a row buffer of rowSize bytes. A reader's buffer holds rowSize
        bytes and its position lies in the file. */
    ghost predicate Valid()
      reads this`mode, this`atHead, this`file, this`cursor, this`buf, this`rows
      reads this`writtenBaby, this`writtenGiant
      reads this`vectorLen, this`level, this`scaleBits, this`n, this`numModuli, this`rowSize
    {
      match mode
      case Writing =>
        if atHead then file == [] && rows == []
        else
          && rowSize == RowSize(vectorLen, SlotBytes(n, numModuli))
          && buf.Length == rowSize
          && file == FileImage(Params(), writtenBaby, writtenGiant, rows)
      case Reading =>
        buf.Length == rowSize && cursor <= |file| && resetPosition <= |file|
      case _ => true
    }

    constructor (filename: string, mode: Mode, file: seq<byte>, cursor: nat, buf: array<byte>,
                 h: Header, babyTable: Option<seq<bool>>, giantTable: Option<seq<bool>>,
                 resetPosition: nat)
      ensures this.filename == filename && this.mode == mode && this.file == file
      ensures this.cursor == cursor && this.buf == buf && atHead
      ensures Params() == h && this.babyTable == babyTable && this.giantTable == giantTable
      ensures this.resetPosition == resetPosition && rows == []
    {
      this.filename := filename;
      this.mode := mode;
      this.file := file;
      this.cursor := cursor;
      this.buf := buf;
      atHead := true;
      vectorLen, level, scaleBits := h.vectorLen, h.level, h.scaleBits;
      n, numModuli, rowSize := h.n, h.numModuli, h.rowSize;
      this.babyTable := babyTable;
      this.giantTable := giantTable;
      this.resetPosition := resetPosition;
      rows := [];
      writtenBaby, writtenGiant := [], [];
    }

    method SetIndexTables(baby: Option<seq<bool>>, giant: Option<seq<bool>>)
      requires Valid()
      modifies this`babyTable, this`giantTable
      ensures Valid() && babyTable == baby && giantTable == giant
    {
      babyTable := baby;
      giantTable := giant;
    }

    method GetIndexTables() returns (baby: Option<seq<bool>>, giant: Option<seq<bool>>)
      ensures baby == babyTable && giant == giantTable
    {
      baby, giant := babyTable, giantTable;
    }

    /** Appends one row. The first call fixes the header from pv[0] and
        writes the header and the tables before the row; it fails fatally
        when a table is nil or shorter than ten entries, before the row is
        looked at. The first call allocates the row buffer; later calls
        reuse it. */
    method WriteDiag(pv: seq<Slot>, shift: u32) returns (outcome: WriteOutcome)
      requires Valid() && mode == Writing
      requires atHead ==> FirstRowUsable(pv)
      requires atHead && HeaderOutcome(babyTable, giantTable).Written? ==> RowWritable(pv, HeaderOf(pv))
      requires !atHead ==> RowWritable(pv, Params())
      modifies this`vectorLen, this`level, this`scaleBits, this`n, this`numModuli, this`rowSize
      modifies this`file, this`mode, this`writtenBaby, this`writtenGiant, this`buf, this`atHead
      modifies this`rows, buf
      ensures Params() == (if old(atHead) then HeaderOf(pv) else old(Params()))
      ensures outcome == (if old(atHead) then HeaderOutcome(babyTable, giantTable) else Written)
      ensures mode == (if outcome.Written? then Writing else Aborted) && atHead == outcome.WriteFailed?
      ensures file == old(file)
                      + (if old(atHead) then EncodeHeader(HeaderOf(pv)) + TablesWritten(babyTable, giantTable) else [])
                      + (if outcome.Written? then Frame(EncodeRow(Row(shift, pv))) else [])
      ensures outcome.Written? ==> Valid() && rows == old(rows) + [Row(shift, pv)]
      ensures old(atHead) && outcome.Written? ==> fresh(buf)
      ensures old(atHead) && outcome.Written? ==>
                writtenBaby == babyTable.value && writtenGiant == giantTable.value
      ensures !old(atHead) ==> writtenBaby == old(writtenBaby) && writtenGiant == old(writtenGiant)
      ensures !old(atHead) ==> buf == old(buf)
    {
      if atHead {
        outcome := WriteHeader(pv);
        ghost var prologue := file;
        EmptyFront(old(file), prologue, []);
        if outcome.WriteFailed? {
          return;
        }
        WriteFrame(pv, shift);
        EmptyFront(old(file), prologue, Frame(EncodeRow(Row(shift, pv))));
      } else {
        WriteFrame(pv, shift);
      }
      outcome := Written;
    }

    /** The row part of WriteDiag, once the header is out: the row is
        encoded into the row buffer and its frame appended. */
    method WriteFrame(pv: seq<Slot>, shift: u32)
      requires Valid() && mode == Writing && !atHead && RowWritable(pv, Params())
      modifies this`file, this`rows, buf
      ensures Valid()
      ensures file == old(file) + Frame(EncodeRow(Row(shift, pv)))
      ensures rows == old(rows) + [Row(shift, pv)]
    {
      var payloadLen := WriteRow(pv, shift);
      AppendFrame(Row(shift, pv), payloadLen);
    }

    /** The header part of the first WriteDiag: the header fields taken
        from pv, the header block, the tables, and a fresh row buffer. */
    method WriteHeader(pv: seq<Slot>) returns (outcome: WriteOutcome)
      requires Valid() && mode == Writing && atHead && FirstRowUsable(pv)
      modifies this`vectorLen, this`level, this`scaleBits, this`n, this`numModuli, this`rowSize
      modifies this`file, this`mode, this`writtenBaby, this`writtenGiant, this`buf, this`atHead
      ensures Params() == HeaderOf(pv)
      ensures outcome == HeaderOutcome(babyTable, giantTable)
      ensures mode == (if outcome.Written? then Writing else Aborted) && atHead == outcome.WriteFailed?
      ensures file == EncodeHeader(HeaderOf(pv)) + TablesWritten(babyTable, giantTable)
      ensures outcome.Written? ==> Valid() && fresh(buf)
      ensures outcome.WriteFailed? ==> buf == old(buf)
      ensures outcome.Written? ==> writtenBaby == babyTable.value && writtenGiant == giantTable.value
    {
      EmitHeader(HeaderOf(pv));
      if babyTable.None? || giantTable.None? {
        mode := Aborted;
        return WriteFailed(MissingIndexTables);
      }
      outcome := WriteTables();
    }

    /** The header block of the first WriteDiag: the six fields, in file
        order. */
    method EmitHeader(h: Header)
      requires mode == Writing && atHead && file == []
      modifies this`vectorLen, this`level, this`scaleBits, this`n, this`numModuli, this`rowSize, this`file
      ensures Params() == h && file == EncodeHeader(h)
    {
      vectorLen, level, scaleBits := h.vectorLen, h.level, h.scaleBits;
      n, numModuli, rowSize := h.n, h.numModuli, h.rowSize;
      file := file + EncodeHeader(h);
    }

    /** The table block of the first WriteDiag, the debug print of the first
        ten entries of each table, and the row buffer. */
    method WriteTables() returns (outcome: WriteOutcome)
      requires mode == Writing && atHead && rows == [] && babyTable.Some? && giantTable.Some?
      requires file == EncodeHeader(Params())
      modifies this`file, this`mode, this`writtenBaby, this`writtenGiant, this`buf, this`atHead
      ensures outcome == HeaderOutcome(babyTable, giantTable)
      ensures file == old(file) + EncodeTables(babyTable.value, giantTable.value)
      ensures mode == (if outcome.Written? then Writing else Aborted) && atHead == outcome.WriteFailed?
      ensures outcome.Written? ==> file == FileImage(Params(), writtenBaby, writtenGiant, rows)
      ensures outcome.Written? ==> fresh(buf) && buf.Length == rowSize
      ensures outcome.WriteFailed? ==> buf == old(buf)
      ensures outcome.Written? ==> writtenBaby == babyTable.value && writtenGiant == giantTable.value
    {
      var tableBuf := EncodeIndexTables(babyTable.value, giantTable.value);
      file := file + tableBuf;
      if |babyTable.value| < 10 || |giantTable.value| < 10 {
        mode := Aborted;
        return WriteFailed(TablePrintOutOfRange);
      }
      StartRows(babyTable.value, giantTable.value);
      outcome := Written;
    }

    /** Records the tables that went into the file and allocates the row
        buffer: the file is now the image of no rows. */
    method StartRows(baby: seq<bool>, giant: seq<bool>)
      requires file == EncodeHeader(Params()) + EncodeTables(baby, giant) && rows == []
      modifies this`writtenBaby, this`writtenGiant, this`buf, this`atHead
      ensures writtenBaby == baby && writtenGiant == giant && !atHead
      ensures file == FileImage(Params(), writtenBaby, writtenGiant, rows)
      ensures fresh(buf) && buf.Length == rowSize
    {
      writtenBaby, writtenGiant := baby, giant;
      buf := new byte[rowSize];
      atHead := false;
      EmptyImage(Params(), baby, giant);
    }

    /** Writes the length prefix and the first payloadLen bytes of the row
        buffer, which hold the encoding of r. */
    method AppendFrame(r: Row, payloadLen: nat)
      requires Valid() && mode == Writing && !atHead
      requires payloadLen == |EncodeRow(r)| <= buf.Length && payloadLen < 0x1_0000_0000_0000_0000
      requires buf[..payloadLen] == EncodeRow(r)
      modifies this`file, this`rows
      ensures Valid() && rows == old(rows) + [r]
      ensures file == old(file) + Frame(EncodeRow(r))
    {
      assert PutUint64(payloadLen) + buf[..payloadLen] == Frame(EncodeRow(r));
      FileImageAppend(Params(), writtenBaby, writtenGiant, rows, r);
      file := file + (PutUint64(payloadLen) + buf[..payloadLen]);
      rows := rows + [r];
    }

    /** Encodes one row into the front of the row buffer: the shift, then
        per slot a flag byte (1 for nil) and the coefficients of a present
        slot. Returns the payload length; the rest of the buffer keeps its
        old bytes. */
    method WriteRow(pv: seq<Slot>, shift: u32) returns (pointer: nat)
      requires RowWritable(pv, Params()) && buf.Length == rowSize
      modifies buf
      ensures pointer == |EncodeRow(Row(shift, pv))| <= buf.Length
      ensures buf[..pointer] == EncodeRow(Row(shift, pv))
      ensures pointer < 0x1_0000_0000_0000_0000
    {
      var shiftBytes := PutUint32(shift);
      buf[0], buf[1], buf[2], buf[3] := shiftBytes[0], shiftBytes[1], shiftBytes[2], shiftBytes[3];
      pointer := 4;
      assert buf[..pointer] == shiftBytes + EncodeSlots(pv[..0]);
      for i := 0 to |pv|
        invariant 4 <= pointer <= buf.Length
        invariant buf[..pointer] == shiftBytes + EncodeSlots(pv[..i])
        invariant pointer + |EncodeSlots(pv[i..])| <= buf.Length
      {
        EncodeSlotsSplit(pv, i);
        assert pv[i] in pv;
        pointer := WriteSlot(pointer, pv[i]);
        EncodeSlotsPrefixStep(shiftBytes, pv, i);
      }
      assert pv[..|pv|] == pv;
      assert EncodeRow(Row(shift, pv)) == shiftBytes + EncodeSlots(pv);
    }

    /** One slot of the row loop: the flag byte, then the coefficients of a
        present slot. */
    method WriteSlot(pointer: nat, slot: Slot) returns (next: nat)
      requires SlotFits(slot, n, numModuli)
      requires pointer + |EncodeSlot(slot)| <= buf.Length
      modifies buf
      ensures next == pointer + |EncodeSlot(slot)|
      ensures buf[..next] == old(buf[..pointer]) + EncodeSlot(slot)
    {
      ghost var prefix := buf[..pointer];
      var isEmpty: byte := if slot.None? then 1 else 0;
      buf[pointer] := isEmpty;
      next := pointer + 1;
      assert buf[..next] == prefix + [isEmpty];
      if isEmpty == 0 {
        PresentSlotBytes(prefix, slot, n, numModuli);
        next := WriteCoeffsTo(next, n, numModuli, slot.value.coeffs, buf);
      }
    }

    /** One row back from the file: the result, the new position and the
        new contents of the row buffer are those of ReadStep. */
    method ReadDiag() returns (pv: Option<seq<Slot>>, shift: nat)
      requires Valid() && mode == Reading
      requires ReadSafe(file, cursor, buf[..], Params())
      modifies this`cursor, buf
      ensures Valid()
      ensures ReadStep(file, old(cursor), old(buf[..]), Params())
              == ReadResult(pv, shift, cursor, buf[..])
    {
      if cursor + 8 > |file| {
        cursor := |file|;
        return None, 0;
      }
      var bytesToRead := Uint64(file[cursor..cursor + 8]);
      var start := cursor + 8;
      if start + bytesToRead > |file| {
        FillBuffer(file[start..]);
        cursor := |file|;
        return None, 0;
      }
      FillBuffer(file[start..start + bytesToRead]);
      cursor := start + bytesToRead;
      shift := Uint32(buf[..4]);
      var slots := DecodeRowSlots(buf[..], bytesToRead, Params());
      pv := Some(slots);
    }

    /** io.ReadFull into the front of the row buffer: the bytes read
        replace its first |src| bytes and the rest keeps its old bytes. */
    method FillBuffer(src: seq<byte>)
      requires |src| <= buf.Length
      modifies buf
      ensures buf[..] == src + old(buf[..])[|src|..]
    {
      forall k | 0 <= k < |src| {
        buf[k] := src[k];
      }
      assert buf[..] == src + old(buf[..])[|src|..];
    }

    /** Rewinds a reader to the first row. */
    method ResetRead()
      requires Valid() && mode == Reading
      modifies this`cursor
      ensures Valid() && cursor == resetPosition
    {
      cursor := resetPosition;
    }

    /** Flushes and closes the file; the stream is unusable afterwards. A
        writer's bytes reach the file system here: what a written file
        holds afterwards is the image of the rows written. */
    method Close(fs: map<string, seq<byte>>) returns (fs': map<string, seq<byte>>)
      requires Valid()
      modifies this`mode
      ensures mode == Closed
      ensures fs' == if old(mode) == Writing then fs[filename := file] else fs
      ensures old(mode) == Writing && !atHead ==>
                filename in fs' && fs'[filename] == FileImage(Params(), writtenBaby, writtenGiant, rows)
    {
      fs' := fs;
      if mode == Writing {
        fs' := fs[filename := file];
      }
      mode := Closed;
    }
  }

  /** The slot loop of ReadDiag: vectorLen slots from offset 4 of the row
      buffer b, whose first len bytes the frame filled. */
  method DecodeRowSlots(b: seq<byte>, len: nat, h: Header) returns (slots: seq<Slot>)
    requires len <= |b|
    requires SlotsSafe(b, len, 4, h.vectorLen, SlotBytes(h.n, h.numModuli))
    ensures slots == DecodeSlots(b, len, 4, h.vectorLen, h)
  {
    var sb := SlotBytes(h.n, h.numModuli);
    ghost var whole := DecodeSlots(b, len, 4, h.vectorLen, h);
    slots := [];
    var pointer: nat := 4;
    var count: nat := h.vectorLen;
    while count > 0
      invariant SlotsSafe(b, len, pointer, count, sb)
      invariant slots + DecodeSlots(b, len, pointer, count, h) == whole
    {
      var slot, next := DecodeSlotAt(b, len, pointer, count, h);
      SnocRegroup(slots, DecodeSlots(b, len, pointer, count, h), slot, DecodeSlots(b, len, next, count - 1, h), whole);
      slots, pointer, count := slots + [slot], next, count - 1;
    }
  }

  /** One turn of the slot loop of ReadDiag: the flag byte at p (1 for nil)
      and, for a present slot, the coefficients after it. */
  method DecodeSlotAt(b: seq<byte>, len: nat, p: nat, count: nat, h: Header) returns (slot: Slot, next: nat)
    requires len <= |b| && count > 0
    requires SlotsSafe(b, len, p, count, SlotBytes(h.n, h.numModuli))
    ensures SlotsSafe(b, len, next, count - 1, SlotBytes(h.n, h.numModuli))
    ensures DecodeSlots(b, len, p, count, h) == [slot] + DecodeSlots(b, len, next, count - 1, h)
  {
    var isEmpty := b[p] == 1;
    next := p + 1;
    slot := None;
    if !isEmpty {
      DecodePresentHead(b, len, p, count, h);
      next := p + 1 + SlotBytes(h.n, h.numModuli);
      var coeffs := DecodeCoeffs(b[p + 1..next], h.n, h.numModuli);
      slot := Some(Plaintext(h.level, h.scaleBits, coeffs));
    }
    DecodeHead(b, len, p, count, h, slot, next);
  }

  /** A present slot is its flag byte 0 followed by SlotBytes(n, m)
      coefficient bytes. */
  lemma PresentSlotBytes(prefix: seq<byte>, slot: Slot, n: nat, m: nat)
    requires slot.Some? && Shaped(slot.value.coeffs, n, m)
    ensures |EncodeSlot(slot)| == 1 + SlotBytes(n, m)
    ensures prefix + [0] + EncodeCoeffs(slot.value.coeffs) == prefix + EncodeSlot(slot)
  {
    CoeffsRoundTrip(slot.value.coeffs, n, m);
  }

  lemma EmptyFront<T>(e: seq<T>, a: seq<T>, f: seq<T>)
    requires e == []
    ensures e + a + f == a + f
  {
  }

  /** The encoded slots split after the first i. */
  lemma EncodeSlotsSplit(pv: seq<Slot>, i: nat)
    requires i < |pv|
    ensures EncodeSlots(pv[i..]) == EncodeSlot(pv[i]) + EncodeSlots(pv[i + 1..])
  {
    assert pv[i..][1..] == pv[i + 1..];
  }

  /** The encoded prefix of a row grows by one slot. */
  lemma EncodeSlotsPrefixStep(pre: seq<byte>, pv: seq<Slot>, i: nat)
    requires i < |pv|
    ensures pre + EncodeSlots(pv[..i]) + EncodeSlot(pv[i]) == pre + EncodeSlots(pv[..i + 1])
  {
    EncodeSlotsSnoc(pv[..i], pv[i]);
    assert pv[..i + 1] == pv[..i] + [pv[i]];
  }

  datatype OpenOutcome =
    | Opened(stream: DiagCacheStream)
    | AlreadyPresent
    | OpenFailed(error: StreamError)

  /** Opens the cache file of one block row. A writer creates the file and
      reports AlreadyPresent instead when it exists; a reader decodes the
      header and the two tables of d entries each and stands at the first
      row. */
  method NewDiagCacheStream(fs: map<string, seq<byte>>, filePrefix: string, blockRowIndex: int,
                            isWrite: bool, d: nat)
    returns (r: OpenOutcome, fs': map<string, seq<byte>>)
    ensures var name := FileName(filePrefix, blockRowIndex);
            && (isWrite && name in fs ==> r == AlreadyPresent && fs' == fs)
            && (isWrite && name !in fs ==>
                  && fs' == fs[name := []] && r.Opened?
                  && r.stream.filename == name && r.stream.mode == Writing
                  && r.stream.atHead && r.stream.file == []
                  && r.stream.babyTable == None && r.stream.giantTable == None
                  && r.stream.rows == [] && r.stream.Valid())
            && (!isWrite ==> fs' == fs)
            && (!isWrite && name !in fs ==> r == OpenFailed(CacheMiss))
            && (!isWrite && name in fs && |fs[name]| < DataStart(d) ==> r == OpenFailed(TruncatedPrologue))
            && (!isWrite && name in fs && DataStart(d) <= |fs[name]| && d < 10 ==>
                  r == OpenFailed(TablePrintOutOfRange))
            && (!isWrite && name in fs && DataStart(d) <= |fs[name]| && d >= 10 ==>
                  var content := fs[name];
                  && r.Opened?
                  && r.stream.filename == name && r.stream.mode == Reading && r.stream.file == content
                  && r.stream.Params() == DecodeHeader(content[..HeaderSize])
                  && r.stream.babyTable == Some(DecodeTables(content[HeaderSize..DataStart(d)], d).0)
                  && r.stream.giantTable == Some(DecodeTables(content[HeaderSize..DataStart(d)], d).1)
                  && r.stream.cursor == r.stream.resetPosition == DataStart(d)
                  && r.stream.Valid())
    ensures r.Opened? ==> fresh(r.stream) && fresh(r.stream.buf)
  {
    var name := FileName(filePrefix, blockRowIndex);
    if isWrite {
      if name in fs {
        return AlreadyPresent, fs;
      }
      fs' := fs[name := []];
      var empty := new byte[0];
      var stream := new DiagCacheStream(name, Writing, [], 0, empty, Header(0, 0, 0, 0, 0, 0), None, None, 0);
      return Opened(stream), fs';
    }
    fs' := fs;
    if name !in fs {
      return OpenFailed(CacheMiss), fs';
    }
    var content := fs[name];
    if |content| < HeaderSize {
      return OpenFailed(TruncatedPrologue), fs';
    }
    var h := DecodeHeader(content[..HeaderSize]);
    if |content| < DataStart(d) {
      return OpenFailed(TruncatedPrologue), fs';
    }
    var baby, giant := DecodeIndexTables(content[HeaderSize..DataStart(d)], d);
    if d < 10 {
      return OpenFailed(TablePrintOutOfRange), fs';
    }
    var resetPosition := DataStart(d);
    var buf := new byte[h.rowSize];
    var stream := new DiagCacheStream(name, Reading, content, resetPosition, buf, h,
                                      Some(baby), Some(giant), resetPosition);
    r := Opened(stream);
  }
}
