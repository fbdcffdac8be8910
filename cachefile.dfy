/** The whole cache file of one block row as the writer leaves it: the
    header, the two index tables, then one frame per row in write order. */
module CacheFile {
  import opened Wrappers
  import opened Bytes
  import opened CoeffCodec
  import opened HeaderCodec
  import opened RowCodec

  /** Header, tables and row frames, in that order. */
  function FileImage(h: Header, baby: seq<bool>, giant: seq<bool>, rows: seq<Row>): seq<byte> {
    EncodeHeader(h) + EncodeTables(baby, giant) + Frames(rows)
  }

  /** Where the rows start in a file whose tables have d entries each: the
      reader's resetPosition. */
  function DataStart(d: nat): nat {
    HeaderSize + 2 * d
  }

  /** Where the frame of rows[k] starts (or the end of the file, k = |rows|). */
  function FrameStart(d: nat, rows: seq<Row>, k: nat): nat
    requires k <= |rows|
  {
    DataStart(d) + |Frames(rows[..k])|
  }

  /** Opening a written file for reading finds the header and the tables
      the writer put there, and the rows start at DataStart. */
  lemma PrologueOfImage(h: Header, baby: seq<bool>, giant: seq<bool>, rows: seq<Row>)
    requires |baby| == |giant|
    ensures var file := FileImage(h, baby, giant, rows);
            var d := |baby|;
            |file| >= DataStart(d)
            && DecodeHeader(file[..HeaderSize]) == h
            && DecodeTables(file[HeaderSize..DataStart(d)], d) == (baby, giant)
            && FrameStart(d, rows, 0) == DataStart(d)
            && FrameStart(d, rows, |rows|) == |file|
  {
    var file := FileImage(h, baby, giant, rows);
    var d := |baby|;
    assert file[..HeaderSize] == EncodeHeader(h);
    assert file[HeaderSize..DataStart(d)] == EncodeTables(baby, giant);
    HeaderRoundTrip(h);
    TablesRoundTrip(baby, giant);
    assert rows[..0] == [];
    assert rows[..|rows|] == rows;
  }

  /** Before the first row frame, the file is the header and the tables. */
  lemma EmptyImage(h: Header, baby: seq<bool>, giant: seq<bool>)
    ensures FileImage(h, baby, giant, []) == EncodeHeader(h) + EncodeTables(baby, giant)
  {
    assert Frames([]) == [];
  }

  /** Writing one more row appends its frame to the file. */
  lemma FileImageAppend(h: Header, baby: seq<bool>, giant: seq<bool>, rows: seq<Row>, r: Row)
    ensures FileImage(h, baby, giant, rows + [r]) == FileImage(h, baby, giant, rows) + Frame(EncodeRow(r))
  {
    FramesAppend(rows, [r]);
    FramesSingle(r);
  }

  /** The frames up to and including rows[k]. */
  lemma FramesPrefix(rows: seq<Row>, k: nat)
    requires k < |rows|
    ensures Frames(rows[..k + 1]) == Frames(rows[..k]) + Frame(EncodeRow(rows[k]))
  {
    assert rows[..k + 1] == rows[..k] + [rows[k]];
    FramesAppend(rows[..k], [rows[k]]);
    FramesSingle(rows[k]);
  }

  lemma FramesSingle(r: Row)
    ensures Frames([r]) == Frame(EncodeRow(r))
  {
    assert [r][1..] == [];
  }

  /** The frames of rows split after rows[k]. */
  lemma FramesSplit(rows: seq<Row>, k: nat)
    requires k < |rows|
    ensures Frames(rows) == Frames(rows[..k + 1]) + Frames(rows[k + 1..])
  {
    assert rows == rows[..k + 1] + rows[k + 1..];
    FramesAppend(rows[..k + 1], rows[k + 1..]);
  }

  /** Reading a written file: at the start of frame k, one ReadDiag returns
      rows[k] (its shift and its slots, nil exactly where they were nil)
      and moves to the next frame; after the last frame it reports the end
      of the stream. This holds whatever the row buffer holds beforehand. */
  lemma ReadStepOnImage(h: Header, baby: seq<bool>, giant: seq<bool>, rows: seq<Row>, k: nat, buffer: seq<byte>)
    requires |baby| == |giant|
    requires h.rowSize == RowSize(h.vectorLen, SlotBytes(h.n, h.numModuli)) == |buffer|
    requires forall r <- rows :: RowMatches(r, h)
    requires k <= |rows|
    ensures var file := FileImage(h, baby, giant, rows);
            ReadSafe(file, FrameStart(|baby|, rows, k), buffer, h)
    ensures var file := FileImage(h, baby, giant, rows);
            var res := ReadStep(file, FrameStart(|baby|, rows, k), buffer, h);
            if k < |rows| then
              res.slots == Some(rows[k].slots) && res.shift == rows[k].shift
              && res.cursor == FrameStart(|baby|, rows, k + 1)
            else
              res.slots == None && res.shift == 0 && res.cursor == |file|
  {
    PrologueOfImage(h, baby, giant, rows);
    if k < |rows| {
      var pre, post := FrameInImage(h, baby, giant, rows, k);
      assert rows[k] in rows;
      RowRoundTrip(pre, rows[k], post, buffer, h);
    }
  }

  /** k successive ReadDiag calls from cursor: the rows they return, or
      None when one of them would fail or reports the end of the stream. */
  function ReadRows(file: seq<byte>, cursor: nat, buffer: seq<byte>, h: Header, k: nat): Option<seq<Row>>
    decreases k
  {
    if k == 0 then Some([])
    else if !ReadSafe(file, cursor, buffer, h) then None
    else
      var r := ReadStep(file, cursor, buffer, h);
      if r.slots.None? then None
      else
        match ReadRows(file, r.cursor, r.buffer, h, k - 1)
        case None => None
        case Some(rest) => Some([Row(r.shift, r.slots.value)] + rest)
  }

  /** Whatever the row buffer of rowSize bytes holds, one ReadDiag at cursor
      returns row and moves to next. */
  ghost predicate ReadsRowAt(file: seq<byte>, cursor: nat, next: nat, row: Row, h: Header) {
    forall buffer: seq<byte> {:trigger ReadSafe(file, cursor, buffer, h)} :: |buffer| == h.rowSize ==>
      && ReadSafe(file, cursor, buffer, h)
      && ReadStep(file, cursor, buffer, h).slots == Some(row.slots)
      && ReadStep(file, cursor, buffer, h).shift == row.shift
      && ReadStep(file, cursor, buffer, h).cursor == next
  }

  /** Frame j of the file starts at starts[j] and reads back as rows[j],
      for every j from i on. */
  ghost predicate RowsFrom(file: seq<byte>, starts: seq<nat>, rows: seq<Row>, i: nat, h: Header)
    requires i <= |rows| && |starts| == |rows| + 1
    decreases |rows| - i
  {
    i == |rows| || (ReadsRowAt(file, starts[i], starts[i + 1], rows[i], h) && RowsFrom(file, starts, rows, i + 1, h))
  }

  /** Successive ReadDiag calls over frames that each read back as their
      row return those rows, in order. */
  lemma {:induction false} ReadPassFrom(file: seq<byte>, starts: seq<nat>, rows: seq<Row>, i: nat, count: nat,
                                        buffer: seq<byte>, h: Header)
    requires i <= |rows| && |starts| == |rows| + 1 && count == |rows| - i
    requires RowsFrom(file, starts, rows, i, h)
    requires |buffer| == h.rowSize
    ensures ReadRows(file, starts[i], buffer, h, count) == Some(rows[i..])
    decreases count
  {
    if i < |rows| {
      var r := ReadStep(file, starts[i], buffer, h);
      ReadPassFrom(file, starts, rows, i + 1, count - 1, r.buffer, h);
      ReadRowsCons(file, starts[i], buffer, h, count, rows[i], starts[i + 1], r.buffer, rows[i + 1..]);
      SliceCons(rows, i);
    } else {
      assert rows[i..] == [];
    }
  }

  /** The frame starts of a written file. */
  function FrameStarts(d: nat, rows: seq<Row>): (starts: seq<nat>)
    ensures |starts| == |rows| + 1
    ensures forall k {:trigger starts[k]} :: 0 <= k <= |rows| ==> starts[k] == FrameStart(d, rows, k)
  {
    seq(|rows| + 1, k requires 0 <= k <= |rows| => FrameStart(d, rows, k))
  }

  /** Every frame of a written file reads back as its row. */
  lemma {:induction false} ImageRowsFrom(h: Header, baby: seq<bool>, giant: seq<bool>, rows: seq<Row>, i: nat)
    requires |baby| == |giant|
    requires h.rowSize == RowSize(h.vectorLen, SlotBytes(h.n, h.numModuli))
    requires forall r <- rows :: RowMatches(r, h)
    requires i <= |rows|
    ensures RowsFrom(FileImage(h, baby, giant, rows), FrameStarts(|baby|, rows), rows, i, h)
    decreases |rows| - i
  {
    if i < |rows| {
      ImageRowsFrom(h, baby, giant, rows, i + 1);
      ImageReadsRow(h, baby, giant, rows, i);
    }
  }

  lemma ImageReadsRow(h: Header, baby: seq<bool>, giant: seq<bool>, rows: seq<Row>, k: nat)
    requires |baby| == |giant|
    requires h.rowSize == RowSize(h.vectorLen, SlotBytes(h.n, h.numModuli))
    requires forall r <- rows :: RowMatches(r, h)
    requires k < |rows|
    ensures ReadsRowAt(FileImage(h, baby, giant, rows), FrameStart(|baby|, rows, k),
                       FrameStart(|baby|, rows, k + 1), rows[k], h)
  {
    forall buffer: seq<byte> | |buffer| == h.rowSize
      ensures var file := FileImage(h, baby, giant, rows);
              var cursor := FrameStart(|baby|, rows, k);
              && ReadSafe(file, cursor, buffer, h)
              && ReadStep(file, cursor, buffer, h).slots == Some(rows[k].slots)
              && ReadStep(file, cursor, buffer, h).shift == rows[k].shift
              && ReadStep(file, cursor, buffer, h).cursor == FrameStart(|baby|, rows, k + 1)
    {
      ReadStepOnImage(h, baby, giant, rows, k, buffer);
    }
  }

  /** A full pass over a written file from the first frame, whatever the
      row buffer holds, returns the rows in write order: the pass a reader
      makes after opening the file or after ResetRead. ReadStepOnImage gives
      the end of the stream after it. */
  lemma ReadPassOnImage(h: Header, baby: seq<bool>, giant: seq<bool>, rows: seq<Row>, buffer: seq<byte>)
    requires |baby| == |giant|
    requires h.rowSize == RowSize(h.vectorLen, SlotBytes(h.n, h.numModuli)) == |buffer|
    requires forall r <- rows :: RowMatches(r, h)
    ensures ReadRows(FileImage(h, baby, giant, rows), DataStart(|baby|), buffer, h, |rows|) == Some(rows)
  {
    ImageRowsFrom(h, baby, giant, rows, 0);
    ReadPassFrom(FileImage(h, baby, giant, rows), FrameStarts(|baby|, rows), rows, 0, |rows|, buffer, h);
    PrologueOfImage(h, baby, giant, rows);
    assert rows[0..] == rows;
  }

  /** One ReadDiag that returns row and moves to next, followed by k - 1
      more that return rest, returns [row] + rest. */
  lemma ReadRowsCons(file: seq<byte>, cursor: nat, buffer: seq<byte>, h: Header, k: nat,
                     row: Row, next: nat, nextBuffer: seq<byte>, rest: seq<Row>)
    requires k > 0 && ReadSafe(file, cursor, buffer, h)
    requires ReadStep(file, cursor, buffer, h).slots == Some(row.slots)
    requires ReadStep(file, cursor, buffer, h).shift == row.shift
    requires ReadStep(file, cursor, buffer, h).cursor == next
    requires ReadStep(file, cursor, buffer, h).buffer == nextBuffer
    requires ReadRows(file, next, nextBuffer, h, k - 1) == Some(rest)
    ensures ReadRows(file, cursor, buffer, h, k) == Some([row] + rest)
  {
  }

  /** The file around the frame of rows[k]: what precedes it ends at
      FrameStart(k), and the frame ends at FrameStart(k + 1). */
  lemma FrameInImage(h: Header, baby: seq<bool>, giant: seq<bool>, rows: seq<Row>, k: nat)
    returns (pre: seq<byte>, post: seq<byte>)
    requires |baby| == |giant| && k < |rows|
    ensures FileImage(h, baby, giant, rows) == pre + Frame(EncodeRow(rows[k])) + post
    ensures |pre| == FrameStart(|baby|, rows, k)
    ensures |pre| + |Frame(EncodeRow(rows[k]))| == FrameStart(|baby|, rows, k + 1)
  {
    var prologue := EncodeHeader(h) + EncodeTables(baby, giant);
    var frame := Frame(EncodeRow(rows[k]));
    FramesPrefix(rows, k);
    FramesSplit(rows, k);
    pre := prologue + Frames(rows[..k]);
    post := Frames(rows[k + 1..]);
    Regroup(prologue, Frames(rows[..k]), frame, post);
  }

  lemma Regroup<T>(x: seq<T>, a: seq<T>, f: seq<T>, p: seq<T>)
    ensures x + ((a + f) + p) == ((x + a) + f) + p
  {
  }
}
