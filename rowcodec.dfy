/** One cache row (a rotation shift and vectorLen optional plaintexts), its
    sparse byte encoding, the 8-byte length frame around it, and one read
    step of the row stream over the reused row buffer. */
module RowCodec {
  import opened Wrappers
  import opened Bytes
  import opened CoeffCodec
  import opened HeaderCodec

  /** A slot is nil (None) or holds one plaintext. */
  type Slot = Option<Plaintext>

  datatype Row = Row(shift: u32, slots: seq<Slot>)

  /** The largest payload a row of vectorLen slots can need: the 4 shift
      bytes and, per slot, one flag byte and one full polynomial. */
  function RowSize(vectorLen: nat, slotBytes: nat): nat {
    4 + (1 + slotBytes) * vectorLen
  }

  /** A slot the codec can write with the stream's n and numModuli. */
  predicate SlotFits(slot: Slot, n: nat, m: nat) {
    slot.None? || Shaped(slot.value.coeffs, n, m)
  }

  /** A slot the reader gives back unchanged: its level and scale are the
      header's, and it has the header's shape. */
  predicate SlotMatches(slot: Slot, h: Header) {
    slot.None? ||
    (slot.value.level == h.level && slot.value.scaleBits == h.scaleBits
     && Shaped(slot.value.coeffs, h.n, h.numModuli))
  }

  /** A row written with header h that reads back as itself. */
  predicate RowMatches(r: Row, h: Header) {
    |r.slots| == h.vectorLen && forall s <- r.slots :: SlotMatches(s, h)
  }

  /** The flag byte encodes emptiness: 1 for nil, 0 followed by the
      coefficients for a present slot. */
  function EncodeSlot(slot: Slot): seq<byte> {
    match slot
    case None => [1]
    case Some(p) => [0] + CoeffBytes(p)
  }

  /** The codec bytes of a present slot's polynomial. */
  function CoeffBytes(p: Plaintext): seq<byte> {
    EncodeCoeffs(p.coeffs)
  }

  function EncodeSlots(slots: seq<Slot>): seq<byte> {
    if slots == [] then [] else EncodeSlot(slots[0]) + EncodeSlots(slots[1..])
  }

  /** The row payload: the shift as a little-endian u32, then the slots. */
  function EncodeRow(r: Row): seq<byte> {
    PutUint32(r.shift) + EncodeSlots(r.slots)
  }

  function PresentCount(slots: seq<Slot>): (k: nat)
    ensures k <= |slots|
  {
    if slots == [] then 0 else (if slots[0].Some? then 1 else 0) + PresentCount(slots[1..])
  }

  lemma {:induction false} EncodeSlotsSnoc(slots: seq<Slot>, slot: Slot)
    ensures EncodeSlots(slots + [slot]) == EncodeSlots(slots) + EncodeSlot(slot)
  {
    if slots == [] {
      assert [] + [slot] == [slot];
    } else {
      assert (slots + [slot])[1..] == slots[1..] + [slot];
      EncodeSlotsSnoc(slots[1..], slot);
    }
  }

  /** Sparse compaction: a nil slot costs one byte, a present one
      1 + SlotBytes(n, m). */
  lemma {:induction false} EncodedRowLength(r: Row, n: nat, m: nat)
    requires forall s <- r.slots :: SlotFits(s, n, m)
    ensures |EncodeRow(r)| == 4 + |r.slots| + PresentCount(r.slots) * SlotBytes(n, m)
  {
    EncodedSlotsLength(r.slots, n, m);
  }

  lemma EncodedSlotsLength(slots: seq<Slot>, n: nat, m: nat)
    requires forall s <- slots :: SlotFits(s, n, m)
    ensures |EncodeSlots(slots)| == |slots| + PresentCount(slots) * SlotBytes(n, m)
  {
    var sb := SlotBytes(n, m);
    forall i | 0 <= i < |slots| && slots[i].Some? ensures |EncodeSlot(slots[i])| == 1 + sb {
      assert slots[i] in slots;
      CoeffsRoundTrip(slots[i].value.coeffs, n, m);
    }
    SlotsLengthSum(slots, sb);
  }

  /** The length sum behind EncodedSlotsLength, for any fixed size sb of a
      present slot's polynomial. */
  lemma {:induction false} SlotsLengthSum(slots: seq<Slot>, sb: nat)
    requires forall i :: 0 <= i < |slots| && slots[i].Some? ==> |EncodeSlot(slots[i])| == 1 + sb
    ensures |EncodeSlots(slots)| == |slots| + PresentCount(slots) * sb
  {
    if slots != [] {
      var rest := slots[1..];
      assert forall i :: 0 <= i < |rest| ==> rest[i] == slots[i + 1];
      SlotsLengthSum(rest, sb);
      if slots[0].Some? {
        MulSucc(PresentCount(slots), PresentCount(rest), sb);
      }
    }
  }

  /** The encoded row never exceeds RowSize, so every write into the row
      buffer stays in bounds; when some slot is nil and polynomials take
      room, it is strictly shorter. */
  lemma RowSizeBound(r: Row, n: nat, m: nat)
    requires forall s <- r.slots :: SlotFits(s, n, m)
    ensures |EncodeRow(r)| <= RowSize(|r.slots|, SlotBytes(n, m))
    ensures PresentCount(r.slots) < |r.slots| && SlotBytes(n, m) > 0
            ==> |EncodeRow(r)| < RowSize(|r.slots|, SlotBytes(n, m))
  {
    EncodedRowLength(r, n, m);
    var k, v, sb := PresentCount(r.slots), |r.slots|, SlotBytes(n, m);
    assert (1 + sb) * v == v + v * sb;
    MulLeq(k, v, sb);
    if k < v && sb > 0 {
      MulLess(k, v, sb);
    }
  }

  lemma MulSucc(c: nat, k: nat, sb: nat)
    requires c == k + 1
    ensures c * sb == k * sb + sb
  {
  }

  lemma MulLeq(k: nat, v: nat, sb: nat)
    requires k <= v
    ensures k * sb <= v * sb
  {
  }

  lemma MulLess(k: nat, v: nat, sb: nat)
    requires k < v && sb > 0
    ensures k * sb < v * sb
  {
  }

  /** The frame around a payload: its length as a little-endian u64, then
      the payload. */
  function Frame(payload: seq<byte>): seq<byte> {
    EncodeLE(|payload|, 8) + payload
  }

  /** The row stream: the frames of the rows, in write order. */
  function Frames(rows: seq<Row>): seq<byte> {
    if rows == [] then [] else Frame(EncodeRow(rows[0])) + Frames(rows[1..])
  }

  lemma {:induction false} FramesAppend(a: seq<Row>, b: seq<Row>)
    ensures Frames(a + b) == Frames(a) + Frames(b)
  {
    if a == [] {
      assert a + b == b;
    } else {
      assert (a + b)[1..] == a[1..] + b;
      FramesAppend(a[1..], b);
    }
  }

  /** Decoding count slots from buffer b at offset p stays in bounds: each
      flag byte lies inside b, and each present slot's coefficients inside
      the first len bytes (the part the frame filled). */
  predicate SlotsSafe(b: seq<byte>, len: nat, p: nat, count: nat, slotBytes: nat)
    decreases count
  {
    count == 0 ||
    (p < |b| &&
     if b[p] == 1 then SlotsSafe(b, len, p + 1, count - 1, slotBytes)
     else p + 1 + slotBytes <= len && SlotsSafe(b, len, p + 1 + slotBytes, count - 1, slotBytes))
  }

  /** The slot loop of ReadDiag: only a flag byte equal to 1 means nil; a
      present slot becomes a plaintext at the header's level and scale. */
  function DecodeSlots(b: seq<byte>, len: nat, p: nat, count: nat, h: Header): (slots: seq<Slot>)
    requires len <= |b|
    requires SlotsSafe(b, len, p, count, SlotBytes(h.n, h.numModuli))
    ensures |slots| == count
    decreases count
  {
    var sb := SlotBytes(h.n, h.numModuli);
    if count == 0 then []
    else if b[p] == 1 then [None] + DecodeSlots(b, len, p + 1, count - 1, h)
    else
      [Some(Plaintext(h.level, h.scaleBits, DecodeCoeffs(b[p + 1..p + 1 + sb], h.n, h.numModuli)))]
        + DecodeSlots(b, len, p + 1 + sb, count - 1, h)
  }

  /** Any other flag byte at p: a plaintext decoded from the SlotBytes
      bytes after it, and the others start after those. */
  lemma DecodePresentHead(b: seq<byte>, len: nat, p: nat, count: nat, h: Header)
    requires len <= |b| && count > 0
    requires SlotsSafe(b, len, p, count, SlotBytes(h.n, h.numModuli))
    requires p < |b| && b[p] != 1
    ensures p + 1 + SlotBytes(h.n, h.numModuli) <= len
    ensures SlotsSafe(b, len, p + 1 + SlotBytes(h.n, h.numModuli), count - 1, SlotBytes(h.n, h.numModuli))
    ensures var q := p + 1 + SlotBytes(h.n, h.numModuli);
            DecodeSlots(b, len, p, count, h)
            == [Some(Plaintext(h.level, h.scaleBits, DecodeCoeffs(b[p + 1..q], h.n, h.numModuli)))]
               + DecodeSlots(b, len, q, count - 1, h)
  {
  }

  /** The slot decoded at p, and the others decoded from the offset after it. */
  lemma DecodeHead(b: seq<byte>, len: nat, p: nat, count: nat, h: Header, slot: Slot, q: nat)
    requires len <= |b| && count > 0
    requires SlotsSafe(b, len, p, count, SlotBytes(h.n, h.numModuli))
    requires p < |b|
    requires q == if b[p] == 1 then p + 1 else p + 1 + SlotBytes(h.n, h.numModuli)
    requires b[p] == 1 ==> slot == None
    requires b[p] != 1 ==> q <= len && slot == Some(Plaintext(h.level, h.scaleBits, DecodeCoeffs(b[p + 1..q], h.n, h.numModuli)))
    ensures SlotsSafe(b, len, q, count - 1, SlotBytes(h.n, h.numModuli))
    ensures DecodeSlots(b, len, p, count, h) == [slot] + DecodeSlots(b, len, q, count - 1, h)
  {
  }

  /** Every present slot the reader decodes has the header's shape, n
      coefficients over each of numModuli moduli, whatever the bytes. */
  lemma {:induction false} DecodeSlotsFit(b: seq<byte>, len: nat, p: nat, count: nat, h: Header)
    requires len <= |b|
    requires SlotsSafe(b, len, p, count, SlotBytes(h.n, h.numModuli))
    ensures forall s <- DecodeSlots(b, len, p, count, h) :: SlotFits(s, h.n, h.numModuli)
    decreases count
  {
    if count > 0 {
      var sb := SlotBytes(h.n, h.numModuli);
      if b[p] == 1 {
        DecodeSlotsFit(b, len, p + 1, count - 1, h);
      } else {
        DecodeCoeffsShaped(b[p + 1..p + 1 + sb], h.n, h.numModuli);
        DecodeSlotsFit(b, len, p + 1 + sb, count - 1, h);
      }
    }
  }

  /** A decoded prefix grows by the head of what is left to decode. */
  lemma SnocRegroup<T>(done: seq<T>, rest: seq<T>, x: T, tail: seq<T>, whole: seq<T>)
    requires done + rest == whole && rest == [x] + tail
    ensures (done + [x]) + tail == whole
  {
    assert done + ([x] + tail) == (done + [x]) + tail;
  }

  /** The slot decoded at offset p of the buffer is slot, and the next slot
      starts k bytes further on. */
  predicate SlotAt(b: seq<byte>, len: nat, p: nat, k: nat, slot: Slot, h: Header) {
    && len <= |b| && p < |b|
    && SlotMatches(slot, h)
    && (slot.None? ==> k == 1 && b[p] == 1)
    && (slot.Some? ==>
          var sb := SlotBytes(h.n, h.numModuli);
          && k == 1 + sb && b[p] != 1 && p + 1 + sb <= len
          && DecodeCoeffs(b[p + 1..p + 1 + sb], h.n, h.numModuli) == slot.value.coeffs)
  }

  /** One encoded slot at offset p: its flag, and for a present slot the
      coefficient bytes that decode back to its coefficients. */
  lemma DecodeEncodedSlot(b: seq<byte>, len: nat, p: nat, slot: Slot, h: Header)
    requires SlotMatches(slot, h)
    requires p + |EncodeSlot(slot)| <= len <= |b|
    requires b[p..p + |EncodeSlot(slot)|] == EncodeSlot(slot)
    ensures SlotAt(b, len, p, |EncodeSlot(slot)|, slot, h)
  {
    var e := EncodeSlot(slot);
    assert b[p] == e[0];
    if slot.Some? {
      var sb := SlotBytes(h.n, h.numModuli);
      CoeffsRoundTrip(slot.value.coeffs, h.n, h.numModuli);
      assert b[p + 1..p + 1 + sb] == e[1..];
    }
  }

  /** The encoded slots from slots[i] on, found one after another from
      offset p of the buffer, are what the decoder reads there. */
  lemma {:induction false} DecodePiecesFrom(b: seq<byte>, len: nat, p: nat, slots: seq<Slot>, parts: seq<seq<byte>>,
                                            i: nat, count: nat, h: Header)
    requires i <= |slots| == |parts| && count == |slots| - i
    requires MatchFrom(slots, i, h)
    requires PiecesOf(parts, slots, i)
    requires PiecesFrom(b, len, p, parts, i)
    ensures len <= |b| && SlotsSafe(b, len, p, count, SlotBytes(h.n, h.numModuli))
    ensures DecodeSlots(b, len, p, count, h) == slots[i..]
    decreases count
  {
    if i < |slots| {
      var k := |parts[i]|;
      DecodePiecesFrom(b, len, p + k, slots, parts, i + 1, count - 1, h);
      DecodeSlotsCons(b, len, p, k, slots, i, count, h);
    } else {
      assert slots[i..] == [];
    }
  }

  /** slots[i] encoded at p, and the slots after it decoded from the offset
      after it: the decoder reads slots[i..] from p. */
  lemma DecodeSlotsCons(b: seq<byte>, len: nat, p: nat, k: nat, slots: seq<Slot>, i: nat, count: nat, h: Header)
    requires i < |slots| && count > 0 && SlotMatches(slots[i], h)
    requires k == |EncodeSlot(slots[i])| && p + k <= len <= |b| && b[p..p + k] == EncodeSlot(slots[i])
    requires SlotsSafe(b, len, p + k, count - 1, SlotBytes(h.n, h.numModuli))
    requires DecodeSlots(b, len, p + k, count - 1, h) == slots[i + 1..]
    ensures SlotsSafe(b, len, p, count, SlotBytes(h.n, h.numModuli))
    ensures DecodeSlots(b, len, p, count, h) == slots[i..]
  {
    DecodeEncodedSlot(b, len, p, slots[i], h);
    DecodeSlotsStep(b, len, p, k, count, slots[i], slots[i + 1..], h);
    SliceCons(slots, i);
  }

  /** slots[i..] all match the header. */
  predicate MatchFrom(slots: seq<Slot>, i: nat, h: Header)
    requires i <= |slots|
    decreases |slots| - i
  {
    i == |slots| || (SlotMatches(slots[i], h) && MatchFrom(slots, i + 1, h))
  }

  lemma {:induction false} MatchFromAll(slots: seq<Slot>, i: nat, h: Header)
    requires i <= |slots|
    requires forall s <- slots :: SlotMatches(s, h)
    ensures MatchFrom(slots, i, h)
    decreases |slots| - i
  {
    if i < |slots| {
      assert slots[i] in slots;
      MatchFromAll(slots, i + 1, h);
    }
  }

  lemma SliceCons<T>(s: seq<T>, i: nat)
    requires i < |s|
    ensures [s[i]] + s[i + 1..] == s[i..]
  {
  }

  /** The encoding of each slot, one piece per slot. */
  function SlotPieces(slots: seq<Slot>): (parts: seq<seq<byte>>)
    ensures |parts| == |slots|
    ensures forall i {:trigger parts[i]} :: 0 <= i < |slots| ==> parts[i] == EncodeSlot(slots[i])
  {
    seq(|slots|, i requires 0 <= i < |slots| => EncodeSlot(slots[i]))
  }

  /** parts[i..] are the encodings of slots[i..]. */
  predicate PiecesOf(parts: seq<seq<byte>>, slots: seq<Slot>, i: nat)
    requires i <= |slots| == |parts|
    decreases |slots| - i
  {
    i == |slots| || (parts[i] == EncodeSlot(slots[i]) && PiecesOf(parts, slots, i + 1))
  }

  lemma {:induction false} SlotPiecesOf(slots: seq<Slot>, i: nat)
    requires i <= |slots|
    ensures PiecesOf(SlotPieces(slots), slots, i)
    decreases |slots| - i
  {
    if i < |slots| {
      SlotPiecesOf(slots, i + 1);
    }
  }

  /** The slot encodings from slots[i] on, concatenated, are what
      EncodeSlots writes for them. */
  lemma {:induction false} EncodeSlotsPieces(slots: seq<Slot>, i: nat)
    requires i <= |slots|
    ensures EncodeSlots(slots[i..]) == ConcatFrom(SlotPieces(slots), i)
    decreases |slots| - i
  {
    if i < |slots| {
      EncodeSlotsPieces(slots, i + 1);
      assert slots[i..][1..] == slots[i + 1..];
    }
  }

  /** The concatenation of parts[i..]. */
  ghost function ConcatFrom<T>(parts: seq<seq<T>>, i: nat): seq<T>
    requires i <= |parts|
    decreases |parts| - i
  {
    if i == |parts| then [] else parts[i] + ConcatFrom(parts, i + 1)
  }

  /** parts[i..] found one after another in b from offset p, within its
      first len elements. */
  ghost predicate PiecesFrom<T>(b: seq<T>, len: nat, p: nat, parts: seq<seq<T>>, i: nat)
    requires i <= |parts|
    decreases |parts| - i
  {
    len <= |b| &&
    (i == |parts| ||
     (p + |parts[i]| <= len && b[p..p + |parts[i]|] == parts[i]
      && PiecesFrom(b, len, p + |parts[i]|, parts, i + 1)))
  }

  /** A concatenation found in b is found there piece by piece. */
  lemma {:induction false} ConcatPiecesFrom<T>(b: seq<T>, len: nat, p: nat, parts: seq<seq<T>>, i: nat)
    requires i <= |parts|
    requires p + |ConcatFrom(parts, i)| <= len <= |b|
    requires b[p..p + |ConcatFrom(parts, i)|] == ConcatFrom(parts, i)
    ensures PiecesFrom(b, len, p, parts, i)
    decreases |parts| - i
  {
    if i < |parts| {
      SliceConcat(b, p, parts[i], ConcatFrom(parts, i + 1));
      ConcatPiecesFrom(b, len, p + |parts[i]|, parts, i + 1);
    }
  }

  /** Two pieces found one after the other in b are each found in b. */
  lemma SliceConcat<T>(b: seq<T>, p: nat, x: seq<T>, y: seq<T>)
    requires p + |x + y| <= |b| && b[p..p + |x + y|] == x + y
    ensures b[p..p + |x|] == x
    ensures b[p + |x|..p + |x| + |y|] == y
  {
    var all := b[p..p + |x + y|];
    assert b[p..p + |x|] == all[..|x|];
    assert b[p + |x|..p + |x| + |y|] == all[|x|..];
  }

  /** Decoding encoded slots found at offset p of the buffer, whatever
      surrounds them, gives the slots back. */
  lemma DecodeEncodedSlots(b: seq<byte>, len: nat, p: nat, slots: seq<Slot>, h: Header)
    requires forall s <- slots :: SlotMatches(s, h)
    requires p + |EncodeSlots(slots)| <= len <= |b|
    requires b[p..p + |EncodeSlots(slots)|] == EncodeSlots(slots)
    ensures SlotsSafe(b, len, p, |slots|, SlotBytes(h.n, h.numModuli))
    ensures DecodeSlots(b, len, p, |slots|, h) == slots
  {
    MatchFromAll(slots, 0, h);
    EncodeSlotsPieces(slots, 0);
    assert slots[0..] == slots;
    ConcatPiecesFrom(b, len, p, SlotPieces(slots), 0);
    SlotPiecesOf(slots, 0);
    DecodePiecesFrom(b, len, p, slots, SlotPieces(slots), 0, |slots|, h);
  }

  /** One step of the slot loop: a slot decoded at p followed by the rest
      decoded at p + k. */
  lemma DecodeSlotsStep(b: seq<byte>, len: nat, p: nat, k: nat, count: nat, slot: Slot, rest: seq<Slot>, h: Header)
    requires count > 0
    requires SlotAt(b, len, p, k, slot, h)
    requires SlotsSafe(b, len, p + k, count - 1, SlotBytes(h.n, h.numModuli))
    requires DecodeSlots(b, len, p + k, count - 1, h) == rest
    ensures SlotsSafe(b, len, p, count, SlotBytes(h.n, h.numModuli))
    ensures DecodeSlots(b, len, p, count, h) == [slot] + rest
  {
  }

  /** What one ReadDiag call gives back, and where it leaves the reader and
      the row buffer. */
  datatype ReadResult = ReadResult(slots: Option<seq<Slot>>, shift: nat, cursor: nat, buffer: seq<byte>)

  /** The conditions under which ReadDiag does not fail: the frame length
      fits the row buffer, the buffer holds at least the shift, and slot
      decoding stays in bounds. */
  predicate ReadSafe(file: seq<byte>, cursor: nat, buffer: seq<byte>, h: Header) {
    cursor <= |file| &&
    (cursor + 8 <= |file| ==>
       var len := Uint64(file[cursor..cursor + 8]);
       len <= |buffer| &&
       (cursor + 8 + len <= |file| ==>
          var b := file[cursor + 8..cursor + 8 + len] + buffer[len..];
          4 <= |b| && SlotsSafe(b, len, 4, h.vectorLen, SlotBytes(h.n, h.numModuli))))
  }

  /** One ReadDiag: a short length prefix or a short body is the end of the
      stream (nil, 0) and leaves the reader at the end of the file; a full
      frame is copied over the front of the buffer and decoded from it. */
  function ReadStep(file: seq<byte>, cursor: nat, buffer: seq<byte>, h: Header): (r: ReadResult)
    requires ReadSafe(file, cursor, buffer, h)
    ensures |r.buffer| == |buffer| && r.cursor <= |file|
    ensures r.slots.None? ==> r.shift == 0 && r.cursor == |file|
    ensures r.slots.Some? ==> |r.slots.value| == h.vectorLen && r.shift < 0x1_0000_0000 && r.cursor >= cursor + 8
  {
    if cursor + 8 > |file| then ReadResult(None, 0, |file|, buffer)
    else
      var len := Uint64(file[cursor..cursor + 8]);
      if cursor + 8 + len > |file| then
        ReadResult(None, 0, |file|, file[cursor + 8..] + buffer[|file| - cursor - 8..])
      else
        var b := file[cursor + 8..cursor + 8 + len] + buffer[len..];
        ReadResult(Some(DecodeSlots(b, len, 4, h.vectorLen, h)), Uint32(b[..4]), cursor + 8 + len, b)
  }

  /** A row ReadDiag returns holds only slots of the header's shape, so it
      can be written again with the same n and numModuli. */
  lemma ReadStepFits(file: seq<byte>, cursor: nat, buffer: seq<byte>, h: Header)
    requires ReadSafe(file, cursor, buffer, h)
    ensures var r := ReadStep(file, cursor, buffer, h);
            r.slots.Some? ==> forall s <- r.slots.value :: SlotFits(s, h.n, h.numModuli)
  {
    if cursor + 8 <= |file| {
      var len := Uint64(file[cursor..cursor + 8]);
      if cursor + 8 + len <= |file| {
        var b := file[cursor + 8..cursor + 8 + len] + buffer[len..];
        DecodeSlotsFit(b, len, 4, h.vectorLen, h);
      }
    }
  }

  /** A frame inside a file: its prefix reads back as the payload length and
      the payload follows it. */
  lemma FrameAt(pre: seq<byte>, payload: seq<byte>, post: seq<byte>)
    requires |payload| < 0x1_0000_0000_0000_0000
    ensures var file := pre + Frame(payload) + post;
            |pre| + 8 + |payload| <= |file|
            && Uint64(file[|pre|..|pre| + 8]) == |payload|
            && file[|pre| + 8..|pre| + 8 + |payload|] == payload
  {
    var file := pre + Frame(payload) + post;
    var c, len := |pre|, |payload|;
    Pow256Widths();
    DecodeEncodeLE(len, 8);
    assert file[c..c + 8] == EncodeLE(len, 8);
    assert file[c + 8..c + 8 + len] == payload;
  }

  /** ReadDiag over a complete frame whose payload fits the buffer and
      decodes in bounds. */
  lemma ReadStepOverFrame(file: seq<byte>, cursor: nat, payload: seq<byte>, buffer: seq<byte>, h: Header)
    requires cursor + 8 + |payload| <= |file|
    requires Uint64(file[cursor..cursor + 8]) == |payload|
    requires file[cursor + 8..cursor + 8 + |payload|] == payload
    requires 4 <= |payload| <= |buffer|
    requires SlotsSafe(payload + buffer[|payload|..], |payload|, 4, h.vectorLen, SlotBytes(h.n, h.numModuli))
    ensures ReadSafe(file, cursor, buffer, h)
    ensures var b := payload + buffer[|payload|..];
            ReadStep(file, cursor, buffer, h)
            == ReadResult(Some(DecodeSlots(b, |payload|, 4, h.vectorLen, h)), Uint32(payload[..4]),
                          cursor + 8 + |payload|, b)
  {
    var b := payload + buffer[|payload|..];
    assert b[..4] == payload[..4];
  }

  /** Row round trip: reading a frame that WriteDiag produced for a row
      matching the header gives back the row's shift and slots, nil exactly
      where they were nil, whatever stale bytes the buffer held. */
  lemma RowRoundTrip(pre: seq<byte>, r: Row, post: seq<byte>, buffer: seq<byte>, h: Header)
    requires RowMatches(r, h)
    requires h.rowSize == RowSize(h.vectorLen, SlotBytes(h.n, h.numModuli)) == |buffer|
    ensures ReadSafe(pre + Frame(EncodeRow(r)) + post, |pre|, buffer, h)
    ensures var res := ReadStep(pre + Frame(EncodeRow(r)) + post, |pre|, buffer, h);
            res.slots == Some(r.slots) && res.shift == r.shift
            && res.cursor == |pre| + |Frame(EncodeRow(r))|
  {
    var payload := EncodeRow(r);
    var len := |payload|;
    assert len <= |buffer| by {
      forall s <- r.slots ensures SlotFits(s, h.n, h.numModuli) {
        assert SlotMatches(s, h);
      }
      RowSizeBound(r, h.n, h.numModuli);
    }
    FrameAt(pre, payload, post);
    var b := payload + buffer[len..];
    assert b[4..4 + |EncodeSlots(r.slots)|] == EncodeSlots(r.slots);
    DecodeEncodedSlots(b, len, 4, r.slots, h);
    assert payload[..4] == PutUint32(r.shift);
    Uint32RoundTrip(r.shift);
    ReadStepOverFrame(pre + Frame(payload) + post, |pre|, payload, buffer, h);
  }
}
