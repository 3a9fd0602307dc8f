/**
  The record decoder and the session chunker of parse.rs.

  A log file is a flat run of fixed-width records. Each record holds a
  little-endian u32 timestamp, a little-endian u32 raw CAN identifier, a
  data-length code (DLC) and a payload. The decoder walks the records,
  demultiplexes the identifier (SocketCAN convention of linux/can.h), hands
  (identifier, payload) to the external bus decoder and keeps the frames it
  recognises. The chunker cuts the decoded sequence into sessions at time
  discontinuities and sorts each session by timestamp.
*/
module Parse {
  import opened Base
  import Sorting

  // ---------------------------------------------------------------------------
  // Data model
  // ---------------------------------------------------------------------------

  /**
    A message as returned by the external bus decoder: the message name and
    the value of each signal, already rendered as text.
  */
  datatype Decoded = Decoded(name: string, signals: map<string, string>)

  /** A decoded frame with its log timestamp in milliseconds. */
  datatype ParsedMessage = ParsedMessage(timestamp: u32, decoded: Option<Decoded>)

  /** The external decoder: masked arbitration id and payload to a decoded message, if any. */
  type Decoder = (u32, seq<byte>) -> Option<Decoded>

  /**
    The byte layout of one record: its width and the offsets of its fields.
    The timestamp occupies [frameTypeOffset, timestampOffset) and the raw id
    [timestampOffset, idOffset); the payload starts at dataOffset.
  */
  datatype Layout = Layout(
    msgByteLen: nat,
    frameTypeOffset: nat,
    timestampOffset: nat,
    idOffset: nat,
    dlcOffset: nat,
    dataOffset: nat)

  /** What the record constants must satisfy for the fixed-width reads to be in bounds. */
  predicate ValidLayout(l: Layout) {
    && l.msgByteLen > 0
    && l.timestampOffset == l.frameTypeOffset + 4
    && l.idOffset == l.timestampOffset + 4
    && l.idOffset <= l.msgByteLen
    && l.dlcOffset < l.msgByteLen
  }

  /** The one failure of the decoder: a DLC that reaches past the end of the buffer. */
  datatype ParseError = PayloadOutOfBounds(offset: nat, dlc: byte)

  // ---------------------------------------------------------------------------
  // Little-endian u32
  // ---------------------------------------------------------------------------

  /** `u32::from_le_bytes` of four bytes. */
  function LeU32(b: seq<byte>): u32
    requires |b| == 4
  {
    b[0] as int + 0x100 * b[1] as int + 0x1_0000 * b[2] as int + 0x100_0000 * b[3] as int
  }

  /** `u32::to_le_bytes`, the inverse of LeU32. */
  function U32ToLe(v: u32): (b: seq<byte>)
    ensures |b| == 4
  {
    [v % 0x100, v / 0x100 % 0x100, v / 0x1_0000 % 0x100, v / 0x100_0000]
  }

  lemma LeU32OfU32ToLe(v: u32)
    ensures LeU32(U32ToLe(v)) == v
  {
    var b := U32ToLe(v);
    assert v == v % 0x100 + 0x100 * (v / 0x100);
    assert v / 0x100 == v / 0x100 % 0x100 + 0x100 * (v / 0x1_0000);
    assert v / 0x1_0000 == v / 0x1_0000 % 0x100 + 0x100 * (v / 0x100_0000);
  }

  lemma U32ToLeOfLeU32(b: seq<byte>)
    requires |b| == 4
    ensures U32ToLe(LeU32(b)) == b
  {
    var v := LeU32(b);
    var hi2: int := b[2] as int + 0x100 * b[3] as int;
    var hi: int := b[1] as int + 0x100 * hi2;
    DivUnique(v, 0x100, hi, b[0]);
    DivUnique(hi, 0x100, hi2, b[1]);
    DivUnique(hi2, 0x100, b[3], b[2]);
    DivUnique(v, 0x1_0000, hi2, b[0] as int + 0x100 * b[1] as int);
    DivUnique(v, 0x100_0000, b[3], b[0] as int + 0x100 * b[1] as int + 0x1_0000 * b[2] as int);
  }

  // ---------------------------------------------------------------------------
  // Arbitration id demultiplexing (linux/can.h)
  // ---------------------------------------------------------------------------

  /** Extended frame format flag (bit 31). */
  const CAN_EFF_FLAG: nat := 0x8000_0000
  /** The 29 bits of an extended identifier. */
  const CAN_EXT_ID_MASK: nat := 0x1FFF_FFFF
  /** The 11 bits of a standard identifier. */
  const CAN_STD_ID_MASK: nat := 0x7FF

  /**
    On a u32 the three masks are arithmetic: the flag is set exactly for
    values of 2^31 and up, and the two id masks keep the value modulo 2^29
    and 2^11.
  */
  lemma MasksAreArithmetic(rawId: u32)
    ensures BitAnd(rawId, CAN_EFF_FLAG) != 0 <==> rawId >= 0x8000_0000
    ensures BitAnd(rawId, CAN_EXT_ID_MASK) == rawId % 0x2000_0000
    ensures BitAnd(rawId, CAN_STD_ID_MASK) == rawId % 0x800
  {
    Pow2Values();
    BitAndHighBit(rawId, 31);
    BitAndLowMask(rawId, 29);
    BitAndLowMask(rawId, 11);
  }

  /**
    The same three facts on 32-bit machine words, where Dafny's `&` is the
    hardware operation.
  */
  lemma MachineMasksAreArithmetic(bits: bv32)
    ensures bits & 0x8000_0000 != 0 <==> bits >= 0x8000_0000
    ensures bits & 0x1FFF_FFFF == bits % 0x2000_0000
    ensures bits & 0x7FF == bits % 0x800
  {
  }

  /**
    The arbitration id of a raw identifier, masked as the source masks it:
    an extended frame (bit 31 set) keeps its low 29 bits, a standard frame
    its low 11 bits.
  */
  function ArbitrationId(rawId: u32): (arb: u32)
    ensures rawId >= 0x8000_0000 ==> arb == rawId % 0x2000_0000
    ensures rawId < 0x8000_0000 ==> arb == rawId % 0x800
  {
    MasksAreArithmetic(rawId);
    if BitAnd(rawId, CAN_EFF_FLAG) != 0 then BitAnd(rawId, CAN_EXT_ID_MASK) else BitAnd(rawId, CAN_STD_ID_MASK)
  }

  // ---------------------------------------------------------------------------
  // Records
  // ---------------------------------------------------------------------------

  /** A whole record starts at `offset`. */
  predicate IsRecord(l: Layout, content: seq<byte>, offset: nat)
    requires ValidLayout(l)
  {
    offset + l.msgByteLen <= |content|
  }

  /**
    `o` is one of the records the loop visits when it starts at `start`:
    the whole record at `start`, or one visited from the next record.
  */
  ghost predicate VisitedFrom(l: Layout, content: seq<byte>, start: nat, o: nat)
    requires ValidLayout(l)
    ensures VisitedFrom(l, content, start, o) ==> start <= o && IsRecord(l, content, o)
    decreases |content| - start
  {
    IsRecord(l, content, start) && (o == start || VisitedFrom(l, content, start + l.msgByteLen, o))
  }

  function Timestamp(l: Layout, content: seq<byte>, offset: nat): u32
    requires ValidLayout(l) && IsRecord(l, content, offset)
  {
    LeU32(content[offset + l.frameTypeOffset .. offset + l.timestampOffset])
  }

  function RawId(l: Layout, content: seq<byte>, offset: nat): u32
    requires ValidLayout(l) && IsRecord(l, content, offset)
  {
    LeU32(content[offset + l.timestampOffset .. offset + l.idOffset])
  }

  function Dlc(l: Layout, content: seq<byte>, offset: nat): byte
    requires ValidLayout(l) && IsRecord(l, content, offset)
  {
    content[offset + l.dlcOffset]
  }

  /** The DLC selects a slice inside the buffer (it may reach into later records). */
  predicate PayloadInBounds(l: Layout, content: seq<byte>, offset: nat)
    requires ValidLayout(l) && IsRecord(l, content, offset)
  {
    offset + l.dataOffset + Dlc(l, content, offset) <= |content|
  }

  /** The `dlc` bytes starting at `offset + DATA_OFFSET`. */
  function Payload(l: Layout, content: seq<byte>, offset: nat): seq<byte>
    requires ValidLayout(l) && IsRecord(l, content, offset)
    requires PayloadInBounds(l, content, offset)
  {
    content[offset + l.dataOffset .. offset + l.dataOffset + Dlc(l, content, offset)]
  }

  /** What the external decoder makes of the record at `offset`. */
  function DecodeAt(l: Layout, content: seq<byte>, offset: nat, decode: Decoder): Option<Decoded>
    requires ValidLayout(l) && IsRecord(l, content, offset)
    requires PayloadInBounds(l, content, offset)
  {
    decode(ArbitrationId(RawId(l, content, offset)), Payload(l, content, offset))
  }

  /** The messages an in-bounds record contributes: its decoded frame, if recognised. */
  function Contribution(l: Layout, content: seq<byte>, offset: nat, decode: Decoder): (c: seq<ParsedMessage>)
    requires ValidLayout(l) && IsRecord(l, content, offset) && PayloadInBounds(l, content, offset)
    ensures |c| <= 1
  {
    match DecodeAt(l, content, offset, decode)
    case None => []
    case Some(d) => [ParsedMessage(Timestamp(l, content, offset), Some(d))]
  }

  /** `ms` followed by the outcome `r` of the remaining records. */
  function Prepend(ms: seq<ParsedMessage>, r: Result<seq<ParsedMessage>, ParseError>)
    : Result<seq<ParsedMessage>, ParseError>
  {
    match r
    case Err(e) => Err(e)
    case Ok(rest) => Ok(ms + rest)
  }

  /**
    Decoding the records from `offset` to the end: each whole record
    contributes its message, if any; the first record whose payload leaves
    the buffer fails the whole decode.
  */
  function ParseFrom(l: Layout, content: seq<byte>, offset: nat, decode: Decoder)
    : Result<seq<ParsedMessage>, ParseError>
    requires ValidLayout(l)
    decreases |content| - offset
  {
    if !IsRecord(l, content, offset) then Ok([])
    else if !PayloadInBounds(l, content, offset) then Err(PayloadOutOfBounds(offset, Dlc(l, content, offset)))
    else Prepend(Contribution(l, content, offset, decode), ParseFrom(l, content, offset + l.msgByteLen, decode))
  }

  lemma PrependEmpty(r: Result<seq<ParsedMessage>, ParseError>)
    ensures Prepend([], r) == r
  {
    if r.Ok? {
      assert [] + r.value == r.value;
    }
  }

  lemma PrependAppend(a: seq<ParsedMessage>, b: seq<ParsedMessage>, r: Result<seq<ParsedMessage>, ParseError>)
    ensures Prepend(a, Prepend(b, r)) == Prepend(a + b, r)
  {
    if r.Ok? {
      assert a + (b + r.value) == (a + b) + r.value;
    }
  }

  /**
    One turn of the loop: after the in-bounds record at `offset` has added
    its message, if any, to `before`, the decode continues at the next record.
  */
  lemma ParseFromStep(l: Layout, content: seq<byte>, offset: nat, next: nat, decode: Decoder,
                      before: seq<ParsedMessage>, after: seq<ParsedMessage>)
    requires ValidLayout(l) && IsRecord(l, content, offset) && PayloadInBounds(l, content, offset)
    requires next == offset + l.msgByteLen
    requires after == before + Contribution(l, content, offset, decode)
    ensures Prepend(before, ParseFrom(l, content, offset, decode)) == Prepend(after, ParseFrom(l, content, next, decode))
  {
    var c := Contribution(l, content, offset, decode);
    assert ParseFrom(l, content, offset, decode) == Prepend(c, ParseFrom(l, content, next, decode));
    PrependAppend(before, c, ParseFrom(l, content, next, decode));
  }

  /** A record whose payload leaves the buffer fails the whole decode. */
  lemma ParseFromBad(l: Layout, content: seq<byte>, offset: nat, decode: Decoder)
    requires ValidLayout(l) && IsRecord(l, content, offset) && !PayloadInBounds(l, content, offset)
    ensures ParseFrom(l, content, offset, decode) == Err(PayloadOutOfBounds(offset, Dlc(l, content, offset)))
  {
  }

  /** A successful decode from a whole record: its payload is in bounds and the rest succeeds. */
  lemma ParseFromOk(l: Layout, content: seq<byte>, offset: nat, next: nat, decode: Decoder)
    requires ValidLayout(l) && IsRecord(l, content, offset) && next == offset + l.msgByteLen
    requires ParseFrom(l, content, offset, decode).Ok?
    ensures PayloadInBounds(l, content, offset) && ParseFrom(l, content, next, decode).Ok?
    ensures ParseFrom(l, content, offset, decode).value ==
            Contribution(l, content, offset, decode) + ParseFrom(l, content, next, decode).value
  {
  }

  /** The offsets, ascending, of the records from `offset` on that the decoder recognises. */
  ghost function Recognised(l: Layout, content: seq<byte>, offset: nat, decode: Decoder): seq<nat>
    requires ValidLayout(l)
    requires forall o :: VisitedFrom(l, content, offset, o) ==> PayloadInBounds(l, content, o)
    decreases |content| - offset
  {
    if !IsRecord(l, content, offset) then []
    else
      VisitedStep(l, content, offset);
      (if DecodeAt(l, content, offset, decode).Some? then [offset] else []) +
      Recognised(l, content, offset + l.msgByteLen, decode)
  }

  lemma VisitedStep(l: Layout, content: seq<byte>, offset: nat)
    requires ValidLayout(l) && IsRecord(l, content, offset)
    ensures VisitedFrom(l, content, offset, offset)
    ensures forall o :: VisitedFrom(l, content, offset + l.msgByteLen, o) ==> VisitedFrom(l, content, offset, o)
  {
  }

  /**
    The loop visits exactly the records at `start + k * MSG_BYTE_LEN`: from offset 0
    these are the whole records at multiples of the record width.
  */
  lemma {:induction false} VisitedAreAligned(l: Layout, content: seq<byte>, start: nat, o: nat)
    requires ValidLayout(l)
    ensures VisitedFrom(l, content, start, o) <==>
            start <= o && (o - start) % l.msgByteLen == 0 && IsRecord(l, content, o)
    decreases |content| - start
  {
    var m := l.msgByteLen;
    if IsRecord(l, content, start) {
      VisitedAreAligned(l, content, start + m, o);
      if start <= o {
        AlignedStep(o - start, m);
        assert (o - start) - m == o - (start + m);
      }
    }
  }

  // ---------------------------------------------------------------------------
  // parse_log_file
  // ---------------------------------------------------------------------------

  /**
    One turn of parse_log_file's loop on the whole record at `offset`: reads
    the timestamp, the raw id and the DLC, slices the payload (failing when
    it leaves the buffer), masks the id and asks the decoder.
  */
  method ReadRecord(l: Layout, content: seq<byte>, offset: nat, decode: Decoder)
    returns (res: Result<Option<ParsedMessage>, ParseError>)
    requires ValidLayout(l) && IsRecord(l, content, offset)
    ensures res.Err? <==> !PayloadInBounds(l, content, offset)
    ensures res.Err? ==> res.error == PayloadOutOfBounds(offset, Dlc(l, content, offset))
    ensures res.Ok? ==> PayloadInBounds(l, content, offset) &&
                        (if res.value.Some? then [res.value.value] else []) == Contribution(l, content, offset, decode)
  {
    var timestamp := LeU32(content[offset + l.frameTypeOffset .. offset + l.timestampOffset]);
    var canId := LeU32(content[offset + l.timestampOffset .. offset + l.idOffset]);
    var dlc := content[offset + l.dlcOffset];
    if offset + l.dataOffset + dlc > |content| {
      return Err(PayloadOutOfBounds(offset, dlc));
    }
    var data := content[offset + l.dataOffset .. offset + l.dataOffset + dlc];
    var arbId := ArbitrationId(canId);
    match decode(arbId, data) {
      case Some(decoded) =>
        res := Ok(Some(ParsedMessage(timestamp, Some(decoded))));
      case None =>
        res := Ok(None);
    }
  }

  /**
    parse_log_file on the bytes of one file: visits the records at offsets
    0, MSG_BYTE_LEN, 2*MSG_BYTE_LEN, ... while a whole record remains, and keeps
    the frames the decoder recognises. A DLC reaching past the buffer makes the
    source's slice panic, modelled as Err.
  */
  method ParseLogFile(l: Layout, content: seq<byte>, decode: Decoder)
    returns (r: Result<seq<ParsedMessage>, ParseError>)
    requires ValidLayout(l)
    ensures r == ParseFrom(l, content, 0, decode)
    ensures |content| < l.msgByteLen ==> r == Ok([])
    ensures r.Ok? ==> |r.value| <= |content| / l.msgByteLen
    ensures r.Ok? ==> forall m :: m in r.value ==> m.decoded.Some?
  {
    var offset := 0;
    var parsed: seq<ParsedMessage> := [];
    ParseFromFacts(l, content, decode);
    ghost var whole := ParseFrom(l, content, 0, decode);
    PrependEmpty(whole);
    while offset + l.msgByteLen <= |content|
      invariant whole == Prepend(parsed, ParseFrom(l, content, offset, decode))
      decreases |content| - offset
    {
      var record := ReadRecord(l, content, offset, decode);
      if record.Err? {
        ParseFromBad(l, content, offset, decode);
        return Err(record.error);
      }
      ghost var here, before := offset, parsed;
      offset := offset + l.msgByteLen;
      if record.value.Some? {
        parsed := parsed + [record.value.value];
      }
      ParseFromStep(l, content, here, offset, decode, before, parsed);
    }
    assert parsed + [] == parsed;
    r := Ok(parsed);
  }

  /** What the decode of a whole file promises beyond its definition. */
  lemma ParseFromFacts(l: Layout, content: seq<byte>, decode: Decoder)
    requires ValidLayout(l)
    ensures |content| < l.msgByteLen ==> ParseFrom(l, content, 0, decode) == Ok([])
    ensures ParseFrom(l, content, 0, decode).Ok? ==>
              |ParseFrom(l, content, 0, decode).value| <= |content| / l.msgByteLen
    ensures ParseFrom(l, content, 0, decode).Ok? ==>
              forall m :: m in ParseFrom(l, content, 0, decode).value ==> m.decoded.Some?
  {
    if ParseFrom(l, content, 0, decode).Ok? {
      ParseOutputBound(l, content, 0, decode);
      RecordsFromCount(l, content, 0);
      AllDecoded(l, content, 0, decode);
    }
  }

  /** Every message of a successful decode carries a decoded payload. */
  lemma {:induction false} AllDecoded(l: Layout, content: seq<byte>, offset: nat, decode: Decoder)
    requires ValidLayout(l) && ParseFrom(l, content, offset, decode).Ok?
    ensures forall m :: m in ParseFrom(l, content, offset, decode).value ==> m.decoded.Some?
    decreases |content| - offset
  {
    if IsRecord(l, content, offset) {
      var next := offset + l.msgByteLen;
      ParseFromOk(l, content, offset, next, decode);
      AllDecoded(l, content, next, decode);
    }
  }

  /** The number of whole records from `offset` to the end of the buffer. */
  function RecordsFrom(l: Layout, content: seq<byte>, offset: nat): nat
    requires ValidLayout(l)
    decreases |content| - offset
  {
    if !IsRecord(l, content, offset) then 0 else 1 + RecordsFrom(l, content, offset + l.msgByteLen)
  }

  lemma RecordsFromStep(l: Layout, content: seq<byte>, offset: nat, next: nat)
    requires ValidLayout(l) && IsRecord(l, content, offset) && next == offset + l.msgByteLen
    ensures RecordsFrom(l, content, offset) == 1 + RecordsFrom(l, content, next)
  {
  }

  /** From `offset` the loop runs `(len - offset) / MSG_BYTE_LEN` times; a trailing fragment adds nothing. */
  lemma {:induction false} RecordsFromCount(l: Layout, content: seq<byte>, offset: nat)
    requires ValidLayout(l) && offset <= |content|
    ensures RecordsFrom(l, content, offset) == (|content| - offset) / l.msgByteLen
    decreases |content| - offset
  {
    var m := l.msgByteLen;
    if IsRecord(l, content, offset) {
      RecordsFromCount(l, content, offset + m);
      DivStep(|content| - offset, m);
    } else {
      DivUnique(|content| - offset, m, 0, |content| - offset);
    }
  }

  /** A successful decode yields at most one message per whole record. */
  lemma {:induction false} ParseOutputBound(l: Layout, content: seq<byte>, offset: nat, decode: Decoder)
    requires ValidLayout(l) && ParseFrom(l, content, offset, decode).Ok?
    ensures |ParseFrom(l, content, offset, decode).value| <= RecordsFrom(l, content, offset)
    decreases |content| - offset
  {
    if IsRecord(l, content, offset) {
      var next := offset + l.msgByteLen;
      ParseFromOk(l, content, offset, next, decode);
      ParseOutputBound(l, content, next, decode);
      RecordsFromStep(l, content, offset, next);
    }
  }

  /** Decoding succeeds exactly when every visited record's payload lies inside the buffer. */
  lemma {:induction false} ParseOkIffPayloadsInBounds(l: Layout, content: seq<byte>, offset: nat, decode: Decoder)
    requires ValidLayout(l)
    ensures ParseFrom(l, content, offset, decode).Ok? <==>
            forall o :: VisitedFrom(l, content, offset, o) ==> PayloadInBounds(l, content, o)
    decreases |content| - offset
  {
    if IsRecord(l, content, offset) {
      var next := offset + l.msgByteLen;
      ParseOkIffPayloadsInBounds(l, content, next, decode);
      VisitedStep(l, content, offset);
    }
  }

  /** `o` is the first record visited from `start` whose payload leaves the buffer. */
  ghost predicate FirstBadRecord(l: Layout, content: seq<byte>, start: nat, o: nat)
    requires ValidLayout(l)
  {
    && VisitedFrom(l, content, start, o)
    && !PayloadInBounds(l, content, o)
    && forall o': nat :: VisitedFrom(l, content, start, o') && o' < o ==> PayloadInBounds(l, content, o')
  }

  lemma FirstBadRecordHere(l: Layout, content: seq<byte>, start: nat)
    requires ValidLayout(l) && IsRecord(l, content, start) && !PayloadInBounds(l, content, start)
    ensures FirstBadRecord(l, content, start, start)
  {
    assert VisitedFrom(l, content, start, start);
  }

  lemma FirstBadRecordLater(l: Layout, content: seq<byte>, start: nat, next: nat, o: nat)
    requires ValidLayout(l) && IsRecord(l, content, start) && PayloadInBounds(l, content, start)
    requires next == start + l.msgByteLen && FirstBadRecord(l, content, next, o)
    ensures FirstBadRecord(l, content, start, o)
  {
    VisitedStep(l, content, start);
  }

  /** A failed decode reports the first visited record whose payload leaves the buffer. */
  lemma {:induction false} ParseFailsAtFirstBadRecord(l: Layout, content: seq<byte>, offset: nat, decode: Decoder)
    returns (o: nat)
    requires ValidLayout(l)
    requires ParseFrom(l, content, offset, decode).Err?
    ensures FirstBadRecord(l, content, offset, o)
    ensures VisitedFrom(l, content, offset, o) &&
            ParseFrom(l, content, offset, decode).error == PayloadOutOfBounds(o, Dlc(l, content, o))
    decreases |content| - offset
  {
    if PayloadInBounds(l, content, offset) {
      var next := offset + l.msgByteLen;
      o := ParseFailsAtFirstBadRecord(l, content, next, decode);
      FirstBadRecordLater(l, content, offset, next, o);
      ParseFromStep(l, content, offset, next, decode, [], Contribution(l, content, offset, decode));
      PrependEmpty(ParseFrom(l, content, offset, decode));
    } else {
      o := offset;
      FirstBadRecordHere(l, content, offset);
    }
  }

  /** `ms` lists, one for one, the records at the offsets `kept`, each with its timestamp and decoded message. */
  ghost predicate ListsRecords(l: Layout, content: seq<byte>, start: nat, decode: Decoder,
                               ms: seq<ParsedMessage>, kept: seq<nat>)
    requires ValidLayout(l)
  {
    && |ms| == |kept|
    && forall j :: 0 <= j < |kept| ==>
         && VisitedFrom(l, content, start, kept[j])
         && PayloadInBounds(l, content, kept[j])
         && ms[j] == ParsedMessage(Timestamp(l, content, kept[j]), DecodeAt(l, content, kept[j], decode))
  }

  lemma RecognisedStep(l: Layout, content: seq<byte>, offset: nat, next: nat, decode: Decoder)
    requires ValidLayout(l) && IsRecord(l, content, offset) && next == offset + l.msgByteLen
    requires forall o :: VisitedFrom(l, content, offset, o) ==> PayloadInBounds(l, content, o)
    ensures forall o :: VisitedFrom(l, content, next, o) ==> PayloadInBounds(l, content, o)
    ensures Recognised(l, content, offset, decode) ==
            (if DecodeAt(l, content, offset, decode).Some? then [offset] else []) + Recognised(l, content, next, decode)
  {
    VisitedStep(l, content, offset);
  }

  /**
    A successful decode lists, in record order, exactly the recognised
    records, each with its own timestamp and decoded message.
  */
  lemma {:induction false} ParseKeepsRecognisedRecords(l: Layout, content: seq<byte>, offset: nat, decode: Decoder)
    requires ValidLayout(l)
    requires ParseFrom(l, content, offset, decode).Ok?
    ensures forall o :: VisitedFrom(l, content, offset, o) ==> PayloadInBounds(l, content, o)
    ensures ListsRecords(l, content, offset, decode, ParseFrom(l, content, offset, decode).value,
                         Recognised(l, content, offset, decode))
    decreases |content| - offset
  {
    ParseOkIffPayloadsInBounds(l, content, offset, decode);
    if IsRecord(l, content, offset) {
      var next := offset + l.msgByteLen;
      ParseFromOk(l, content, offset, next, decode);
      RecognisedStep(l, content, offset, next, decode);
      ParseKeepsRecognisedRecords(l, content, next, decode);
      ListsRecordsStep(l, content, offset, next, decode,
                       ParseFrom(l, content, next, decode).value, Recognised(l, content, next, decode));
    }
  }

  /** Prepending the record at `offset` to a listing of the later records. */
  lemma ListsRecordsStep(l: Layout, content: seq<byte>, offset: nat, next: nat, decode: Decoder,
                         ms: seq<ParsedMessage>, kept: seq<nat>)
    requires ValidLayout(l) && IsRecord(l, content, offset) && PayloadInBounds(l, content, offset)
    requires next == offset + l.msgByteLen
    requires ListsRecords(l, content, next, decode, ms, kept)
    ensures ListsRecords(l, content, offset, decode, Contribution(l, content, offset, decode) + ms,
                         (if DecodeAt(l, content, offset, decode).Some? then [offset] else []) + kept)
  {
    VisitedStep(l, content, offset);
    var c := Contribution(l, content, offset, decode);
    var ms', kept' := c + ms, (if DecodeAt(l, content, offset, decode).Some? then [offset] else []) + kept;
    forall j | 0 <= j < |kept'|
      ensures VisitedFrom(l, content, offset, kept'[j]) && PayloadInBounds(l, content, kept'[j])
      ensures ms'[j] == ParsedMessage(Timestamp(l, content, kept'[j]), DecodeAt(l, content, kept'[j], decode))
    {
      if j >= |c| {
        assert ms'[j] == ms[j - |c|] && kept'[j] == kept[j - |c|];
      }
    }
  }

  /** The recognised offsets are exactly the visited records the decoder accepts. */
  lemma {:induction false} RecognisedAreAccepted(l: Layout, content: seq<byte>, offset: nat, decode: Decoder)
    requires ValidLayout(l)
    requires forall o :: VisitedFrom(l, content, offset, o) ==> PayloadInBounds(l, content, o)
    ensures forall o :: o in Recognised(l, content, offset, decode) <==>
              VisitedFrom(l, content, offset, o) && DecodeAt(l, content, o, decode).Some?
    decreases |content| - offset
  {
    if IsRecord(l, content, offset) {
      var next := offset + l.msgByteLen;
      RecognisedStep(l, content, offset, next, decode);
      RecognisedAreAccepted(l, content, next, decode);
      var head := if DecodeAt(l, content, offset, decode).Some? then [offset] else [];
      var rest := Recognised(l, content, next, decode);
      forall o ensures o in head + rest <==> VisitedFrom(l, content, offset, o) && DecodeAt(l, content, o, decode).Some? {
        assert o in head + rest <==> o in head || o in rest;
        assert VisitedFrom(l, content, offset, o) <==> o == offset || VisitedFrom(l, content, next, o);
      }
    }
  }

  /** The recognised offsets strictly ascend, as the loop visits them. */
  lemma {:induction false} RecognisedAscend(l: Layout, content: seq<byte>, offset: nat, decode: Decoder)
    requires ValidLayout(l)
    requires forall o :: VisitedFrom(l, content, offset, o) ==> PayloadInBounds(l, content, o)
    ensures var kept := Recognised(l, content, offset, decode);
            forall i, j :: 0 <= i < j < |kept| ==> kept[i] < kept[j]
    decreases |content| - offset
  {
    if IsRecord(l, content, offset) {
      var next := offset + l.msgByteLen;
      RecognisedStep(l, content, offset, next, decode);
      RecognisedAscend(l, content, next, decode);
      RecognisedAreAccepted(l, content, next, decode);
      var head := if DecodeAt(l, content, offset, decode).Some? then [offset] else [];
      var rest := Recognised(l, content, next, decode);
      forall j | 0 <= j < |rest| ensures offset < rest[j] {
        assert rest[j] in rest;
        assert VisitedFrom(l, content, next, rest[j]);
      }
      AscendPrepend(head, offset, rest);
    }
  }

  /** Prepending at most one element below every later one keeps a sequence ascending. */
  lemma AscendPrepend(head: seq<nat>, x: nat, rest: seq<nat>)
    requires head == [] || head == [x]
    requires forall i, j :: 0 <= i < j < |rest| ==> rest[i] < rest[j]
    requires forall j :: 0 <= j < |rest| ==> x < rest[j]
    ensures forall i, j :: 0 <= i < j < |head + rest| ==> (head + rest)[i] < (head + rest)[j]
  {
    if head == [x] {
      forall i, j | 0 <= i < j < |head + rest| ensures (head + rest)[i] < (head + rest)[j] {
        assert (head + rest)[j] == rest[j - 1];
        if i > 0 {
          assert (head + rest)[i] == rest[i - 1];
        }
      }
    } else {
      assert head + rest == rest;
    }
  }

  // ---------------------------------------------------------------------------
  // chunk_parsed
  // ---------------------------------------------------------------------------

  /** Sort key of `chunk.sort_by_key(|m| m.timestamp)`. */
  function Ts(m: ParsedMessage): int {
    m.timestamp
  }

  /** The cut rule: a timestamp regression or a forward jump larger than `maxJump`. */
  predicate IsCut(prev: u32, next: u32, maxJump: nat) {
    next < prev || next - prev > maxJump
  }

  /** Message `i` of `c` follows message `i - 1` without a cut. */
  predicate Continues(c: seq<ParsedMessage>, i: nat, maxJump: nat)
    requires 0 < i < |c|
  {
    !IsCut(c[i - 1].timestamp, c[i].timestamp, maxJump)
  }

  /** Within a session no message is a cut from its predecessor. */
  ghost predicate InSession(c: seq<ParsedMessage>, maxJump: nat) {
    forall i: nat :: 0 < i < |c| ==> Continues(c, i, maxJump)
  }

  function Flatten<T>(cs: seq<seq<T>>): seq<T> {
    if cs == [] then [] else Flatten(cs[..|cs| - 1]) + cs[|cs| - 1]
  }

  function Last<T>(s: seq<T>): T
    requires s != []
  {
    s[|s| - 1]
  }

  /**
    `chunks` splits `parsed` into sessions: concatenated they give `parsed`,
    none is empty, none holds a cut, and each one after the first starts at a cut.
  */
  ghost predicate IsSessionSplit(parsed: seq<ParsedMessage>, chunks: seq<seq<ParsedMessage>>, maxJump: nat) {
    && Flatten(chunks) == parsed
    && (forall j :: 0 <= j < |chunks| ==> chunks[j] != [] && InSession(chunks[j], maxJump))
    && (forall j: nat :: 0 < j < |chunks| ==> StartsAtCut(chunks, j, maxJump))
  }

  /** Chunk `j` of `chunks` starts at a cut after the last message of chunk `j - 1`. */
  ghost predicate StartsAtCut(chunks: seq<seq<ParsedMessage>>, j: nat, maxJump: nat)
    requires 0 < j < |chunks|
  {
    chunks[j - 1] != [] && chunks[j] != [] &&
    IsCut(Last(chunks[j - 1]).timestamp, chunks[j][0].timestamp, maxJump)
  }

  lemma FlattenAppend<T>(cs: seq<seq<T>>, c: seq<T>)
    ensures Flatten(cs + [c]) == Flatten(cs) + c
  {
    assert (cs + [c])[..|cs|] == cs;
  }

  /** A session is sorted by timestamp. */
  lemma {:induction false} SessionIsSorted(c: seq<ParsedMessage>, maxJump: nat)
    requires InSession(c, maxJump)
    ensures Sorting.SortedBy(c, Ts)
    decreases |c|
  {
    if |c| > 1 {
      var init := c[..|c| - 1];
      forall k: nat | 0 < k < |init| ensures Continues(init, k, maxJump) {
        assert Continues(c, k, maxJump);
      }
      SessionIsSorted(init, maxJump);
      assert Continues(c, |c| - 1, maxJump);
      assert Ts(c[|c| - 2]) <= Ts(c[|c| - 1]);
      forall i, j | 0 <= i < j < |c| ensures Ts(c[i]) <= Ts(c[j]) {
        if j < |c| - 1 {
          assert Ts(init[i]) <= Ts(init[j]);
        } else if i < |c| - 2 {
          assert Ts(init[i]) <= Ts(init[|c| - 2]);
        }
      }
    }
  }

  /**
    The state of the chunking loop after the first `i` messages: the closed
    chunks and the open one together are `parsed[..i]`; the open one is empty
    only before the first message and ends with `parsed[i - 1]`; the closed
    chunks are non-empty sessions, each one after the first starting at a
    cut, and the open one starts at a cut after the last closed one.
  */
  ghost predicate ChunkerState(parsed: seq<ParsedMessage>, i: nat, chunks: seq<seq<ParsedMessage>>,
                               current: seq<ParsedMessage>, maxJump: nat)
  {
    && i <= |parsed|
    && Flatten(chunks) + current == parsed[..i]
    && (i == 0 <==> current == [])
    && (i > 0 ==> Last(current) == parsed[i - 1])
    && InSession(current, maxJump)
    && (forall j :: 0 <= j < |chunks| ==> chunks[j] != [] && InSession(chunks[j], maxJump))
    && (forall j: nat :: 0 < j < |chunks| ==> StartsAtCut(chunks, j, maxJump))
    && (chunks != [] ==>
          current != [] && IsCut(Last(chunks[|chunks| - 1]).timestamp, current[0].timestamp, maxJump))
  }

  /** Message `i` starts a new chunk: the open chunk is closed and `[parsed[i]]` opened. */
  lemma CutStep(parsed: seq<ParsedMessage>, i: nat, chunks: seq<seq<ParsedMessage>>,
                current: seq<ParsedMessage>, maxJump: nat)
    requires ChunkerState(parsed, i, chunks, current, maxJump)
    requires 0 < i < |parsed| && IsCut(parsed[i - 1].timestamp, parsed[i].timestamp, maxJump)
    ensures ChunkerState(parsed, i + 1, chunks + [current], [parsed[i]], maxJump)
  {
    var chunks' := chunks + [current];
    FlattenAppend(chunks, current);
    assert parsed[..i + 1] == parsed[..i] + [parsed[i]];
    forall j: nat | 0 < j < |chunks'| ensures StartsAtCut(chunks', j, maxJump) {
      if j < |chunks| {
        assert StartsAtCut(chunks, j, maxJump);
        assert chunks'[j - 1] == chunks[j - 1] && chunks'[j] == chunks[j];
      }
    }
  }

  /** Message `i` continues the open chunk. */
  lemma ExtendStep(parsed: seq<ParsedMessage>, i: nat, chunks: seq<seq<ParsedMessage>>,
                   current: seq<ParsedMessage>, maxJump: nat)
    requires ChunkerState(parsed, i, chunks, current, maxJump)
    requires i < |parsed| && (i == 0 || !IsCut(parsed[i - 1].timestamp, parsed[i].timestamp, maxJump))
    ensures ChunkerState(parsed, i + 1, chunks, current + [parsed[i]], maxJump)
  {
    var current' := current + [parsed[i]];
    assert parsed[..i + 1] == parsed[..i] + [parsed[i]];
    assert Flatten(chunks) + current' == (Flatten(chunks) + current) + [parsed[i]];
    forall k: nat | 0 < k < |current'| ensures Continues(current', k, maxJump) {
      if k < |current| {
        assert Continues(current, k, maxJump);
        assert current'[k - 1] == current[k - 1] && current'[k] == current[k];
      }
    }
  }

  /** Closing the open chunk at the end yields a session split of the whole input. */
  lemma FinishStep(parsed: seq<ParsedMessage>, chunks: seq<seq<ParsedMessage>>,
                   current: seq<ParsedMessage>, maxJump: nat)
    requires ChunkerState(parsed, |parsed|, chunks, current, maxJump)
    ensures current != [] ==> IsSessionSplit(parsed, chunks + [current], maxJump)
    ensures current == [] ==> parsed == [] && chunks == []
  {
    assert parsed[..|parsed|] == parsed;
    if current != [] {
      var chunks' := chunks + [current];
      FlattenAppend(chunks, current);
      forall j: nat | 0 < j < |chunks'| ensures StartsAtCut(chunks', j, maxJump) {
        if j < |chunks| {
          assert StartsAtCut(chunks, j, maxJump);
          assert chunks'[j - 1] == chunks[j - 1] && chunks'[j] == chunks[j];
        }
      }
    }
  }

  /** The final loop of chunk_parsed: each chunk is sorted (stably) by timestamp, in place. */
  method SortEachChunk(chunks: seq<seq<ParsedMessage>>) returns (sorted: seq<seq<ParsedMessage>>)
    ensures |sorted| == |chunks|
    ensures forall j :: 0 <= j < |chunks| ==> sorted[j] == Sorting.SortBy(chunks[j], Ts)
  {
    sorted := chunks;
    for k := 0 to |sorted|
      invariant |sorted| == |chunks|
      invariant forall j :: 0 <= j < k ==> sorted[j] == Sorting.SortBy(chunks[j], Ts)
      invariant forall j :: k <= j < |chunks| ==> sorted[j] == chunks[j]
    {
      sorted := sorted[k := Sorting.SortBy(sorted[k], Ts)];
    }
  }

  /** Sorting sessions changes none of them, and each is then sorted. */
  lemma SortingSessionsIsIdentity(chunks: seq<seq<ParsedMessage>>, sorted: seq<seq<ParsedMessage>>, maxJump: nat)
    requires forall j :: 0 <= j < |chunks| ==> InSession(chunks[j], maxJump)
    requires |sorted| == |chunks|
    requires forall j :: 0 <= j < |chunks| ==> sorted[j] == Sorting.SortBy(chunks[j], Ts)
    ensures sorted == chunks
    ensures forall j :: 0 <= j < |sorted| ==> Sorting.SortedBy(sorted[j], Ts)
  {
    forall j | 0 <= j < |chunks| ensures sorted[j] == chunks[j] && Sorting.SortedBy(sorted[j], Ts) {
      SessionIsSorted(chunks[j], maxJump);
      Sorting.SortBySortedIsIdentity(chunks[j], Ts);
    }
  }

  /**
    chunk_parsed: cuts the message sequence into sessions, then sorts each
    session by timestamp. Every session is already sorted, so the (stable)
    sort leaves it unchanged and the sessions concatenate to the input.
  */
  method ChunkParsed(parsed: seq<ParsedMessage>, maxJump: nat) returns (chunks: seq<seq<ParsedMessage>>)
    ensures IsSessionSplit(parsed, chunks, maxJump)
    ensures forall j :: 0 <= j < |chunks| ==> Sorting.SortedBy(chunks[j], Ts)
    ensures parsed == [] <==> chunks == []
  {
    chunks := [];
    var current: seq<ParsedMessage> := [];
    var lastTimestamp: Option<u32> := None;
    for i := 0 to |parsed|
      invariant ChunkerState(parsed, i, chunks, current, maxJump)
      invariant lastTimestamp == if i == 0 then None else Some(parsed[i - 1].timestamp)
    {
      var msg := parsed[i];
      if lastTimestamp.Some? &&
         (msg.timestamp < lastTimestamp.value || msg.timestamp - lastTimestamp.value > maxJump) &&
         current != []
      {
        CutStep(parsed, i, chunks, current, maxJump);
        chunks := chunks + [current];
        current := [msg];
      } else {
        ExtendStep(parsed, i, chunks, current, maxJump);
        current := current + [msg];
      }
      lastTimestamp := Some(msg.timestamp);
    }
    FinishStep(parsed, chunks, current, maxJump);
    if current != [] {
      chunks := chunks + [current];
    }

    ghost var unsorted := chunks;
    chunks := SortEachChunk(chunks);
    SortingSessionsIsIdentity(unsorted, chunks, maxJump);
  }

  /**
    The last chunk of a session split starts at `n`: the other chunks split
    `parsed[..n]`, and when there are other chunks, `n` is a cut.
  */
  lemma SplitLast(parsed: seq<ParsedMessage>, chunks: seq<seq<ParsedMessage>>, maxJump: nat) returns (n: nat)
    requires IsSessionSplit(parsed, chunks, maxJump) && chunks != []
    ensures n < |parsed| && Last(chunks) == parsed[n..]
    ensures IsSessionSplit(parsed[..n], chunks[..|chunks| - 1], maxJump)
    ensures |chunks| > 1 ==> n > 0 && IsCut(parsed[n - 1].timestamp, parsed[n].timestamp, maxJump)
    ensures forall p :: n < p < |parsed| ==> !IsCut(parsed[p - 1].timestamp, parsed[p].timestamp, maxJump)
  {
    var init, last := chunks[..|chunks| - 1], Last(chunks);
    assert Flatten(chunks) == Flatten(init) + last;
    n := |Flatten(init)|;
    assert parsed[..n] == Flatten(init) && parsed[n..] == last;
    forall j | 0 <= j < |init| ensures init[j] != [] && InSession(init[j], maxJump) {
      assert init[j] == chunks[j];
    }
    forall j: nat | 0 < j < |init| ensures StartsAtCut(init, j, maxJump) {
      assert StartsAtCut(chunks, j, maxJump);
      assert init[j - 1] == chunks[j - 1] && init[j] == chunks[j];
    }
    if |chunks| > 1 {
      var prev := init[|init| - 1];
      assert StartsAtCut(chunks, |chunks| - 1, maxJump);
      assert Flatten(init) == Flatten(init[..|init| - 1]) + prev;
      assert parsed[n - 1] == Last(prev);
    }
    forall p | n < p < |parsed| ensures !IsCut(parsed[p - 1].timestamp, parsed[p].timestamp, maxJump) {
      assert InSession(chunks[|chunks| - 1], maxJump);
      assert Continues(last, p - n, maxJump);
      assert last[p - n - 1] == parsed[p - 1] && last[p - n] == parsed[p];
    }
  }

  /** The session split of a message sequence is unique: the cuts alone decide it. */
  lemma {:induction false} SessionSplitUnique(parsed: seq<ParsedMessage>, a: seq<seq<ParsedMessage>>,
                                              b: seq<seq<ParsedMessage>>, maxJump: nat)
    requires IsSessionSplit(parsed, a, maxJump) && IsSessionSplit(parsed, b, maxJump)
    ensures a == b
    decreases |parsed|
  {
    if a == [] || b == [] {
      if a != [] {
        var n := SplitLast(parsed, a, maxJump);
      } else if b != [] {
        var n := SplitLast(parsed, b, maxJump);
      }
    } else {
      var na := SplitLast(parsed, a, maxJump);
      var nb := SplitLast(parsed, b, maxJump);
      assert na == nb;
      SessionSplitUnique(parsed[..na], a[..|a| - 1], b[..|b| - 1], maxJump);
      assert a == a[..|a| - 1] + [Last(a)] && b == b[..|b| - 1] + [Last(b)];
    }
  }

  /** Messages with the given timestamps (their decoded part plays no role in chunking). */
  function Stamped(ts: seq<u32>): (ms: seq<ParsedMessage>)
    ensures |ms| == |ts| && forall i :: 0 <= i < |ts| ==> ms[i].timestamp == ts[i]
  {
    seq(|ts|, i requires 0 <= i < |ts| => ParsedMessage(ts[i], None))
  }

  /** A forward jump over `MAX_JUMP_MS` (here 1000) starts a new chunk. */
  lemma ChunkExampleJump(chunks: seq<seq<ParsedMessage>>)
    requires IsSessionSplit(Stamped([0, 10, 20, 10050]), chunks, 1000)
    ensures chunks == [Stamped([0, 10, 20]), Stamped([10050])]
  {
    var expected := [Stamped([0, 10, 20]), Stamped([10050])];
    assert Flatten(expected) == Flatten([Stamped([0, 10, 20])]) + Stamped([10050]);
    assert Flatten([Stamped([0, 10, 20])]) == Flatten([]) + Stamped([0, 10, 20]);
    assert Flatten(expected) == Stamped([0, 10, 20, 10050]);
    assert StartsAtCut(expected, 1, 1000);
    assert InSession(expected[0], 1000) by {
      forall i: nat | 0 < i < |expected[0]| ensures Continues(expected[0], i, 1000) {
      }
    }
    SessionSplitUnique(Stamped([0, 10, 20, 10050]), chunks, expected, 1000);
  }

  /** A timestamp regression starts a new chunk. */
  lemma ChunkExampleRegression(chunks: seq<seq<ParsedMessage>>)
    requires IsSessionSplit(Stamped([100, 50, 60]), chunks, 1000)
    ensures chunks == [Stamped([100]), Stamped([50, 60])]
  {
    var expected := [Stamped([100]), Stamped([50, 60])];
    assert Flatten(expected) == Flatten([Stamped([100])]) + Stamped([50, 60]);
    assert Flatten([Stamped([100])]) == Flatten([]) + Stamped([100]);
    assert Flatten(expected) == Stamped([100, 50, 60]);
    assert StartsAtCut(expected, 1, 1000);
    assert InSession(expected[1], 1000) by {
      forall i: nat | 0 < i < |expected[1]| ensures Continues(expected[1], i, 1000) {
      }
    }
    SessionSplitUnique(Stamped([100, 50, 60]), chunks, expected, 1000);
  }
}
