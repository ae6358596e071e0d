/** Walking a serialized Nakamoto block to its transactions, fail-closed. */
module NakamotoBlock {
  import opened Wire
  import opened Wrappers

  const FIXED_HEADER_BYTES := 206
  const MESSAGE_SIGNATURE_BYTES := 65
  const PROBLEMATIC_TX_MARKER_BYTES := 5

  datatype WalkError = EndedMidHeader | Undeserializable(index: nat) | NotConsumedExactly

  /** `fixed` is the fixed-width rest of the prefix; the marker list exists from header version 1 on. */
  datatype Header = Header(version: Byte, fixed: Bytes, signatures: seq<Bytes>, bitLength: Bytes, bitvec: Bytes,
                           markers: seq<Bytes>)

  predicate HasMarkers(version: Byte) {
    version % 128 >= 1
  }

  predicate ValidHeader(h: Header) {
    && |h.fixed| == FIXED_HEADER_BYTES - 1
    && |h.signatures| < U32_LIMIT
    && (forall i :: 0 <= i < |h.signatures| ==> |h.signatures[i]| == MESSAGE_SIGNATURE_BYTES)
    && |h.bitLength| == 2 && |h.bitvec| < U32_LIMIT
    && |h.markers| < U32_LIMIT && (forall i :: 0 <= i < |h.markers| ==> |h.markers[i]| == PROBLEMATIC_TX_MARKER_BYTES)
    && (!HasMarkers(h.version) ==> h.markers == [])
  }

  function SerializeSignatures(h: Header): Bytes
    requires ValidHeader(h)
  {
    [h.version] + h.fixed + U32(|h.signatures|) + Concat(h.signatures)
  }

  function SerializeBitvec(h: Header): Bytes
    requires ValidHeader(h)
  {
    h.bitLength + U32(|h.bitvec|) + h.bitvec
  }

  function SerializeMarkers(h: Header): Bytes
    requires ValidHeader(h)
  {
    if HasMarkers(h.version) then U32(|h.markers|) + Concat(h.markers) else []
  }

  function SerializeHeader(h: Header): Bytes
    requires ValidHeader(h)
  {
    SerializeSignatures(h) + SerializeBitvec(h) + SerializeMarkers(h)
  }

  // ---------------------------------------------------------------------------------------------
  // The header walk
  // ---------------------------------------------------------------------------------------------

  /** Where a counted list of fixed-size parts ends, if the block holds it. */
  function SkipList(b: Bytes, offset: nat, size: nat): Option<nat> {
    if offset + 4 > |b| || offset + 4 + ReadU32(b, offset) * size > |b| then None
    else Some(offset + 4 + ReadU32(b, offset) * size)
  }

  /** Where the transaction array starts, field by field. */
  function HeaderEnd(b: Bytes): Option<nat> {
    var signatures := SkipList(b, FIXED_HEADER_BYTES, MESSAGE_SIGNATURE_BYTES);
    if signatures.None? then None
    else
      var bitvec := SkipList(b, signatures.value + 2, 1);
      if bitvec.None? then None
      else if HasMarkers(b[0]) then SkipList(b, bitvec.value, PROBLEMATIC_TX_MARKER_BYTES)
      else bitvec
  }

  /** `transactionArrayOffset`. */
  method TransactionArrayOffset(b: Bytes) returns (r: Result<nat, WalkError>)
    ensures r == if HeaderEnd(b).Some? then Ok(HeaderEnd(b).value) else Err(EndedMidHeader)
  {
    if FIXED_HEADER_BYTES + 4 > |b| {
      return Err(EndedMidHeader);
    }
    var version := b[0];
    var offset := FIXED_HEADER_BYTES;
    var signatures := ReadU32(b, offset);
    offset := offset + 4;
    if offset + signatures * MESSAGE_SIGNATURE_BYTES > |b| {
      return Err(EndedMidHeader);
    }
    offset := offset + signatures * MESSAGE_SIGNATURE_BYTES;
    if offset + 6 > |b| {
      return Err(EndedMidHeader);
    }
    offset := offset + 2;
    var bitvecBytes := ReadU32(b, offset);
    offset := offset + 4;
    if offset + bitvecBytes > |b| {
      return Err(EndedMidHeader);
    }
    offset := offset + bitvecBytes;
    if version % 128 >= 1 {
      if offset + 4 > |b| {
        return Err(EndedMidHeader);
      }
      var markers := ReadU32(b, offset);
      offset := offset + 4;
      if offset + markers * PROBLEMATIC_TX_MARKER_BYTES > |b| {
        return Err(EndedMidHeader);
      }
      offset := offset + markers * PROBLEMATIC_TX_MARKER_BYTES;
    }
    r := Ok(offset);
  }

  lemma SkipsList(before: Bytes, parts: seq<Bytes>, size: nat, after: Bytes)
    requires |parts| < U32_LIMIT && forall i :: 0 <= i < |parts| ==> |parts[i]| == size
    ensures SkipList(before + U32(|parts|) + Concat(parts) + after, |before|, size)
      == Some(|before| + 4 + |Concat(parts)|)
  {
    ConcatLength(parts, size);
    ReadsBack(before, |parts|, Concat(parts) + after);
    assert before + U32(|parts|) + Concat(parts) + after == before + U32(|parts|) + (Concat(parts) + after);
  }

  lemma SkipsBytes(before: Bytes, bytes: Bytes, after: Bytes)
    requires |bytes| < U32_LIMIT
    ensures SkipList(before + U32(|bytes|) + bytes + after, |before|, 1) == Some(|before| + 4 + |bytes|)
  {
    ReadsBack(before, |bytes|, bytes + after);
    assert before + U32(|bytes|) + bytes + after == before + U32(|bytes|) + (bytes + after);
  }

  /** The walk finds the end of any header, whatever follows it. */
  lemma HeaderWalkEnds(h: Header, rest: Bytes)
    requires ValidHeader(h)
    ensures HeaderEnd(SerializeHeader(h) + rest) == Some(|SerializeHeader(h)|)
  {
    hide ReadU32, Concat, U32;
    var a, v, m := SerializeSignatures(h), SerializeBitvec(h), SerializeMarkers(h);
    var b := SerializeHeader(h) + rest;
    var prefix := [h.version] + h.fixed;
    SkipsList(prefix, h.signatures, MESSAGE_SIGNATURE_BYTES, v + m + rest);
    assert b == prefix + U32(|h.signatures|) + Concat(h.signatures) + (v + m + rest);
    SkipsBytes(a + h.bitLength, h.bitvec, m + rest);
    assert b == a + h.bitLength + U32(|h.bitvec|) + h.bitvec + (m + rest);
    assert b[0] == h.version;
    if HasMarkers(h.version) {
      SkipsList(a + v, h.markers, PROBLEMATIC_TX_MARKER_BYTES, rest);
      assert b == a + v + U32(|h.markers|) + Concat(h.markers) + rest;
    }
  }

  /** A list that is skipped is the serialization of its parts. */
  lemma SkippedIsList(b: Bytes, offset: nat, size: nat)
    requires SkipList(b, offset, size).Some?
    ensures var end := SkipList(b, offset, size).value;
      && offset + 4 <= end <= |b|
      && |b[offset + 4..end]| == ReadU32(b, offset) * size
      && b[offset..end] == U32(ReadU32(b, offset)) + Concat(Chunks(b[offset + 4..end], ReadU32(b, offset), size))
  {
    var count := ReadU32(b, offset);
    var end := SkipList(b, offset, size).value;
    assert |b[offset + 4..end]| == count * size;
    WritesBack(b, offset);
    ChunksJoin(b[offset + 4..end], count, size);
    assert b[offset..end] == b[offset..offset + 4] + b[offset + 4..end];
  }

  /** The header a walk has read. */
  function HeaderOf(b: Bytes): (h: Header)
    requires HeaderEnd(b).Some?
    ensures ValidHeader(h)
  {
    var signatures := SkipList(b, FIXED_HEADER_BYTES, MESSAGE_SIGNATURE_BYTES).value;
    var bitvec := SkipList(b, signatures + 2, 1).value;
    SkippedIsList(b, FIXED_HEADER_BYTES, MESSAGE_SIGNATURE_BYTES);
    SkippedIsList(b, signatures + 2, 1);
    Header(
      b[0], b[1..FIXED_HEADER_BYTES],
      Chunks(b[FIXED_HEADER_BYTES + 4..signatures], ReadU32(b, FIXED_HEADER_BYTES), MESSAGE_SIGNATURE_BYTES),
      b[signatures..signatures + 2],
      b[signatures + 6..bitvec],
      if HasMarkers(b[0]) then
        var end := HeaderEnd(b).value;
        SkippedIsList(b, bitvec, PROBLEMATIC_TX_MARKER_BYTES);
        Chunks(b[bitvec + 4..end], ReadU32(b, bitvec), PROBLEMATIC_TX_MARKER_BYTES)
      else [])
  }

  /** Whatever header the walk accepts is the serialization of the header it read. */
  lemma WalkedIsSerialized(b: Bytes)
    requires HeaderEnd(b).Some?
    ensures HeaderEnd(b).value <= |b| && SerializeHeader(HeaderOf(b)) == b[..HeaderEnd(b).value]
  {
    var h := HeaderOf(b);
    var signatures := SkipList(b, FIXED_HEADER_BYTES, MESSAGE_SIGNATURE_BYTES).value;
    var bitvec := SkipList(b, signatures + 2, 1).value;
    WalkedSignatures(b);
    WalkedBitvec(b);
    WalkedMarkers(b);
    assert b[..bitvec] == b[..signatures] + b[signatures..bitvec];
    hide SerializeSignatures, SerializeBitvec, SerializeMarkers, HeaderOf, SkipList;
    var end := HeaderEnd(b).value;
    assert b[..end] == b[..bitvec] + b[bitvec..end];
  }

  lemma WalkedSignatures(b: Bytes)
    requires HeaderEnd(b).Some?
    ensures var signatures := SkipList(b, FIXED_HEADER_BYTES, MESSAGE_SIGNATURE_BYTES).value;
      FIXED_HEADER_BYTES <= signatures <= |b| && SerializeSignatures(HeaderOf(b)) == b[..signatures]
  {
    hide ReadU32, Concat, U32, Chunks;
    var h := HeaderOf(b);
    var signatures := SkipList(b, FIXED_HEADER_BYTES, MESSAGE_SIGNATURE_BYTES).value;
    SkippedIsList(b, FIXED_HEADER_BYTES, MESSAGE_SIGNATURE_BYTES);
    assert [h.version] + h.fixed == b[..FIXED_HEADER_BYTES];
    assert b[..signatures] == b[..FIXED_HEADER_BYTES] + b[FIXED_HEADER_BYTES..signatures];
  }

  lemma WalkedBitvec(b: Bytes)
    requires HeaderEnd(b).Some?
    ensures var signatures := SkipList(b, FIXED_HEADER_BYTES, MESSAGE_SIGNATURE_BYTES).value;
      var bitvec := SkipList(b, signatures + 2, 1).value;
      signatures <= bitvec <= |b| && SerializeBitvec(HeaderOf(b)) == b[signatures..bitvec]
  {
    hide ReadU32, Concat, U32, Chunks;
    var signatures := SkipList(b, FIXED_HEADER_BYTES, MESSAGE_SIGNATURE_BYTES).value;
    var bitvec := SkipList(b, signatures + 2, 1).value;
    SkippedIsList(b, signatures + 2, 1);
    WritesBack(b, signatures + 2);
    assert b[signatures..bitvec] == b[signatures..signatures + 2] + b[signatures + 2..signatures + 6]
      + b[signatures + 6..bitvec];
  }

  lemma WalkedMarkers(b: Bytes)
    requires HeaderEnd(b).Some?
    ensures var signatures := SkipList(b, FIXED_HEADER_BYTES, MESSAGE_SIGNATURE_BYTES).value;
      var bitvec := SkipList(b, signatures + 2, 1).value;
      bitvec <= HeaderEnd(b).value <= |b| && SerializeMarkers(HeaderOf(b)) == b[bitvec..HeaderEnd(b).value]
  {
    hide ReadU32, Concat, U32, Chunks;
    var signatures := SkipList(b, FIXED_HEADER_BYTES, MESSAGE_SIGNATURE_BYTES).value;
    var bitvec := SkipList(b, signatures + 2, 1).value;
    if HasMarkers(b[0]) {
      SkippedIsList(b, bitvec, PROBLEMATIC_TX_MARKER_BYTES);
    }
  }

  // ---------------------------------------------------------------------------------------------
  // The transactions
  // ---------------------------------------------------------------------------------------------

  datatype Decoded<+T> = Decoded(tx: T, next: nat)

  /** The foreign transaction decoder, reading a block from an offset. */
  type Decoder<T> = (Bytes, nat) -> Option<Decoded<T>>

  datatype Walked<+T> = Walked(txs: seq<T>, end: nat)

  function WalkFrom<T>(decode: Decoder<T>, b: Bytes, offset: nat, count: nat, index: nat): Result<Walked<T>, WalkError>
    requires index <= count
    decreases count - index
  {
    if index == count then Ok(Walked([], offset))
    else
      var d := decode(b, offset);
      if d.None? then Err(Undeserializable(index))
      else
        var rest := WalkFrom(decode, b, d.value.next, count, index + 1);
        if rest.Err? then rest else Ok(Walked([d.value.tx] + rest.value.txs, rest.value.end))
  }

  /** All transactions of a block that is consumed to its last byte. */
  function ReadBlock<T>(decode: Decoder<T>, b: Bytes): Result<seq<T>, WalkError> {
    var start := HeaderEnd(b);
    if start.None? then Err(EndedMidHeader)
    else if start.value + 4 > |b| then Err(NotConsumedExactly)
    else
      var walked := WalkFrom(decode, b, start.value + 4, ReadU32(b, start.value), 0);
      if walked.Err? then Err(walked.error)
      else if walked.value.end != |b| then Err(NotConsumedExactly)
      else Ok(walked.value.txs)
  }

  /** A walk continued after `done`. */
  function Resume<T>(done: seq<T>, rest: Result<Walked<T>, WalkError>): Result<Walked<T>, WalkError> {
    if rest.Err? then rest else Ok(Walked(done + rest.value.txs, rest.value.end))
  }

  lemma ResumeStarts<T>(walk: Result<Walked<T>, WalkError>)
    ensures Resume([], walk) == walk
  {
    assert walk.Ok? ==> [] + walk.value.txs == walk.value.txs;
  }

  lemma ResumeSteps<T>(done: seq<T>, decode: Decoder<T>, b: Bytes, offset: nat, count: nat, index: nat)
    requires index < count
    ensures var walk := WalkFrom(decode, b, offset, count, index); var d := decode(b, offset);
      Resume(done, walk) == if d.None? then Err(Undeserializable(index))
        else Resume(done + [d.value.tx], WalkFrom(decode, b, d.value.next, count, index + 1))
  {
    var d := decode(b, offset);
    if d.Some? {
      var rest := WalkFrom(decode, b, d.value.next, count, index + 1);
      assert rest.Ok? ==> done + ([d.value.tx] + rest.value.txs) == (done + [d.value.tx]) + rest.value.txs;
    }
  }

  /** The walk behind `readNakamotoBlockTxids`, with its reader offset. */
  method ReadTransactions<T>(decode: Decoder<T>, b: Bytes) returns (r: Result<seq<T>, WalkError>)
    ensures r == ReadBlock(decode, b)
  {
    hide HeaderEnd, ReadU32;
    var start := TransactionArrayOffset(b);
    if start.Err? {
      return Err(start.error);
    }
    var readOffset: nat := start.value;
    // Past the end the reader yields no count; it moves on regardless and so fails the final check.
    if readOffset + 4 > |b| {
      return Err(NotConsumedExactly);
    }
    var count := ReadU32(b, readOffset);
    readOffset := readOffset + 4;
    var txs: seq<T> := [];
    ghost var whole := WalkFrom(decode, b, readOffset, count, 0);
    ResumeStarts(whole);
    for index := 0 to count
      invariant whole == Resume(txs, WalkFrom(decode, b, readOffset, count, index))
    {
      ResumeSteps(txs, decode, b, readOffset, count, index);
      var d := decode(b, readOffset);
      if d.None? {
        return Err(Undeserializable(index));
      }
      txs := txs + [d.value.tx];
      readOffset := d.value.next;
    }
    assert txs + [] == txs;
    if readOffset != |b| {
      return Err(NotConsumedExactly);
    }
    r := Ok(txs);
  }

  function LastMatch<T, I(==)>(txs: seq<T>, idOf: T -> I, id: I): Option<T> {
    if |txs| == 0 then None
    else if idOf(txs[|txs| - 1]) == id then Some(txs[|txs| - 1])
    else LastMatch(txs[..|txs| - 1], idOf, id)
  }

  /** `findNakamotoBlockTransaction`: the match is given only after the whole block was consumed. */
  method FindTransaction<T, I(==)>(decode: Decoder<T>, b: Bytes, idOf: T -> I, id: I)
    returns (r: Result<Option<T>, WalkError>)
    ensures r == if ReadBlock(decode, b).Err? then Err(ReadBlock(decode, b).error)
                 else Ok(LastMatch(ReadBlock(decode, b).value, idOf, id))
  {
    hide HeaderEnd, ReadU32;
    var start := TransactionArrayOffset(b);
    if start.Err? {
      return Err(start.error);
    }
    var readOffset: nat := start.value;
    if readOffset + 4 > |b| {
      return Err(NotConsumedExactly);
    }
    var count := ReadU32(b, readOffset);
    readOffset := readOffset + 4;
    var found: Option<T> := None;
    ghost var txs: seq<T> := [];
    ghost var whole := WalkFrom(decode, b, readOffset, count, 0);
    ResumeStarts(whole);
    for index := 0 to count
      invariant whole == Resume(txs, WalkFrom(decode, b, readOffset, count, index))
      invariant found == LastMatch(txs, idOf, id)
    {
      ResumeSteps(txs, decode, b, readOffset, count, index);
      var d := decode(b, readOffset);
      if d.None? {
        return Err(Undeserializable(index));
      }
      ghost var before := txs;
      txs := txs + [d.value.tx];
      assert txs[..|txs| - 1] == before;
      if idOf(d.value.tx) == id {
        found := Some(d.value.tx);
      }
      readOffset := d.value.next;
    }
    assert txs + [] == txs;
    if readOffset != |b| {
      return Err(NotConsumedExactly);
    }
    r := Ok(found);
  }

  /** A match is found exactly when the list holds the id. */
  lemma {:induction false} FoundExactlyWhenContained<T, I>(txs: seq<T>, idOf: T -> I, id: I)
    ensures LastMatch(txs, idOf, id).Some? <==> exists i :: 0 <= i < |txs| && idOf(txs[i]) == id
    ensures LastMatch(txs, idOf, id).Some? ==>
      LastMatch(txs, idOf, id).value in txs && idOf(LastMatch(txs, idOf, id).value) == id
  {
    if |txs| > 0 && idOf(txs[|txs| - 1]) != id {
      FoundExactlyWhenContained(txs[..|txs| - 1], idOf, id);
      assert forall i :: 0 <= i < |txs| - 1 ==> txs[..|txs| - 1][i] == txs[i];
    }
  }

  // ---------------------------------------------------------------------------------------------
  // Serialization and back
  // ---------------------------------------------------------------------------------------------

  function EncodeAll<T>(encode: T -> Bytes, txs: seq<T>): Bytes {
    if |txs| == 0 then [] else encode(txs[0]) + EncodeAll(encode, txs[1..])
  }

  function Serialize<T>(h: Header, encode: T -> Bytes, txs: seq<T>): Bytes
    requires ValidHeader(h) && |txs| < U32_LIMIT
  {
    SerializeHeader(h) + U32(|txs|) + EncodeAll(encode, txs)
  }

  /** The decoder reads an encoded transaction back wherever it stands. */
  ghost predicate Inverts<T(!new)>(decode: Decoder<T>, encode: T -> Bytes) {
    forall before, tx, after ::
      decode(before + encode(tx) + after, |before|) == Some(Decoded(tx, |before| + |encode(tx)|))
  }

  /** The decoder accepts nothing but encoded transactions. */
  ghost predicate Exact<T(!new)>(decode: Decoder<T>, encode: T -> Bytes) {
    forall b, offset: nat :: offset <= |b| && decode(b, offset).Some? ==>
      var d := decode(b, offset).value;
      offset <= d.next <= |b| && b[offset..d.next] == encode(d.tx)
  }

  lemma {:induction false} WalkInvertsEncoding<T(!new)>(decode: Decoder<T>, encode: T -> Bytes, before: Bytes,
                                                        txs: seq<T>,
                                                        count: nat, index: nat)
    requires Inverts(decode, encode) && index + |txs| == count
    ensures var b := before + EncodeAll(encode, txs);
      WalkFrom(decode, b, |before|, count, index) == Ok(Walked(txs, |b|))
    decreases |txs|
  {
    var b := before + EncodeAll(encode, txs);
    if |txs| > 0 {
      var head, rest := encode(txs[0]), EncodeAll(encode, txs[1..]);
      assert b == before + head + rest == (before + head) + rest;
      assert decode(before + head + rest, |before|) == Some(Decoded(txs[0], |before| + |head|));
      WalkInvertsEncoding(decode, encode, before + head, txs[1..], count, index + 1);
      assert txs == [txs[0]] + txs[1..];
    } else {
      assert b == before;
    }
  }

  /** Reading a serialized block gives back exactly its transactions, for every header version and list. */
  lemma BlockRoundTrip<T(!new)>(decode: Decoder<T>, encode: T -> Bytes, h: Header, txs: seq<T>)
    requires ValidHeader(h) && |txs| < U32_LIMIT && Inverts(decode, encode)
    ensures ReadBlock(decode, Serialize(h, encode, txs)) == Ok(txs)
  {
    hide SerializeHeader, U32, ReadU32, HeaderEnd;
    var b := Serialize(h, encode, txs);
    var header := SerializeHeader(h);
    HeaderWalkEnds(h, U32(|txs|) + EncodeAll(encode, txs));
    assert b == header + (U32(|txs|) + EncodeAll(encode, txs));
    ReadsBack(header, |txs|, EncodeAll(encode, txs));
    WalkInvertsEncoding(decode, encode, header + U32(|txs|), txs, |txs|, 0);
  }

  lemma {:induction false} WalkedIsEncoded<T(!new)>(decode: Decoder<T>, encode: T -> Bytes, b: Bytes, offset: nat,
                                                    count: nat, index: nat)
    requires Exact(decode, encode) && offset <= |b| && index <= count
    requires WalkFrom(decode, b, offset, count, index).Ok?
    ensures var w := WalkFrom(decode, b, offset, count, index).value;
      && |w.txs| == count - index && offset <= w.end <= |b|
      && b[offset..w.end] == EncodeAll(encode, w.txs)
    decreases count - index
  {
    if index < count {
      var d := decode(b, offset).value;
      WalkedIsEncoded(decode, encode, b, d.next, count, index + 1);
      var rest := WalkFrom(decode, b, d.next, count, index + 1).value;
      var all := [d.tx] + rest.txs;
      assert all[1..] == rest.txs;
      assert b[offset..rest.end] == b[offset..d.next] + b[d.next..rest.end];
    }
  }

  /** An accepted byte string is, to its last byte, the serialization of what was read. */
  lemma AcceptedIsSerialized<T(!new)>(decode: Decoder<T>, encode: T -> Bytes, b: Bytes)
    requires Exact(decode, encode) && ReadBlock(decode, b).Ok?
    ensures HeaderEnd(b).Some? && |ReadBlock(decode, b).value| < U32_LIMIT
    ensures b == Serialize(HeaderOf(b), encode, ReadBlock(decode, b).value)
  {
    hide SerializeHeader, U32, ReadU32, HeaderEnd, HeaderOf;
    var start := HeaderEnd(b).value;
    WalkedIsSerialized(b);
    WritesBack(b, start);
    WalkedIsEncoded(decode, encode, b, start + 4, ReadU32(b, start), 0);
    assert b == b[..start] + b[start..start + 4] + b[start + 4..];
  }
}
