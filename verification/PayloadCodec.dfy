/** The byte layout of a payload record. */
module PayloadCodec {
  import opened Base
  import opened Encoding
  import opened Store
  import opened Lifecycle

  /** encoding/json on the two attribute maps; decoding may fail. */
  datatype Json = Json(
    encodeStrings: map<Str, Str> -> Bytes,
    decodeStrings: Bytes -> Option<map<Str, Str>>,
    encodeNumbers: map<Str, uint64> -> Bytes,
    decodeNumbers: Bytes -> Option<map<Str, uint64>>)

  /** JSON gives these attributes back, and their encodings fit the 32-bit lengths. */
  predicate JsonKeeps(j: Json, row: Row) {
    && j.decodeStrings(j.encodeStrings(row.strings)) == Some(row.strings)
    && j.decodeNumbers(j.encodeNumbers(row.numbers)) == Some(row.numbers)
    && |j.encodeStrings(row.strings)| < TWO32 && |j.encodeNumbers(row.numbers)| < TWO32
  }

  /** A length in w bytes, then the bytes. */
  function Field(data: Bytes, w: nat): Bytes {
    BigEndian(|data|, w) + data
  }

  function EncodePayload(j: Json, row: Row): Bytes {
    row.key + (Field(row.contentType, 2)
               + (Field(j.encodeStrings(row.strings), 4)
                  + (Field(j.encodeNumbers(row.numbers), 4) + row.payload)))
  }

  /** encodePayloadValue: a buffer of the final size, filled at a moving offset. */
  method EncodePayloadValue(j: Json, row: Row) returns (buf: array<byte>)
    ensures fresh(buf) && buf[..] == EncodePayload(j, row)
  {
    var strJSON, numJSON, ct := j.encodeStrings(row.strings), j.encodeNumbers(row.numbers), row.contentType;
    buf := new byte[32 + 2 + |ct| + 4 + |strJSON| + 4 + |numJSON| + |row.payload|](i => 0);
    var offset := 0;
    offset := Append(buf, offset, row.key);
    offset := PutField(buf, offset, ct, 2);
    offset := PutField(buf, offset, strJSON, 4);
    offset := PutField(buf, offset, numJSON, 4);
    offset := Append(buf, offset, row.payload);
    Reassociate(row.key, Field(ct, 2), Field(strJSON, 4), Field(numJSON, 4), row.payload);
    assert buf[..] == buf[..offset];
  }

  lemma Reassociate(a: Bytes, b: Bytes, c: Bytes, d: Bytes, e: Bytes)
    ensures [] + a + b + c + d + e == a + (b + (c + (d + e)))
  {
  }

  method Append(buf: array<byte>, offset: nat, data: Bytes) returns (end: nat)
    requires offset + |data| <= buf.Length
    modifies buf
    ensures end == offset + |data| && buf[..end] == old(buf[..offset]) + data
  {
    Put(buf, offset, data);
    end := offset + |data|;
  }

  method PutField(buf: array<byte>, offset: nat, data: Bytes, w: nat) returns (end: nat)
    requires offset + w + |data| <= buf.Length
    modifies buf
    ensures end == offset + w + |data| && buf[..end] == old(buf[..offset]) + Field(data, w)
  {
    end := Append(buf, offset, BigEndian(|data|, w));
    end := Append(buf, end, data);
  }

  /** One length-prefixed field at the front, and what follows it; None if the data is truncated. */
  function TakeField(data: Bytes, w: nat): (r: Option<(Bytes, Bytes)>)
    ensures r.Some? ==> w + |r.value.0| + |r.value.1| == |data|
  {
    if w > |data| then None else
    var n := FromBigEndian(data[..w]);
    if w + n > |data| then None else Some((data[w..w + n], data[w + n..]))
  }

  /** decodePayloadValue: total on arbitrary bytes, and never reading outside them. */
  function DecodePayload(j: Json, data: Bytes): (r: Option<Row>)
    ensures r.Some? ==> r.value.key <= data && |r.value.contentType| < TWO16
  {
    Widths();
    if |data| < 34 then None else
    var contentType := TakeField(data[32..], 2);
    if contentType.None? then None else
    var strJSON := TakeField(contentType.value.1, 4);
    if strJSON.None? then None else
    var strings := j.decodeStrings(strJSON.value.0);
    if strings.None? then None else
    var numJSON := TakeField(strJSON.value.1, 4);
    if numJSON.None? then None else
    var numbers := j.decodeNumbers(numJSON.value.0);
    if numbers.None? then None else
    TakenIsShort(data[32..], 2);
    Some(Row(data[..32], numJSON.value.1, contentType.value.0, strings.value, numbers.value))
  }

  lemma {:induction false} FromBigEndianBound(b: Bytes)
    ensures FromBigEndian(b) < Power256(|b|)
  {
    if |b| > 0 {
      FromBigEndianBound(b[..|b| - 1]);
    }
  }

  lemma TakenIsShort(data: Bytes, w: nat)
    ensures TakeField(data, w).Some? ==> |TakeField(data, w).value.0| < Power256(w)
  {
    if w <= |data| {
      FromBigEndianBound(data[..w]);
    }
  }

  lemma FieldParts(data: Bytes, w: nat, rest: Bytes)
    ensures var all := Field(data, w) + rest;
            && |all| == w + |data| + |rest| && all[..w] == BigEndian(|data|, w)
            && all[w..w + |data|] == data && all[w + |data|..] == rest
  {
  }

  lemma TakePutField(data: Bytes, w: nat, rest: Bytes)
    requires |data| < Power256(w)
    ensures TakeField(Field(data, w) + rest, w) == Some((data, rest))
  {
    FieldParts(data, w, rest);
    BigEndianRoundTrip(|data|, w);
  }

  /** A record decodes to itself exactly if its content type fits the 16-bit length. */
  lemma PayloadRoundTrip(j: Json, row: Row)
    requires JsonKeeps(j, row)
    ensures DecodePayload(j, EncodePayload(j, row)) == Some(row) <==> |row.contentType| < TWO16
  {
    var data := EncodePayload(j, row);
    var strJSON, numJSON := j.encodeStrings(row.strings), j.encodeNumbers(row.numbers);
    var afterNumbers := row.payload;
    var afterStrings := Field(numJSON, 4) + afterNumbers;
    var afterType := Field(strJSON, 4) + afterStrings;
    assert data[..32] == row.key && data[32..] == Field(row.contentType, 2) + afterType;
    Widths();
    if |row.contentType| < TWO16 {
      TakePutField(row.contentType, 2, afterType);
      TakePutField(strJSON, 4, afterStrings);
      TakePutField(numJSON, 4, afterNumbers);
    }
  }

  /** Where each field of a record lies: the key, then three fields behind their lengths, then the payload. */
  lemma RecordLayout(j: Json, row: Row)
    ensures var data := EncodePayload(j, row);
            var ct, strJSON, numJSON := row.contentType, j.encodeStrings(row.strings), j.encodeNumbers(row.numbers);
            var s, n, p := 34 + |ct|, 38 + |ct| + |strJSON|, 42 + |ct| + |strJSON| + |numJSON|;
            && |data| == p + |row.payload|
            && data[..32] == row.key && data[32..34] == BigEndian(|ct|, 2) && data[34..s] == ct
            && data[s..s + 4] == BigEndian(|strJSON|, 4) && data[s + 4..n] == strJSON
            && data[n..n + 4] == BigEndian(|numJSON|, 4) && data[n + 4..p] == numJSON
            && data[p..] == row.payload
  {
    var data := EncodePayload(j, row);
    var ct, strJSON, numJSON := row.contentType, j.encodeStrings(row.strings), j.encodeNumbers(row.numbers);
    var afterStrings := Field(numJSON, 4) + row.payload;
    var afterType := Field(strJSON, 4) + afterStrings;
    var afterKey := Field(ct, 2) + afterType;
    assert data == row.key + afterKey;
    Slices(row.key, afterKey);
    FieldAt(data, 32, ct, 2, afterType);
    FieldAt(data, 34 + |ct|, strJSON, 4, afterStrings);
    FieldAt(data, 38 + |ct| + |strJSON|, numJSON, 4, row.payload);
  }

  lemma Slices(a: Bytes, b: Bytes)
    ensures (a + b)[..|a|] == a && (a + b)[|a|..] == b
  {
  }

  /** A field that starts at an offset, and what follows it. */
  lemma FieldAt(data: Bytes, at: nat, field: Bytes, w: nat, rest: Bytes)
    requires at <= |data| && data[at..] == Field(field, w) + rest
    ensures |data| == at + w + |field| + |rest|
    ensures data[at..at + w] == BigEndian(|field|, w) && data[at + w..at + w + |field|] == field
    ensures data[at + w + |field|..] == rest
  {
    FieldParts(field, w, rest);
    var tail := data[at..];
    assert data[at..at + w] == tail[..w];
    assert data[at + w..at + w + |field|] == tail[w..w + |field|];
    assert data[at + w + |field|..] == tail[w + |field|..];
  }

  /** In a reached state every record can be read back as it was written. */
  lemma ReachedRecordsDecode(j: Json, lib: Lib, w: Work, id: nat)
    requires Reached(lib, w, false) && id in w.db.payloads && JsonKeeps(j, w.db.payloads[id])
    ensures DecodePayload(j, EncodePayload(j, w.db.payloads[id])) == Some(w.db.payloads[id])
  {
    assert RowOk(lib, w.db.payloads[id]);
    PayloadRoundTrip(j, w.db.payloads[id]);
  }
}
