/** Indices and records of an OMF object file, as tools/sizes.py walks them. */
module ObjectRecords {
  import opened Omf
  import opened IteratedData

  // Indices

  datatype IndexRead = Beyond | Index(value: nat, end: nat)

  /** One byte, or two where the first has its high bit set. */
  function OmfIndex(body: seq<Byte>, at: nat): IndexRead {
    if at >= |body| then Beyond
    else if body[at] < 0x80 then Index(body[at], at + 1)
    else if at + 1 >= |body| then Beyond
    else var high: int := body[at]; Index((high - 0x80) * 256 + body[at + 1], at + 2)
  }

  /** The two ways to write an index; the long one holds any. */
  function IndexBytes(v: nat, long: bool): seq<Byte>
    requires v < if long then 0x8000 else 0x80
  {
    if long then [0x80 + v / 256, v % 256] else [v]
  }

  ghost predicate IndexAt(body: seq<Byte>, at: nat, v: nat, long: bool, end: nat) {
    && v < (if long then 0x8000 else 0x80)
    && At(body, at, IndexBytes(v, long))
    && end == at + |IndexBytes(v, long)|
  }

  /** Both forms read back, and what is read was written in one of them. */
  lemma IndexReadIffWritten(body: seq<Byte>, at: nat, v: nat, end: nat)
    ensures OmfIndex(body, at) == Index(v, end) <==> IndexAt(body, at, v, false, end) || IndexAt(body, at, v, true, end)
  {
    if OmfIndex(body, at) == Index(v, end) {
      var long := body[at] >= 0x80;
      assert body[at..end] == IndexBytes(v, long);
    }
    if IndexAt(body, at, v, false, end) {
      assert body[at..at + 1][0] == body[at];
    }
    if IndexAt(body, at, v, true, end) {
      var s := body[at..at + 2];
      assert s[0] == body[at] && s[1] == body[at + 1];
    }
  }

  // Records

  datatype Record = Record(kind: Byte, body: seq<Byte>)

  /** The records from `at` on: kind, length of what follows, body, checksum. */
  function RecordsFrom(data: seq<Byte>, at: nat): seq<Record>
    decreases Left(data, at)
  {
    if at + 3 > |data| then [] else
      var length := Little(data[at + 1..at + 3]);
      [Record(data[at], BodyAt(data, at + 3, length))] + RecordsFrom(data, at + 3 + length)
  }

  /** The body without the checksum; empty when the length is zero. */
  function BodyAt(data: seq<Byte>, at: nat, length: nat): seq<Byte> {
    if length == 0 then [] else Slice(data, at, at + length - 1)
  }

  method Records(data: seq<Byte>) returns (records: seq<Record>)
    ensures records == RecordsFrom(data, 0)
  {
    hide Little, BodyAt, RecordsFrom;
    records := [];
    var at := 0;
    assert records + RecordsFrom(data, at) == RecordsFrom(data, at);
    while at + 3 <= |data|
      invariant at >= 0
      invariant records + RecordsFrom(data, at) == RecordsFrom(data, 0)
      decreases |data| - at
    {
      var kind, length := data[at], Little(data[at + 1..at + 3]);
      var body := BodyAt(data, at + 3, length);
      FirstRecord(data, at);
      assert records + ([Record(kind, body)] + RecordsFrom(data, at + 3 + length))
          == (records + [Record(kind, body)]) + RecordsFrom(data, at + 3 + length);
      records := records + [Record(kind, body)];
      at := at + 3 + length;
    }
    NoRecords(data, at);
  }

  lemma FirstRecord(data: seq<Byte>, at: nat)
    requires at + 3 <= |data|
    ensures var length := Little(data[at + 1..at + 3]);
            RecordsFrom(data, at)
            == [Record(data[at], BodyAt(data, at + 3, length))] + RecordsFrom(data, at + 3 + length)
  {
  }

  /** A record with some checksum byte. */
  function RecordBytes(r: Record, checksum: Byte): (s: seq<Byte>)
    ensures |s| == |r.body| + 4
  {
    [r.kind] + (Digits(|r.body| + 1, 2) + (r.body + [checksum]))
  }

  /** A file of records. */
  function FileBytes(records: seq<Record>, checksums: seq<Byte>): seq<Byte>
    requires |records| == |checksums|
  {
    if records == [] then [] else RecordBytes(records[0], checksums[0]) + FileBytes(records[1..], checksums[1..])
  }

  lemma RecordFields(r: Record, checksum: Byte, data: seq<Byte>, at: nat)
    requires |r.body| + 1 < Limit(2) && At(data, at, RecordBytes(r, checksum))
    ensures at + 3 <= |data| && data[at] == r.kind && Little(data[at + 1..at + 3]) == |r.body| + 1
    ensures BodyAt(data, at + 3, |r.body| + 1) == r.body
  {
    var rest := r.body + [checksum];
    AtParts(data, at, [r.kind], Digits(|r.body| + 1, 2) + rest);
    AtParts(data, at + 1, Digits(|r.body| + 1, 2), rest);
    AtParts(data, at + 3, r.body, [checksum]);
    LittleOfDigits(|r.body| + 1, 2);
    assert data[at] == data[at..at + 1][0];
  }

  lemma RecordAt(r: Record, checksum: Byte, data: seq<Byte>, at: nat)
    requires |r.body| + 1 < Limit(2) && At(data, at, RecordBytes(r, checksum))
    ensures RecordsFrom(data, at) == [r] + RecordsFrom(data, at + |r.body| + 4)
  {
    hide At, RecordBytes, Limit, BodyAt, Little;
    RecordFields(r, checksum, data, at);
    assert Record(data[at], BodyAt(data, at + 3, |r.body| + 1)) == r;
  }

  lemma NoRecords(data: seq<Byte>, at: nat)
    requires |data| < at + 3
    ensures RecordsFrom(data, at) == []
  {
  }

  /** Walking a file gives back its records, all of them and in order. */
  lemma {:induction false} RecordsOfFile(records: seq<Record>, checksums: seq<Byte>, data: seq<Byte>, at: nat)
    requires |records| == |checksums| && forall r :: r in records ==> |r.body| + 1 < Limit(2)
    requires At(data, at, FileBytes(records, checksums)) && at + |FileBytes(records, checksums)| == |data|
    ensures RecordsFrom(data, at) == records
    decreases |records|
  {
    hide At, RecordBytes, Limit, RecordsFrom;
    if records == [] {
      NoRecords(data, at);
    } else {
      var first := RecordBytes(records[0], checksums[0]);
      AtParts(data, at, first, FileBytes(records[1..], checksums[1..]));
      assert records[0] in records;
      RecordAt(records[0], checksums[0], data, at);
      RecordsOfFile(records[1..], checksums[1..], data, at + |first|);
      assert records == [records[0]] + records[1..];
    }
  }
}
