/** Data-point records: the encoders, the walk over a downloaded command, and the writer that frames and sends them
    (wifi/system.c:64-153, 244-290, 453-473, wifi/mcu_api.c:172-198, 210-406). */
module DataPoints {
  import opened Wrappers
  import opened Words
  import opened SerialFrames

  const DP_TYPE_RAW: byte := 0
  const DP_TYPE_BOOL: byte := 1
  const DP_TYPE_VALUE: byte := 2
  const DP_TYPE_STRING: byte := 3
  const DP_TYPE_ENUM: byte := 4
  const DP_TYPE_FAULT: byte := 5

  const STATE_UPLOAD_CMD: byte := 0x0D
  const MCU_TX_VER: byte := 0
  const BUF_SIZE := 50

  // ----- Numbers as bytes -----

  function IntToByte(number: uint32): seq<byte> {
    [number / 0x100_0000, number / 0x1_0000 % 0x100, number / 0x100 % 0x100, number % 0x100]
  }

  function ByteToInt(value: seq<byte>): uint32
    requires |value| == 4
  {
    ((value[0] as int * 0x100 + value[1]) * 0x100 + value[2]) * 0x100 + value[3]
  }

  /** Most significant byte first, however many bytes there are. */
  function BigEndian(value: seq<byte>): nat {
    if value == [] then 0 else BigEndian(value[..|value| - 1]) * 0x100 + value[|value| - 1]
  }

  lemma IntByteRoundTrip(number: uint32)
    ensures ByteToInt(IntToByte(number)) == number
    ensures BigEndian(IntToByte(number)) == number
  {
    BigEndianOfFour(IntToByte(number));
    hide BigEndian;
    var a, b, c := number / 0x100_0000, number / 0x1_0000, number / 0x100;
    assert b / 0x100 == a && c / 0x100 == b;
    assert a * 0x100 + b % 0x100 == b && b * 0x100 + c % 0x100 == c && c * 0x100 + number % 0x100 == number;
  }

  lemma BigEndianOfFour(value: seq<byte>)
    requires |value| == 4
    ensures BigEndian(value) == ByteToInt(value)
  {
    assert value[..3][..2] == value[..2] && value[..2][..1] == value[..1] && value[..1][..0] == [];
    assert BigEndian(value[..1]) == value[0];
    assert BigEndian(value[..2]) == value[0] as int * 0x100 + value[1];
    assert BigEndian(value[..3]) == (value[0] as int * 0x100 + value[1]) * 0x100 + value[2];
  }

  lemma ByteIntRoundTrip(value: seq<byte>)
    requires |value| == 4
    ensures IntToByte(ByteToInt(value)) == value
  {
    var a, b, c, d: int := value[0], value[1], value[2], value[3];
    var n := ByteToInt(value);
    assert n == ((a * 0x100 + b) * 0x100 + c) * 0x100 + d;
    assert n / 0x100 == (a * 0x100 + b) * 0x100 + c && n % 0x100 == d;
    assert n / 0x1_0000 == n / 0x100 / 0x100 == a * 0x100 + b;
    assert n / 0x100_0000 == n / 0x1_0000 / 0x100 == a;
  }

  /** A fault mask takes one, two or four bytes, whichever holds it. */
  function FaultBytes(value: uint32): (s: seq<byte>) {
    if value < 0x100 then [value]
    else if value < 0x1_0000 then [value / 0x100, value % 0x100]
    else IntToByte(value)
  }

  lemma FaultRoundTrip(value: uint32)
    ensures BigEndian(FaultBytes(value)) == value
  {
    if value < 0x100 {
      assert FaultBytes(value)[..0] == [];
    } else if value < 0x1_0000 {
      var v := FaultBytes(value);
      assert v[..1][..0] == [] && BigEndian(v[..1]) == v[0];
    } else {
      IntByteRoundTrip(value);
    }
  }

  // ----- Records -----

  datatype Record = Record(id: byte, kind: byte, value: seq<byte>)

  predicate Short(r: Record) {
    |r.value| < 0x1_0000
  }

  function RecordBytes(r: Record): seq<byte>
    requires Short(r)
  {
    [r.id, r.kind, |r.value| / 0x100, |r.value| % 0x100] + r.value
  }

  function RecordsBytes(records: seq<Record>): seq<byte>
    requires forall i | 0 <= i < |records| :: Short(records[i])
  {
    if records == [] then []
    else
      assert Short(records[0]);
      RecordBytes(records[0]) + RecordsBytes(records[1..])
  }

  /** The body of a command or report: a sub-device identifier, then the records. */
  function Body(sub: seq<byte>, records: seq<Record>): seq<byte>
    requires |sub| < 0x100 && forall i | 0 <= i < |records| :: Short(records[i])
  {
    [|sub|] + sub + RecordsBytes(records)
  }

  lemma BodyOfOne(sub: seq<byte>, r: Record)
    requires |sub| < 0x100 && Short(r)
    ensures Body(sub, [r]) == [|sub|] + sub + RecordBytes(r) && |Body(sub, [r])| == |sub| + |r.value| + 5
  {
    assert RecordsBytes([r][1..]) == [];
    assert RecordBytes(r) + [] == RecordBytes(r);
  }

  /** The parts in the order the encoders write them. */
  lemma BodyParts(sub: seq<byte>, r: Record)
    requires |sub| < 0x100 && Short(r)
    ensures [|sub|] + sub + [r.id, r.kind] + [|r.value| / 0x100, |r.value| % 0x100] + r.value == Body(sub, [r])
  {
    BodyOfOne(sub, r);
  }

  /** The records from position `i` of a payload, provided they end exactly at its end. */
  function Walk(p: seq<byte>, i: nat): (r: Option<seq<Record>>)
    requires i <= |p|
    decreases |p| - i
  {
    if i == |p| then Some([])
    else if i + 4 > |p| then None
    else
      var len: nat := p[i + 2] as int * 0x100 + p[i + 3];
      if i + 4 + len > |p| then None
      else
        var rest := Walk(p, i + 4 + len);
        if rest.None? then None else Some([Record(p[i], p[i + 1], p[i + 4..i + 4 + len])] + rest.value)
  }

  /** One round of the walk, over a record with the given bytes. */
  lemma WalkOne(p: seq<byte>, i: nat, r: Record)
    requires Short(r) && i + |RecordBytes(r)| <= |p| && p[i..i + |RecordBytes(r)|] == RecordBytes(r)
    ensures Walk(p, i) == var rest := Walk(p, i + |RecordBytes(r)|); if rest.None? then None else Some([r] + rest.value)
  {
    var b, n := RecordBytes(r), |r.value|;
    assert p[i..i + n + 4] == b;
    assert b[0] == r.id && b[1] == r.kind && b[2] == n / 0x100 && b[3] == n % 0x100;
    assert p[i] == b[0] && p[i + 1] == b[1] && p[i + 2] == b[2] && p[i + 3] == b[3];
    assert p[i + 4..i + 4 + n] == p[i..i + n + 4][4..] == r.value;
    assert Record(p[i], p[i + 1], p[i + 4..i + 4 + n]) == r;
  }

  /** The walk visits each record once, in order, and ends exactly at the end of the payload. */
  lemma {:induction false} WalkRecords(front: seq<byte>, records: seq<Record>)
    requires forall i | 0 <= i < |records| :: Short(records[i])
    ensures Walk(front + RecordsBytes(records), |front|) == Some(records)
    decreases records
  {
    hide Walk;
    if records == [] {
      assert front + RecordsBytes(records) == front;
      WalkEnd(front);
    } else {
      assert Short(records[0]);
      var r, more := records[0], RecordsBytes(records[1..]);
      var p := front + RecordsBytes(records);
      var head := front + RecordBytes(r);
      assert p == head + more by {
        hide RecordBytes;
      }
      hide RecordBytes, RecordsBytes;
      WalkRecords(head, records[1..]);
      assert p[|front|..|front| + |RecordBytes(r)|] == RecordBytes(r);
      WalkOne(p, |front|, r);
      assert [r] + records[1..] == records;
    }
  }

  // ----- The walk as it runs -----

  datatype Visit = Visit(id: byte, kind: byte, value: seq<byte>, accepted: bool)

  /** `download_cmd`: the data points of the gateway and their types. */
  type Table = seq<(byte, byte)>

  function KindOf(table: Table, id: byte): Option<byte> {
    if table == [] then None else if table[0].0 == id then Some(table[0].1) else KindOf(table[1..], id)
  }

  /** The type is that of the first entry for the data point. */
  lemma {:induction false} KindOfFirst(table: Table, id: byte, k: nat)
    ensures k < |table| && table[k].0 == id && (forall i | 0 <= i < k :: table[i].0 != id) ==> KindOf(table, id) == Some(table[k].1)
    ensures KindOf(table, id).None? <==> forall i | 0 <= i < |table| :: table[i].0 != id
  {
    if table != [] {
      KindOfFirst(table[1..], id, if k > 0 then k - 1 else 0);
      assert forall i | 1 <= i < |table| :: table[i] == table[1..][i - 1];
    }
  }

  method GetDownloadDpidIndex(table: Table, id: byte) returns (index: nat)
    ensures index <= |table| && (index == |table| <==> KindOf(table, id).None?)
    ensures index < |table| ==> KindOf(table, id) == Some(table[index].1) && table[index].0 == id
    ensures forall k | 0 <= k < index :: table[k].0 != id
  {
    index := 0;
    assert table[0..] == table;
    while index < |table|
      invariant index <= |table| && KindOf(table[index..], id) == KindOf(table, id)
      invariant forall k | 0 <= k < index :: table[k].0 != id
    {
      if table[index].0 == id {
        return;
      }
      assert table[index..][1..] == table[index + 1..];
      index := index + 1;
    }
  }

  /** Each record reaches the handler when its type is the one the table gives for its data point. */
  function Visits(table: Table, records: seq<Record>): seq<Visit> {
    if records == [] then []
    else
      var r := records[0];
      [Visit(r.id, r.kind, r.value, KindOf(table, r.id) == Some(r.kind))] + Visits(table, records[1..])
  }

  lemma {:induction false} VisitsAppend(table: Table, a: seq<Record>, b: seq<Record>)
    ensures Visits(table, a + b) == Visits(table, a) + Visits(table, b)
  {
    if a == [] {
      assert a + b == b;
    } else {
      assert (a + b)[1..] == a[1..] + b;
      VisitsAppend(table, a[1..], b);
    }
  }

  ghost predicate Known(table: Table, records: seq<Record>) {
    forall k | 0 <= k < |records| :: KindOf(table, records[k].id).Some?
  }

  /** data_point_handle: the type in the record decides whether its value reaches the handler. */
  method DataPointHandle(buf: array<byte>, at: nat, table: Table) returns (visit: Visit)
    requires at + 4 <= buf.Length && KindOf(table, buf[at]).Some?
    requires at + 4 + buf[at + 2] as int * 0x100 + buf[at + 3] <= buf.Length
    ensures visit.id == buf[at] && visit.kind == buf[at + 1] && (visit.accepted <==> KindOf(table, visit.id) == Some(visit.kind))
    ensures visit.value == buf[at + 4..at + 4 + (buf[at + 2] as int * 0x100 + buf[at + 3])]
  {
    var dpLen: nat := buf[at + 2] as int * 0x100 + buf[at + 3];
    var index := GetDownloadDpidIndex(table, buf[at]);
    visit := Visit(buf[at], buf[at + 1], buf[at + 4..at + 4 + dpLen], buf[at + 1] == table[index].1);
  }

  /** The body of the DATA_ISSUED_CMD case on a payload whose records end at its end and whose data points the table knows. */
  method DataIssued(buf: array<byte>, start: nat, totalLen: nat, table: Table)
    returns (sub: seq<byte>, visits: seq<Visit>, i: nat)
    requires 1 <= totalLen && start + totalLen <= buf.Length && buf[start] <= BUF_SIZE && 1 + buf[start] <= totalLen
    requires var records := Walk(buf[start..start + totalLen], 1 + buf[start]); records.Some? && Known(table, records.value)
    ensures sub == buf[start + 1..start + 1 + buf[start]] && i == totalLen
    ensures visits == Visits(table, Walk(buf[start..start + totalLen], 1 + buf[start]).value)
  {
    hide Visits, KindOf, Walk;
    ghost var p := buf[start..start + totalLen];
    var subIdLen := buf[start];
    sub := buf[start + 1..start + 1 + subIdLen];
    i := 1 + subIdLen;
    ghost var all := Walk(p, i).value;
    ghost var done: seq<Record> := [];
    assert done + Walk(p, i).value == all;
    visits := [];
    VisitsNothing(table);
    while i < totalLen
      invariant i <= totalLen && Walk(p, i).Some? && done + Walk(p, i).value == all
      invariant visits == Visits(table, done)
      decreases totalLen - i
    {
      WalkRound(p, i);
      assert p[i] == buf[start + i] && p[i + 1] == buf[start + i + 1];
      assert p[i + 2] == buf[start + i + 2] && p[i + 3] == buf[start + i + 3];
      var dpLen: nat := buf[start + i + 2] as int * 0x100 + buf[start + i + 3];
      ghost var r := Record(p[i], p[i + 1], p[i + 4..i + 4 + dpLen]);
      NextRecord(done, r, Walk(p, i + 4 + dpLen).value);
      assert all[|done|] == r;
      var visit := DataPointHandle(buf, start + i, table);
      ValueAt(buf, start, totalLen, i, dpLen);
      VisitsLast(table, done, r);
      assert visit == Visit(r.id, r.kind, r.value, KindOf(table, r.id) == Some(r.kind));
      visits := visits + [visit];
      done := done + [r];
      i := i + (dpLen + 4);
    }
    WalkEnd(p);
    assert done + [] == done;
  }

  lemma ValueAt(buf: array<byte>, start: nat, totalLen: nat, i: nat, n: nat)
    requires start + totalLen <= buf.Length && i + 4 + n <= totalLen
    ensures buf[start + i + 4..start + i + 4 + n] == buf[start..start + totalLen][i + 4..i + 4 + n]
  {
    var t, u := buf[start + i + 4..start + i + 4 + n], buf[start..start + totalLen][i + 4..i + 4 + n];
    assert |t| == |u|;
    assert forall k | 0 <= k < |t| :: t[k] == u[k];
  }

  lemma NextRecord(done: seq<Record>, r: Record, rest: seq<Record>)
    ensures done + ([r] + rest) == (done + [r]) + rest && (done + ([r] + rest))[|done|] == r
  {
  }

  lemma WalkEnd(p: seq<byte>)
    ensures Walk(p, |p|) == Some([])
  {
  }

  lemma WalkRound(p: seq<byte>, i: nat)
    requires i < |p| && Walk(p, i).Some?
    ensures i + 4 <= |p|
    ensures var n: nat := p[i + 2] as int * 0x100 + p[i + 3];
      && i + 4 + n <= |p| && Walk(p, i + 4 + n).Some?
      && Walk(p, i).value == [Record(p[i], p[i + 1], p[i + 4..i + 4 + n])] + Walk(p, i + 4 + n).value
  {
  }

  lemma VisitsNothing(table: Table)
    ensures Visits(table, []) == []
  {
  }

  lemma VisitsLast(table: Table, done: seq<Record>, r: Record)
    ensures Visits(table, done + [r]) == Visits(table, done) + [Visit(r.id, r.kind, r.value, KindOf(table, r.id) == Some(r.kind))]
  {
    VisitsAppend(table, done, [r]);
    assert [r][1..] == [];
  }

  // ----- Sending -----

  class Sender {
    const tx: array<byte>  // wifi_uart_tx_buf
    var stopUpdate: bool   // stop_update_flag
    var sent: seq<byte>    // what went out on the serial line

    ghost predicate Valid()
      reads this
    {
      tx.Length == CAPACITY
    }

    /** The payload prepared so far, `n` bytes of it. */
    ghost function Prepared(n: nat): seq<byte>
      requires Valid() && DATA_START + n <= CAPACITY
      reads this, tx
    {
      tx[DATA_START..DATA_START + n]
    }

    constructor ()
      ensures Valid() && sent == [] && !stopUpdate && fresh(tx)
    {
      tx := new byte[CAPACITY](_ => 0);
      stopUpdate, sent := false, [];
    }

    method SetByte(dest: nat, value: byte) returns (end: nat)
      requires Valid() && dest < CAPACITY - PROTOCOL_HEAD
      modifies tx
      ensures end == dest + 1 && Prepared(end) == old(Prepared(dest)) + [value]
    {
      tx[DATA_START + dest] := value;
      end := dest + 1;
    }

    method SetBuffer(dest: nat, src: seq<byte>) returns (end: nat)
      requires Valid() && dest + |src| <= CAPACITY - PROTOCOL_HEAD
      modifies tx
      ensures end == dest + |src| && Prepared(end) == old(Prepared(dest)) + src
    {
      forall i | 0 <= i < |src| {
        tx[DATA_START + dest + i] := src[i];
      }
      end := dest + |src|;
    }

    /** wifi_uart_write_frame: header and checksum are put around the prepared payload and everything is sent. */
    method WriteFrame(cmd: byte, version: byte, len: nat)
      requires Valid() && len <= CAPACITY - PROTOCOL_HEAD
      modifies tx, this`sent
      ensures sent == old(sent) + FrameBytes(Frame(version, cmd, old(Prepared(len))))
    {
      ghost var f := Frame(version, cmd, Prepared(len));
      tx[0] := 0x55;
      tx[1] := 0xAA;
      tx[2] := version;
      tx[3] := cmd;
      tx[4] := len / 0x100;
      tx[5] := len % 0x100;
      var total := len + PROTOCOL_HEAD;
      assert tx[..total - 1] == Header(f) + f.payload;
      var checkSum := GetCheckSum(tx, 0, total - 1);
      tx[total - 1] := checkSum;
      assert tx[..total] == FrameBytes(f);
      WriteData(total);
    }

    method WriteData(len: nat)
      requires len <= tx.Length
      modifies this`sent
      ensures sent == old(sent) + tx[..len]
    {
      var i := 0;
      while i < len
        invariant i <= len && sent == old(sent) + tx[..i]
      {
        sent := sent + [tx[i]];
        i := i + 1;
      }
    }

    /** What a report puts on the line: nothing while reporting is stopped, else one frame with one record. */
    ghost function Report(sub: seq<byte>, r: Record): seq<byte>
      requires |sub| < 0x100 && |sub| + |r.value| + 5 <= CAPACITY - PROTOCOL_HEAD
      reads this
    {
      BodyOfOne(sub, r);
      if stopUpdate then [] else FrameBytes(Frame(MCU_TX_VER, STATE_UPLOAD_CMD, Body(sub, [r])))
    }

    /** While reporting is on, a report arrives: the reader of frames finds it in front of whatever follows, and its payload
        walks back to the sub-device and the one record. While reporting is stopped nothing goes out. */
    lemma ReportArrives(sub: seq<byte>, r: Record, rest: seq<byte>)
      requires |sub| < 0x100 && |sub| + |r.value| + 5 <= CAPACITY - PROTOCOL_HEAD
      ensures var f := Report(sub, r);
        if stopUpdate then f == []
        else
          && |f| == |sub| + |r.value| + 12
          && Scan(f + rest) == ([Dispatch(0x0D, f)] + Scan(rest).0, Scan(rest).1)
          && var payload := f[6..|f| - 1];
             payload[0] == |sub| && payload[1..1 + |sub|] == sub && Walk(payload, 1 + |sub|) == Some([r])
    {
      BodyOfOne(sub, r);
      ReportRoundTrip(sub, r, rest);
      hide Scan, Walk, Body, FrameBytes;
    }

    /** The part common to the encoders: the sub-device, the data point and its type. */
    method Start(sub: seq<byte>, id: byte, kind: byte) returns (end: nat)
      requires Valid() && |sub| < 0x100
      modifies tx
      ensures end == |sub| + 3 && Prepared(end) == [|sub|] + sub + [id, kind]
    {
      end := SetByte(0, |sub|);
      end := SetBuffer(end, sub);
      end := SetByte(end, id);
      end := SetByte(end, kind);
    }

    /** The four statements both encoders of numbers share. */
    method SetNumber(dest: nat, value: uint32) returns (end: nat)
      requires Valid() && dest + 4 <= CAPACITY - PROTOCOL_HEAD
      modifies tx
      ensures end == dest + 4 && Prepared(end) == old(Prepared(dest)) + IntToByte(value)
    {
      end := SetByte(dest, value / 0x100_0000);
      end := SetByte(end, value / 0x1_0000 % 0x100);
      end := SetByte(end, value / 0x100 % 0x100);
      end := SetByte(end, value % 0x100);
    }

    method ValueUpdate(id: byte, value: uint32, sub: seq<byte>)
      requires Valid() && |sub| < 0x100
      modifies tx, this`sent
      ensures sent == old(sent) + Report(sub, Record(id, 2, IntToByte(value)))
    {
      if stopUpdate {
        assert sent + [] == sent;
        return;
      }
      var n := Start(sub, id, DP_TYPE_VALUE);
      n := SetByte(n, 0);
      n := SetByte(n, 4);
      n := SetNumber(n, value);
      BodyParts(sub, Record(id, DP_TYPE_VALUE, IntToByte(value)));
      hide Body;
      assert Prepared(n) == Body(sub, [Record(id, DP_TYPE_VALUE, IntToByte(value))]);
      WriteFrame(STATE_UPLOAD_CMD, MCU_TX_VER, n);
    }

    /** The low length byte and the mask in as few bytes as hold it. */
    method SetFault(dest: nat, value: uint32) returns (end: nat)
      requires Valid() && dest + 5 <= CAPACITY - PROTOCOL_HEAD
      modifies tx
      ensures end == dest + 1 + |FaultBytes(value)|
      ensures Prepared(end) == old(Prepared(dest)) + [|FaultBytes(value)|] + FaultBytes(value)
    {
      if value < 0x100 {
        end := SetByte(dest, 1);
        end := SetByte(end, value);
      } else if value < 0x1_0000 {
        end := SetByte(dest, 2);
        end := SetByte(end, value / 0x100);
        end := SetByte(end, value % 0x100);
      } else {
        end := SetByte(dest, 4);
        end := SetNumber(end, value);
      }
    }

    method FaultUpdate(id: byte, value: uint32, sub: seq<byte>)
      requires Valid() && |sub| < 0x100
      modifies tx, this`sent
      ensures sent == old(sent) + Report(sub, Record(id, 5, FaultBytes(value)))
    {
      if stopUpdate {
        assert sent + [] == sent;
        return;
      }
      var n := Start(sub, id, DP_TYPE_FAULT);
      n := SetByte(n, 0);
      ghost var v := FaultBytes(value);
      n := SetFault(n, value);
      BodyParts(sub, Record(id, DP_TYPE_FAULT, v));
      hide Body, FaultBytes;
      assert Prepared(n) == Body(sub, [Record(id, DP_TYPE_FAULT, FaultBytes(value))]);
      WriteFrame(STATE_UPLOAD_CMD, MCU_TX_VER, n);
    }

    /** Booleans are sent as 0 or 1, enumerations as they are. */
    method ByteUpdate(id: byte, kind: byte, value: byte, sub: seq<byte>)
      requires Valid() && |sub| < 0x100 && (kind == DP_TYPE_BOOL || kind == DP_TYPE_ENUM)
      modifies tx, this`sent
      ensures sent == old(sent) + Report(sub, Record(id, kind, [if kind == 1 && value != 0 then 1 else value]))
    {
      if stopUpdate {
        assert sent + [] == sent;
        return;
      }
      var b: byte := if kind == DP_TYPE_BOOL && value != 0 then 1 else value;
      hide Body, FrameBytes, Prepared;
      var n := Start(sub, id, kind);
      ghost var head := Prepared(n);
      n := SetByte(n, 0);
      n := SetByte(n, 1);
      assert head + [0] + [1] == head + [0, 1];
      n := SetByte(n, b);
      BodyParts(sub, Record(id, kind, [b]));
      assert Prepared(n) == Body(sub, [Record(id, kind, [b])]);
      WriteFrame(STATE_UPLOAD_CMD, MCU_TX_VER, n);
    }

    /** Raw bytes and strings. */
    method BytesUpdate(id: byte, kind: byte, value: seq<byte>, sub: seq<byte>)
      requires Valid() && |sub| < 0x100 && (kind == DP_TYPE_RAW || kind == DP_TYPE_STRING)
      requires |sub| + 5 + |value| <= CAPACITY - PROTOCOL_HEAD
      modifies tx, this`sent
      ensures sent == old(sent) + Report(sub, Record(id, kind, value))
    {
      if stopUpdate {
        assert sent + [] == sent;
        return;
      }
      hide Body, FrameBytes, Prepared;
      var n := Start(sub, id, kind);
      ghost var head, hi, lo := Prepared(n), |value| / 0x100, |value| % 0x100;
      n := SetByte(n, |value| / 0x100);
      n := SetByte(n, |value| % 0x100);
      assert head + [hi] + [lo] == head + [hi, lo];
      n := SetBuffer(n, value);
      BodyParts(sub, Record(id, kind, value));
      assert Prepared(n) == Body(sub, [Record(id, kind, value)]);
      WriteFrame(STATE_UPLOAD_CMD, MCU_TX_VER, n);
    }
  }

  /** The frame of one value report, byte for byte. */
  lemma ValueFrame()
    ensures var body := Body([], [Record(0x65, DP_TYPE_VALUE, IntToByte(0x0102_0304))]);
      && body == [0, 0x65, 2, 0, 4, 1, 2, 3, 4]
      && FrameBytes(Frame(MCU_TX_VER, STATE_UPLOAD_CMD, body)) == [0x55, 0xAA, 0, 0x0D, 0, 9, 0, 0x65, 2, 0, 4, 1, 2, 3, 4, 0x8A]
  {
    ValueBody();
    hide Body, IntToByte, Sum;
    var s := [0x55, 0xAA, 0, 0x0D, 0, 9, 0, 0x65, 2, 0, 4, 1, 2, 3, 4];
    ValueSum(s);
    assert Header(Frame(MCU_TX_VER, STATE_UPLOAD_CMD, s[6..])) + s[6..] == s;
  }

  lemma ValueBody()
    ensures Body([], [Record(0x65, DP_TYPE_VALUE, IntToByte(0x0102_0304))]) == [0, 0x65, 2, 0, 4, 1, 2, 3, 4]
  {
    var r := Record(0x65, DP_TYPE_VALUE, IntToByte(0x0102_0304));
    BodyOfOne([], r);
    hide Body;
    assert RecordBytes(r) == [0x65, 2, 0, 4, 1, 2, 3, 4];
  }

  lemma ValueSum(s: seq<byte>)
    requires s == [0x55, 0xAA, 0, 0x0D, 0, 9, 0, 0x65, 2, 0, 4, 1, 2, 3, 4]
    ensures Sum(s) == 0x18A
  {
    hide Sum;
    SumOfThree(0x55, 0xAA, 0);
    SumOfThree(0x0D, 0, 9);
    SumOfThree(0, 0x65, 2);
    SumOfThree(0, 4, 1);
    SumOfThree(2, 3, 4);
    var a, b, c, d, e := [0x55, 0xAA, 0], [0x0D, 0, 9], [0, 0x65, 2], [0, 4, 1], [2, 3, 4];
    SumAppend(a, b);
    SumAppend(a + b, c);
    SumAppend(a + b + c, d);
    SumAppend(a + b + c + d, e);
    assert s == a + b + c + d + e;
  }

  lemma SumOfThree(a: byte, b: byte, c: byte)
    ensures Sum([a, b, c]) == a as int + b + c
  {
    var s := [a, b, c];
    assert s[..2][..1] == s[..1] && s[..1][..0] == [];
    assert Sum(s[..1]) == a && Sum(s[..2]) == a as int + b;
  }

  /** A report that was sent is found by the reader of frames and its payload walks back to the one record. */
  lemma ReportRoundTrip(sub: seq<byte>, r: Record, rest: seq<byte>)
    requires |sub| < 0x100 && |sub| + |r.value| + 5 <= CAPACITY - PROTOCOL_HEAD
    ensures |Body(sub, [r])| == |sub| + |r.value| + 5
    ensures var f := FrameBytes(Frame(MCU_TX_VER, STATE_UPLOAD_CMD, Body(sub, [r])));
      var payload := f[DATA_START..|f| - 1];
      && Scan(f + rest) == ([Dispatch(STATE_UPLOAD_CMD, f)] + Scan(rest).0, Scan(rest).1)
      && payload[0] == |sub| && payload[1..1 + |sub|] == sub && Walk(payload, 1 + |sub|) == Some([r])
  {
    hide Scan, Inspect, FrameBytes, RecordBytes, RecordsBytes;
    BodyOfOne(sub, r);
    var frame := Frame(MCU_TX_VER, STATE_UPLOAD_CMD, Body(sub, [r]));
    var f := FrameBytes(frame);
    PayloadOfFrame(frame);
    AcceptFrame(frame, rest);
    ScanStep(f + rest);
    assert (f + rest)[|f|..] == rest && (f + rest)[..|f|] == f;
    WalkRecords([|sub|] + sub, [r]);
  }

  /** The numbers the value and fault encoders were given are read back from the bodies they build. */
  lemma NumbersReadBack(sub: seq<byte>, id: byte, number: uint32)
    requires |sub| < 0x100
    ensures var value := Walk(Body(sub, [Record(id, DP_TYPE_VALUE, IntToByte(number))]), 1 + |sub|);
      && value.Some? && |value.value| == 1 && value.value[0].id == id && value.value[0].kind == DP_TYPE_VALUE
      && |value.value[0].value| == 4 && ByteToInt(value.value[0].value) == number
    ensures var fault := Walk(Body(sub, [Record(id, DP_TYPE_FAULT, FaultBytes(number))]), 1 + |sub|);
      && fault.Some? && |fault.value| == 1 && fault.value[0].id == id && fault.value[0].kind == DP_TYPE_FAULT
      && |fault.value[0].value| == (if number < 0x100 then 1 else if number < 0x1_0000 then 2 else 4)
      && BigEndian(fault.value[0].value) == number
  {
    hide Walk, RecordsBytes;
    WalkRecords([|sub|] + sub, [Record(id, DP_TYPE_VALUE, IntToByte(number))]);
    WalkRecords([|sub|] + sub, [Record(id, DP_TYPE_FAULT, FaultBytes(number))]);
    IntByteRoundTrip(number);
    FaultRoundTrip(number);
  }
}
