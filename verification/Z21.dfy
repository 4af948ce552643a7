/** Splitting a UDP payload into Z21 LAN records: length, header, data. */
module Z21 {
  import opened Base

  datatype Record = Record(header: u16, xheader: u8, dataLen: u16, data: seq<u8>)

  const XBUS: u16 := 0x0040

  function Le16(lo: u8, hi: u8): u16 {
    hi * 0x100 + lo
  }

  function Bytes16(x: u16): seq<u8> {
    [x % 0x100, x / 0x100]
  }

  /** The X-BUS sub-header: the first data byte of an X-BUS record, else zero. */
  function XHeader(header: u16, data: seq<u8>): u8 {
    if header == XBUS && data != [] then data[0] else 0
  }

  /** What the wire carries of a record. */
  function Encode(r: Record): seq<u8> {
    Bytes16(r.dataLen) + Bytes16(r.header) + r.data
  }

  function EncodeAll(rs: seq<Record>): seq<u8> {
    if rs == [] then [] else Encode(rs[0]) + EncodeAll(rs[1..])
  }

  /** A record that can be on the wire: its length counts its four header bytes. */
  predicate WellFormed(r: Record) {
    r.dataLen == |r.data| + 4 && r.xheader == XHeader(r.header, r.data)
  }

  /** Whether a whole record starts the payload. */
  predicate Starts(payload: seq<u8>) {
    |payload| >= 4 && 4 <= Le16(payload[0], payload[1]) <= |payload|
  }

  function First(payload: seq<u8>): Record
    requires Starts(payload)
  {
    var dataLen := Le16(payload[0], payload[1]);
    var header := Le16(payload[2], payload[3]);
    var data := payload[4..dataLen];
    Record(header, XHeader(header, data), dataLen, data)
  }

  function Parse(payload: seq<u8>): seq<Record> {
    if Starts(payload) then [First(payload)] + Parse(payload[First(payload).dataLen..]) else []
  }

  /** The test the loop makes at an offset, and what it finds there. */
  lemma StartsAt(payload: seq<u8>, off: nat)
    requires off + 4 <= |payload|
    ensures var n := Le16(payload[off], payload[off + 1]);
      && (Starts(payload[off..]) <==> 4 <= n && off + n <= |payload|)
      && (Starts(payload[off..]) ==>
            var header := Le16(payload[off + 2], payload[off + 3]);
            var data := payload[off + 4..off + n];
            && First(payload[off..]) == Record(header, XHeader(header, data), n, data)
            && payload[off..][n..] == payload[off + n..])
  {
    var n := Le16(payload[off], payload[off + 1]);
    if Starts(payload[off..]) {
      assert payload[off..][4..n] == payload[off + 4..off + n];
    }
  }

  /** How the parse goes on at an offset. */
  lemma ParseAt(payload: seq<u8>, off: nat)
    requires off + 4 <= |payload|
    ensures var n, header := Le16(payload[off], payload[off + 1]), Le16(payload[off + 2], payload[off + 3]);
      if 4 <= n && off + n <= |payload| then
        var data := payload[off + 4..off + n];
        Parse(payload[off..]) == [Record(header, XHeader(header, data), n, data)] + Parse(payload[off + n..])
      else Parse(payload[off..]) == []
  {
    hide Starts, First, Le16, XHeader;
    StartsAt(payload, off);
  }

  lemma ParseShort(payload: seq<u8>)
    requires |payload| < 4
    ensures Parse(payload) == []
  {
  }

  /** The detector's loop; every turn that goes on consumes at least four bytes. */
  method DetectRecords(payload: seq<u8>) returns (out: seq<Record>)
    ensures out == Parse(payload)
  {
    hide Parse, Le16;
    out := [];
    var off := 0;
    assert payload[0..] == payload;
    while off + 4 <= |payload|
      invariant 0 <= off <= |payload|
      invariant out + Parse(payload[off..]) == Parse(payload)
      decreases |payload| - off
    {
      ParseAt(payload, off);
      var dataLen := Le16(payload[off], payload[off + 1]);
      var header := Le16(payload[off + 2], payload[off + 3]);
      if dataLen < 4 {
        break;
      }
      if off + dataLen > |payload| {
        break;
      }
      var data := payload[off + 4..off + dataLen];
      var xheader := if header == XBUS then (if |data| > 0 then data[0] else 0) else 0;
      out := out + [Record(header, xheader, dataLen, data)];
      off := off + dataLen;
    }
    if |payload| < off + 4 {
      ParseShort(payload[off..]);
    }
  }

  lemma LeBytes(x: u16)
    ensures Le16(x % 0x100, x / 0x100) == x
  {
  }

  lemma EncodeStarts(r: Record, tail: seq<u8>)
    requires WellFormed(r)
    ensures var p := Encode(r) + tail; Starts(p) && First(p) == r && p[r.dataLen..] == tail
  {
    var p := Encode(r) + tail;
    assert p[..4] == Bytes16(r.dataLen) + Bytes16(r.header);
    assert p[0] == r.dataLen % 0x100 && p[1] == r.dataLen / 0x100;
    assert p[2] == r.header % 0x100 && p[3] == r.header / 0x100;
    assert p[4..r.dataLen] == r.data;
    LeBytes(r.dataLen);
    LeBytes(r.header);
  }

  /** Parsing what was encoded gives the records back, then whatever follows them. */
  lemma {:induction false} ParseEncoded(rs: seq<Record>, tail: seq<u8>)
    requires forall r :: r in rs ==> WellFormed(r)
    ensures Parse(EncodeAll(rs) + tail) == rs + Parse(tail)
  {
    hide Starts, First, Encode, WellFormed;
    if rs == [] {
      assert EncodeAll(rs) + tail == tail;
    } else {
      var rest := EncodeAll(rs[1..]) + tail;
      assert EncodeAll(rs) + tail == Encode(rs[0]) + rest;
      EncodeStarts(rs[0], rest);
      ParseEncoded(rs[1..], tail);
    }
  }

  lemma FirstEncodes(payload: seq<u8>)
    requires Starts(payload)
    ensures WellFormed(First(payload)) && 4 <= First(payload).dataLen <= |payload|
    ensures Encode(First(payload)) == payload[..First(payload).dataLen]
  {
    var r := First(payload);
    assert Bytes16(r.dataLen) == [payload[0], payload[1]];
    assert Bytes16(r.header) == [payload[2], payload[3]];
  }

  /** What is left when the detector stops. */
  function Rest(payload: seq<u8>): seq<u8> {
    if Starts(payload) then Rest(payload[First(payload).dataLen..]) else payload
  }

  /**
   * Nothing is lost: the payload is its records' encodings and a rest in which no
   * record starts. Every record found is well-formed.
   */
  lemma {:induction false} PayloadIsEncoded(payload: seq<u8>)
    ensures payload == EncodeAll(Parse(payload)) + Rest(payload)
    ensures Parse(Rest(payload)) == [] && !Starts(Rest(payload))
    ensures forall r :: r in Parse(payload) ==> WellFormed(r)
  {
    hide Starts, First, Encode, WellFormed;
    if Starts(payload) {
      var r := First(payload);
      FirstEncodes(payload);
      PayloadIsEncoded(payload[r.dataLen..]);
      assert payload == payload[..r.dataLen] + payload[r.dataLen..];
      assert Parse(payload)[1..] == Parse(payload[r.dataLen..]);
    }
  }

  /** The records are the only well-formed ones that leave no record at the end. */
  lemma ParseIsUnique(payload: seq<u8>, rs: seq<Record>, rest: seq<u8>)
    requires payload == EncodeAll(rs) + rest && !Starts(rest)
    requires forall r :: r in rs ==> WellFormed(r)
    ensures rs == Parse(payload) && rest == Rest(payload)
  {
    hide Starts, First, Encode, WellFormed, EncodeAll, Parse, Rest;
    ParseEncoded(rs, rest);
    PayloadIsEncoded(payload);
    NothingParsed(rest);
    assert rs + Parse(rest) == rs;
    SameTail(EncodeAll(rs), rest, Rest(payload));
  }

  lemma LowByteFirst(lo: u8, hi: u8)
    ensures Le16(lo, hi) == (lo as int) + 256 * (hi as int)
  {
  }

  lemma SubHeader(header: u16, data: seq<u8>)
    ensures XHeader(header, data) == if header == 0x40 && |data| > 0 then data[0] else 0
  {
  }

  /** Two bytes as a number, low byte first. */
  function Number(lo: u8, hi: u8): nat {
    (lo as int) + 256 * (hi as int)
  }

  lemma HeadIs(p: seq<u8>)
    requires |p| >= 4 && 4 <= Number(p[0], p[1]) <= |p|
    ensures var n, header := Number(p[0], p[1]), Number(p[2], p[3]);
      && Starts(p) && n < 0x1_0000 && header < 0x1_0000
      && First(p) == Record(header, if header == 0x40 && n > 4 then p[4] else 0, n, p[4..n])
  {
    hide Le16, XHeader;
    LowByteFirst(p[0], p[1]);
    LowByteFirst(p[2], p[3]);
    SubHeader(Le16(p[2], p[3]), p[4..Le16(p[0], p[1])]);
  }

  /**
   * The head of a payload, byte by byte: two bytes of length and two of header, low byte
   * first, then the data; the sub-header is the first data byte after header 0x0040, else zero.
   */
  lemma HeadOfPayload(p: seq<u8>)
    requires |p| >= 4 && 4 <= Number(p[0], p[1]) <= |p|
    ensures var n, header := Number(p[0], p[1]), Number(p[2], p[3]);
      && n < 0x1_0000 && header < 0x1_0000
      && Parse(p) == [Record(header, if header == 0x40 && n > 4 then p[4] else 0, n, p[4..n])] + Parse(p[n..])
  {
    hide Starts, First, Number;
    HeadIs(p);
  }

  /** Nothing is found in a payload too short for a head, or for what its head announces. */
  lemma NoHead(p: seq<u8>)
    requires |p| >= 4 ==> Number(p[0], p[1]) < 4 || Number(p[0], p[1]) > |p|
    ensures Parse(p) == []
  {
    if |p| >= 4 {
      LowByteFirst(p[0], p[1]);
    }
    assert !Starts(p);
  }

  lemma NothingParsed(rest: seq<u8>)
    requires !Starts(rest)
    ensures Parse(rest) == []
  {
  }

  lemma SameTail(a: seq<u8>, b: seq<u8>, c: seq<u8>)
    requires a + b == a + c
    ensures b == c
  {
    assert b == (a + b)[|a|..] && c == (a + c)[|a|..];
  }
}
