/** make_query (final.py:137-159) read back by parse_dns_query
    (final.py:213-230): for a name whose labels are 1 to 63 ASCII characters
    with no NUL, the parser finds the question make_query wrote. */
module RoundTrip {
  import opened DnsBase
  import opened Registry
  import opened Flags
  import opened Names
  import opened Query
  import opened Message

  /** Labels that survive the trip: ASCII, no NUL (the parser looks for the
      first 0 byte to find the end of the question), and 1 to 63
      characters, so each length byte is a label length of section 2.3.4 of
      RFC 1035 and neither the terminator nor the pointer mark. */
  predicate PlainLabels(labels: seq<string>)
  {
    ShortAscii(labels)
    && forall i :: 0 <= i < |labels| ==> 1 <= |labels[i]| <= 63 && 0 as char !in labels[i]
  }

  predicate AllAscii(parts: seq<string>)
  {
    forall i :: 0 <= i < |parts| ==> IsAscii(parts[i])
  }

  /** The labels as the bytes the parser hands back. */
  function AsciiLabels(labels: seq<string>): (r: seq<Bytes>)
    requires AllAscii(labels)
    ensures |r| == |labels| && forall i :: 0 <= i < |labels| ==> r[i] == AsciiBytes(labels[i])
  {
    if labels == [] then [] else [AsciiBytes(labels[0])] + AsciiLabels(labels[1..])
  }

  /** The wire form make_query writes is the label run read_stream reads. */
  lemma {:induction false} WireOfLabels(labels: seq<string>)
    requires PlainLabels(labels)
    ensures WireReady(AsciiLabels(labels)) && WireLabels(labels) == LabelRun(AsciiLabels(labels))
  {
    if labels != [] {
      WireOfLabels(labels[1..]);
      assert AsciiLabels(labels)[1..] == AsciiLabels(labels[1..]);
    }
  }

  predicate NonZero(s: Bytes)
  {
    forall k :: 0 <= k < |s| ==> s[k] != 0
  }

  lemma NonZeroAppend(a: Bytes, b: Bytes)
    requires NonZero(a) && NonZero(b)
    ensures NonZero(a + b)
  {
    assert forall k :: 0 <= k < |a + b| ==> (a + b)[k] == if k < |a| then a[k] else b[k - |a|];
  }

  /** Neither a length byte nor a label holds a 0 byte. */
  lemma {:induction false} WireNonZero(labels: seq<string>)
    requires PlainLabels(labels)
    ensures NonZero(WireLabels(labels))
  {
    if labels != [] {
      var l := labels[0];
      WireNonZero(labels[1..]);
      assert NonZero(AsciiBytes(l)) by {
        assert forall k :: 0 <= k < |l| ==> AsciiBytes(l)[k] == l[k] as int && l[k] != 0 as char;
      }
      NonZeroAppend([|l|], AsciiBytes(l));
      NonZeroAppend([|l|] + AsciiBytes(l), WireLabels(labels[1..]));
    }
  }

  lemma AsciiAppend(a: string, b: string)
    requires IsAscii(a) && IsAscii(b)
    ensures IsAscii(a + b) && AsciiBytes(a + b) == AsciiBytes(a) + AsciiBytes(b)
  {
    assert forall i :: 0 <= i < |a + b| ==> AsciiBytes(a + b)[i] == (AsciiBytes(a) + AsciiBytes(b))[i];
  }

  /** The bytes of ASCII labels joined with '.' are the labels' bytes
      joined with the dot byte, as read_stream joins them. */
  lemma {:induction false} JoinOfAscii(parts: seq<string>)
    requires AllAscii(parts)
    ensures IsAscii(JoinText(parts)) && AsciiBytes(JoinText(parts)) == Join(AsciiLabels(parts))
  {
    if |parts| == 1 {
      assert AsciiLabels(parts) == [AsciiBytes(parts[0])];
    } else if |parts| > 1 {
      var rest := parts[1..];
      JoinOfAscii(rest);
      assert AsciiLabels(parts)[1..] == AsciiLabels(rest);
      assert AsciiBytes(".") == [Dot];
      AsciiAppend(parts[0], ".");
      AsciiAppend(parts[0] + ".", JoinText(rest));
    }
  }

  /** The first 0 byte from `from` on is the one every earlier byte
      precedes. */
  lemma FirstZeroAt(buf: Bytes, from: nat, z: nat)
    requires from <= z < |buf| && buf[z] == 0
    requires forall k :: from <= k < z ==> buf[k] != 0
    ensures FirstZero(buf, from) == Some(z)
  {
  }

  /** The flags make_query writes, 0x0100, decode: QR 0, opcode QUERY,
      RD 1, rcode 0. */
  lemma QueryFlagsDecode(f: Bytes)
    requires |f| == 2 && BigEndian(f) == 0x0100
    ensures DecodeFlags(Hex(f)).Ok?
  {
    FlagsWord(f);
    DecodeFlagsChecks(Hex(f));
  }

  /** The header make_query writes decodes: id as hexadecimal text, flags
      0x0100 (a standard query with recursion desired), one question and no
      records. */
  lemma QueryHeaderDecodes(id: Bytes, b: Bytes)
    requires |id| == 2 && b == id + FixedHeader
    ensures var d := DecodeHeader(b);
            d.Ok? && d.value.id == Hex(id) && d.value.questions == 1
            && d.value.answers == 0 && d.value.authority == 0 && d.value.additional == 0
            && FlagsValue(d.value.breakdown) == 0x0100
  {
    FixedFields(id, b);
    QueryFlagsDecode(b[2..4]);
    HeaderFlags(b);
  }

  /** The fields of the fixed header bytes, as big-endian numbers. */
  lemma FixedFields(id: Bytes, b: Bytes)
    requires |id| == 2 && b == id + FixedHeader
    ensures b[0..2] == id && b[2..4] == [1, 0] && BigEndian(b[2..4]) == 256
    ensures BigEndian(b[4..6]) == 1 && BigEndian(b[6..8]) == 0
    ensures BigEndian(b[8..10]) == 0 && BigEndian(b[10..12]) == 0
  {
    assert b[2..4] == [1, 0] && b[4..6] == [0, 1];
    assert b[6..8] == [0, 0] && b[8..10] == [0, 0] && b[10..12] == [0, 0];
    assert BigEndian([1, 0]) == 256 && BigEndian([0, 1]) == 1 && BigEndian([0, 0]) == 0;
  }

  /** parse_dns_query over a buffer whose question ends at the first 0 byte
      from offset 12, with every part decoding. */
  lemma ParseQueryOf(buf: Bytes, c: Cursor, z: nat, header: QueryHeader, name: Bytes, t: RecordType)
    requires 12 <= z && z + 5 == |buf| && FirstZero(buf, 12) == Some(z)
    requires DecodeHeader(buf[..12]) == Ok(header)
    requires ReadName(buf, c, 12, false, 0, RecursionLimit) == NameRead(Ok(name), c.(position := z))
    requires TypeOfCode(BigEndian(buf[z + 1..z + 3])) == Some(t) && buf[z + 3..] == [0, 1]
    ensures ParseQuery(buf, c)
            == QueryRead(Ok(Question(header, name, t, Internet)), Cursor(c.names[12 := name], z + 4))
  {
    var c' := c.(position := z, names := c.names[12 := name]);
    FieldsOf(buf, c', z, header, name, t);
    assert QuestionRead(buf, c, z, header) == QuestionFields(buf, c', z, header, name);
  }

  /** The type and class fields of a question that ends the buffer. */
  lemma FieldsOf(buf: Bytes, c: Cursor, z: nat, header: QueryHeader, name: Bytes, t: RecordType)
    requires 12 <= z && z + 5 == |buf|
    requires TypeOfCode(BigEndian(buf[z + 1..z + 3])) == Some(t) && buf[z + 3..] == [0, 1]
    ensures QuestionFields(buf, c, z, header, name)
            == QueryRead(Ok(Question(header, name, t, Internet)), c.(position := z + 4))
  {
    assert Slice(buf, 0, z + 5) == buf;
    assert Slice(buf, z + 1, z + 3) == buf[z + 1..z + 3];
    assert BigEndian([0, 1]) == 1;
  }

  /** Where the parts of a query datagram stand. */
  lemma QueryLayout(id: Bytes, wire: Bytes, t: RecordType, q: Bytes)
    requires |id| == 2 && q == id + FixedHeader + wire + [0] + U16(Code(t)) + [0, 1]
    ensures var z := 12 + |wire|;
            z + 5 == |q| && q[..12] == id + FixedHeader && q[12..z] == wire && q[z] == 0
            && q[z + 1..z + 3] == U16(Code(t)) && q[z + 3..] == [0, 1]
  {
    var head, tail := id + FixedHeader, [0] + U16(Code(t)) + [0, 1];
    assert q == head + wire + tail;
    Parts(head, wire, tail);
    assert q[12 + |wire|..] == tail;
  }

  lemma Parts(a: Bytes, w: Bytes, b: Bytes)
    ensures (a + w + b)[..|a|] == a && (a + w + b)[|a|..|a| + |w|] == w && (a + w + b)[|a| + |w|..] == b
  {
  }

  /** A window of nonzero bytes followed by a 0 byte: the first 0 byte
      from the window's start is the one after it. */
  lemma ZeroAfter(q: Bytes, wire: Bytes)
    requires 12 + |wire| < |q| && q[12..12 + |wire|] == wire && q[12 + |wire|] == 0
    requires NonZero(wire)
    ensures FirstZero(q, 12) == Some(12 + |wire|)
  {
    forall k | 12 <= k < 12 + |wire|
      ensures q[k] != 0
    {
      assert q[k] == wire[k - 12];
    }
    FirstZeroAt(q, 12, 12 + |wire|);
  }

  /** A window holding the wire form of the labels, then a 0 byte, reads
      as those labels joined with dots, and the cursor stops on the 0. */
  lemma NameAfter(q: Bytes, labels: seq<string>, c: Cursor)
    requires PlainLabels(labels)
    requires 12 + |WireLabels(labels)| < |q| && q[12..12 + |WireLabels(labels)|] == WireLabels(labels)
    requires q[12 + |WireLabels(labels)|] == 0
    ensures ReadName(q, c, 12, false, 0, RecursionLimit)
            == NameRead(Ok(Join(AsciiLabels(labels))), c.(position := 12 + |WireLabels(labels)|))
  {
    WireOfLabels(labels);
    var run := AsciiLabels(labels);
    RunOfWire(q, 12, run);
    ReadLabels(q, 12, run, c, false, 0, 0, [], RecursionLimit);
    assert [] + run == run;
  }

  /** The bytes make_query builds for plain labels, in the terms the parser
      reads them. */
  lemma QueryBytesRead(id: Bytes, labels: seq<string>, t: RecordType, c: Cursor)
    requires |id| == 2 && PlainLabels(labels)
    ensures var q, z := id + FixedHeader + WireLabels(labels) + [0] + U16(Code(t)) + [0, 1], 12 + |WireLabels(labels)|;
            z + 5 == |q| && FirstZero(q, 12) == Some(z) && q[..12] == id + FixedHeader
            && ReadName(q, c, 12, false, 0, RecursionLimit) == NameRead(Ok(Join(AsciiLabels(labels))), c.(position := z))
            && TypeOfCode(BigEndian(q[z + 1..z + 3])) == Some(t) && q[z + 3..] == [0, 1]
  {
    var wire := WireLabels(labels);
    var q := id + FixedHeader + wire + [0] + U16(Code(t)) + [0, 1];
    QueryLayout(id, wire, t, q);
    WireNonZero(labels);
    ZeroAfter(q, wire);
    NameAfter(q, labels, c);
    QtypeRoundTrip(t);
  }

  /** The round trip: for labels of 1 to 63 ASCII characters with no NUL,
      parse_dns_query over make_query's datagram gives back the name's
      bytes (the query itself for A, CNAME and AAAA, its registrable part
      for NS, MX and TXT), the requested type, class INTERNET, and the
      header make_query wrote; the name is cached at offset 12 and the
      cursor stops on the last byte. */
  lemma QueryRoundTrip(id: Bytes, query: string, qtype: string, o: Oracles, c: Cursor)
    requires |id| == 2 && MakeQuery(id, query, qtype, o).Ok?
    requires PlainLabels(Split(Target(query, TypeOfMnemonic(Upper(qtype)).value, o).value))
    ensures var q, t := MakeQuery(id, query, qtype, o).value, TypeOfMnemonic(Upper(qtype)).value;
            var target, r := Target(query, t, o).value, ParseQuery(q, c);
            IsAscii(target) && r.result.Ok?
            && r.result.value.name == AsciiBytes(target)
            && r.result.value.qtype == t && r.result.value.qclass == Internet
            && r.cursor == Cursor(c.names[12 := AsciiBytes(target)], |q| - 1)
            && (t in {A, CNAME, AAAA} ==> target == query)
            && (t in {NS, MX, TXT} ==> target == o.sld(query).value)
    ensures var r := ParseQuery(MakeQuery(id, query, qtype, o).value, c);
            r.result.Ok? && r.result.value.header.id == Hex(id)
            && r.result.value.header.questions == 1 && r.result.value.header.answers == 0
            && r.result.value.header.authority == 0 && r.result.value.header.additional == 0
            && FlagsValue(r.result.value.header.breakdown) == 0x0100
  {
    var t := TypeOfMnemonic(Upper(qtype)).value;
    var target := Target(query, t, o).value;
    var labels := Split(target);
    MakeQueryWire(id, query, qtype, o);
    var q := MakeQuery(id, query, qtype, o).value;
    var z := 12 + |WireLabels(labels)|;
    QueryBytesRead(id, labels, t, c);
    JoinOfAscii(labels);
    JoinSplit(target);
    var name := Join(AsciiLabels(labels));
    QueryHeaderDecodes(id, q[..12]);
    var header := DecodeHeader(q[..12]).value;
    ParseQueryOf(q, c, z, header, name, t);
  }
}
