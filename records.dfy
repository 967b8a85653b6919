/** One resource record of a response (section 4.1.3 of RFC 1035):
    decode_response (final.py:118-132) for the fixed ten bytes after the
    owner name, the RDATA readers (final.py:232-245) and parse_dns_answer
    (final.py:258-302), which dispatches on the record type. */
module Records {
  import opened DnsBase
  import opened Registry
  import opened Names

  /** The dictionary decode_response returns. */
  datatype RecordHeader = RecordHeader(qtype: RecordType, qclass: QClass, ttl: nat, dataLength: nat)

  /** decode_response: TYPE, CLASS, TTL and RDLENGTH from exactly ten bytes.
      A wrong length is a ValueError, a type not in QTYPE a KeyError and a
      class other than 1 a ValueError, in that order. */
  function DecodeResponse(fields: Bytes): (r: Result<RecordHeader>)
    ensures r.Ok? <==> |fields| == 10 && TypeOfCode(BigEndian(fields[..2])).Some?
                       && BigEndian(fields[2..4]) == 1
    ensures r.Err? ==> r.error == (if |fields| == 10 && TypeOfCode(BigEndian(fields[..2])).None?
                                   then KeyError else ValueError)
    ensures r.Ok? ==> Code(r.value.qtype) == BigEndian(fields[..2])
                      && r.value.ttl == BigEndian(fields[4..8]) && r.value.ttl < 0x1_0000_0000
                      && r.value.dataLength == BigEndian(fields[8..10]) && r.value.dataLength < 0x1_0000
  {
    if |fields| != 10 then Err(ValueError)
    else
      match TypeOfCode(BigEndian(fields[..2]))
      case None => Err(KeyError)
      case Some(t) =>
        match DnsQclass(BigEndian(fields[2..4]))
        case Err(e) => Err(e)
        case Ok(k) =>
          assert Pow256(4) == 0x1_0000_0000 && Pow256(2) == 0x1_0000;
          Ok(RecordHeader(t, k, BigEndian(fields[4..8]), BigEndian(fields[8..10])))
  }

  /** The ten bytes section 4.1.3 of RFC 1035 puts after the owner name. */
  function EncodeHeader(h: RecordHeader): (r: Bytes)
    requires h.ttl < 0x1_0000_0000 && h.dataLength < 0x1_0000
    ensures |r| == 10
  {
    assert Pow256(4) == 0x1_0000_0000;
    U16(Code(h.qtype)) + U16(1) + ToBigEndian(h.ttl, 4) + U16(h.dataLength)
  }

  /** decode_response reads back every header it can be given. */
  lemma DecodeEncodedHeader(h: RecordHeader)
    requires h.ttl < 0x1_0000_0000 && h.dataLength < 0x1_0000
    ensures DecodeResponse(EncodeHeader(h)) == Ok(h)
  {
    var r := EncodeHeader(h);
    assert Pow256(4) == 0x1_0000_0000;
    assert r[..2] == U16(Code(h.qtype));
    assert r[2..4] == U16(1);
    assert r[4..8] == ToBigEndian(h.ttl, 4);
    assert r[8..10] == U16(h.dataLength);
    QtypeRoundTrip(h.qtype);
    assert BigEndian(r[..2]) == Code(h.qtype) && BigEndian(r[2..4]) == 1;
    assert BigEndian(r[4..8]) == h.ttl && BigEndian(r[8..10]) == h.dataLength;
    assert |r| == 10 && TypeOfCode(BigEndian(r[..2])).Some?;
    assert DecodeResponse(r).Ok?;
    var d := DecodeResponse(r).value;
    QtypeRoundTrip(d.qtype);
    assert d.qtype == h.qtype;
    assert d.ttl == h.ttl;
    assert d.dataLength == h.dataLength;
    assert d.qclass == h.qclass;
  }

  /** `str(n)` for a byte. */
  function Decimal(n: nat): (s: string)
    ensures |s| >= 1 && forall i :: 0 <= i < |s| ==> '0' <= s[i] <= '9'
  {
    if n < 10 then [('0' as int + n) as char] else Decimal(n / 10) + [('0' as int + n % 10) as char]
  }

  /** `int(s)` for a string of decimal digits. */
  function DecimalValue(s: string): nat
    requires forall i :: 0 <= i < |s| ==> '0' <= s[i] <= '9'
  {
    if s == [] then 0 else DecimalValue(s[..|s| - 1]) * 10 + (s[|s| - 1] as int - '0' as int)
  }

  lemma {:induction false} DecimalRoundTrip(n: nat)
    ensures DecimalValue(Decimal(n)) == n
  {
    if n >= 10 {
      DecimalRoundTrip(n / 10);
      var s := Decimal(n);
      assert s[..|s| - 1] == Decimal(n / 10);
    }
  }

  /** rdata_ipv4's text: the four bytes in decimal, joined with '.'. */
  function DottedQuad(b: Bytes): (s: string)
    requires |b| == 4
    ensures s == Decimal(b[0]) + "." + Decimal(b[1]) + "." + Decimal(b[2]) + "." + Decimal(b[3])
  {
    var parts := [Decimal(b[0]), Decimal(b[1]), Decimal(b[2]), Decimal(b[3])];
    assert parts[1..] == [Decimal(b[1]), Decimal(b[2]), Decimal(b[3])];
    assert parts[1..][1..] == [Decimal(b[2]), Decimal(b[3])];
    assert parts[1..][1..][1..] == [Decimal(b[3])];
    assert JoinText(parts[1..][1..]) == Decimal(b[2]) + "." + Decimal(b[3]);
    assert JoinText(parts[1..]) == Decimal(b[1]) + "." + (Decimal(b[2]) + "." + Decimal(b[3]));
    JoinText(parts)
  }

  /** The Mail Exchange of an MX record: a host name, or '<Root>' for the
      null MX. */
  datatype Exchange = Root | Exchanger(host: Bytes)

  /** The RDATA of the record types the parser understands. IPv6 addresses
      are kept as their sixteen bytes; text and names as bytes. */
  datatype RData =
    | Ipv4(dotted: string)
    | Ipv6(address: Bytes)
    | Txt(textLength: Byte, text: Bytes)
    | Host(name: Bytes)
    | Mail(preference: nat, exchange: Exchange)

  /** rdata_ipv4 (final.py:232-234): the bounds check on the last of the four
      address bytes, then the address in dotted decimal. */
  function RdataIpv4(buf: Bytes, pos: nat): (r: Result<string>)
    ensures r.Ok? <==> pos + 3 < |buf|
    ensures r.Err? ==> r.error == IndexError
    ensures r.Ok? ==> r.value == DottedQuad(buf[pos..pos + 4])
  {
    if pos + 3 >= |buf| then Err(IndexError) else Ok(DottedQuad(buf[pos..pos + 4]))
  }

  /** The four numbers of a dotted quad read back as the four bytes. */
  lemma DottedQuadDigits(b: Bytes)
    requires |b| == 4
    ensures DecimalValue(Decimal(b[0])) == b[0] && DecimalValue(Decimal(b[1])) == b[1]
    ensures DecimalValue(Decimal(b[2])) == b[2] && DecimalValue(Decimal(b[3])) == b[3]
  {
    DecimalRoundTrip(b[0]);
    DecimalRoundTrip(b[1]);
    DecimalRoundTrip(b[2]);
    DecimalRoundTrip(b[3]);
  }

  /** rdata_ipv6 (final.py:236-238): the bounds check on the last of the
      sixteen address bytes, then the address. */
  function RdataIpv6(buf: Bytes, pos: nat): (r: Result<Bytes>)
    ensures r.Ok? <==> pos + 15 < |buf|
    ensures r.Err? ==> r.error == IndexError
    ensures r.Ok? ==> |r.value| == 16 && forall i :: 0 <= i < 16 ==> r.value[i] == buf[pos + i]
  {
    if pos + 15 >= |buf| then Err(IndexError) else Ok(buf[pos..pos + 16])
  }

  /** rdata_txt (final.py:240-242) on RDATA of `length` bytes at `pos`: the
      bounds check on the last RDATA byte, the length byte, and the text
      taken from `pos + 1` up to `pos + length + 1`. */
  function RdataTxt(buf: Bytes, pos: nat, length: nat): (r: Result<(Byte, Bytes)>)
    requires length >= 1
    ensures r.Ok? <==> pos + length - 1 < |buf|
    ensures r.Err? ==> r.error == IndexError
    ensures r.Ok? ==> r.value.0 == buf[pos]
                      && |r.value.1| == Min(length, |buf| - pos - 1)
                      && forall i :: 0 <= i < |r.value.1| ==> r.value.1[i] == buf[pos + 1 + i]
  {
    if pos + length - 1 >= |buf| then Err(IndexError)
    else Ok((buf[pos], Slice(buf, pos + 1, pos + length + 1)))
  }

  /** The text rdata_txt returns runs one byte past the RDATA whenever the
      buffer goes on: with a length byte L and RDLENGTH L + 1, it holds L + 1
      bytes, the last of which is the first byte after the record. */
  lemma TxtReadsPastRdata(buf: Bytes, pos: nat, length: nat)
    requires length >= 1 && pos + length < |buf|
    ensures RdataTxt(buf, pos, length).Ok?
    ensures var text := RdataTxt(buf, pos, length).value.1;
            |text| == length && text[length - 1] == buf[pos + length]
  {
  }

  /** What rdata_mx yields and the state it leaves. */
  datatype MxRead = MxRead(result: Result<(nat, Bytes)>, cursor: Cursor)

  /** rdata_mx (final.py:244-245): the 16-bit preference, then the exchange
      name read by `read_stream(pos + 2, length - 2)`, so that `length - 2`
      lands in `recur`. */
  function RdataMx(buf: Bytes, c: Cursor, pos: nat, length: int): (r: MxRead)
    ensures var x := ReadName(buf, c, pos + 2, length - 2 != 0, 0, RecursionLimit);
            r.cursor == x.cursor && r.result.Ok? == x.result.Ok?
            && (r.result.Ok? ==> r.result.value == (BigEndian(Slice(buf, pos, pos + 2)), x.result.value))
            && (r.result.Err? ==> r.result.error == x.result.error)
    ensures r.result.Ok? ==> r.result.value.0 < 0x1_0000
  {
    var preference := BigEndian(Slice(buf, pos, pos + 2));
    assert preference < 0x1_0000 by { assert Pow256(2) == 0x1_0000; }
    var x := ReadName(buf, c, pos + 2, length - 2 != 0, 0, RecursionLimit);
    if x.result.Err? then MxRead(Err(x.result.error), x.cursor)
    else MxRead(Ok((preference, x.result.value)), x.cursor)
  }

  /** The answer dictionary: the owner name, the decoded header and RDATA. */
  datatype Answer = Answer(qname: Bytes, header: RecordHeader, rdata: RData)

  /** What a call of parse_dns_answer yields and the state it leaves. */
  datatype AnswerRead = AnswerRead(result: Result<Answer>, cursor: Cursor)

  /** The owner-name read parse_dns_answer starts with, one byte past the
      cursor. */
  function OwnerRead(buf: Bytes, c: Cursor): (r: NameRead)
    ensures c.position + 1 >= |buf| ==> r == NameRead(Err(IndexError), c)
    ensures r.result.Err? ==> r.result.error == IndexError || r.result.error == RecursionError
  {
    ReadName(buf, c, c.position + 1, false, 0, RecursionLimit)
  }

  /** The fixed fields that follow the owner name, read at the cursor the
      owner-name read left. Fewer than ten bytes left is decode_response's
      ValueError. */
  function HeaderAt(buf: Bytes, p: nat): (r: Result<RecordHeader>)
    ensures p + 11 > |buf| ==> r == Err(ValueError)
    ensures p + 11 <= |buf| ==> r == DecodeResponse(buf[p + 1..p + 11])
    ensures r.Err? ==> r.error == ValueError || r.error == KeyError
  {
    DecodeResponse(Slice(buf, p + 1, p + 11))
  }

  /** The RDATA parse_dns_answer builds agrees with the record type and the
      data length. */
  predicate Consistent(a: Answer)
  {
    a.header.dataLength != 0
    && match a.header.qtype
       case A => a.rdata.Ipv4? && a.header.dataLength == 4
       case AAAA => a.rdata.Ipv6? && |a.rdata.address| == 16 && a.header.dataLength == 16
       case TXT => a.rdata.Txt? && a.header.dataLength == a.rdata.textLength + 1
       case CNAME => a.rdata.Host?
       case NS => a.rdata.Host?
       case PTR => a.rdata.Host?
       case MX => a.rdata.Mail? && (a.rdata.exchange.Root? ==> a.header.dataLength == 3)
  }

  /** How far a record of fixed shape moves the cursor past the owner name's
      end `p`: 14 for A, 26 for AAAA, 10 + RDLENGTH for TXT and 13 for the
      null MX. Name-valued records move it only through their name reads. */
  predicate Advanced(buf: Bytes, a: Answer, p: nat, position: nat)
  {
    match a.rdata
    case Ipv4(_) => position == p + 14
    case Ipv6(_) => position == p + 26
    case Txt(_, _) => position == p + 10 + a.header.dataLength
    case Mail(_, Root) => position == p + 13
    case _ => position == p || Parked(buf, position)
  }

  /** The rest of parse_dns_answer once the owner name `qname` and the
      fixed fields `h` are read and the cursor `c1` sits on the owner name's
      last byte: the RDATA checks and decoding for each record type. */
  function RecordRead(buf: Bytes, c1: Cursor, qname: Bytes, h: RecordHeader, valid: Bytes -> bool): (r: AnswerRead)
    ensures r.result.Ok? ==> r.result.value.qname == qname && r.result.value.header == h
                             && Consistent(r.result.value)
                             && Advanced(buf, r.result.value, c1.position, r.cursor.position)
    ensures r.result.Ok? && r.result.value.rdata.Host? ==> valid(r.result.value.rdata.name)
    ensures r.result.Ok? && r.result.value.rdata.Mail? && r.result.value.rdata.exchange.Exchanger?
            ==> valid(r.result.value.rdata.exchange.host)
  {
    var p := c1.position;
    var length := h.dataLength;
    if length == 0 then AnswerRead(Err(ValueError), c1)
    else
      match h.qtype
      case A =>
        if length != 4 then AnswerRead(Err(ValueError), c1)
        else
          (match RdataIpv4(buf, p + 11)
           case Err(e) => AnswerRead(Err(e), c1)
           case Ok(dotted) => AnswerRead(Ok(Answer(qname, h, Ipv4(dotted))), c1.(position := p + 14)))
      case AAAA =>
        if length != 16 then AnswerRead(Err(ValueError), c1)
        else
          (match RdataIpv6(buf, p + 11)
           case Err(e) => AnswerRead(Err(e), c1)
           case Ok(address) => AnswerRead(Ok(Answer(qname, h, Ipv6(address))), c1.(position := p + 26)))
      case TXT =>
        (match RdataTxt(buf, p + 11, length)
         case Err(e) => AnswerRead(Err(e), c1)
         case Ok(txt) =>
           if length - txt.0 != 1 then AnswerRead(Err(ValueError), c1)
           else AnswerRead(Ok(Answer(qname, h, Txt(txt.0, txt.1))), c1.(position := p + 10 + length)))
      case MX =>
        if length == 3 && p + 13 >= |buf| then AnswerRead(Err(IndexError), c1)
        else if length == 3 && buf[p + 13] == 0 then
          var preference := BigEndian(Slice(buf, p + 11, p + 13));
          AnswerRead(Ok(Answer(qname, h, Mail(preference, Root))), c1.(position := p + 13))
        else
          var x := RdataMx(buf, c1, p + 11, length);
          CursorParked(buf, c1, p + 13, length - 2 != 0, 0, 0, [], RecursionLimit);
          if x.result.Err? then AnswerRead(Err(x.result.error), x.cursor)
          else if !valid(x.result.value.1) then AnswerRead(Err(ValueError), x.cursor)
          else AnswerRead(Ok(Answer(qname, h, Mail(x.result.value.0, Exchanger(x.result.value.1)))), x.cursor)
      case _ =>
        var x := ReadName(buf, c1, p + 11, true, 0, RecursionLimit);
        CursorParked(buf, c1, p + 11, true, 0, 0, [], RecursionLimit);
        if x.result.Err? then AnswerRead(Err(x.result.error), x.cursor)
        else if !valid(x.result.value) then AnswerRead(Err(ValueError), x.cursor)
        else AnswerRead(Ok(Answer(qname, h, Host(x.result.value))), x.cursor)
  }

  /** An A record: RDLENGTH must be 4 (ValueError), the four address bytes
      must be in the response (IndexError); the RDATA is their dotted quad
      and the cursor moves 14 bytes past the owner name's end. */
  lemma RecordReadA(buf: Bytes, c1: Cursor, qname: Bytes, h: RecordHeader, valid: Bytes -> bool)
    requires h.qtype == A
    ensures var r, p := RecordRead(buf, c1, qname, h, valid), c1.position;
            && (r.result.Ok? <==> h.dataLength == 4 && p + 14 < |buf|)
            && (r.result.Err? ==> r.cursor == c1
                                  && r.result.error == if h.dataLength == 4 then IndexError else ValueError)
            && (r.result.Ok? ==> r.result.value == Answer(qname, h, Ipv4(DottedQuad(buf[p + 11..p + 15])))
                                 && r.cursor == c1.(position := p + 14))
  {
  }

  /** An AAAA record: RDLENGTH must be 16 (ValueError), the sixteen address
      bytes must be in the response (IndexError); the RDATA is those bytes
      and the cursor moves 26 bytes past the owner name's end. */
  lemma RecordReadAaaa(buf: Bytes, c1: Cursor, qname: Bytes, h: RecordHeader, valid: Bytes -> bool)
    requires h.qtype == AAAA
    ensures var r, p := RecordRead(buf, c1, qname, h, valid), c1.position;
            && (r.result.Ok? <==> h.dataLength == 16 && p + 26 < |buf|)
            && (r.result.Err? ==> r.cursor == c1
                                  && r.result.error == if h.dataLength == 16 then IndexError else ValueError)
            && (r.result.Ok? ==> r.result.value == Answer(qname, h, Ipv6(buf[p + 11..p + 27]))
                                 && r.cursor == c1.(position := p + 26))
  {
  }

  /** A TXT record: a non-empty RDATA that lies inside the response
      (IndexError otherwise) and whose length byte is one less than RDLENGTH
      (ValueError otherwise). The RDATA is the length byte and the RDLENGTH
      bytes after it, clipped at the end of the response; the cursor moves
      10 + RDLENGTH bytes past the owner name's end. */
  lemma RecordReadTxt(buf: Bytes, c1: Cursor, qname: Bytes, h: RecordHeader, valid: Bytes -> bool)
    requires h.qtype == TXT
    ensures var r, p, n := RecordRead(buf, c1, qname, h, valid), c1.position, h.dataLength;
            && (r.result.Ok? <==> n != 0 && p + 10 + n < |buf| && n == buf[p + 11] as int + 1)
            && (r.result.Err? ==> r.cursor == c1
                                  && r.result.error == if n != 0 && p + 10 + n >= |buf| then IndexError else ValueError)
            && (r.result.Ok? ==> r.result.value == Answer(qname, h, Txt(buf[p + 11], Slice(buf, p + 12, p + 12 + n)))
                                 && r.cursor == c1.(position := p + 10 + n))
  {
  }

  /** A CNAME, NS or PTR record: a non-empty RDATA (ValueError otherwise)
      holding a name read with a truthy `recur`, whose errors are passed on
      and which `valid_domain` must accept (ValueError otherwise). The RDATA
      is that name and the cursor is where the name read left it. */
  lemma RecordReadHost(buf: Bytes, c1: Cursor, qname: Bytes, h: RecordHeader, valid: Bytes -> bool)
    requires h.qtype in {CNAME, NS, PTR}
    ensures var r, n := RecordRead(buf, c1, qname, h, valid), h.dataLength;
            var x := ReadName(buf, c1, c1.position + 11, true, 0, RecursionLimit);
            && (r.result.Ok? <==> n != 0 && x.result.Ok? && valid(x.result.value))
            && (r.result.Err? ==> r.result.error == if n != 0 && x.result.Err? then x.result.error else ValueError)
            && r.cursor == (if n == 0 then c1 else x.cursor)
            && (r.result.Ok? ==> r.result.value == Answer(qname, h, Host(x.result.value)))
  {
  }

  /** An MX record. A non-empty RDATA (ValueError otherwise). With RDLENGTH
      3 the byte after the preference must be in the response (IndexError
      otherwise), and when it is 0 the record is the null MX: the preference
      and '<Root>', with the cursor 13 bytes past the owner name's end.
      Otherwise rdata_mx reads the preference and the exchange, whose errors
      are passed on and which `valid_domain` must accept (ValueError
      otherwise); the cursor is where that read left it. */
  lemma RecordReadMx(buf: Bytes, c1: Cursor, qname: Bytes, h: RecordHeader, valid: Bytes -> bool)
    requires h.qtype == MX
    ensures var r, p, n := RecordRead(buf, c1, qname, h, valid), c1.position, h.dataLength;
            n == 0 ==> r == AnswerRead(Err(ValueError), c1)
    ensures var r, p, n := RecordRead(buf, c1, qname, h, valid), c1.position, h.dataLength;
            n == 3 && p + 13 >= |buf| ==> r == AnswerRead(Err(IndexError), c1)
    ensures var r, p, n := RecordRead(buf, c1, qname, h, valid), c1.position, h.dataLength;
            n == 3 && p + 13 < |buf| && buf[p + 13] == 0
            ==> r == AnswerRead(Ok(Answer(qname, h, Mail(BigEndian(buf[p + 11..p + 13]), Root))),
                                c1.(position := p + 13))
    ensures var r, p, n := RecordRead(buf, c1, qname, h, valid), c1.position, h.dataLength;
            var x := RdataMx(buf, c1, p + 11, n);
            n != 0 && !(n == 3 && (p + 13 >= |buf| || buf[p + 13] == 0))
            ==> && r.cursor == x.cursor
                && (r.result.Ok? <==> x.result.Ok? && valid(x.result.value.1))
                && (r.result.Err? ==> r.result.error == if x.result.Err? then x.result.error else ValueError)
                && (r.result.Ok? ==> r.result.value == Answer(qname, h, Mail(x.result.value.0, Exchanger(x.result.value.1))))
  {
  }

  /** parse_dns_answer, with `valid_domain` as the oracle `valid`: the owner
      name one byte past the cursor, the fixed fields after it, then the
      RDATA. */
  function ParseAnswer(buf: Bytes, c: Cursor, valid: Bytes -> bool): (r: AnswerRead)
    ensures var q := OwnerRead(buf, c);
            r.result.Ok? ==> q.result.Ok? && r.result.value.qname == q.result.value
                             && HeaderAt(buf, q.cursor.position) == Ok(r.result.value.header)
                             && Consistent(r.result.value)
                             && Advanced(buf, r.result.value, q.cursor.position, r.cursor.position)
    ensures r.result.Ok? && r.result.value.rdata.Host? ==> valid(r.result.value.rdata.name)
    ensures r.result.Ok? && r.result.value.rdata.Mail? && r.result.value.rdata.exchange.Exchanger?
            ==> valid(r.result.value.rdata.exchange.host)
    ensures var q := OwnerRead(buf, c);
            q.result.Err? ==> r == AnswerRead(Err(q.result.error), q.cursor)
    ensures var q := OwnerRead(buf, c);
            q.result.Ok? && HeaderAt(buf, q.cursor.position).Err?
            ==> r == AnswerRead(Err(HeaderAt(buf, q.cursor.position).error), q.cursor)
    ensures var q := OwnerRead(buf, c);
            q.result.Ok? && HeaderAt(buf, q.cursor.position).Ok?
            ==> r == RecordRead(buf, q.cursor, q.result.value, HeaderAt(buf, q.cursor.position).value, valid)
  {
    var q := OwnerRead(buf, c);
    if q.result.Err? then AnswerRead(Err(q.result.error), q.cursor)
    else
      match HeaderAt(buf, q.cursor.position)
      case Err(e) => AnswerRead(Err(e), q.cursor)
      case Ok(h) => RecordRead(buf, q.cursor, q.result.value, h, valid)
  }
}
