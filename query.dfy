/** make_query (final.py:137-159): the query datagram of section 4.1 of
    RFC 1035 for one name and one record type, class IN. The checks on the
    name (validators, the public-suffix list, `ipaddress`) are passed in as
    oracles; the random transaction id is a parameter. */
module Query {
  import opened DnsBase
  import opened Registry

  /** The library calls make_query relies on. `sld` is
      `psl.get_sld(_, strict=True)`, `None` when there is no registrable
      domain; `reverse4`/`reverse6` are `reverse_pointer` of the parsed
      address. */
  datatype Oracles = Oracles(
    isDomain: string -> bool,
    sld: string -> Option<string>,
    isIpv4: string -> bool,
    isIpv6: string -> bool,
    reverse4: string -> string,
    reverse6: string -> string)

  /** `str.upper()` on one character, for the characters whose upper case is
      a single capital A-Z: a-z, the long s (U+017F, upper case 'S') and the
      dotless i (U+0131, upper case 'I'). Every other character is kept. */
  function UpperChar(c: char): (u: char)
    ensures 'A' <= u <= 'Z' <==> 'A' <= c <= 'Z' || 'a' <= c <= 'z' || c == 'ſ' || c == 'ı'
    ensures 'a' <= c <= 'z' ==> u as int == c as int - 32
    ensures !('a' <= c <= 'z' || c == 'ſ' || c == 'ı') ==> u == c
  {
    if 'a' <= c <= 'z' then (c as int - 32) as char
    else if c == 'ſ' then 'S'
    else if c == 'ı' then 'I'
    else c
  }

  function Upper(s: string): (u: string)
    ensures |u| == |s| && forall i :: 0 <= i < |s| ==> u[i] == UpperChar(s[i])
  {
    if s == [] then [] else [UpperChar(s[0])] + Upper(s[1..])
  }

  /** A code point `chr` accepts and UTF-8 can encode (no surrogate). */
  predicate IsScalar(cp: int)
  {
    0 <= cp <= 0x10FFFF && !(0xD800 <= cp <= 0xDFFF)
  }

  /** The UTF-8 encoding of one code point: one byte below 0x80, otherwise a
      lead byte that announces the length followed by continuation bytes. */
  function Utf8(cp: int): (r: Bytes)
    requires IsScalar(cp)
    ensures |r| == if cp < 0x80 then 1 else if cp < 0x800 then 2 else if cp < 0x10000 then 3 else 4
    ensures cp < 0x80 <==> r[0] < 0x80
    ensures cp < 0x80 ==> r == [cp]
    ensures forall i :: 1 <= i < |r| ==> 0x80 <= r[i] < 0xC0
  {
    if cp < 0x80 then [cp]
    else if cp < 0x800 then [0xC0 + cp / 0x40, 0x80 + cp % 0x40]
    else if cp < 0x10000 then [0xE0 + cp / 0x1000, 0x80 + cp / 0x40 % 0x40, 0x80 + cp % 0x40]
    else [0xF0 + cp / 0x40000, 0x80 + cp / 0x1000 % 0x40, 0x80 + cp / 0x40 % 0x40, 0x80 + cp % 0x40]
  }

  /** `s.encode('utf8')`. */
  function Utf8String(s: string): (r: Bytes)
    ensures |r| >= |s|
  {
    if s == [] then [] else Utf8(s[0] as int) + Utf8String(s[1..])
  }

  predicate IsAscii(s: string)
  {
    forall i :: 0 <= i < |s| ==> s[i] as int < 0x80
  }

  /** The bytes of an ASCII string. */
  function AsciiBytes(s: string): (r: Bytes)
    requires IsAscii(s)
    ensures |r| == |s| && forall i :: 0 <= i < |s| ==> r[i] == s[i] as int
  {
    if s == [] then [] else [s[0] as int] + AsciiBytes(s[1..])
  }

  /** On ASCII text, UTF-8 is the identity on code points. */
  lemma {:induction false} Utf8OfAscii(s: string)
    requires IsAscii(s)
    ensures Utf8String(s) == AsciiBytes(s)
  {
    if s != [] {
      Utf8OfAscii(s[1..]);
    }
  }

  /** `''.join(chr(len(i)) + i for i in labels).encode('utf8')`: each label
      is preceded by the character whose code is its length. `chr` refuses a
      length above 0x10FFFF and the encoder refuses a surrogate, both with
      ValueError. */
  function EncodeLabels(labels: seq<string>): (r: Result<Bytes>)
    ensures r.Ok? <==> forall i :: 0 <= i < |labels| ==> IsScalar(|labels[i]|)
    ensures r.Err? ==> r.error == ValueError
  {
    if labels == [] then Ok([])
    else if !IsScalar(|labels[0]|) then Err(ValueError)
    else
      match EncodeLabels(labels[1..])
      case Err(e) => Err(e)
      case Ok(rest) => Ok(Utf8(|labels[0]|) + Utf8String(labels[0]) + rest)
  }

  /** The length character counts characters, not encoded bytes: the
      one-character label "é" gets the length byte 1 but two bytes of UTF-8,
      so the label does not fill the length it announces. */
  lemma NonAsciiLengthByte()
    ensures EncodeLabels(["é"]) == Ok([1, 0xC3, 0xA9])
    ensures |Utf8String("é")| != |"é"|
  {
    var labels := ["é"];
    assert |labels[0]| == 1 && IsScalar(1);
    assert Utf8String("é") == [0xC3, 0xA9];
    assert EncodeLabels(labels[1..]) == Ok([]);
    assert Utf8(1) + Utf8String(labels[0]) + [] == [1, 0xC3, 0xA9];
  }

  /** Labels of fewer than 128 ASCII characters, whose length fits one byte
      of UTF-8. */
  predicate ShortAscii(labels: seq<string>)
  {
    forall i :: 0 <= i < |labels| ==> IsAscii(labels[i]) && |labels[i]| < 128
  }

  /** The wire form of short ASCII labels: a length byte followed by the
      label's bytes, label after label. */
  function WireLabels(labels: seq<string>): Bytes
    requires ShortAscii(labels)
  {
    if labels == [] then [] else [|labels[0]|] + AsciiBytes(labels[0]) + WireLabels(labels[1..])
  }

  /** For short ASCII labels the encoded question name is the RFC 1035
      label sequence. */
  lemma {:induction false} EncodeAsciiLabels(labels: seq<string>)
    requires ShortAscii(labels)
    ensures EncodeLabels(labels) == Ok(WireLabels(labels))
  {
    if labels != [] {
      EncodeAsciiLabels(labels[1..]);
      Utf8OfAscii(labels[0]);
    }
  }

  /** The ten header bytes after the id: flags 0x0100 (recursion desired),
      QDCOUNT 1, ANCOUNT, NSCOUNT and ARCOUNT 0. */
  const FixedHeader: Bytes := [1, 0, 0, 1, 0, 0, 0, 0, 0, 0]

  /** The name that goes on the wire for a query of type `t`: the reverse
      pointer of an address for PTR, otherwise a domain with a registrable
      part, cut down to that part for NS, MX and TXT. */
  function Target(query: string, t: RecordType, o: Oracles): (r: Result<string>)
    ensures r.Err? ==> r.error == ValueError
    ensures t == PTR ==> (r.Ok? <==> o.isIpv4(query) || o.isIpv6(query))
    ensures t != PTR ==> (r.Ok? <==> o.isDomain(query) && o.sld(query).Some? && o.sld(query).value != "")
    ensures r.Ok? && t in {NS, MX, TXT} ==> r.value == o.sld(query).value
    ensures r.Ok? && t in {A, CNAME, AAAA} ==> r.value == query
    ensures r.Ok? && t == PTR ==> r.value == if o.isIpv4(query) then o.reverse4(query) else o.reverse6(query)
  {
    if t == PTR then
      if o.isIpv4(query) then Ok(o.reverse4(query))
      else if o.isIpv6(query) then Ok(o.reverse6(query))
      else Err(ValueError)
    else if !(o.isDomain(query) && o.sld(query).Some? && o.sld(query).value != "") then Err(ValueError)
    else if t in {NS, MX, TXT} then Ok(o.sld(query).value)
    else Ok(query)
  }

  /** make_query with the two random id bytes given. */
  function MakeQuery(id: Bytes, query: string, qtype: string, o: Oracles): (r: Result<Bytes>)
    requires |id| == 2
    ensures r.Ok? <==> TypeOfMnemonic(Upper(qtype)).Some?
                       && Target(query, TypeOfMnemonic(Upper(qtype)).value, o).Ok?
                       && var labels := Split(Target(query, TypeOfMnemonic(Upper(qtype)).value, o).value);
                          forall i :: 0 <= i < |labels| ==> IsScalar(|labels[i]|)
    ensures r.Err? ==> r.error == ValueError
    ensures r.Ok? ==> |r.value| >= 17 && r.value[..2] == id && r.value[2..12] == FixedHeader
                      && r.value[|r.value| - 5] == 0 && r.value[|r.value| - 2..] == [0, 1]
    ensures r.Ok? ==> TypeOfMnemonic(Upper(qtype)).Some?
                      && BigEndian(r.value[|r.value| - 4..|r.value| - 2]) == Code(TypeOfMnemonic(Upper(qtype)).value)
  {
    match TypeOfMnemonic(Upper(qtype))
    case None => Err(ValueError)
    case Some(t) =>
      match Target(query, t, o)
      case Err(e) => Err(e)
      case Ok(name) =>
        match EncodeLabels(Split(name))
        case Err(e) => Err(e)
        case Ok(wire) => Ok(QueryBytes(id, wire, t))
  }

  /** The query message around an encoded name: id, fixed header, the name
      and its root label, the type code and class 1. */
  function QueryBytes(id: Bytes, wire: Bytes, t: RecordType): (q: Bytes)
    requires |id| == 2
    ensures |q| == 17 + |wire| && q[..2] == id && q[2..12] == FixedHeader && q[12..12 + |wire|] == wire
    ensures q[|q| - 5] == 0 && q[|q| - 2..] == [0, 1]
    ensures BigEndian(q[|q| - 4..|q| - 2]) == Code(t)
  {
    var q := id + FixedHeader + wire + [0] + U16(Code(t)) + [0, 1];
    assert q[|q| - 4..|q| - 2] == U16(Code(t));
    q
  }

  /** The layout of section 4.1 of RFC 1035 for a name of short ASCII
      labels: id, fixed header, each label as a length byte and its bytes,
      the root label, the type code and class 1. */
  lemma MakeQueryWire(id: Bytes, query: string, qtype: string, o: Oracles)
    requires |id| == 2
    requires MakeQuery(id, query, qtype, o).Ok?
    requires ShortAscii(Split(Target(query, TypeOfMnemonic(Upper(qtype)).value, o).value))
    ensures var t := TypeOfMnemonic(Upper(qtype)).value;
            var labels := Split(Target(query, t, o).value);
            MakeQuery(id, query, qtype, o).value
            == id + FixedHeader + WireLabels(labels) + [0] + U16(Code(t)) + [0, 1]
  {
    var t := TypeOfMnemonic(Upper(qtype)).value;
    EncodeAsciiLabels(Split(Target(query, t, o).value));
  }
}
