/** The fixed lookup tables of final.py: QTYPE (record types both ways),
    OPCODE and RCODE, and the small value decoders built on them. */
module Registry {
  import opened DnsBase

  /** The record types of the QTYPE table (final.py:8-23). */
  datatype RecordType = A | NS | CNAME | PTR | MX | TXT | AAAA

  /** `QTYPE[mnemonic]`: the numeric code of a record type. */
  function Code(t: RecordType): (c: nat)
    ensures c in {1, 2, 5, 12, 15, 16, 28}
  {
    match t
    case A => 1
    case NS => 2
    case CNAME => 5
    case PTR => 12
    case MX => 15
    case TXT => 16
    case AAAA => 28
  }

  /** The mnemonic key of a record type in QTYPE. */
  function Mnemonic(t: RecordType): string
  {
    match t
    case A => "A"
    case NS => "NS"
    case CNAME => "CNAME"
    case PTR => "PTR"
    case MX => "MX"
    case TXT => "TXT"
    case AAAA => "AAAA"
  }

  /** `QTYPE[n]` for an integer key; `None` is the KeyError. Exactly the seven
      codes are in the table, and each maps back to the type that has it. */
  function TypeOfCode(n: int): (r: Option<RecordType>)
    ensures r.Some? <==> n in {1, 2, 5, 12, 15, 16, 28}
    ensures r.Some? ==> Code(r.value) == n
  {
    if n == 1 then Some(A)
    else if n == 2 then Some(NS)
    else if n == 5 then Some(CNAME)
    else if n == 12 then Some(PTR)
    else if n == 15 then Some(MX)
    else if n == 16 then Some(TXT)
    else if n == 28 then Some(AAAA)
    else None
  }

  /** `QTYPE.get(s)` for a text key; `None` when `s` is not a mnemonic. */
  function TypeOfMnemonic(s: string): (r: Option<RecordType>)
    ensures r.Some? ==> Mnemonic(r.value) == s
    ensures r.None? ==> forall t: RecordType :: Mnemonic(t) != s
  {
    if s == "A" then Some(A)
    else if s == "NS" then Some(NS)
    else if s == "CNAME" then Some(CNAME)
    else if s == "PTR" then Some(PTR)
    else if s == "MX" then Some(MX)
    else if s == "TXT" then Some(TXT)
    else if s == "AAAA" then Some(AAAA)
    else None
  }

  /** Both halves of QTYPE agree: the code and the mnemonic of every type
      lead back to that type. */
  lemma QtypeRoundTrip(t: RecordType)
    ensures TypeOfCode(Code(t)) == Some(t)
    ensures TypeOfMnemonic(Mnemonic(t)) == Some(t)
  {
  }

  /** The operation codes of OPCODE (final.py:25-32). */
  datatype Opcode = Query | IQuery | Status | Notify | Update | Dso

  function OpcodeValue(o: Opcode): nat
  {
    match o
    case Query => 0
    case IQuery => 1
    case Status => 2
    case Notify => 4
    case Update => 5
    case Dso => 6
  }

  /** dns_opcode: the OPCODE entry, or ValueError for a value not in it. */
  function DnsOpcode(n: int): (r: Result<Opcode>)
    ensures r.Ok? <==> n in {0, 1, 2, 4, 5, 6}
    ensures r.Ok? ==> OpcodeValue(r.value) == n
    ensures r.Err? ==> r.error == ValueError
  {
    if n == 0 then Ok(Query)
    else if n == 1 then Ok(IQuery)
    else if n == 2 then Ok(Status)
    else if n == 4 then Ok(Notify)
    else if n == 5 then Ok(Update)
    else if n == 6 then Ok(Dso)
    else Err(ValueError)
  }

  /** The response codes of RCODE (final.py:34-47). */
  datatype Rcode =
    | NoError | FormErr | ServFail | NXDomain | NotImp | Refused
    | YXDomain | YXRRSet | NXRRSet | NotAuth | NotZone | DsoTypeNi

  function RcodeValue(c: Rcode): nat
  {
    match c
    case NoError => 0
    case FormErr => 1
    case ServFail => 2
    case NXDomain => 3
    case NotImp => 4
    case Refused => 5
    case YXDomain => 6
    case YXRRSet => 7
    case NXRRSet => 8
    case NotAuth => 9
    case NotZone => 10
    case DsoTypeNi => 11
  }

  /** dns_rcode: the RCODE entry, or ValueError for a value not in it. */
  function DnsRcode(n: int): (r: Result<Rcode>)
    ensures r.Ok? <==> 0 <= n < 12
    ensures r.Ok? ==> RcodeValue(r.value) == n
    ensures r.Err? ==> r.error == ValueError
  {
    if n == 0 then Ok(NoError)
    else if n == 1 then Ok(FormErr)
    else if n == 2 then Ok(ServFail)
    else if n == 3 then Ok(NXDomain)
    else if n == 4 then Ok(NotImp)
    else if n == 5 then Ok(Refused)
    else if n == 6 then Ok(YXDomain)
    else if n == 7 then Ok(YXRRSet)
    else if n == 8 then Ok(NXRRSet)
    else if n == 9 then Ok(NotAuth)
    else if n == 10 then Ok(NotZone)
    else if n == 11 then Ok(DsoTypeNi)
    else Err(ValueError)
  }

  /** The two readings of the checking-disabled bit. */
  datatype Checking = Unacceptable | Acceptable

  function CheckingValue(c: Checking): nat
  {
    match c
    case Unacceptable => 0
    case Acceptable => 1
  }

  /** dns_cd: a single bit as 'Unacceptable'/'Acceptable', ValueError otherwise. */
  function DnsCd(n: int): (r: Result<Checking>)
    ensures r.Ok? <==> n in {0, 1}
    ensures r.Ok? ==> CheckingValue(r.value) == n
    ensures r.Err? ==> r.error == ValueError
  {
    if n == 0 then Ok(Unacceptable)
    else if n == 1 then Ok(Acceptable)
    else Err(ValueError)
  }

  /** The only class the codec accepts. */
  datatype QClass = Internet

  /** dns_qclass: class 1 is INTERNET, anything else is a ValueError. */
  function DnsQclass(n: int): (r: Result<QClass>)
    ensures r.Ok? <==> n == 1
    ensures r.Err? ==> r.error == ValueError
  {
    if n == 1 then Ok(Internet) else Err(ValueError)
  }
}
