/** DNS_Parser (final.py:160-316): a parser object over one response that
    keeps the name cache, the cursor, the question, the answers and the
    final `raw` record as fields and updates them call by call. Each method
    is proved to leave the state, and return the outcome, that the function
    describing the same call in Names, Records or Message prescribes. */
module Parser {
  import opened DnsBase
  import opened Registry
  import opened Names
  import opened Records
  import opened Message

  class DnsParser {
    /** `self.response`. */
    const response: Bytes
    /** `self.names`: owner offsets of names already read, and the names. */
    var names: map<nat, Bytes>
    /** `self.position`. */
    var position: nat
    /** `self.question`, `None` until a whole question has decoded. */
    var question: Option<Question>
    /** `self.answers`. */
    var answers: seq<Answer>
    /** `self.raw`, `None` while it is still the empty dictionary. */
    var raw: Option<Raw>

    /** The part of the state read_stream works on. */
    function Cur(): Cursor
      reads this
    {
      Cursor(names, position)
    }

    /** The whole state besides the response. */
    function State(): ParserState
      reads this
    {
      ParserState(Cur(), question, answers, raw)
    }

    /** `__init__`: empty cache, question, answers and raw record, cursor at
        offset 0. */
    constructor(response: Bytes)
      ensures this.response == response
      ensures State() == Initial
    {
      this.response := response;
      names := map[];
      position := 0;
      question := None;
      answers := [];
      raw := None;
    }

    /** check_bounds: IndexError exactly when `pos` is not an offset into the
        response. */
    method CheckBounds(pos: int) returns (o: Outcome)
      ensures o.Pass? <==> pos < |response|
      ensures o.Fail? ==> o.error == IndexError
    {
      if pos >= |response| {
        return Fail(IndexError);
      }
      return Pass;
    }

    /** read_stream, with `depth` the number of nested calls the interpreter
        still allows. The loop keeps the name that remains to be read, from
        the current offset and with the labels read so far, equal to the one
        the call was asked for. */
    method ReadStream(pos: nat, recur: bool, length: int, depth: nat) returns (r: Result<Bytes>)
      modifies this`names, this`position
      ensures NameRead(r, Cur()) == ReadName(response, old(Cur()), pos, recur, length, depth)
      decreases depth, 1
    {
      var bounds := CheckBounds(pos);
      if bounds.Fail? {
        return Err(bounds.error);
      }
      var p: nat, count: int, chunks: seq<Bytes> := pos, 0, [];
      while true
        invariant ReadLoop(response, Cur(), p, recur, length, count, chunks, depth)
                  == ReadLoop(response, old(Cur()), pos, recur, length, 0, [], depth)
        decreases |response| - p
      {
        if p >= |response| {
          return Err(IndexError);
        }
        var hint := response[p];
        if hint == 0 {
          if !recur {
            position := p;
          }
          return Ok(Join(chunks));
        } else if hint == Pointer {
          if p + 1 >= |response| {
            return Err(IndexError);
          }
          ghost var c0 := Cur();
          position := p + 1;
          var name := FollowPointer(response[p + 1], depth);
          if name.Err? {
            return name;
          }
          PointerFollowed(response, c0, p, recur, length, count, chunks, depth, NameRead(name, Cur()));
          chunks := chunks + [name.value];
          p, count := p + 2, count + 2;
          if length == 0 || count == length {
            return Ok(Join(chunks));
          }
        } else {
          LabelSkip(response, Cur(), p, recur, length, count, chunks, depth);
          chunks := chunks + [Slice(response, p + 1, p + 1 + hint)];
          p, count := p + 1 + hint, count + 1 + hint;
        }
      }
    }

    /** The pointer branch of read_stream: the cached name for `index`, or
        else the name a nested read_stream call finds there, then cached. */
    method FollowPointer(index: nat, depth: nat) returns (r: Result<Bytes>)
      modifies this`names, this`position
      ensures NameRead(r, Cur()) == Follow(response, old(Cur()), index, depth)
      decreases depth, 0
    {
      if index in names {
        return Ok(names[index]);
      }
      if depth == 0 {
        return Err(RecursionError);
      }
      r := ReadStream(index, true, 0, depth - 1);
      if r.Ok? {
        names := names[index := r.value];
      }
    }

    /** rdata_mx: the preference, then the exchange name read with
        `length - 2` in the place of `recur`. */
    method RdataMx(pos: nat, length: int) returns (r: Result<(nat, Bytes)>)
      modifies this`names, this`position
      ensures MxRead(r, Cur()) == Records.RdataMx(response, old(Cur()), pos, length)
    {
      var preference := BigEndian(Slice(response, pos, pos + 2));
      var exchange := ReadStream(pos + 2, length - 2 != 0, 0, RecursionLimit);
      if exchange.Err? {
        return Err(exchange.error);
      }
      return Ok((preference, exchange.value));
    }

    /** parse_dns_query. */
    method ParseDnsQuery() returns (o: Outcome)
      modifies this
      ensures Step(o, State()) == QueryStep(response, old(State()))
    {
      var zero := FirstZero(response, 12);
      if zero.None? {
        return Fail(ValueError);
      }
      var z := zero.value;
      var header := DecodeHeader(response[..12]);
      if header.Err? {
        return Fail(header.error);
      }
      var q := ReadQuestion(z, header.value);
      if q.Err? {
        return Fail(q.error);
      }
      question := Some(q.value);
      return Pass;
    }

    /** The part of parse_dns_query after the header: the name from offset
        12, cached there, then the type and class fields. */
    method ReadQuestion(z: nat, header: QueryHeader) returns (r: Result<Question>)
      requires 12 <= z < |response|
      modifies this`names, this`position
      ensures QueryRead(r, Cur()) == QuestionRead(response, old(Cur()), z, header)
    {
      var name := ReadStream(12, false, 0, RecursionLimit);
      if name.Err? {
        return Err(name.error);
      }
      names := names[12 := name.value];
      var qtype := TypeOfCode(TypeField(response, z));
      if qtype.None? {
        return Err(KeyError);
      }
      position := z + 4;
      var qclass := DnsQclass(ClassField(response, z));
      if qclass.Err? {
        return Err(qclass.error);
      }
      return Ok(Question(header, name.value, qtype.value, qclass.value));
    }

    /** The RDATA part of parse_dns_answer for owner name `qname` and fixed
        fields `h`, with the cursor on the owner name's last byte. */
    method ReadRecord(qname: Bytes, h: RecordHeader, valid: Bytes -> bool) returns (r: Result<Answer>)
      modifies this`names, this`position
      ensures AnswerRead(r, Cur()) == RecordRead(response, old(Cur()), qname, h, valid)
    {
      var p := position;
      var length := h.dataLength;
      if length == 0 {
        return Err(ValueError);
      }
      match h.qtype {
        case A =>
          if length != 4 {
            return Err(ValueError);
          }
          var dotted := RdataIpv4(response, p + 11);
          if dotted.Err? {
            return Err(dotted.error);
          }
          position := p + 14;
          return Ok(Answer(qname, h, Ipv4(dotted.value)));
        case AAAA =>
          if length != 16 {
            return Err(ValueError);
          }
          var address := RdataIpv6(response, p + 11);
          if address.Err? {
            return Err(address.error);
          }
          position := p + 26;
          return Ok(Answer(qname, h, Ipv6(address.value)));
        case TXT =>
          var txt := RdataTxt(response, p + 11, length);
          if txt.Err? {
            return Err(txt.error);
          }
          if length - txt.value.0 != 1 {
            return Err(ValueError);
          }
          position := p + 10 + length;
          return Ok(Answer(qname, h, Txt(txt.value.0, txt.value.1)));
        case MX =>
          if length == 3 && p + 13 >= |response| {
            return Err(IndexError);
          }
          if length == 3 && response[p + 13] == 0 {
            position := p + 13;
            return Ok(Answer(qname, h, Mail(BigEndian(Slice(response, p + 11, p + 13)), Root)));
          }
          var mx := RdataMx(p + 11, length);
          if mx.Err? {
            return Err(mx.error);
          }
          if !valid(mx.value.1) {
            return Err(ValueError);
          }
          return Ok(Answer(qname, h, Mail(mx.value.0, Exchanger(mx.value.1))));
        case _ =>
          var host := ReadStream(p + 11, true, 0, RecursionLimit);
          if host.Err? {
            return Err(host.error);
          }
          if !valid(host.value) {
            return Err(ValueError);
          }
          return Ok(Answer(qname, h, Host(host.value)));
      }
    }

    /** parse_dns_answer, with `valid_domain` as the oracle `valid`. */
    method ParseDnsAnswer(valid: Bytes -> bool) returns (o: Outcome)
      modifies this
      ensures Step(o, State()) == AnswerStep(response, old(State()), valid)
    {
      var qname := ReadStream(position + 1, false, 0, RecursionLimit);
      if qname.Err? {
        return Fail(qname.error);
      }
      var header := HeaderAt(response, position);
      if header.Err? {
        return Fail(header.error);
      }
      var answer := ReadRecord(qname.value, header.value, valid);
      if answer.Err? {
        return Fail(answer.error);
      }
      answers := answers + [answer.value];
      return Pass;
    }

    /** One turn of parse_dns_response's loop with `k` turns still to go:
        when it raises, those turns are over; otherwise `k - 1` remain. */
    method AnswerTurn(valid: Bytes -> bool, ghost k: nat) returns (o: Outcome)
      requires k > 0
      modifies this
      ensures o.Fail? ==> Step(o, State()) == ParseAnswers(response, old(State()), k, valid)
      ensures o.Pass? ==> ParseAnswers(response, State(), k - 1, valid)
                          == ParseAnswers(response, old(State()), k, valid)
    {
      ghost var before := State();
      o := ParseDnsAnswer(valid);
      AnswersAfterStep(response, before, State(), o, k, valid);
    }

    /** The loop of parse_dns_response: `total` calls of parse_dns_answer,
        stopping at the first that raises. */
    method ParseDnsAnswers(total: nat, valid: Bytes -> bool) returns (o: Outcome)
      modifies this
      ensures Step(o, State()) == ParseAnswers(response, old(State()), total, valid)
    {
      ghost var rem: nat := total;
      var count := 0;
      o := Pass;
      while count < total
        invariant count <= total && rem == total - count && o == Pass
        invariant ParseAnswers(response, State(), rem, valid)
                  == ParseAnswers(response, old(State()), total, valid)
      {
        o := AnswerTurn(valid, rem);
        if o.Fail? {
          return;
        }
        count, rem := count + 1, rem - 1;
      }
    }

    /** parse_dns_response: the question, then ANCOUNT + NSCOUNT + ARCOUNT
        records; `raw` is filled only when every one of them decodes. */
    method ParseDnsResponse(valid: Bytes -> bool) returns (o: Outcome)
      modifies this
      ensures Step(o, State()) == ParseResponse(response, old(State()), valid)
    {
      o := ParseDnsQuery();
      if o.Fail? {
        return;
      }
      var q := question.value;
      o := ParseDnsAnswers(RecordCount(q), valid);
      if o.Fail? {
        return;
      }
      raw := Some(Raw(q, answers));
    }
  }
}
