/** A whole response as DNS_Parser walks it: the header and question
    (parse_dns_query, final.py:213-230), then ANCOUNT + NSCOUNT + ARCOUNT
    resource records (parse_dns_response, final.py:304-316). These functions
    describe each call by the state it starts from and the state it leaves. */
module Message {
  import opened DnsBase
  import opened Registry
  import opened Flags
  import opened Names
  import opened Records

  /** The six header entries of HEADERS, with the flags expanded into
      their hexadecimal text, binary digits and breakdown. */
  datatype QueryHeader = QueryHeader(
    id: string,
    flagsHex: string,
    flagsBinary: seq<Bit>,
    breakdown: seq<FlagValue>,
    questions: nat,
    answers: nat,
    authority: nat,
    additional: nat)

  /** The question dictionary: the header entries and the question's name,
      type and class. */
  datatype Question = Question(header: QueryHeader, name: Bytes, qtype: RecordType, qclass: QClass)

  /** DECODE_HEADER over the first twelve bytes (final.py:84, 216-222): the
      id and flags as hexadecimal text, the four counts as big-endian
      numbers; decoding the flags breakdown may raise. */
  function DecodeHeader(query: Bytes): (r: Result<QueryHeader>)
    requires |query| >= 12
    ensures r.Ok? <==> DecodeFlags(Hex(query[2..4])).Ok?
    ensures r.Ok? ==> r.value.id == Hex(query[0..2]) && r.value.flagsHex == Hex(query[2..4])
                      && r.value.questions == BigEndian(query[4..6])
                      && r.value.answers == BigEndian(query[6..8])
                      && r.value.authority == BigEndian(query[8..10])
                      && r.value.additional == BigEndian(query[10..12])
  {
    var flagsHex := Hex(query[2..4]);
    match DecodeFlags(flagsHex)
    case Err(e) => Err(e)
    case Ok(breakdown) =>
      Ok(QueryHeader(Hex(query[0..2]), flagsHex, Bits(HexValue(flagsHex), 16), breakdown,
                     BigEndian(query[4..6]), BigEndian(query[6..8]),
                     BigEndian(query[8..10]), BigEndian(query[10..12])))
  }

  /** A header fails to decode only with ValueError; a decoded one has
      binary digits and a breakdown that both stand for the big-endian
      flags bytes. */
  lemma HeaderFlags(query: Bytes)
    requires |query| >= 12
    ensures var r := DecodeHeader(query);
            r.Err? ==> r.error == ValueError
    ensures var r := DecodeHeader(query);
            r.Ok? ==> FlagsValue(r.value.breakdown) == BigEndian(query[2..4])
                      && BitsValue(r.value.flagsBinary) == BigEndian(query[2..4])
  {
    DecodeFlagsChecks(Hex(query[2..4]));
    if DecodeHeader(query).Ok? {
      FlagsWord(query[2..4]);
      DecodeFlagsPacks(Hex(query[2..4]));
    }
  }

  /** The flags bytes as hexadecimal text read back as a number, and that
      number's sixteen binary digits, give the big-endian value. */
  lemma FlagsWord(b: Bytes)
    requires |b| == 2
    ensures HexValue(Hex(b)) == BigEndian(b) < 65536
    ensures BitsValue(Bits(HexValue(Hex(b)), 16)) == BigEndian(b)
  {
    HexValueOfHex(b);
    var v := BigEndian(b);
    assert v < 65536 by { assert Pow256(2) == 65536; }
    BitsValueOfBits(v, 16);
    assert Pow2(16) == 65536 by { Pow2Values(); }
    DivModUnique(v, 65536, 0, v);
  }

  /** `self.raw` once filled: the question and the list of answers. */
  datatype Raw = Raw(question: Question, answers: seq<Answer>)

  /** Everything DNS_Parser keeps besides the response itself. */
  datatype ParserState = ParserState(cursor: Cursor, question: Option<Question>,
                                     answers: seq<Answer>, raw: Option<Raw>)

  /** The state of a freshly built parser. */
  const Initial: ParserState := ParserState(Cursor(map[], 0), None, [], None)

  /** The offset of the first 0 byte at or after `from`:
      `response[from:].index(0)` shifted back by `from`; `None` is the
      ValueError `index` raises. */
  function FirstZero(buf: Bytes, from: nat): (r: Option<nat>)
    ensures r.Some? ==> from <= r.value < |buf| && buf[r.value] == 0
                        && forall k :: from <= k < r.value ==> buf[k] != 0
    ensures r.None? ==> forall k :: from <= k < |buf| ==> buf[k] != 0
    decreases |buf| - from
  {
    if from >= |buf| then None
    else if buf[from] == 0 then Some(from)
    else FirstZero(buf, from + 1)
  }

  /** What a call of parse_dns_query yields and the state it leaves. */
  datatype QueryRead = QueryRead(result: Result<Question>, cursor: Cursor)

  /** parse_dns_query. The question is taken to end five bytes after the
      first 0 byte from offset 12 on (ValueError when there is none). The
      header is decoded from the first twelve bytes of that question slice,
      which are the first twelve bytes of the buffer since the 0 byte lies at
      offset 12 or later; its flags may raise ValueError. Then the name, type
      and class as QuestionRead describes them. */
  function ParseQuery(buf: Bytes, c: Cursor): (r: QueryRead)
    ensures FirstZero(buf, 12).None? ==> r == QueryRead(Err(ValueError), c)
    ensures FirstZero(buf, 12).Some? && DecodeHeader(buf[..12]).Err?
            ==> r == QueryRead(Err(ValueError), c)
    ensures FirstZero(buf, 12).Some? && DecodeHeader(buf[..12]).Ok?
            ==> r == QuestionRead(buf, c, FirstZero(buf, 12).value, DecodeHeader(buf[..12]).value)
    ensures r.result.Ok? ==>
              var z := FirstZero(buf, 12).value;
              var n := ReadName(buf, c, 12, false, 0, RecursionLimit);
              n.result.Ok? && r.result.value.name == n.result.value
              && r.cursor == Cursor(n.cursor.names[12 := n.result.value], z + 4)
              && DecodeHeader(buf[..12]) == Ok(r.result.value.header)
  {
    match FirstZero(buf, 12)
    case None => QueryRead(Err(ValueError), c)
    case Some(z) =>
      match DecodeHeader(buf[..12])
      case Err(e) =>
        HeaderFlags(buf[..12]);
        QueryRead(Err(e), c)
      case Ok(header) => QuestionRead(buf, c, z, header)
  }

  /** QTYPE: `byte2int(query[pos+13:pos+15])`, the two bytes after the
      question's 0 byte at `z`. */
  function TypeField(buf: Bytes, z: nat): (n: nat)
    ensures z + 3 <= |buf| ==> n == BigEndian(buf[z + 1..z + 3])
  {
    BigEndian(Slice(buf, z + 1, z + 3))
  }

  /** QCLASS: `byte2int(query[-2:])`, the last two bytes of the question
      slice `response[:z+17-12]`, which are the two after QTYPE when the
      buffer holds them. */
  function ClassField(buf: Bytes, z: nat): (n: nat)
    requires 12 <= z < |buf|
    ensures z + 5 <= |buf| ==> n == BigEndian(buf[z + 3..z + 5])
  {
    var query := Slice(buf, 0, z + 5);
    assert z + 5 <= |buf| ==> query[|query| - 2..] == buf[z + 3..z + 5];
    BigEndian(query[|query| - 2..])
  }

  /** parse_dns_query once the header has decoded and the question is known
      to end at `z + 5`: the name from offset 12, whose errors are passed on,
      cached there; then the type and class fields. */
  function QuestionRead(buf: Bytes, c: Cursor, z: nat, header: QueryHeader): (r: QueryRead)
    requires 12 <= z < |buf|
    ensures var n := ReadName(buf, c, 12, false, 0, RecursionLimit);
            n.result.Err? ==> r == QueryRead(Err(n.result.error), n.cursor)
    ensures var n := ReadName(buf, c, 12, false, 0, RecursionLimit);
            n.result.Ok? ==> r.cursor.names == n.cursor.names[12 := n.result.value]
                             && (r.result.Ok? <==> TypeOfCode(TypeField(buf, z)).Some? && ClassField(buf, z) == 1)
                             && (TypeOfCode(TypeField(buf, z)).None? ==> r.result == Err(KeyError))
                             && (TypeOfCode(TypeField(buf, z)).Some? && ClassField(buf, z) != 1
                                 ==> r.result == Err(ValueError))
    ensures r.result.Ok? ==>
              var n := ReadName(buf, c, 12, false, 0, RecursionLimit);
              n.result.Ok? && r.result.value == Question(header, n.result.value, r.result.value.qtype, Internet)
              && r.cursor == Cursor(n.cursor.names[12 := n.result.value], z + 4)
              && Code(r.result.value.qtype) == TypeField(buf, z)
  {
    var n := ReadName(buf, c, 12, false, 0, RecursionLimit);
    if n.result.Err? then QueryRead(Err(n.result.error), n.cursor)
    else QuestionFields(buf, n.cursor.(names := n.cursor.names[12 := n.result.value]), z, header, n.result.value)
  }

  /** The type and class fields after the question name `name`: an unknown
      QTYPE is the KeyError of `QTYPE[...]`, raised before the cursor moves;
      then the cursor moves to the last byte of QCLASS, and a class other
      than 1 is dns_qclass's ValueError. */
  function QuestionFields(buf: Bytes, c: Cursor, z: nat, header: QueryHeader, name: Bytes): (r: QueryRead)
    requires 12 <= z < |buf|
    ensures r.result.Ok? <==> TypeOfCode(TypeField(buf, z)).Some? && ClassField(buf, z) == 1
    ensures TypeOfCode(TypeField(buf, z)).None? ==> r == QueryRead(Err(KeyError), c)
    ensures TypeOfCode(TypeField(buf, z)).Some? ==> r.cursor == c.(position := z + 4)
    ensures TypeOfCode(TypeField(buf, z)).Some? && ClassField(buf, z) != 1 ==> r.result == Err(ValueError)
    ensures r.result.Ok? ==> r.result.value == Question(header, name, TypeOfCode(TypeField(buf, z)).value, Internet)
                             && Code(r.result.value.qtype) == TypeField(buf, z)
  {
    match TypeOfCode(TypeField(buf, z))
    case None => QueryRead(Err(KeyError), c)
    case Some(t) =>
      var c1 := c.(position := z + 4);
      match DnsQclass(ClassField(buf, z))
      case Err(e) => QueryRead(Err(e), c1)
      case Ok(k) => QueryRead(Ok(Question(header, name, t, k)), c1)
  }

  /** The outcome of a parser method and the state it leaves. */
  datatype Step = Step(outcome: Outcome, state: ParserState)

  /** parse_dns_query on a parser in state `s`: the question is stored only
      when the whole question decodes. */
  function QueryStep(buf: Bytes, s: ParserState): (r: Step)
    ensures r.state.answers == s.answers && r.state.raw == s.raw
    ensures r.state.cursor == ParseQuery(buf, s.cursor).cursor
    ensures r.outcome.Pass? <==> ParseQuery(buf, s.cursor).result.Ok?
    ensures r.outcome.Pass? ==> r.state.question == Some(ParseQuery(buf, s.cursor).result.value)
    ensures r.outcome.Fail? ==> r.state.question == s.question
                                && r.outcome.error == ParseQuery(buf, s.cursor).result.error
  {
    var q := ParseQuery(buf, s.cursor);
    match q.result
    case Err(e) => Step(Fail(e), s.(cursor := q.cursor))
    case Ok(question) => Step(Pass, s.(cursor := q.cursor, question := Some(question)))
  }

  /** parse_dns_answer on a parser in state `s`: the answer ParseAnswer
      reads at the cursor is appended when it decodes; otherwise nothing is
      appended and its error is raised. Either way the cursor is the one it
      leaves. */
  function AnswerStep(buf: Bytes, s: ParserState, valid: Bytes -> bool): (r: Step)
    ensures r.state.question == s.question && r.state.raw == s.raw
    ensures var a := ParseAnswer(buf, s.cursor, valid);
            && r.state.cursor == a.cursor
            && (r.outcome.Pass? <==> a.result.Ok?)
            && (r.outcome.Pass? ==> r.state.answers == s.answers + [a.result.value])
            && (r.outcome.Fail? ==> r.state.answers == s.answers && r.outcome.error == a.result.error)
  {
    var a := ParseAnswer(buf, s.cursor, valid);
    match a.result
    case Err(e) => Step(Fail(e), s.(cursor := a.cursor))
    case Ok(answer) => Step(Pass, s.(cursor := a.cursor, answers := s.answers + [answer]))
  }

  /** Every answer in `answers` agrees with its record type and data length. */
  predicate AllConsistent(answers: seq<Answer>)
  {
    forall i :: 0 <= i < |answers| ==> Consistent(answers[i])
  }

  lemma ConsistentCons(a: Answer, rest: seq<Answer>)
    requires Consistent(a) && AllConsistent(rest)
    ensures AllConsistent([a] + rest)
  {
  }

  /** parse_dns_answer's reading of one record at a cursor. */
  function Reading(buf: Bytes, valid: Bytes -> bool): Cursor -> AnswerRead
  {
    c => ParseAnswer(buf, c, valid)
  }

  /** Whether `answers` are the records `read` yields one after another
      from cursor `c`: the cursor the last of them leaves, or `None` when
      they are not. */
  function Walk(read: Cursor -> AnswerRead, c: Cursor, answers: seq<Answer>): Option<Cursor>
    decreases |answers|
  {
    if answers == [] then Some(c)
    else if read(c).result == Ok(answers[0]) then Walk(read, read(c).cursor, answers[1..])
    else None
  }

  /** Records read one after another by a reader whose records all agree
      with their headers agree with their headers. */
  lemma {:induction false} WalkConsistent(read: Cursor -> AnswerRead, c: Cursor, answers: seq<Answer>)
    requires forall x :: read(x).result.Ok? ==> Consistent(read(x).result.value)
    requires Walk(read, c, answers).Some?
    ensures AllConsistent(answers)
    decreases |answers|
  {
    if answers != [] {
      WalkConsistent(read, read(c).cursor, answers[1..]);
      assert answers == [answers[0]] + answers[1..];
      ConsistentCons(answers[0], answers[1..]);
    }
  }

  /** What one turn of parse_dns_response's loop does to state `s` when the
      record read at its cursor is `a`: it moves the cursor where the read
      leaves it, appends the record when it decodes, and otherwise appends
      nothing and raises its error. */
  predicate Appends(s: ParserState, st: Step, a: AnswerRead)
  {
    && st.state.question == s.question && st.state.raw == s.raw
    && st.state.cursor == a.cursor
    && (st.outcome.Pass? <==> a.result.Ok?)
    && (st.outcome.Pass? ==> st.state.answers == s.answers + [a.result.value])
    && (st.outcome.Fail? ==> st.state.answers == s.answers && st.outcome.error == a.result.error)
  }

  /** `remaining` turns of `step`, stopping at the first that fails. */
  function Repeat(step: ParserState -> Step, s: ParserState, remaining: nat): Step
    decreases remaining, 1
  {
    if remaining == 0 then Step(Pass, s) else Turn(step, s, remaining)
  }

  /** The first of `remaining` turns, and the rest unless it failed. */
  function Turn(step: ParserState -> Step, s: ParserState, remaining: nat): Step
    requires remaining > 0
    decreases remaining, 0
  {
    var st := step(s);
    if st.outcome.Fail? then st else Repeat(step, st.state, remaining - 1)
  }

  /** Repeating a step that appends what `read` yields keeps the question,
      `raw` and the answers already there, and adds one answer per turn
      that passed: `remaining` of them when every turn passes, fewer when
      one fails. */
  lemma {:induction false} RepeatKeeps(step: ParserState -> Step, read: Cursor -> AnswerRead,
                                       s: ParserState, remaining: nat)
    requires forall x {:trigger step(x)} :: Appends(x, step(x), read(x.cursor))
    ensures var r := Repeat(step, s, remaining);
            && r.state.question == s.question && r.state.raw == s.raw
            && |s.answers| <= |r.state.answers| && r.state.answers[..|s.answers|] == s.answers
            && (r.outcome.Pass? ==> |r.state.answers| == |s.answers| + remaining)
            && (r.outcome.Fail? ==> |r.state.answers| < |s.answers| + remaining)
    decreases remaining
  {
    if remaining > 0 {
      var st := step(s);
      assert Appends(s, st, read(s.cursor));
      assert Repeat(step, s, remaining) == Turn(step, s, remaining);
      if st.outcome.Pass? {
        RepeatKeeps(step, read, st.state, remaining - 1);
        var r := Repeat(step, st.state, remaining - 1);
        assert r.state.answers[..|s.answers|] == r.state.answers[..|st.state.answers|][..|s.answers|];
      }
    }
  }

  /** The answers repeating such a step adds are the records `read` yields
      one after another from the cursor: ending at the new cursor when every
      turn passes; when one fails, followed by a record that fails with the
      error raised and leaves the new cursor. */
  lemma {:induction false} RepeatWalk(step: ParserState -> Step, read: Cursor -> AnswerRead,
                                      s: ParserState, remaining: nat)
    requires forall x {:trigger step(x)} :: Appends(x, step(x), read(x.cursor))
    ensures var r := Repeat(step, s, remaining);
            |s.answers| <= |r.state.answers|
            && (r.outcome.Pass? ==> Walk(read, s.cursor, r.state.answers[|s.answers|..]) == Some(r.state.cursor))
    ensures var r := Repeat(step, s, remaining);
            r.outcome.Fail? ==>
              |s.answers| <= |r.state.answers|
              && var e := Walk(read, s.cursor, r.state.answers[|s.answers|..]);
                 e.Some? && read(e.value) == AnswerRead(Err(r.outcome.error), r.state.cursor)
    decreases remaining
  {
    var n := |s.answers|;
    var r := Repeat(step, s, remaining);
    RepeatKeeps(step, read, s, remaining);
    if remaining == 0 {
      assert s.answers[n..] == [];
    } else {
      var st := step(s);
      assert Appends(s, st, read(s.cursor));
      assert r == Turn(step, s, remaining);
      if st.outcome.Fail? {
        assert st.state.answers[n..] == [];
      } else {
        assert r == Repeat(step, st.state, remaining - 1);
        RepeatKeeps(step, read, st.state, remaining - 1);
        RepeatWalk(step, read, st.state, remaining - 1);
        var added := r.state.answers[n..];
        assert r.state.answers[..n + 1] == st.state.answers;
        assert added[0] == st.state.answers[n] && added[1..] == r.state.answers[n + 1..];
      }
    }
  }

  /** parse_dns_answer as a step on parser states. */
  function Answering(buf: Bytes, valid: Bytes -> bool): ParserState -> Step
  {
    x => AnswerStep(buf, x, valid)
  }

  /** `remaining` further turns of parse_dns_response's loop from state `s`,
      stopping at the first parse_dns_answer that raises. */
  function ParseAnswers(buf: Bytes, s: ParserState, remaining: nat, valid: Bytes -> bool): Step
  {
    Repeat(Answering(buf, valid), s, remaining)
  }

  /** The answers the loop adds are the records parse_dns_answer reads one
      after another from the cursor: all `remaining` of them, ending at the
      new cursor, when it passes; when it raises, fewer, followed by a
      record that fails with the error raised and leaves the new cursor. The
      answers already there, the question and `raw` stay. */
  lemma ParseAnswersWalk(buf: Bytes, s: ParserState, remaining: nat, valid: Bytes -> bool)
    ensures var r := ParseAnswers(buf, s, remaining, valid);
            && r.state.question == s.question && r.state.raw == s.raw
            && |s.answers| <= |r.state.answers| && r.state.answers[..|s.answers|] == s.answers
    ensures var r := ParseAnswers(buf, s, remaining, valid);
            r.outcome.Pass? ==> |r.state.answers| == |s.answers| + remaining
                                && Walk(Reading(buf, valid), s.cursor, r.state.answers[|s.answers|..]) == Some(r.state.cursor)
    ensures var r := ParseAnswers(buf, s, remaining, valid);
            r.outcome.Fail? ==>
              && |r.state.answers| < |s.answers| + remaining
              && var e := Walk(Reading(buf, valid), s.cursor, r.state.answers[|s.answers|..]);
                 e.Some? && ParseAnswer(buf, e.value, valid) == AnswerRead(Err(r.outcome.error), r.state.cursor)
  {
    var step, read := Answering(buf, valid), Reading(buf, valid);
    forall x
      ensures Appends(x, step(x), read(x.cursor))
    {
      assert step(x) == AnswerStep(buf, x, valid);
      assert read(x.cursor) == ParseAnswer(buf, x.cursor, valid);
    }
    RepeatKeeps(step, read, s, remaining);
    RepeatWalk(step, read, s, remaining);
  }

  /** One turn of the loop: once parse_dns_answer has taken the parser from
      `before` to `after` with outcome `o`, the remaining turns are over
      when it raised and are the `k - 1` turns from `after` otherwise. */
  lemma AnswersAfterStep(buf: Bytes, before: ParserState, after: ParserState, o: Outcome,
                         k: nat, valid: Bytes -> bool)
    requires k > 0 && Step(o, after) == AnswerStep(buf, before, valid)
    ensures o.Fail? ==> ParseAnswers(buf, before, k, valid) == Step(o, after)
    ensures o.Pass? ==> ParseAnswers(buf, before, k, valid) == ParseAnswers(buf, after, k - 1, valid)
  {
    assert ParseAnswers(buf, before, k, valid) == Turn(Answering(buf, valid), before, k);
  }

  /** The number of records after the question: ANCOUNT + NSCOUNT + ARCOUNT. */
  function RecordCount(q: Question): nat
  {
    q.header.answers + q.header.authority + q.header.additional
  }

  /** parse_dns_response from parser state `s`: the question, then
      RecordCount further records; `raw` is filled only when all of them
      decode, and then holds the question and the whole answer list. */
  function ParseResponse(buf: Bytes, s: ParserState, valid: Bytes -> bool): (r: Step)
    ensures r.outcome.Pass? ==>
              var q := ParseQuery(buf, s.cursor);
              q.result.Ok? && r.state.question == Some(q.result.value)
              && |r.state.answers| == |s.answers| + RecordCount(q.result.value)
              && r.state.answers[..|s.answers|] == s.answers
              && Walk(Reading(buf, valid), q.cursor, r.state.answers[|s.answers|..]) == Some(r.state.cursor)
              && AllConsistent(r.state.answers[|s.answers|..])
              && r.state.raw == Some(Raw(q.result.value, r.state.answers))
    ensures r.outcome.Fail? ==> r.state.raw == s.raw
    ensures var q := ParseQuery(buf, s.cursor);
            q.result.Err? ==> r == Step(Fail(q.result.error), s.(cursor := q.cursor))
    ensures var q := ParseQuery(buf, s.cursor);
            r.outcome.Fail? && q.result.Ok? ==>
              && r.state.question == Some(q.result.value)
              && |s.answers| <= |r.state.answers| < |s.answers| + RecordCount(q.result.value)
              && r.state.answers[..|s.answers|] == s.answers
              && var e := Walk(Reading(buf, valid), q.cursor, r.state.answers[|s.answers|..]);
                 e.Some? && ParseAnswer(buf, e.value, valid) == AnswerRead(Err(r.outcome.error), r.state.cursor)
  {
    var st := QueryStep(buf, s);
    if st.outcome.Fail? then st
    else
      var q := st.state.question.value;
      var more := ParseAnswers(buf, st.state, RecordCount(q), valid);
      ParseAnswersWalk(buf, st.state, RecordCount(q), valid);
      if more.outcome.Fail? then more
      else
        WalkConsistent(Reading(buf, valid), st.state.cursor, more.state.answers[|s.answers|..]);
        Step(Pass, more.state.(raw := Some(Raw(q, more.state.answers))))
  }
}
