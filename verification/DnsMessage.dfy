/** DNS messages (section 4.1 of RFC 1035) and the answer given for a blocked name. */
module DnsMessage {
  import opened Bytes
  import opened Labels
  import opened DnsName

  const HEADER_SIZE := 12
  const ANSWER_SIZE := 16
  const TYPE_A := 1
  const CLASS_IN := 1

  datatype Question = Question(name: Name, qtype: nat, qclass: nat)

  datatype Record = Record(name: Name, rtype: nat, rclass: nat, ttl: nat, rdata: seq<byte>)

  /** A message whose authority and additional sections are empty. */
  datatype Message = Message(id: nat, flags: nat, questions: seq<Question>, answers: seq<Record>)

  /** A 16-bit field in network order. */
  function U16(buf: seq<byte>, p: nat): nat
    requires p + 1 < |buf|
  {
    buf[p] as int * 0x100 + buf[p + 1]
  }

  /** A question whose name is read from octets at or after `lo`. */
  ghost predicate QuestionAt(buf: seq<byte>, lo: nat, off: nat, q: Question, end: nat) {
    var e := EndInPlace(buf, off);
    && NameFrom(buf, lo, off, q.name)
    && end == e + 4 <= |buf|
    && U16(buf, e) == q.qtype
    && U16(buf, e + 2) == q.qclass
  }

  ghost predicate RecordAt(buf: seq<byte>, off: nat, r: Record, end: nat) {
    var e := EndInPlace(buf, off);
    && NameAt(buf, off, r.name)
    && e + 10 <= end <= |buf|
    && U16(buf, e) == r.rtype
    && U16(buf, e + 2) == r.rclass
    && U16(buf, e + 4) * 0x10000 + U16(buf, e + 6) == r.ttl
    && U16(buf, e + 8) == |r.rdata|
    && buf[e + 10..end] == r.rdata
  }

  ghost predicate QuestionsAt(buf: seq<byte>, off: nat, qs: seq<Question>, end: nat)
    decreases |qs|
  {
    if qs == [] then off == end
    else exists mid: nat :: QuestionAt(buf, 0, off, qs[0], mid) && QuestionsAt(buf, mid, qs[1..], end)
  }

  ghost predicate RecordsAt(buf: seq<byte>, off: nat, rs: seq<Record>, end: nat)
    decreases |rs|
  {
    if rs == [] then off == end
    else exists mid: nat :: RecordAt(buf, off, rs[0], mid) && RecordsAt(buf, mid, rs[1..], end)
  }

  /** The octets are this message, with nothing before, between or after its parts. */
  ghost predicate IsMessage(buf: seq<byte>, m: Message) {
    && HEADER_SIZE <= |buf|
    && U16(buf, 0) == m.id
    && U16(buf, 2) == m.flags
    && U16(buf, 4) == |m.questions|
    && U16(buf, 6) == |m.answers|
    && U16(buf, 8) == 0
    && U16(buf, 10) == 0
    && exists mid: nat :: QuestionsAt(buf, HEADER_SIZE, m.questions, mid) && RecordsAt(buf, mid, m.answers, |buf|)
  }

  /** A header announcing one question, and that question, ending at `end`. Its name is read from the body:
      it is uncompressed, or its pointers stay behind the header. The other counts may be anything. */
  ghost predicate AsksOne(query: seq<byte>, q: Question, end: nat) {
    && HEADER_SIZE <= |query|
    && U16(query, 4) == 1
    && QuestionAt(query, HEADER_SIZE, HEADER_SIZE, q, end)
  }

  /** Owner by pointer to offset 12, type A, class IN, 60 seconds, 4 octets 0.0.0.0. */
  const ANSWER: seq<byte> := [0xC0, 0x0C, 0x00, 0x01, 0x00, 0x01, 0x00, 0x00, 0x00, 0x3C, 0x00, 0x04, 0x00, 0x00, 0x00, 0x00]

  /** The query with the flags of a response, one answer announced, and the other two counts cleared. */
  function Patched(query: seq<byte>): (r: seq<byte>)
    requires HEADER_SIZE <= |query|
    ensures |r| == |query|
  {
    query[2 := 0x81][3 := 0x80][6 := 0x00][7 := 0x01][8 := 0x00][9 := 0x00][10 := 0x00][11 := 0x00]
  }

  function BlockedResponse(query: seq<byte>): seq<byte>
    requires HEADER_SIZE <= |query|
  {
    Patched(query) + ANSWER
  }

  /** Consecutive `response[offset++] = ...` stores. */
  method Put(buf: array<byte>, offset: nat, octets: seq<byte>) returns (next: nat)
    requires offset + |octets| <= buf.Length
    modifies buf
    ensures next == offset + |octets|
    ensures forall k :: 0 <= k < buf.Length ==>
              buf[k] == if offset <= k < next then octets[k - offset] else old(buf[k])
  {
    forall k | 0 <= k < |octets| {
      buf[offset + k] := octets[k];
    }
    next := offset + |octets|;
  }

  /** The query with its flags, answer, authority and additional counts overwritten. */
  method CopyWithHeader(query: array<byte>, queryLen: nat, response: array<byte>)
    requires HEADER_SIZE <= queryLen <= query.Length && queryLen + ANSWER_SIZE <= response.Length
    requires query != response
    modifies response
    ensures response[..queryLen] == Patched(query[..queryLen])
    ensures response[queryLen..] == old(response[queryLen..])
  {
    forall k | 0 <= k < queryLen {
      response[k] := query[k];
    }
    // flags, answer count, authority count, additional count in network order
    response[2], response[3] := 0x81, 0x80;
    response[6], response[7] := 0x00, 0x01;
    response[8], response[9] := 0x00, 0x00;
    response[10], response[11] := 0x00, 0x00;
  }

  /** `create_blocked_response`: the query is copied, its header patched in place, and the answer appended. */
  method CreateBlockedResponse(query: array<byte>, queryLen: nat, response: array<byte>) returns (responseLen: nat)
    requires HEADER_SIZE <= queryLen <= query.Length && queryLen + ANSWER_SIZE <= response.Length
    requires query != response
    modifies response
    ensures responseLen == queryLen + ANSWER_SIZE
    ensures response[..responseLen] == BlockedResponse(query[..queryLen])
    ensures response[responseLen..] == old(response[responseLen..])
  {
    ghost var was := response[..];
    CopyWithHeader(query, queryLen, response);
    ghost var patched := response[..queryLen];
    hide Patched;
    var offset := Put(response, queryLen, [0xC0, 0x0C, 0x00, 0x01, 0x00, 0x01]);  // name, type, class
    offset := Put(response, offset, [0x00, 0x00, 0x00, 0x3C, 0x00, 0x04]);        // TTL, data length
    offset := Put(response, offset, [0x00, 0x00, 0x00, 0x00]);                    // address
    responseLen := offset;
    assert response[..responseLen] == patched + ANSWER by {
      hide ANSWER;
      assert response[..queryLen] == patched;
    }
    assert response[responseLen..] == was[responseLen..] by {
      assert forall k :: responseLen <= k < response.Length ==> response[k] == was[queryLen..][k - queryLen];
    }
  }

  lemma ResponseLayout(query: seq<byte>)
    requires HEADER_SIZE <= |query|
    ensures var r := BlockedResponse(query);
            && |r| == |query| + ANSWER_SIZE
            && r[12..|query|] == query[12..]
            && r[|query|..] == ANSWER
            && U16(r, 0) == U16(query, 0) && U16(r, 2) == 0x8180 && U16(r, 4) == U16(query, 4)
            && U16(r, 6) == 1 && U16(r, 8) == 0 && U16(r, 10) == 0
  {
  }

  /** Octets of a response that has the body of the query in front of the answer. */
  lemma OwnerBehindBody(query: seq<byte>, r: seq<byte>, name: Name, steps: nat)
    requires HEADER_SIZE <= |query| && |r| == |query| + ANSWER_SIZE
    requires r[|query|..] == ANSWER && r[HEADER_SIZE..|query|] == query[HEADER_SIZE..]
    requires NameWithin(query, HEADER_SIZE, HEADER_SIZE, name, steps)
    ensures NameWithin(r, 0, HEADER_SIZE, name, steps) && NameWithin(r, 0, |query|, name, steps + 1)
    ensures EndInPlace(r, HEADER_SIZE) == EndInPlace(query, HEADER_SIZE) && EndInPlace(r, |query|) == |query| + 2
    ensures r[|query|] == 0xC0 && r[|query| + 1] == 0x0C
  {
    WithinInLonger(query, r, HEADER_SIZE, HEADER_SIZE, name, steps);
    assert r[|query|] == r[|query|..][0] == 0xC0 && r[|query| + 1] == r[|query|..][1] == 0x0C;
    assert Target(r, |query|) == HEADER_SIZE;
  }

  /** The owner name of the answer, read at the end of the query, is the queried name. */
  lemma AnswerOwner(query: seq<byte>, q: Question, end: nat) returns (steps: nat)
    requires AsksOne(query, q, end)
    ensures var r := BlockedResponse(query);
            && NameWithin(r, 0, HEADER_SIZE, q.name, steps)
            && NameWithin(r, 0, |query|, q.name, steps + 1)
            && EndInPlace(r, HEADER_SIZE) == EndInPlace(query, HEADER_SIZE)
            && EndInPlace(r, |query|) == |query| + 2
            && |r| == |query| + ANSWER_SIZE
            && r[|query|] == 0xC0 && r[|query| + 1] == 0x0C
  {
    ResponseLayout(query);
    steps :| NameWithin(query, HEADER_SIZE, HEADER_SIZE, q.name, steps);
    hide BlockedResponse, NameWithin, EndInPlace;
    OwnerBehindBody(query, BlockedResponse(query), q.name, steps);
  }

  lemma ResponseQuestion(query: seq<byte>, q: Question, end: nat)
    requires AsksOne(query, q, end)
    ensures QuestionAt(BlockedResponse(query), 0, HEADER_SIZE, q, end)
  {
    var r, n := BlockedResponse(query), |query|;
    ResponseLayout(query);
    var steps := AnswerOwner(query, q, end);
    var e := EndInPlace(query, HEADER_SIZE);
    EndInPlaceGrows(query, HEADER_SIZE);
    assert forall k :: 12 <= k < n ==> r[k] == r[12..n][k - 12] == query[k];
    assert U16(r, e) == U16(query, e) && U16(r, e + 2) == U16(query, e + 2);
  }

  /** The record the answer is meant to be: an address record 0.0.0.0 for 60 seconds. */
  function BlockedRecord(q: Question): Record {
    Record(q.name, TYPE_A, CLASS_IN, 60, [0, 0, 0, 0])
  }

  lemma AnswerFields(r: seq<byte>, n: nat)
    requires |r| == n + ANSWER_SIZE && r[n..] == ANSWER
    ensures U16(r, n + 2) == TYPE_A && U16(r, n + 4) == CLASS_IN
    ensures U16(r, n + 6) * 0x10000 + U16(r, n + 8) == 60 && U16(r, n + 10) == 4
    ensures r[n + 12..|r|] == [0, 0, 0, 0]
  {
    assert forall k :: 0 <= k < ANSWER_SIZE ==> r[n + k] == r[n..][k];
    assert r[n + 12..|r|] == r[n..][12..] == ANSWER[12..];
  }

  lemma ResponseAnswer(query: seq<byte>, q: Question, end: nat)
    requires AsksOne(query, q, end)
    ensures var r := BlockedResponse(query);
            RecordAt(r, |query|, BlockedRecord(q), |r|)
  {
    var r, n := BlockedResponse(query), |query|;
    ResponseLayout(query);
    var steps := AnswerOwner(query, q, end);
    assert NameAt(r, n, q.name);
    hide BlockedResponse, NameAt, EndInPlace;
    AnswerFields(r, n);
  }

  /** The message the response is meant to be: same id and question, and the record. */
  function BlockedMessage(query: seq<byte>, q: Question): Message
    requires |query| >= HEADER_SIZE
  {
    Message(U16(query, 0), 0x8180, [q], [BlockedRecord(q)])
  }

  lemma BareQuestionAnswered(query: seq<byte>, q: Question)
    requires AsksOne(query, q, |query|)
    ensures IsMessage(BlockedResponse(query), BlockedMessage(query, q))
  {
    var r, n, record := BlockedResponse(query), |query|, BlockedRecord(q);
    ResponseLayout(query);
    ResponseQuestion(query, q, n);
    ResponseAnswer(query, q, n);
    assert QuestionsAt(r, n, [q][1..], n);
    assert QuestionsAt(r, HEADER_SIZE, [q], n);
    assert RecordsAt(r, |r|, [record][1..], |r|);
    assert RecordsAt(r, n, [record], |r|);
  }

  /** A name that ends in place right behind the pointer at `target`, but starts before it,
      has labels of its own in front of the name that the pointer leads to. */
  lemma {:induction false} LabelsBeforePointer(buf: seq<byte>, target: nat, name: Name, m: nat,
                                               off: nat, labels: Name, steps: nat)
    requires NameWithin(buf, 0, target, name, m) && IsPointer(buf[target])
    requires target + 1 < |buf| && buf[target + 1] != 0
    requires NameWithin(buf, 0, off, labels, steps) && EndInPlace(buf, off) == target + 2
    ensures off <= target && |labels| >= |name| + if off < target then 1 else 0
    decreases steps
  {
    assert buf[off] != 0;
    if IsPointer(buf[off]) {
      WithinFunctional(buf, 0, 0, off, labels, name, steps, m);
    } else {
      LabelsBeforePointer(buf, target, name, m, off + 1 + buf[off], labels[1..], steps - 1);
    }
  }

  lemma RecordExtent(buf: seq<byte>, off: nat, record: Record, end: nat) returns (steps: nat)
    requires RecordAt(buf, off, record, end)
    ensures NameWithin(buf, 0, off, record.name, steps) && EndInPlace(buf, off) + 10 + |record.rdata| == end
  {
    steps :| NameWithin(buf, 0, off, record.name, steps);
    assert |buf[EndInPlace(buf, off) + 10..end]| == |record.rdata|;
  }

  /** A record for the name that ends 16 octets behind the pointer starts at the pointer. */
  lemma RecordStartsAtPointer(buf: seq<byte>, target: nat, m: nat, off: nat, record: Record)
    requires NameWithin(buf, 0, target, record.name, m) && IsPointer(buf[target])
    requires target + 1 < |buf| && buf[target + 1] != 0
    requires RecordAt(buf, off, record, target + ANSWER_SIZE) && |record.rdata| == 4
    ensures off == target
  {
    var steps := RecordExtent(buf, off, record, target + ANSWER_SIZE);
    hide RecordAt;
    LabelsBeforePointer(buf, target, record.name, m, off, record.name, steps);
  }

  lemma RecordStartsAtAnswer(r: seq<byte>, n: nat, q: Question, end: nat, steps: nat)
    requires |r| == n + ANSWER_SIZE && r[n] == 0xC0 && r[n + 1] == 0x0C
    requires NameWithin(r, 0, n, q.name, steps)
    requires RecordAt(r, end, BlockedRecord(q), |r|)
    ensures end == n
  {
    hide RecordAt, NameWithin;
    RecordStartsAtPointer(r, n, steps, end, BlockedRecord(q));
  }

  /** Read as one answer, the rest of the response has to start at the end of the query. */
  lemma AnswerStartsBehindQuery(query: seq<byte>, q: Question, end: nat)
    requires AsksOne(query, q, end)
    requires RecordAt(BlockedResponse(query), end, BlockedRecord(q), |BlockedResponse(query)|)
    ensures end == |query|
  {
    assert HEADER_SIZE <= |query|;
    hide *;
    var steps := AnswerOwner(query, q, end);
    RecordStartsAtAnswer(BlockedResponse(query), |query|, q, end, steps + 1);
  }

  /** A message with one question and one answer has the answer where the question ends. */
  lemma OnlyAnswerAt(buf: seq<byte>, id: nat, q: Question, record: Record, end: nat)
    requires IsMessage(buf, Message(id, 0x8180, [q], [record])) && QuestionAt(buf, 0, HEADER_SIZE, q, end)
    ensures RecordAt(buf, end, record, |buf|)
  {
    var mid: nat :| QuestionsAt(buf, HEADER_SIZE, [q], mid) && RecordsAt(buf, mid, [record], |buf|);
    var m: nat :| QuestionAt(buf, 0, HEADER_SIZE, [q][0], m) && QuestionsAt(buf, m, [q][1..], mid);
    var last: nat :| RecordAt(buf, mid, [record][0], last) && RecordsAt(buf, last, [record][1..], |buf|);
  }

  /** The response is that message exactly when nothing follows the question in the query:
      octets in between would be read as the answer. */
  lemma BlockedResponseIsMessageExactly(query: seq<byte>, q: Question, end: nat)
    requires AsksOne(query, q, end)
    ensures IsMessage(BlockedResponse(query), BlockedMessage(query, q)) <==> end == |query|
  {
    if end == |query| {
      BareQuestionAnswered(query, q);
    } else if IsMessage(BlockedResponse(query), BlockedMessage(query, q)) {
      hide IsMessage, QuestionAt, RecordAt, BlockedResponse;
      ResponseQuestion(query, q, end);
      OnlyAnswerAt(BlockedResponse(query), U16(query, 0), q, BlockedRecord(q), end);
      AnswerStartsBehindQuery(query, q, end);
    }
  }

  lemma {:induction false} EndInPlaceGrows(buf: seq<byte>, off: nat)
    ensures EndInPlace(buf, off) >= off
    decreases |buf| - off
  {
    if off < |buf| && buf[off] != 0 && !IsPointer(buf[off]) {
      EndInPlaceGrows(buf, off + 1 + buf[off]);
    }
  }

  /** The parser reads the same name at the answer as at the question, for every output size and whatever lies
      behind the query and the response. */
  lemma AnswerParsesLikeQuestion(query: seq<byte>, q: Question, end: nat, mem: Memory, mem': Memory, maxLen: nat)
    requires AsksOne(query, q, end)
    requires Holds(mem, query) && Holds(mem', BlockedResponse(query))
    ensures exists n: nat ::
              && Parse(mem, HEADER_SIZE, maxLen, n) == Reading(q.name, end - 4, maxLen)
              && Parse(mem', |query|, maxLen, n) == Reading(q.name, |query| + 2, maxLen)
  {
    var s: nat :| NameWithin(query, HEADER_SIZE, HEADER_SIZE, q.name, s);
    var steps := AnswerOwner(query, q, end);
    assert EndInPlace(query, HEADER_SIZE) == end - 4;
    hide BlockedResponse, NameWithin, EndInPlace, Reading, Parse, AsksOne;
    BothRead(mem, query, HEADER_SIZE, HEADER_SIZE, s, mem', BlockedResponse(query), 0, |query|, steps + 1, q.name, maxLen);
  }

  /** A query for one name, octet by octet: id, flags, one question, and the question itself. */
  function QueryOctets(id: seq<byte>, flags: seq<byte>, labels: Name, kind: seq<byte>): seq<byte>
    requires |id| == |flags| == 2 && |kind| == 4 && forall l :: l in labels ==> |l| < 0xC0
  {
    id + flags + [0, 1, 0, 0, 0, 0, 0, 0] + Encode(labels) + kind
  }

  lemma QueryQuestion(id: seq<byte>, flags: seq<byte>, labels: Name, kind: seq<byte>)
    requires |id| == |flags| == 2 && |kind| == 4 && forall l :: l in labels ==> 0 < |l| < 0xC0
    ensures var query := QueryOctets(id, flags, labels, kind);
            AsksOne(query, Question(labels, kind[0] as int * 256 + kind[1], kind[2] as int * 256 + kind[3]), |query|)
  {
    var query, code := QueryOctets(id, flags, labels, kind), Encode(labels);
    assert query == (id + flags + [0, 1, 0, 0, 0, 0, 0, 0]) + code + kind;
    var head := id + flags + [0, 1, 0, 0, 0, 0, 0, 0];
    assert |head| == 12 && U16(query, 4) == 1;
    assert StandsAt(code, query, 12);
    EncodedNameIsRead(query, 12, labels);
    var e := 12 + |code|;
    assert query[e..] == kind;
    assert forall k :: 0 <= k < 4 ==> query[e + k] == query[e..][k];
  }

  /** Octet by octet, the response to such a query: flags 0x8180, one question and one answer, the question, and an
      answer that points to offset 12 and has type 1, class 1, 60 seconds and four zero octets. */
  lemma ResponseOctets(id: seq<byte>, flags: seq<byte>, labels: Name, kind: seq<byte>)
    requires |id| == |flags| == 2 && |kind| == 4 && forall l :: l in labels ==> |l| < 0xC0
    ensures BlockedResponse(QueryOctets(id, flags, labels, kind))
         == id + [0x81, 0x80, 0, 1, 0, 1, 0, 0, 0, 0] + Encode(labels) + kind
            + [0xC0, 12, 0, 1, 0, 1, 0, 0, 0, 60, 0, 4, 0, 0, 0, 0]
  {
    hide Encode;
    var code := Encode(labels);
    assert Patched(QueryOctets(id, flags, labels, kind)) == id + [0x81, 0x80, 0, 1, 0, 1, 0, 0, 0, 0] + code + kind;
  }
}
