/** The example resolver: name encoding, question parsing and the fixed responses. */
module DnsResolver {
  import opened Text
  import opened DnsWire
  import DnsProxy

  const DOT: byte := 46

  function EncodeOf(domain: bytes): bytes {
    LabelBytes(Split(domain, DOT)) + [0]
  }

  method EncodeDomainName(domain: bytes) returns (result: bytes)
    ensures result == EncodeOf(domain)
  {
    hide LabelBytes, Split, Pending;
    result := [];
    var start := 0;
    var i := 0;
    PendingEnds(domain);
    while i <= |domain|
      invariant 0 <= start <= i <= |domain| + 1
      invariant i <= |domain| ==> DOT !in domain[start..i]
      invariant i > |domain| ==> start == i
      invariant LabelBytes(Split(domain, DOT)) == result + Pending(domain, start)
    {
      if i == |domain| || domain[i] == DOT {
        var part := domain[start..i];
        PendingStep(domain, start, i, result);
        result := result + [|part| % 256];
        result := result + part;
        start := i + 1;
      }
      i := i + 1;
    }
    result := result + [0];
  }

  // What is still to be encoded when a label starts at start; nothing past the end.
  ghost function Pending(domain: bytes, start: nat): bytes {
    if start > |domain| then [] else LabelBytes(Split(domain[start..], DOT))
  }

  lemma PendingEnds(domain: bytes)
    ensures Pending(domain, 0) == LabelBytes(Split(domain, DOT)) && Pending(domain, |domain| + 1) == []
  {
    assert domain[0..] == domain;
  }

  lemma PendingStep(domain: bytes, start: nat, i: nat, result: bytes)
    requires start <= i <= |domain| && DOT !in domain[start..i]
    requires i == |domain| || domain[i] == DOT
    ensures result + Pending(domain, start) == result + [(i - start) % 256] + domain[start..i] + Pending(domain, i + 1)
  {
    hide Split;
    var part := domain[start..i];
    if i == |domain| {
      assert domain[start..] == part;
      SplitOfPart(part, DOT);
      assert LabelBytes([part]) == [|part| % 256] + part + LabelBytes([]);
    } else {
      assert domain[start..] == part + [DOT] + domain[i + 1..];
      SplitOfFirst(part, domain[i + 1..], DOT);
      var rest := Split(domain[i + 1..], DOT);
      assert ([part] + rest)[1..] == rest;
    }
    assert result + ([|part| % 256] + part + Pending(domain, i + 1))
      == result + [|part| % 256] + part + Pending(domain, i + 1);
  }

  datatype Question = Question(domain: bytes, qtype: nat, offset: nat)

  const NO_QUESTION: Question := Question([], 0, 0)

  // The labels from pos on, and the position after the zero byte; None when a label overruns.
  function ReadLabels(q: bytes, pos: nat): Option<(seq<bytes>, nat)>
    requires pos <= |q|
    decreases |q| - pos
  {
    if pos == |q| then Some(([], pos))
    else if q[pos] == 0 then Some(([], pos + 1))
    else if pos + 1 + q[pos] > |q| then None
    else
      match ReadLabels(q, pos + 1 + q[pos])
      case None => None
      case Some((ls, end)) => Some(([q[pos + 1..pos + 1 + q[pos]]] + ls, end))
  }

  function Dotted(labels: seq<bytes>): bytes {
    if labels == [] then [] else Join(labels, DOT)
  }

  function ParseOf(q: bytes): Question {
    match ReadLabels(q, 0)
    case None => NO_QUESTION
    case Some((ls, end)) => if end + 4 > |q| then NO_QUESTION else Question(Dotted(ls), Word(q, end), end + 4)
  }

  ghost function Prepend(labels: seq<bytes>, r: Option<(seq<bytes>, nat)>): Option<(seq<bytes>, nat)> {
    match r case None => None case Some((ls, end)) => Some((labels + ls, end))
  }

  lemma PrependLaws(labels: seq<bytes>, l: bytes, r: Option<(seq<bytes>, nat)>)
    ensures Prepend([], r) == r
    ensures Prepend(labels, Prepend([l], r)) == Prepend(labels + [l], r)
  {
    if r.Some? {
      assert [] + r.value.0 == r.value.0;
      assert labels + ([l] + r.value.0) == (labels + [l]) + r.value.0;
    }
  }

  method ParseDNSQuestion(q: bytes) returns (r: Question)
    ensures r == ParseOf(q)
  {
    var pos := 0;
    var labels: seq<bytes> := [];
    PrependLaws([], [], ReadLabels(q, 0));
    while pos < |q|
      invariant 0 <= pos <= |q|
      invariant ReadLabels(q, 0) == Prepend(labels, ReadLabels(q, pos))
      decreases |q| - pos
    {
      var length := q[pos];
      if length == 0 {
        pos := pos + 1;
        assert labels + [] == labels;
        r := Finish(q, labels, pos);
        return;
      }
      if pos + 1 + length > |q| {
        return NO_QUESTION;
      }
      var part := q[pos + 1..pos + 1 + length];
      PrependLaws(labels, part, ReadLabels(q, pos + 1 + length));
      labels := labels + [part];
      pos := pos + 1 + length;
    }
    assert labels + [] == labels;
    r := Finish(q, labels, pos);
  }

  method Finish(q: bytes, labels: seq<bytes>, pos: nat) returns (r: Question)
    requires pos <= |q|
    ensures r == if pos + 4 > |q| then NO_QUESTION else Question(Dotted(labels), Word(q, pos), pos + 4)
  {
    if pos + 4 > |q| {
      return NO_QUESTION;
    }
    var domain: bytes := [];
    for i := 0 to |labels|
      invariant domain == Dotted(labels[..i])
    {
      DottedAppend(labels[..i], labels[i]);
      assert labels[..i + 1] == labels[..i] + [labels[i]];
      if i > 0 {
        domain := domain + [DOT];
      }
      domain := domain + labels[i];
    }
    assert labels[..|labels|] == labels;
    r := Question(domain, Word(q, pos), pos + 4);
  }

  lemma {:induction false} DottedAppend(labels: seq<bytes>, l: bytes)
    ensures Dotted(labels + [l]) == if labels == [] then l else Dotted(labels) + [DOT] + l
  {
    if labels == [] {
      assert labels + [l] == [l];
    } else {
      assert (labels + [l])[1..] == labels[1..] + [l];
      DottedAppend(labels[1..], l);
      if |labels| > 1 {
        assert labels[0] + [DOT] + (Dotted(labels[1..]) + [DOT] + l)
          == labels[0] + [DOT] + Dotted(labels[1..]) + [DOT] + l;
      }
    }
  }

  // ---- parsing undoes encoding ----

  predicate Encodable(labels: seq<bytes>) {
    forall l :: l in labels ==> 1 <= |l| < 256
  }

  lemma {:induction false} ReadsEncoded(q: bytes, pos: nat, labels: seq<bytes>)
    requires Encodable(labels) && At(q, pos, LabelBytes(labels) + [0])
    ensures pos <= |q|
    ensures ReadLabels(q, pos) == Some((labels, pos + |LabelBytes(labels)| + 1))
    decreases |labels|
  {
    hide At;
    if labels == [] {
      assert LabelBytes(labels) + [0] == [0];
      AtByte(q, pos, 0);
      ZeroEnds(q, pos);
    } else {
      FirstLabelAt(q, pos, labels);
      ReadsEncoded(q, pos + 1 + |labels[0]|, labels[1..]);
      assert [labels[0]] + labels[1..] == labels;
    }
  }

  lemma ZeroEnds(q: bytes, pos: nat)
    requires pos < |q| && q[pos] == 0
    ensures ReadLabels(q, pos) == Some(([], pos + 1))
  {
  }

  // Parsing a question made of an encoded name, a type and a class gives back the name, the type and the
  // length, for every name whose labels are non-empty and fit a length byte; labels of at most 63 bytes,
  // the limit of RFC 1035 section 2.3.4, are among them.
  lemma ParseUndoesEncode(domain: bytes, qtype: nat, qclass: bytes, rest: bytes)
    requires Encodable(Split(domain, DOT)) && qtype < 0x1_0000 && |qclass| == 2
    ensures ParseOf(EncodeOf(domain) + WordBytes(qtype) + qclass + rest)
      == Question(domain, qtype, |EncodeOf(domain)| + 4)
  {
    hide LabelBytes, Split, ReadLabels;
    var labels := Split(domain, DOT);
    var q := EncodeOf(domain) + WordBytes(qtype) + qclass + rest;
    var n := |EncodeOf(domain)|;
    assert q == EncodeOf(domain) + (WordBytes(qtype) + (qclass + rest));
    assert At(q, 0, q);
    AtConcat(q, 0, EncodeOf(domain), WordBytes(qtype) + (qclass + rest));
    AtConcat(q, n, WordBytes(qtype), qclass + rest);
    ReadsEncoded(q, 0, labels);
    AtWord(q, n, qtype);
    JoinOfSplit(domain, DOT);
  }

  // ---- responses ----

  // The fixed record for each question type; domain is the configured zone, txt the configured text.
  function AnswerData(qtype: nat, domain: bytes): bytes {
    if qtype == 1 then [192, 0, 2, 1]
    else if qtype == 28 then [0x20, 0x01, 0x0d, 0xb8, 0, 0, 0, 0, 0, 0, 0, 0, 0, 0, 0, 1]
    else if qtype == 5 then EncodeOf(domain)
    else if qtype == 16 then [|TXT|] + TXT
    else if qtype == 15 then [0x00, 0x0a] + EncodeOf([109, 120, DOT] + domain)
    else []
  }

  // "v=test dns resolver"
  const TXT: bytes := [118, 61, 116, 101, 115, 116, 32, 100, 110, 115, 32, 114, 101, 115, 111, 108, 118, 101, 114]

  function AnswerBytes(qtype: nat, domain: bytes): bytes
    requires qtype < 0x1_0000
  {
    [0xC0, 0x0C] + (WordBytes(qtype) + ([0, 1] + ([0, 0, 1, 0x2C] + LengthAndData(AnswerData(qtype, domain)))))
  }

  // The length keeps only its low sixteen bits.
  function LengthAndData(data: bytes): bytes {
    WordBytes(|data| % 0x1_0000) + data
  }

  method BuildAnswer(qtype: nat, domain: bytes) returns (answer: bytes)
    requires qtype < 0x1_0000
    ensures answer == AnswerBytes(qtype, domain)
  {
    answer := [0xC0, 0x0C];
    answer := answer + [qtype / 0x100, qtype % 0x100];
    answer := answer + [0x00, 0x01];
    answer := answer + [0x00, 0x00, 0x01, 0x2C];
    var data := BuildData(qtype, domain);
    HeadFirst(qtype, data);
    answer := answer + data;
  }

  // The length and data of the record, one case per question type.
  method BuildData(qtype: nat, domain: bytes) returns (data: bytes)
    ensures data == LengthAndData(AnswerData(qtype, domain))
  {
    hide EncodeOf;
    if qtype == 1 {
      data := [0x00, 0x04];
      data := data + [192, 0, 2, 1];
    } else if qtype == 28 {
      data := [0x00, 0x10];
      data := data + [0x20, 0x01, 0x0d, 0xb8, 0, 0, 0, 0, 0, 0, 0, 0, 0, 0, 0, 1];
    } else if qtype == 5 {
      var cname := EncodeDomainName(domain);
      WordOfLength(|cname|);
      data := [|cname| / 0x100 % 0x100, |cname| % 0x100];
      data := data + cname;
    } else if qtype == 16 {
      var rdlen := 1 + |TXT|;
      data := [rdlen / 0x100, rdlen % 0x100];
      data := data + [|TXT|];
      data := data + TXT;
      assert data == LengthAndData([|TXT|] + TXT);
    } else if qtype == 15 {
      var mx := EncodeDomainName([109, 120, DOT] + domain);
      var rdlen := 2 + |mx|;
      WordOfLength(rdlen);
      data := [rdlen / 0x100 % 0x100, rdlen % 0x100];
      data := data + [0x00, 0x0a];
      data := data + mx;
      assert data == LengthAndData([0x00, 0x0a] + mx);
    } else {
      data := [0x00, 0x00];
    }
  }

  lemma WordOfLength(n: nat)
    ensures WordBytes(n % 0x1_0000) == [n / 0x100 % 0x100, n % 0x100]
  {
    var q, r := n / 0x1_0000, n % 0x1_0000;
    assert n == 0x100 * (0x100 * q + r / 0x100) + r % 0x100;
    assert n / 0x100 == 0x100 * q + r / 0x100;
  }

  lemma HeadFirst(qtype: nat, data: bytes)
    requires qtype < 0x1_0000
    ensures [0xC0, 0x0C] + [qtype / 0x100, qtype % 0x100] + [0x00, 0x01] + [0x00, 0x00, 0x01, 0x2C] + data
         == [0xC0, 0x0C] + (WordBytes(qtype) + ([0, 1] + ([0, 0, 1, 0x2C] + data)))
  {
  }

  function ResponseOf(txID: nat, question: bytes, qtype: nat, domain: bytes): bytes
    requires txID < 0x1_0000 && qtype < 0x1_0000
  {
    WordBytes(txID) + [0x81, 0x80, 0, 1, 0, 1, 0, 0, 0, 0] + question + AnswerBytes(qtype, domain)
  }

  // The question section and type are those parsed from a query.
  ghost predicate Asks(query: bytes, question: bytes, qtype: nat) {
    var Question(_, t, offset) := ParseOf(query);
    0 < offset <= |query| && question == query[..offset] && qtype == t
  }

  // Built for a parsed query, the response echoes its number and question, and the router's reader finds
  // the address in it exactly for type A.
  method BuildDNSResponse(txID: nat, question: bytes, qtype: nat, domain: bytes) returns (response: bytes)
    requires txID < 0x1_0000 && qtype < 0x1_0000
    ensures response == ResponseOf(txID, question, qtype, domain)
    ensures |response| >= 12 + |question| && Word(response, 0) == txID && Word(response, 6) == 1
    ensures At(response, 12, question)
    ensures forall query :: Asks(query, question, qtype)
              ==> DnsProxy.ReadMessage(response) == if qtype == 1 then [[192, 0, 2, 1]] else []
  {
    hide AnswerBytes, ParseOf, DnsProxy.ReadMessage, At;
    var header := WordBytes(txID) + [0x81, 0x80, 0, 1, 0, 1, 0, 0, 0, 0];
    response := [] + header;
    response := response + question;
    var answer := BuildAnswer(qtype, domain);
    response := response + answer;
    assert response == ResponseOf(txID, question, qtype, domain);
    ResponseParts(txID, question, qtype, domain);
    forall query | Asks(query, question, qtype)
      ensures DnsProxy.ReadMessage(response) == if qtype == 1 then [[192, 0, 2, 1]] else []
    {
      ResponseCarriesTheAddress(txID, query, domain);
      assert question == query[..ParseOf(query).offset];
    }
  }

  // The router's label skipping agrees with the resolver's label reading.
  lemma {:induction false} SkipFollowsRead(raw: bytes, base: nat, q: bytes, pos: nat)
    requires pos <= |q| && At(raw, base, q) && ReadLabels(q, pos).Some?
    requires ReadLabels(q, pos).value.1 < |q|
    ensures var end := ReadLabels(q, pos).value.1;
      end > pos && DnsProxy.SkipLabels(raw, base + pos) == base + end - 1
    decreases |q| - pos
  {
    assert raw[base + pos] == raw[base..base + |q|][pos];
    if q[pos] != 0 {
      SkipFollowsRead(raw, base, q, pos + 1 + q[pos]);
    }
  }

  // End to end: the response built for a parsed question carries the address 192.0.2.1 when the question
  // asks for type A, and no address otherwise.
  lemma ResponseCarriesTheAddress(txID: nat, query: bytes, domain: bytes)
    requires txID < 0x1_0000 && ParseOf(query).offset > 0
    ensures ParseOf(query).offset <= |query| && ParseOf(query).qtype < 0x1_0000
    ensures var question := query[..ParseOf(query).offset];
      DnsProxy.ReadMessage(ResponseOf(txID, question, ParseOf(query).qtype, domain))
      == if ParseOf(query).qtype == 1 then [[192, 0, 2, 1]] else []
  {
    hide AnswerBytes, ReadLabels, DnsProxy.SkipLabels, DnsProxy.ReadAnswers;
    var Question(_, qtype, offset) := ParseOf(query);
    var question := query[..offset];
    var raw := ResponseOf(txID, question, qtype, domain);
    ResponseParts(txID, question, qtype, domain);
    ReadOfPrefix(query, offset, 0);
    SkipFollowsRead(raw, 12, question, 0);
    OneAnswer(raw, 12 + offset, qtype, domain);
  }

  lemma ResponseParts(txID: nat, question: bytes, qtype: nat, domain: bytes)
    requires txID < 0x1_0000 && qtype < 0x1_0000
    ensures var raw := ResponseOf(txID, question, qtype, domain);
      && |raw| >= 12 + |question| && Word(raw, 0) == txID && Word(raw, 6) == 1
      && At(raw, 12, question) && At(raw, 12 + |question|, AnswerBytes(qtype, domain))
  {
    hide AnswerBytes;
    var raw := ResponseOf(txID, question, qtype, domain);
    var head := WordBytes(txID) + [0x81, 0x80, 0, 1, 0, 1, 0, 0, 0, 0];
    assert raw == head + (question + AnswerBytes(qtype, domain));
    assert At(raw, 0, raw);
    AtConcat(raw, 0, head, question + AnswerBytes(qtype, domain));
    AtConcat(raw, 12, question, AnswerBytes(qtype, domain));
  }

  // Reading the labels looks at nothing past the zero byte.
  lemma {:induction false} ReadOfPrefix(query: bytes, n: nat, pos: nat)
    requires pos <= n <= |query| && ReadLabels(query, pos).Some? && ReadLabels(query, pos).value.1 < n
    ensures ReadLabels(query[..n], pos) == ReadLabels(query, pos)
    decreases |query| - pos
  {
    ReadEndsLater(query, pos);
    if query[pos] != 0 {
      var next := pos + 1 + query[pos];
      ReadEndsLater(query, next);
      ReadOfPrefix(query, n, next);
      assert query[..n][pos + 1..next] == query[pos + 1..next];
    }
  }

  lemma ReadEndsLater(q: bytes, pos: nat)
    requires pos <= |q| && ReadLabels(q, pos).Some?
    ensures pos <= ReadLabels(q, pos).value.1 <= |q|
    ensures pos < |q| ==> pos < ReadLabels(q, pos).value.1
    decreases |q| - pos
  {
  }

  lemma AnswerParts(raw: bytes, i: nat, qtype: nat, domain: bytes)
    requires qtype < 0x1_0000 && At(raw, i, AnswerBytes(qtype, domain))
    ensures var data := AnswerData(qtype, domain);
      && At(raw, i, [0xC0, 0x0C]) && At(raw, i + 2, WordBytes(qtype))
      && At(raw, i + 10, WordBytes(|data| % 0x1_0000)) && At(raw, i + 12, data)
  {
    hide AnswerData, At;
    var data := AnswerData(qtype, domain);
    var tail := LengthAndData(data);
    AtConcat(raw, i, [0xC0, 0x0C], WordBytes(qtype) + ([0, 1] + ([0, 0, 1, 0x2C] + tail)));
    AtConcat(raw, i + 2, WordBytes(qtype), [0, 1] + ([0, 0, 1, 0x2C] + tail));
    AtConcat(raw, i + 4, [0, 1], [0, 0, 1, 0x2C] + tail);
    AtConcat(raw, i + 6, [0, 0, 1, 0x2C], tail);
    AtConcat(raw, i + 10, WordBytes(|data| % 0x1_0000), data);
  }

  lemma OneAnswer(raw: bytes, i: nat, qtype: nat, domain: bytes)
    requires qtype < 0x1_0000 && At(raw, i, AnswerBytes(qtype, domain))
    ensures DnsProxy.ReadAnswers(raw, i, 1) == if qtype == 1 then [[192, 0, 2, 1]] else []
  {
    hide AnswerData, AnswerBytes, WordBytes, Word;
    var n := |AnswerData(qtype, domain)| % 0x1_0000;
    AnswerParts(raw, i, qtype, domain);
    AtWord(raw, i + 2, qtype);
    AtWord(raw, i + 10, n);
    AtConcat(raw, i, [0xC0], [0x0C]);
    AtByte(raw, i, 0xC0);
    DataOfA(domain);
    assert DnsProxy.ReadAnswers(raw, i + 12 + n, 0) == [];
  }

  lemma DataOfA(domain: bytes)
    ensures AnswerData(1, domain) == [192, 0, 2, 1]
  {
  }
}
