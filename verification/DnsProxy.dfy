/** The router's hand-written reader of A records. */
module DnsProxy {
  import opened DnsWire

  // Skips length-prefixed labels up to a zero byte or the end.
  function SkipLabels(raw: bytes, i: nat): (j: nat)
    ensures i <= j
    decreases if i < |raw| then |raw| - i else 0
  {
    if i < |raw| && raw[i] != 0 then SkipLabels(raw, i + raw[i] + 1) else i
  }

  // A name that starts with a pointer byte is two bytes long.
  function SkipOwner(raw: bytes, i: nat): (j: nat)
    ensures i < j
  {
    if i < |raw| && raw[i] >= 0xC0 then i + 2 else SkipLabels(raw, i) + 1
  }

  // The address carried by the record whose fields start at j, if any.
  function RecordAddress(raw: bytes, j: nat): seq<bytes>
    requires j + 10 <= |raw|
  {
    if Word(raw, j) == 1 && Word(raw, j + 8) == 4 && j + 14 <= |raw| then [raw[j + 10..j + 14]] else []
  }

  function ReadAnswers(raw: bytes, i: nat, n: nat): seq<bytes>
    decreases n
  {
    if n == 0 || i >= |raw| then []
    else
      var j := SkipOwner(raw, i);
      if j + 10 > |raw| then []
      else RecordAddress(raw, j) + ReadAnswers(raw, j + 10 + Word(raw, j + 8), n - 1)
  }

  function ReadMessage(raw: bytes): seq<bytes> {
    if |raw| < 12 then [] else ReadAnswers(raw, SkipLabels(raw, 12) + 5, Word(raw, 6))
  }

  method SkipLabelsFrom(raw: bytes, start: nat) returns (i: nat)
    ensures i == SkipLabels(raw, start)
  {
    i := start;
    while i < |raw| && raw[i] != 0
      invariant SkipLabels(raw, i) == SkipLabels(raw, start)
      decreases if i < |raw| then |raw| - i else 0
    {
      i := i + raw[i] + 1;
    }
  }

  method SkipOwnerFrom(raw: bytes, start: nat) returns (i: nat)
    ensures i == SkipOwner(raw, start)
  {
    i := start;
    if i < |raw| && raw[i] >= 0xC0 {
      i := i + 2;
    } else {
      i := SkipLabelsFrom(raw, i);
      i := i + 1;
    }
  }

  // Every index stays inside the message, whatever its bytes.
  method ParseAFromDNS(raw: bytes) returns (ips: seq<bytes>)
    ensures ips == ReadMessage(raw)
  {
    hide SkipLabels, SkipOwner, RecordAddress, Word;
    ips := [];
    if |raw| < 12 {
      return;
    }
    var ancount := Word(raw, 6);
    var i := SkipLabelsFrom(raw, 12);
    i := i + 5;
    var n := 0;
    while n < ancount && i < |raw|
      invariant 0 <= n <= ancount && 0 <= i
      invariant ReadMessage(raw) == ips + ReadAnswers(raw, i, ancount - n)
    {
      i := SkipOwnerFrom(raw, i);
      if i + 10 > |raw| {
        return;
      }
      var rdlen := Word(raw, i + 8);
      var address := ReadAddress(raw, i);
      ips := ips + address;
      i := i + 10 + rdlen;
      n := n + 1;
    }
  }

  method ReadAddress(raw: bytes, j: nat) returns (address: seq<bytes>)
    requires j + 10 <= |raw|
    ensures address == RecordAddress(raw, j)
  {
    var rrtype, rdlen := Word(raw, j), Word(raw, j + 8);
    if rrtype == 1 && rdlen == 4 && j + 14 <= |raw| {
      return [raw[j + 10..j + 14]];
    }
    return [];
  }

  ghost predicate FourByteSlice(raw: bytes, ip: bytes) {
    |ip| == 4 && exists k: nat :: At(raw, k, ip)
  }

  lemma RecordAddressIsSlice(raw: bytes, j: nat)
    requires j + 10 <= |raw|
    ensures |RecordAddress(raw, j)| <= 1 && forall ip :: ip in RecordAddress(raw, j) ==> FourByteSlice(raw, ip)
  {
    assert j + 14 <= |raw| ==> At(raw, j + 10, raw[j + 10..j + 14]);
  }

  // On any bytes at all, each address read is a four-byte slice of the message, and there are no more of
  // them than the header announces.
  lemma {:induction false} AddressesAreSlices(raw: bytes, i: nat, n: nat)
    ensures |ReadAnswers(raw, i, n)| <= n
    ensures forall ip :: ip in ReadAnswers(raw, i, n) ==> FourByteSlice(raw, ip)
    decreases n
  {
    hide SkipOwner, RecordAddress, Word, FourByteSlice;
    if n > 0 && i < |raw| && SkipOwner(raw, i) + 10 <= |raw| {
      var j := SkipOwner(raw, i);
      RecordAddressIsSlice(raw, j);
      AddressesAreSlices(raw, j + 10 + Word(raw, j + 8), n - 1);
    }
  }

  // ---- reading back a well-formed message ----

  lemma {:induction false} SkipsLabels(raw: bytes, i: nat, labels: seq<bytes>)
    requires forall l :: l in labels ==> 1 <= |l| < 256
    requires At(raw, i, LabelBytes(labels) + [0])
    ensures SkipLabels(raw, i) == i + |LabelBytes(labels)|
    decreases |labels|
  {
    hide At;
    if labels == [] {
      assert LabelBytes(labels) + [0] == [0];
      AtByte(raw, i, 0);
      ZeroStops(raw, i);
    } else {
      FirstLabelAt(raw, i, labels);
      SkipsLabels(raw, i + 1 + |labels[0]|, labels[1..]);
    }
  }

  lemma ZeroStops(raw: bytes, i: nat)
    requires i < |raw| ==> raw[i] == 0
    ensures SkipLabels(raw, i) == i
  {
  }

  lemma SkipsOwner(raw: bytes, i: nat, o: Owner)
    requires OwnerOk(o) && At(raw, i, OwnerBytes(o))
    ensures SkipOwner(raw, i) == i + |OwnerBytes(o)|
  {
    match o
    case Pointer(hi, lo) =>
      assert raw[i] == raw[i..i + 2][0];
    case Labels(ls) =>
      SkipsLabels(raw, i, ls);
      if ls != [] { FirstLabelAt(raw, i, ls); } else { assert OwnerBytes(o) == [0]; AtByte(raw, i, 0); }
  }

  // The fields of one record, where they stand.
  lemma RecordAt(raw: bytes, i: nat, r: Record)
    requires RecordOk(r) && At(raw, i, RecordBytes(r))
    ensures var j := i + |OwnerBytes(r.owner)|;
      && |RecordBytes(r)| == |OwnerBytes(r.owner)| + 10 + |r.rdata|
      && At(raw, i, OwnerBytes(r.owner)) && At(raw, j, WordBytes(r.rrtype)) && At(raw, j + 8, WordBytes(|r.rdata|))
      && At(raw, j + 10, r.rdata)
  {
    hide OwnerBytes, At, WordBytes, OwnerOk;
    assert |WordBytes(r.rrtype)| == 2 && |WordBytes(|r.rdata|)| == 2 by {
      WordsAreTwoBytes(r.rrtype); WordsAreTwoBytes(|r.rdata|);
    }
    var j := i + |OwnerBytes(r.owner)|;
    var data := WordBytes(|r.rdata|) + r.rdata;
    AtConcat(raw, i, OwnerBytes(r.owner), WordBytes(r.rrtype) + (r.class_ + (r.ttl + data)));
    AtConcat(raw, j, WordBytes(r.rrtype), r.class_ + (r.ttl + data));
    AtConcat(raw, j + 2, r.class_, r.ttl + data);
    AtConcat(raw, j + 4, r.ttl, data);
    AtConcat(raw, j + 8, WordBytes(|r.rdata|), r.rdata);
  }

  lemma WordsAreTwoBytes(w: nat)
    requires w < 0x1_0000
    ensures |WordBytes(w)| == 2
  {
  }

  // One record is read as what it carries, and the reader moves past it.
  lemma ReadsRecord(raw: bytes, i: nat, r: Record)
    requires RecordOk(r) && At(raw, i, RecordBytes(r))
    ensures i < |raw| && SkipOwner(raw, i) + 10 <= |raw|
    ensures var j := SkipOwner(raw, i);
      RecordAddress(raw, j) == AddressOf(r) && j + 10 + Word(raw, j + 8) == i + |RecordBytes(r)|
  {
    hide OwnerBytes, RecordBytes, SkipOwner, OwnerOk, WordBytes, Word;
    RecordAt(raw, i, r);
    SkipsOwner(raw, i, r.owner);
    var j := SkipOwner(raw, i);
    AtWord(raw, j, r.rrtype);
    AtWord(raw, j + 8, |r.rdata|);
  }

  lemma {:induction false} ReadsRecords(raw: bytes, i: nat, rs: seq<Record>)
    requires forall r :: r in rs ==> RecordOk(r)
    requires At(raw, i, RecordsBytes(rs))
    ensures ReadAnswers(raw, i, |rs|) == Addresses(rs)
    decreases |rs|
  {
    hide RecordBytes, Word, SkipOwner, RecordAddress, AddressOf, At, RecordOk;
    if rs != [] {
      var r := rs[0];
      AtConcat(raw, i, RecordBytes(r), RecordsBytes(rs[1..]));
      ReadsRecord(raw, i, r);
      ReadsRecords(raw, i + |RecordBytes(r)|, rs[1..]);
    }
  }

  lemma MessageParts(m: Message)
    requires MessageOk(m)
    ensures var raw := MessageBytes(m); var i := 12 + |LabelBytes(m.question)|;
      && |raw| >= 12 && At(raw, 6, WordBytes(|m.answers|))
      && At(raw, 12, LabelBytes(m.question) + [0]) && At(raw, i + 5, RecordsBytes(m.answers))
  {
    hide At, LabelBytes, RecordsBytes, PlainLabels, RecordOk;
    var raw := MessageBytes(m);
    var answers := RecordsBytes(m.answers) + m.rest;
    var question := LabelBytes(m.question) + ([0] + (m.qtail + answers));
    assert At(raw, 0, raw) by { AtStart(raw); }
    AtConcat(raw, 0, m.head, WordBytes(|m.answers|) + (m.counts + question));
    AtConcat(raw, 6, WordBytes(|m.answers|), m.counts + question);
    AtConcat(raw, 8, m.counts, question);
    assert question == (LabelBytes(m.question) + [0]) + (m.qtail + answers);
    AtConcat(raw, 12, LabelBytes(m.question) + [0], m.qtail + answers);
    var i := 12 + |LabelBytes(m.question)| + 1;
    AtConcat(raw, i, m.qtail, answers);
    AtConcat(raw, i + 4, RecordsBytes(m.answers), m.rest);
  }

  lemma AtStart(raw: bytes)
    ensures At(raw, 0, raw)
  {
  }

  // From any one-question message whose names are plain labels or pure pointers, the reader returns
  // exactly the addresses of its A records, in order.
  lemma ReadsExactlyTheAddresses(m: Message)
    requires MessageOk(m)
    ensures ReadMessage(MessageBytes(m)) == Addresses(m.answers)
  {
    hide At, LabelBytes, RecordsBytes, RecordOk, MessageBytes, ReadAnswers, SkipLabels, Word;
    var raw := MessageBytes(m);
    MessageParts(m);
    AtWord(raw, 6, |m.answers|);
    SkipsLabels(raw, 12, m.question);
    ReadsRecords(raw, 12 + |LabelBytes(m.question)| + 5, m.answers);
  }
}
