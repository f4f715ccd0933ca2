/** DNS messages on the wire (RFC 1035 section 4.1): bytes, words, and the shape of a one-question message. */
module DnsWire {

  type byte = x: int | 0 <= x < 256
  type bytes = seq<byte>

  // A 16-bit word, most significant byte first.
  function Word(raw: bytes, i: nat): nat
    requires i + 1 < |raw|
  {
    raw[i] as int * 0x100 + raw[i + 1] as int
  }

  function WordBytes(w: nat): bytes
    requires w < 0x1_0000
  {
    [w / 0x100, w % 0x100]
  }

  // x stands in raw at position i.
  ghost predicate At(raw: bytes, i: nat, x: bytes) {
    i + |x| <= |raw| && raw[i..i + |x|] == x
  }

  lemma AtConcat(raw: bytes, i: nat, x: bytes, y: bytes)
    ensures At(raw, i, x + y) <==> At(raw, i, x) && At(raw, i + |x|, y)
  {
    if At(raw, i, x + y) {
      assert raw[i..i + |x|] == raw[i..i + |x + y|][..|x|];
      assert raw[i + |x|..i + |x| + |y|] == raw[i..i + |x + y|][|x|..];
    }
    if At(raw, i, x) && At(raw, i + |x|, y) {
      assert raw[i..i + |x + y|] == raw[i..i + |x|] + raw[i + |x|..i + |x| + |y|];
    }
  }

  lemma AtWord(raw: bytes, i: nat, w: nat)
    requires w < 0x1_0000 && At(raw, i, WordBytes(w))
    ensures Word(raw, i) == w
  {
    assert raw[i] == raw[i..i + 2][0] && raw[i + 1] == raw[i..i + 2][1];
  }

  // ---- names (section 4.1.2) and pointers (section 4.1.4) ----

  // Length-prefixed labels; a length byte keeps only the low eight bits.
  function LabelBytes(labels: seq<bytes>): bytes {
    if labels == [] then [] else [|labels[0]| % 256] + labels[0] + LabelBytes(labels[1..])
  }

  // The first label of an encoded name, where it stands.
  lemma FirstLabelAt(raw: bytes, i: nat, labels: seq<bytes>)
    requires labels != [] && |labels[0]| < 256 && At(raw, i, LabelBytes(labels) + [0])
    ensures var n := |labels[0]|;
      && i + 1 + n <= |raw| && raw[i] == n && raw[i + 1..i + 1 + n] == labels[0]
      && At(raw, i + 1 + n, LabelBytes(labels[1..]) + [0])
  {
    hide At, LabelBytes;
    var l, rest := labels[0], LabelBytes(labels[1..]) + [0];
    FirstLabelFirst(labels);
    AtConcat(raw, i, [|l|], l + rest);
    AtConcat(raw, i + 1, l, rest);
    AtByte(raw, i, |l|);
    AtIsSlice(raw, i + 1, l);
  }

  lemma FirstLabelFirst(labels: seq<bytes>)
    requires labels != [] && |labels[0]| < 256
    ensures LabelBytes(labels) + [0] == [|labels[0]|] + (labels[0] + (LabelBytes(labels[1..]) + [0]))
  {
    hide LabelBytes;
    var head, l, tail := [|labels[0]| % 256], labels[0], LabelBytes(labels[1..]);
    assert LabelBytes(labels) == head + l + tail by { LabelsUnfold(labels); }
    assert head == [|l|];
    assert head + l + tail + [0] == head + (l + (tail + [0]));
  }

  lemma LabelsUnfold(labels: seq<bytes>)
    requires labels != []
    ensures LabelBytes(labels) == [|labels[0]| % 256] + labels[0] + LabelBytes(labels[1..])
  {
  }

  lemma AtIsSlice(raw: bytes, i: nat, x: bytes)
    requires At(raw, i, x)
    ensures i + |x| <= |raw| && raw[i..i + |x|] == x
  {
  }

  lemma AtByte(raw: bytes, i: nat, b: byte)
    requires At(raw, i, [b])
    ensures i < |raw| && raw[i] == b
  {
    assert raw[i] == raw[i..i + 1][0];
  }

  predicate PlainLabels(labels: seq<bytes>) {
    forall l :: l in labels ==> 1 <= |l| <= 63
  }

  datatype Owner = Pointer(hi: byte, lo: byte) | Labels(labels: seq<bytes>)

  predicate OwnerOk(o: Owner) {
    match o case Pointer(hi, _) => hi >= 0xC0 case Labels(ls) => PlainLabels(ls)
  }

  function OwnerBytes(o: Owner): bytes
    requires OwnerOk(o)
  {
    match o case Pointer(hi, lo) => [hi, lo] case Labels(ls) => LabelBytes(ls) + [0]
  }

  // ---- resource records and messages (sections 4.1.1 and 4.1.3) ----

  datatype Record = Record(owner: Owner, rrtype: nat, class_: bytes, ttl: bytes, rdata: bytes)

  predicate RecordOk(r: Record) {
    OwnerOk(r.owner) && r.rrtype < 0x1_0000 && |r.class_| == 2 && |r.ttl| == 4 && |r.rdata| < 0x1_0000
  }

  function RecordBytes(r: Record): bytes
    requires RecordOk(r)
  {
    OwnerBytes(r.owner) + (WordBytes(r.rrtype) + (r.class_ + (r.ttl + (WordBytes(|r.rdata|) + r.rdata))))
  }

  function RecordsBytes(rs: seq<Record>): bytes
    requires forall r :: r in rs ==> RecordOk(r)
  {
    if rs == [] then [] else RecordBytes(rs[0]) + RecordsBytes(rs[1..])
  }

  // id and flags and question count; then the answer count; then the two other counts.
  datatype Message = Message(head: bytes, counts: bytes, question: seq<bytes>, qtail: bytes, answers: seq<Record>,
    rest: bytes)

  predicate MessageOk(m: Message) {
    && |m.head| == 6 && |m.counts| == 4 && |m.qtail| == 4
    && PlainLabels(m.question)
    && |m.answers| < 0x1_0000 && forall r :: r in m.answers ==> RecordOk(r)
  }

  function MessageBytes(m: Message): bytes
    requires MessageOk(m)
  {
    m.head + (WordBytes(|m.answers|)
      + (m.counts + (LabelBytes(m.question) + ([0] + (m.qtail + (RecordsBytes(m.answers) + m.rest))))))
  }

  // The addresses a message carries: the data of its type-A records, in order.
  function Addresses(rs: seq<Record>): seq<bytes> {
    if rs == [] then [] else AddressOf(rs[0]) + Addresses(rs[1..])
  }

  function AddressOf(r: Record): seq<bytes> {
    if r.rrtype == 1 && |r.rdata| == 4 then [r.rdata] else []
  }
}
