/** IPv4 blocks: text, masks and address containment, as net.ParseCIDR and net.IPNet give them. */
module Cidr {
  import opened Text

  const ADDRESS_SPACE: nat := 0x1_0000_0000

  function Pow2(n: nat): (p: nat)
    ensures p > 0
  {
    if n == 0 then 1 else 2 * Pow2(n - 1)
  }

  lemma {:induction false} Pow2Add(m: nat, n: nat)
    ensures Pow2(m + n) == Pow2(m) * Pow2(n)
  {
    if m > 0 {
      Pow2Add(m - 1, n);
      calc {
        Pow2(m + n);
        2 * Pow2(m + n - 1);
        2 * (Pow2(m - 1) * Pow2(n));
        2 * Pow2(m - 1) * Pow2(n);
      }
    }
  }

  lemma {:induction false} Pow2Monotone(m: nat, n: nat)
    requires m <= n
    ensures Pow2(m) <= Pow2(n)
  {
    if m < n {
      Pow2Monotone(m, n - 1);
    }
  }

  // A network: its masked address and its prefix length.
  datatype Block = Block(base: nat, ones: nat)

  function Size(ones: nat): (size: nat)
    requires ones <= 32
    ensures size > 0
  {
    Pow2(32 - ones)
  }

  ghost predicate Wf(b: Block) {
    && b.ones <= 32
    && b.base % Size(b.ones) == 0
    && b.base + Size(b.ones) <= ADDRESS_SPACE
  }

  function FloorTo(ip: nat, d: nat): nat
    requires d > 0
  {
    ip - ip % d
  }

  // ip.Mask(mask): the address with its host bits cleared.
  function Mask(ip: nat, ones: nat): nat
    requires ones <= 32
  {
    FloorTo(ip, Size(ones))
  }

  // net.IPNet.Contains compares masked addresses.
  predicate Contains(b: Block, ip: nat)
    requires b.ones <= 32
  {
    Mask(ip, b.ones) == b.base
  }

  lemma MulMonotone(d: nat, a: int, b: int)
    requires a <= b
    ensures d * a <= d * b
  {
    assert d * (b - a) >= 0;
    assert d * (b - a) == d * b - d * a;
  }

  lemma QuotientUnique(d: nat, x: nat, q: nat, r: nat)
    requires r < d && x == d * q + r
    ensures x / d == q && x % d == r
  {
    var q' := x / d;
    if q' < q {
      MulMonotone(d, q' + 1, q);
      assert false;
    } else if q < q' {
      MulMonotone(d, q + 1, q');
      assert false;
    }
  }

  lemma AlignedWindow(d: nat, base: nat, ip: nat)
    requires d > 0 && base % d == 0
    ensures ip - ip % d == base <==> base <= ip < base + d
  {
    if base <= ip < base + d {
      QuotientUnique(d, ip, base / d, ip - base);
    }
  }

  // The mask test is membership in an interval of addresses.
  lemma ContainsIsInterval(b: Block, ip: nat)
    requires Wf(b)
    ensures Contains(b, ip) <==> b.base <= ip < b.base + Size(b.ones)
  {
    AlignedWindow(Size(b.ones), b.base, ip);
  }

  ghost predicate Disjoint(a: Block, b: Block)
    requires a.ones <= 32 && b.ones <= 32
  {
    forall ip: nat :: !(Contains(a, ip) && Contains(b, ip))
  }

  // Testing only the two base addresses decides whether two blocks meet anywhere.
  lemma BaseTestsDecideOverlap(a: Block, b: Block)
    requires Wf(a) && Wf(b)
    ensures Disjoint(a, b) <==> !Contains(a, b.base) && !Contains(b, a.base)
  {
    ContainsIsInterval(a, a.base);
    ContainsIsInterval(b, b.base);
    ContainsIsInterval(a, b.base);
    ContainsIsInterval(b, a.base);
    forall ip: nat | Contains(a, ip) && Contains(b, ip)
      ensures Contains(a, b.base) || Contains(b, a.base)
    {
      ContainsIsInterval(a, ip);
      ContainsIsInterval(b, ip);
    }
  }

  // ---- text ----

  function Dec(n: nat): (s: string)
    ensures |s| > 0
    ensures forall i :: 0 <= i < |s| ==> '0' <= s[i] <= '9'
  {
    var digit := ['0' + (n % 10) as char];
    if n < 10 then digit else Dec(n / 10) + digit
  }

  predicate AllDigits(s: string) {
    |s| > 0 && forall i :: 0 <= i < |s| ==> '0' <= s[i] <= '9'
  }

  function DecValue(s: string): nat
    requires forall i :: 0 <= i < |s| ==> '0' <= s[i] <= '9'
  {
    if s == "" then 0
    else 10 * DecValue(s[..|s| - 1]) + (s[|s| - 1] as int - '0' as int)
  }

  lemma {:induction false} DecRoundTrip(n: nat)
    ensures DecValue(Dec(n)) == n
    ensures n > 0 ==> Dec(n)[0] != '0'
    ensures n < 10 ==> |Dec(n)| == 1
  {
    if n >= 10 {
      DecRoundTrip(n / 10);
      var s := Dec(n);
      assert s[..|s| - 1] == Dec(n / 10);
    } else {
      assert Dec(n)[..0] == "";
    }
  }

  // A dotted-quad field: digits, no leading zero, at most 255.
  function ParseOctet(s: string): Option<nat> {
    if AllDigits(s) && (|s| == 1 || s[0] != '0') && DecValue(s) <= 255 then Some(DecValue(s)) else None
  }

  function ParseAddress(s: string): Option<nat> {
    ParseFields(Split(s, '.'))
  }

  function ParseFields(f: seq<string>): Option<nat> {
    if |f| != 4 then None
    else
      var a, b, c, d := ParseOctet(f[0]), ParseOctet(f[1]), ParseOctet(f[2]), ParseOctet(f[3]);
      if a.Some? && b.Some? && c.Some? && d.Some?
      then Some(a.value * 0x100_0000 + b.value * 0x1_0000 + c.value * 0x100 + d.value)
      else None
  }

  // net.ParseCIDR on IPv4 text; any other text, IPv6 included, is None. The result is the masked network.
  function ParseCIDR(s: string): Option<Block> {
    var f := Split(s, '/');
    if |f| != 2 || !AllDigits(f[1]) || DecValue(f[1]) > 32 then None
    else
      match ParseAddress(f[0])
      case Some(ip) => Some(Block(Mask(ip, DecValue(f[1])), DecValue(f[1])))
      case None => None
  }

  lemma {:induction false} Pow2Is32()
    ensures Pow2(32) == ADDRESS_SPACE
  {
    Pow2Add(16, 16);
    Pow2Add(8, 8);
    assert Pow2(4) == 16;
    Pow2Add(4, 4);
  }

  // An aligned window that starts below a multiple of its size ends at or before it.
  lemma WindowFits(d: nat, q: nat, p: nat, ip: nat)
    requires ip < p * d && d * q <= ip
    ensures d * q + d <= p * d
  {
    if q >= p {
      MulMonotone(d, p, q);
      assert false;
    }
    MulMonotone(d, q + 1, p);
  }

  lemma SizeDividesSpace(ones: nat)
    requires ones <= 32
    ensures Pow2(ones) * Size(ones) == ADDRESS_SPACE
  {
    Pow2Add(ones, 32 - ones);
    Pow2Is32();
  }

  lemma MaskFits(d: nat, p: nat, ip: nat)
    requires d > 0 && ip < p * d
    ensures (ip - ip % d) % d == 0
    ensures ip - ip % d + d <= p * d
  {
    var q := ip / d;
    assert ip == d * q + ip % d;
    QuotientUnique(d, d * q, q, 0);
    WindowFits(d, q, p, ip);
  }

  // Masking keeps the address in the network it names, and the network inside the address space.
  lemma MaskIsWf(ip: nat, ones: nat)
    requires ip < ADDRESS_SPACE && ones <= 32
    ensures Wf(Block(Mask(ip, ones), ones))
    ensures Contains(Block(Mask(ip, ones), ones), ip)
  {
    SizeDividesSpace(ones);
    MaskFits(Size(ones), Pow2(ones), ip);
  }

  lemma ParsedIsWf(s: string)
    ensures ParseCIDR(s).Some? ==> Wf(ParseCIDR(s).value)
  {
    var f := Split(s, '/');
    if ParseCIDR(s).Some? {
      var ip := ParseAddress(f[0]).value;
      assert ip < ADDRESS_SPACE;
      MaskIsWf(ip, DecValue(f[1]));
    }
  }

  // net.IPNet.String.
  function Format(b: Block): string {
    Join(Quad(b.base), '.') + "/" + Dec(b.ones)
  }

  lemma ParsedOctet(n: nat)
    requires n <= 255
    ensures ParseOctet(Dec(n)) == Some(n)
  {
    DecRoundTrip(n);
  }

  lemma DecLacks(n: nat, c: char)
    requires !('0' <= c <= '9')
    ensures c !in Dec(n)
  {
  }

  function Quad(b: nat): seq<string> {
    [Dec(b / 0x100_0000), Dec(b / 0x1_0000 % 0x100), Dec(b / 0x100 % 0x100), Dec(b % 0x100)]
  }

  lemma QuadValue(b: nat)
    requires b < ADDRESS_SPACE
    ensures b == b / 0x100_0000 * 0x100_0000 + b / 0x1_0000 % 0x100 * 0x1_0000 + b / 0x100 % 0x100 * 0x100 + b % 0x100
  {
    assert b / 0x1_0000 / 0x100 == b / 0x100_0000;
    assert b / 0x100 / 0x100 == b / 0x1_0000;
  }

  lemma ParsedQuad(b: nat)
    requires b < ADDRESS_SPACE
    ensures ParseFields(Quad(b)) == Some(b)
  {
    QuadValue(b);
    ParsedFields(Quad(b), b / 0x100_0000, b / 0x1_0000 % 0x100, b / 0x100 % 0x100, b % 0x100);
  }

  lemma ParsedFields(f: seq<string>, o1: nat, o2: nat, o3: nat, o4: nat)
    requires o1 <= 255 && o2 <= 255 && o3 <= 255 && o4 <= 255
    requires |f| == 4 && f[0] == Dec(o1) && f[1] == Dec(o2) && f[2] == Dec(o3) && f[3] == Dec(o4)
    ensures ParseFields(f) == Some(o1 * 0x100_0000 + o2 * 0x1_0000 + o3 * 0x100 + o4)
  {
    ParsedOctet(o1);
    ParsedOctet(o2);
    ParsedOctet(o3);
    ParsedOctet(o4);
  }

  lemma QuadLacks(b: nat, c: char)
    requires !('0' <= c <= '9')
    ensures forall p :: p in Quad(b) ==> c !in p
  {
    DecLacks(b / 0x100_0000, c);
    DecLacks(b / 0x1_0000 % 0x100, c);
    DecLacks(b / 0x100 % 0x100, c);
    DecLacks(b % 0x100, c);
  }

  // Printing a network and parsing it back gives the same network.
  lemma ParseOfFormat(b: Block)
    requires Wf(b)
    ensures ParseCIDR(Format(b)) == Some(b)
  {
    hide Dec, DecValue, Split, Join, ParseFields, Size;
    var quad := Quad(b.base);
    QuadLacks(b.base, '.');
    QuadLacks(b.base, '/');
    SplitOfJoin(quad, '.');
    JoinKeepsOut(quad, '.', '/');
    ParsedQuad(b.base);
    SplitMask(Join(quad, '.'), b.ones);
  }

  lemma SplitMask(addr: string, ones: nat)
    requires '/' !in addr
    ensures Split(addr + "/" + Dec(ones), '/') == [addr, Dec(ones)]
    ensures DecValue(Dec(ones)) == ones
  {
    DecLacks(ones, '/');
    DecRoundTrip(ones);
    assert addr + "/" + Dec(ones) == addr + ['/'] + Dec(ones);
    SplitOfFirst(addr, Dec(ones), '/');
    SplitOfPart(Dec(ones), '/');
  }

  lemma {:induction false} JoinKeepsOut(parts: seq<string>, sep: char, c: char)
    requires |parts| > 0 && c != sep
    requires forall p :: p in parts ==> c !in p
    ensures c !in Join(parts, sep)
  {
    if |parts| > 1 {
      JoinKeepsOut(parts[1..], sep, c);
    }
  }
}
