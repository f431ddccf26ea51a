/**
 The IPv4 address generator (api/ippool/generater.go): a 32-bit counter that wraps
 around, masked to the host bits and joined byte by byte to the network address.
 */
module IpGenerator {
  import opened Bits
  import opened Text

  type byte = x: int | 0 <= x < 256

  datatype IPv4 = IPv4(b0: byte, b1: byte, b2: byte, b3: byte)

  const WORD: nat := 0x1_0000_0000

  const MASK24: nat := 0xFF00_0000
  const MASK16: nat := 0x00FF_0000
  const MASK8: nat := 0x0000_FF00
  const MASK0: nat := 0x0000_00FF

  /** The address as one big-endian number. */
  function ToWord(ip: IPv4): (w: nat)
    ensures w < WORD
  {
    ((ip.b0 * 256 + ip.b1) * 256 + ip.b2) * 256 + ip.b3
  }

  /** An IPv4 network as CIDR parsing yields it: host bits clear. */
  datatype Subnet = Subnet(net: IPv4, prefix: nat) {
    predicate Valid() {
      prefix <= 32 && Low(ToWord(net), 32 - prefix) == 0
    }

    function HostBits(): nat
      requires prefix <= 32
    {
      32 - prefix
    }

    function Size(): nat
      requires prefix <= 32
    {
      Pow2(HostBits())
    }

    /** The word of ones over the host bits. */
    function MaskBits(): nat {
      Shr(0xFFFF_FFFF, prefix)
    }

    predicate Contains(ip: IPv4)
      requires prefix <= 32
    {
      ToWord(net) <= ToWord(ip) < ToWord(net) + Size()
    }
  }

  /** Conversion to a byte drops the high bits. */
  function ToByte(x: nat): byte {
    x % 256
  }

  /** The address NextIP assembles from the masked counter. */
  function Assemble(net: IPv4, bits: nat): IPv4 {
    IPv4(
      ToByte(Or(net.b0, And(bits, MASK24) / 0x100_0000)),
      ToByte(Or(net.b1, And(bits, MASK16) / 0x1_0000)),
      ToByte(Or(net.b2, And(bits, MASK8) / 0x100)),
      ToByte(Or(net.b3, And(bits, MASK0))))
  }

  /** The address drawn when the counter shows `c`. */
  function AddressAt(s: Subnet, c: nat): IPv4 {
    Assemble(s.net, And(c, s.MaskBits()))
  }

  function BroadcastIP(s: Subnet): IPv4 {
    var mask := s.MaskBits();
    IPv4(
      ToByte(Or(s.net.b0, mask / 0x100_0000)),
      ToByte(Or(s.net.b1, mask / 0x1_0000)),
      ToByte(Or(s.net.b2, mask / 0x100)),
      ToByte(Or(s.net.b3, mask)))
  }

  lemma WordSize()
    ensures Pow2(32) == WORD
  {
    assert Pow2(8) == 0x100;
    assert Pow2(16) == 0x1_0000;
    assert Pow2(24) == 0x100_0000;
  }

  // ----- Bytes and words

  function ByteAt(w: nat, k: nat): (b: byte) {
    assert Pow2(8) == 256;
    Low(Shr(w, k), 8)
  }

  function Bytes(w: nat): IPv4 {
    IPv4(ByteAt(w, 24), ByteAt(w, 16), ByteAt(w, 8), ByteAt(w, 0))
  }

  lemma SplitByte(x: nat)
    ensures x == 256 * Shr(x, 8) + Low(x, 8)
  {
    HighAndLow(x, 8);
    ShlIsProduct(Shr(x, 8), 8);
    assert Pow2(8) == 256;
  }

  /** The constant shifts are divisions. */
  lemma ByteShifts(x: nat)
    ensures Shr(x, 24) == x / 0x100_0000 && Shr(x, 16) == x / 0x1_0000
    ensures Shr(x, 8) == x / 0x100 && Shr(x, 0) == x
  {
    assert Pow2(8) == 256;
    SplitByte(x);
    SplitByte(Shr(x, 8));
    SplitByte(Shr(x, 16));
    ShrShr(x, 8, 8);
    ShrShr(x, 16, 8);
  }

  lemma JoinByte(a: nat, b: byte)
    ensures Shr(256 * a + b, 8) == a && Low(256 * a + b, 8) == b
  {
    SplitByte(256 * a + b);
    assert Pow2(8) == 256;
  }

  /** Taking a word apart and putting it together again. */
  lemma WordOfBytes(w: nat)
    requires w < WORD
    ensures ToWord(Bytes(w)) == w
  {
    ShrShr(w, 8, 8);
    ShrShr(w, 16, 8);
    ShrShr(w, 24, 8);
    SplitByte(w);
    SplitByte(Shr(w, 8));
    SplitByte(Shr(w, 16));
    SplitByte(Shr(w, 24));
    assert Shr(w, 0) == w;
    TopByte(w);
  }

  lemma TopByte(w: nat)
    requires w < WORD
    ensures Shr(w, 32) == 0
  {
    WordSize();
    LowFits(w, 32);
  }

  lemma BytesOfWord(ip: IPv4)
    ensures Bytes(ToWord(ip)) == ip
  {
    var w := ToWord(ip);
    ShrShr(w, 8, 8);
    ShrShr(w, 16, 8);
    JoinByte((ip.b0 * 256 + ip.b1) * 256 + ip.b2, ip.b3);
    JoinByte(ip.b0 * 256 + ip.b1, ip.b2);
    JoinByte(ip.b0, ip.b1);
    assert Pow2(8) == 256;
    LowFits(ip.b0, 8);
    assert Shr(w, 0) == w;
  }

  /** Two addresses with the same number are the same address. */
  lemma WordInjective(a: IPv4, b: IPv4)
    requires ToWord(a) == ToWord(b)
    ensures a == b
  {
    BytesOfWord(a);
    BytesOfWord(b);
  }

  /** One byte of the disjunction of two words. */
  lemma OrOfByte(w: nat, m: nat, k: nat)
    ensures ToByte(Or(ByteAt(w, k), Shr(m, k))) == ByteAt(Or(w, m), k)
    ensures ToByte(Or(ByteAt(w, k), ByteAt(m, k))) == ByteAt(Or(w, m), k)
  {
    assert Pow2(8) == 256;
    var a, b := Shr(w, k), Shr(m, k);
    OrHigh(w, m, k);
    OrLow(a, b, 8);
    OrLow(ByteAt(w, k), b, 8);
    LowFits(ByteAt(w, k), 8);
    LowIsRemainder(Or(ByteAt(w, k), b), 8);
    LowFits(ByteAt(Or(w, m), k), 8);
    LowIsRemainder(ByteAt(Or(w, m), k), 8);
  }

  lemma MaskConstants()
    ensures MASK24 == Shl(0xFF, 24) && MASK16 == Shl(0xFF, 16)
    ensures MASK8 == Shl(0xFF, 8) && MASK0 == Shl(0xFF, 0)
  {
    assert Shl(0xFF, 8) == 0xFF00;
    assert Shl(0xFF, 16) == 0xFF_0000;
    assert Shl(0xFF, 24) == 0xFF00_0000;
  }

  /** Assembling byte by byte is the disjunction of the whole words. */
  lemma AssembleIsOr(net: IPv4, m: nat)
    ensures Assemble(net, m) == Bytes(Or(ToWord(net), m))
  {
    MaskConstants();
    BytesOfWord(net);
    ByteShifts(And(m, MASK24));
    ByteShifts(And(m, MASK16));
    ByteShifts(And(m, MASK8));
    ByteShifts(And(m, MASK0));
    AssembledByte(net, m, 24);
    AssembledByte(net, m, 16);
    AssembledByte(net, m, 8);
    AssembledByte(net, m, 0);
  }

  lemma AssembledByte(net: IPv4, m: nat, k: nat)
    ensures ToByte(Or(ByteAt(ToWord(net), k), Shr(And(m, Shl(0xFF, k)), k))) == ByteAt(Or(ToWord(net), m), k)
  {
    ByteOf(m, k);
    OrOfByte(ToWord(net), m, k);
  }

  lemma BroadcastIsOr(s: Subnet)
    ensures BroadcastIP(s) == Bytes(Or(ToWord(s.net), s.MaskBits()))
  {
    BytesOfWord(s.net);
    ByteShifts(s.MaskBits());
    OrOfByte(ToWord(s.net), s.MaskBits(), 24);
    OrOfByte(ToWord(s.net), s.MaskBits(), 16);
    OrOfByte(ToWord(s.net), s.MaskBits(), 8);
    OrOfByte(ToWord(s.net), s.MaskBits(), 0);
  }

  lemma {:induction false} OnesShifted(n: nat, j: nat)
    requires j <= n
    ensures Shr(Pow2(n) - 1, j) == Pow2(n - j) - 1
  {
    if j > 0 { OnesShifted(n - 1, j - 1); }
  }

  lemma MaskIsOnes(s: Subnet)
    requires s.prefix <= 32
    ensures s.MaskBits() == s.Size() - 1
  {
    WordSize();
    OnesShifted(32, s.prefix);
  }

  /** Joining host bits to a network address adds them. */
  lemma HostJoined(s: Subnet, m: nat)
    requires s.Valid() && m < s.Size()
    ensures Or(ToWord(s.net), m) == ToWord(s.net) + m < WORD
  {
    var h := s.HostBits();
    HighAndLow(ToWord(s.net), h);
    OrDisjoint(Shr(ToWord(s.net), h), m, h);
    RoomForHost(s);
  }

  /** The whole subnet lies below 2^32. */
  lemma RoomForHost(s: Subnet)
    requires s.Valid()
    ensures ToWord(s.net) + s.Size() <= WORD
  {
    var h, w := s.HostBits(), ToWord(s.net);
    WordSize();
    HighAndLow(w, h);
    HighAndLow(WORD, h);
    ShrOfPow2(32, h);
    if Shr(w, h) >= Shr(WORD, h) {
      ShlMonotone(Shr(WORD, h), Shr(w, h), h);
    } else {
      ShlMonotone(Shr(w, h) + 1, Shr(WORD, h), h);
      ShlSuccessor(Shr(w, h), h);
    }
  }

  lemma {:induction false} ShrOfPow2(n: nat, k: nat)
    requires k <= n
    ensures Low(Pow2(n), k) == 0 && Shr(Pow2(n), k) == Pow2(n - k)
  {
    if k > 0 { ShrOfPow2(n - 1, k - 1); }
  }

  lemma {:induction false} ShlMonotone(a: nat, b: nat, k: nat)
    requires a <= b
    ensures Shl(a, k) <= Shl(b, k)
  {
    if k > 0 { ShlMonotone(a, b, k - 1); }
  }

  // ----- What the generator draws

  /** Each drawn address is the network address plus the counter modulo the subnet size. */
  lemma DrawnAddress(s: Subnet, c: nat)
    requires s.Valid()
    ensures ToWord(AddressAt(s, c)) == ToWord(s.net) + c % s.Size()
    ensures ToWord(AddressAt(s, c)) == ToWord(s.net) + Low(c, s.HostBits())
  {
    var h := s.HostBits();
    MaskIsOnes(s);
    AndOnes(c, h);
    LowIsRemainder(c, h);
    AssembleIsOr(s.net, Low(c, h));
    HostJoined(s, Low(c, h));
    WordOfBytes(Or(ToWord(s.net), Low(c, h)));
  }

  /** The broadcast address is the last address of the subnet. */
  lemma BroadcastAddress(s: Subnet)
    requires s.Valid()
    ensures ToWord(BroadcastIP(s)) == ToWord(s.net) + s.Size() - 1
  {
    MaskIsOnes(s);
    BroadcastIsOr(s);
    HostJoined(s, s.Size() - 1);
    WordOfBytes(Or(ToWord(s.net), s.Size() - 1));
  }

  /** Every drawn address belongs to the subnet. */
  lemma DrawnInSubnet(s: Subnet, c: nat)
    requires s.Valid()
    ensures s.Contains(AddressAt(s, c))
  {
    DrawnAddress(s, c);
  }

  /** The counter's wrap at 2^32 does not show in the addresses. */
  lemma WrapInvisible(s: Subnet, c: nat)
    requires s.Valid()
    ensures AddressAt(s, Wrapped(c)) == AddressAt(s, c)
  {
    var h := s.HostBits();
    WordSize();
    LowIsRemainder(c, 32);
    LowOfLow(c, h, 32);
    DrawnAddress(s, c);
    DrawnAddress(s, Wrapped(c));
    WordInjective(AddressAt(s, Wrapped(c)), AddressAt(s, c));
  }

  /** Two draws at most a full cycle apart coincide only at distance 0 or at the full cycle. */
  lemma DrawsDistinct(s: Subnet, c: nat, j: nat)
    requires s.Valid() && j <= s.Size()
    ensures AddressAt(s, c + j) == AddressAt(s, c) <==> j == 0 || j == s.Size()
  {
    hide AddressAt;
    LowAdvance(c, j, s.HostBits());
    DrawnAddress(s, c);
    DrawnAddress(s, c + j);
    if ToWord(AddressAt(s, c + j)) == ToWord(AddressAt(s, c)) {
      WordInjective(AddressAt(s, c + j), AddressAt(s, c));
    }
  }

  /** How many draws after counter value `c` the address comes up. */
  function Distance(s: Subnet, c: nat, ip: IPv4): (k: nat)
    requires s.Valid() && s.Contains(ip)
    ensures k < s.Size()
  {
    var r := ToWord(ip) - ToWord(s.net) - Low(c, s.HostBits());
    if r >= 0 then r else r + s.Size()
  }

  /** Any `Size` consecutive draws list each subnet address exactly once, also across the wrap. */
  lemma DrawsCoverSubnet(s: Subnet, c: nat, ip: IPv4, k: nat)
    requires s.Valid() && s.Contains(ip) && k < s.Size()
    ensures AddressAt(s, Wrapped(c + k)) == ip <==> k == Distance(s, c, ip)
  {
    hide AddressAt, Wrapped, ToWord, Low, Pow2;
    WrapInvisible(s, c + k);
    LowAdvance(c, k, s.HostBits());
    DrawnAddress(s, c + k);
    if ToWord(AddressAt(s, c + k)) == ToWord(ip) {
      WordInjective(AddressAt(s, c + k), ip);
    }
  }

  // ----- The dotted rendering

  /** The dotted rendering used as key in the pool. */
  function Dotted(ip: IPv4): string {
    Join([Decimal(ip.b0), Decimal(ip.b1), Decimal(ip.b2), Decimal(ip.b3)], '.')
  }

  predicate IsOctet(s: string) {
    Canonical(s) && DecimalValue(s) < 256
  }

  /** Reading a dotted quad: four canonical decimal numbers below 256. */
  function ParseDotted(s: string): Option<IPv4> {
    var p := Split(s, '.');
    if |p| == 4 && IsOctet(p[0]) && IsOctet(p[1]) && IsOctet(p[2]) && IsOctet(p[3]) then
      Some(IPv4(DecimalValue(p[0]), DecimalValue(p[1]), DecimalValue(p[2]), DecimalValue(p[3])))
    else None
  }

  lemma OctetRoundTrip(b: byte)
    ensures IsOctet(Decimal(b)) && DecimalValue(Decimal(b)) == b && '.' !in Decimal(b)
  {
    DecimalRoundTrip(b);
    CanonicalIsRendering(Decimal(b));
  }

  lemma ParseOfDotted(ip: IPv4)
    ensures ParseDotted(Dotted(ip)) == Some(ip)
  {
    OctetRoundTrip(ip.b0);
    OctetRoundTrip(ip.b1);
    OctetRoundTrip(ip.b2);
    OctetRoundTrip(ip.b3);
    SplitOfJoin([Decimal(ip.b0), Decimal(ip.b1), Decimal(ip.b2), Decimal(ip.b3)], '.');
  }

  /** Reading and rendering are inverse: a string reads as `ip` exactly when it is its rendering. */
  lemma DottedRoundTrip(s: string, ip: IPv4)
    ensures ParseDotted(s) == Some(ip) <==> s == Dotted(ip)
  {
    ParseOfDotted(ip);
    if ParseDotted(s) == Some(ip) {
      var p := Split(s, '.');
      JoinOfSplit(s, '.');
      CanonicalIsRendering(p[0]);
      CanonicalIsRendering(p[1]);
      CanonicalIsRendering(p[2]);
      CanonicalIsRendering(p[3]);
      assert p == [Decimal(ip.b0), Decimal(ip.b1), Decimal(ip.b2), Decimal(ip.b3)];
    }
  }

  /** Different addresses have different keys. */
  lemma DottedInjective(a: IPv4, b: IPv4)
    requires Dotted(a) == Dotted(b)
    ensures a == b
  {
    DottedRoundTrip(Dotted(a), a);
    DottedRoundTrip(Dotted(a), b);
  }

  /** The bytes stand in order, in decimal, with dots between them. */
  lemma DottedShape(a: byte, b: byte, c: byte, d: byte)
    ensures Dotted(IPv4(a, b, c, d)) == Decimal(a) + "." + Decimal(b) + "." + Decimal(c) + "." + Decimal(d)
  {
    hide Decimal, Join;
    JoinFour(Decimal(a), Decimal(b), Decimal(c), Decimal(d));
  }

  lemma JoinFour(a: string, b: string, c: string, d: string)
    ensures Join([a, b, c, d], '.') == a + "." + b + "." + c + "." + d
  {
    var s3, s2, s1 := [d], [c, d], [b, c, d];
    assert s2[1..] == s3 && s1[1..] == s2 && [a, b, c, d][1..] == s1;
    assert Join(s3, '.') == d;
    assert Join(s2, '.') == c + "." + d;
    assert Join(s1, '.') == b + "." + (c + "." + d);
    assert Join([a, b, c, d], '.') == a + "." + (b + "." + (c + "." + d));
  }

  // ----- The generator object

  class IPGenerater {
    const subnet: Subnet
    const uintMaskBits: nat
    var counter: nat

    ghost predicate Valid()
      reads this
    {
      subnet.Valid() && uintMaskBits == subnet.MaskBits() && counter < WORD
    }

    constructor (subnet: Subnet)
      requires subnet.Valid()
      ensures Valid() && this.subnet == subnet && counter == 0
    {
      this.subnet := subnet;
      uintMaskBits := Shr(0xFFFF_FFFF, subnet.prefix);
      counter := 0;
    }

    /** Atomic compare-and-swap on the counter. */
    method CompareAndSwap(expected: nat, next: nat) returns (swapped: bool)
      modifies this`counter
      ensures swapped == (old(counter) == expected)
      ensures counter == if swapped then next else old(counter)
    {
      swapped := counter == expected;
      if swapped { counter := next; }
    }

    /** Other callers move the counter on by `n` draws. */
    method DrawnByOthers(n: nat)
      modifies this`counter
      ensures counter == Wrapped(old(counter) + n)
    {
      counter := (counter + n) % WORD;
    }

    /**
     The compare-and-swap loop. `others` lists how often other callers draw between
     each read of the counter and the swap that follows it.
     */
    method TakeCounter(others: seq<nat>) returns (c: nat, ghost taken: nat)
      requires Valid()
      modifies this`counter
      ensures taken == Interference(others)
      ensures c == Wrapped(old(counter) + taken) && counter == Wrapped(c + 1)
    {
      hide Wrapped, Interference;
      var i, swapped := 0, false;
      c, taken := counter, 0;
      WrappedFits(counter);
      assert others[0..] == others;
      while !swapped
        invariant 0 <= i <= |others| + 1 && (i > |others| ==> swapped)
        invariant !swapped ==> c == counter == Wrapped(old(counter) + taken)
        invariant !swapped ==> Interference(others) == taken + Interference(others[i..])
        invariant swapped ==> c == Wrapped(old(counter) + taken) && counter == Wrapped(c + 1)
        invariant swapped ==> taken == Interference(others)
        decreases |others| + 1 - i
      {
        InterferenceStep(others, i);
        if i < |others| {
          WrappedTwice(old(counter) + taken, others[i]);
          DrawnByOthers(others[i]);
          taken := taken + others[i];
        }
        swapped := CompareAndSwap(c, Wrapped(c + 1));
        if !swapped { c := counter; }
        i := i + 1;
      }
    }

    /** Draws one address. */
    method NextIP(others: seq<nat>) returns (ip: IPv4, ghost taken: nat)
      requires Valid()
      modifies this`counter
      ensures Valid() && counter == Wrapped(old(counter) + taken + 1)
      ensures taken == Interference(others)
      ensures ip == AddressAt(subnet, old(counter) + taken)
    {
      var c;
      c, taken := TakeCounter(others);
      WrappedTwice(old(counter) + taken, 1);
      WrapInvisible(subnet, old(counter) + taken);
      var bits := And(c, uintMaskBits);
      ip := IPv4(
        ToByte(Or(subnet.net.b0, And(bits, MASK24) / 0x100_0000)),
        ToByte(Or(subnet.net.b1, And(bits, MASK16) / 0x1_0000)),
        ToByte(Or(subnet.net.b2, And(bits, MASK8) / 0x100)),
        ToByte(Or(subnet.net.b3, And(bits, MASK0))));
    }
  }

  /** Unsigned 32-bit wrap-around. */
  function Wrapped(n: nat): (r: nat)
    ensures r < WORD
  {
    n % WORD
  }

  lemma WrappedFits(a: nat)
    requires a < WORD
    ensures Wrapped(a) == a
  {
  }

  lemma WrappedTwice(a: nat, b: nat)
    ensures Wrapped(Wrapped(a) + b) == Wrapped(a + b)
    ensures Wrapped(Wrapped(a) + b) == Wrapped(a) <==> b % WORD == 0
  {
  }

  lemma InterferenceStep(others: seq<nat>, i: nat)
    requires i <= |others|
    ensures i == |others| ==> Interference(others[i..]) == 0
    ensures i < |others| ==>
              Interference(others[i..]) ==
              others[i] + if others[i] % WORD == 0 then 0 else Interference(others[i + 1..])
  {
    if i < |others| {
      assert others[i..][1..] == others[i + 1..];
    }
  }

  /** The draws other callers get in before a swap succeeds: it fails while they moved the counter. */
  function Interference(others: seq<nat>): nat {
    if others == [] then 0
    else if others[0] % WORD == 0 then others[0]
    else others[0] + Interference(others[1..])
  }
}
