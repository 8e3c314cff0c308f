/** IPv4 addresses and CIDR networks (section 3.1 of RFC 4632): scripts/macx/nuts. */
module Nuts {
  import opened Common

  // ---- binary numerals ----

  type Bit = b: nat | b < 2
  type Bits = seq<Bit>

  function Pow2(n: nat): (p: nat)
    ensures p > 0
  {
    if n == 0 then 1 else 2 * Pow2(n - 1)
  }

  /** nuts_bin2dec */
  function Value(bits: Bits): nat {
    if bits == [] then 0 else 2 * Value(bits[..|bits| - 1]) + bits[|bits| - 1]
  }

  function Binary(n: nat): (bits: Bits)
    ensures bits != []
  {
    if n < 2 then [n] else Binary(n / 2) + [n % 2]
  }

  function Repeat(b: Bit, n: int): (bits: Bits)
    ensures |bits| == if n < 0 then 0 else n
  {
    seq(if n < 0 then 0 else n, _ => b)
  }

  // printf pads to the width but never cuts
  function Pad(bits: Bits, width: nat): Bits {
    Repeat(0, width - |bits|) + bits
  }

  /** nuts_dec2bin */
  function Dec2Bin(n: nat, width: nat): Bits {
    Pad(Binary(n), width)
  }

  lemma {:induction false} PowAdd(m: nat, n: nat)
    ensures Pow2(m + n) == Pow2(m) * Pow2(n)
  {
    if m > 0 {
      PowAdd(m - 1, n);
      assert Pow2(m + n) == 2 * (Pow2(m - 1) * Pow2(n)) == (2 * Pow2(m - 1)) * Pow2(n);
    }
  }

  lemma PowConstants()
    ensures Pow2(8) == 0x100 && Pow2(16) == 0x1_0000 && Pow2(24) == 0x100_0000 && Pow2(32) == 0x1_0000_0000
  {
    assert Pow2(2) == 4 && Pow2(4) == 16 by {
      PowAdd(2, 2);
    }
    PowAdd(4, 4);
    PowAdd(8, 8);
    PowAdd(16, 8);
    PowAdd(16, 16);
  }

  lemma {:induction false} ValueConcat(p: Bits, q: Bits)
    ensures Value(p + q) == Value(p) * Pow2(|q|) + Value(q)
    decreases |q|
  {
    if q == [] {
      assert p + q == p;
    } else {
      var n := |q| - 1;
      ValueConcat(p, q[..n]);
      assert (p + q)[..|p + q| - 1] == p + q[..n];
      assert 2 * (Value(p) * Pow2(n)) == Value(p) * (2 * Pow2(n));
    }
  }

  lemma {:induction false} ValueBound(p: Bits)
    ensures Value(p) < Pow2(|p|)
  {
    if p != [] {
      ValueBound(p[..|p| - 1]);
    }
  }

  lemma {:induction false} ValueOfRepeat(b: Bit, n: nat)
    ensures Value(Repeat(b, n)) == b * (Pow2(n) - 1)
  {
    if n > 0 {
      ValueOfRepeat(b, n - 1);
      assert Repeat(b, n)[..n - 1] == Repeat(b, n - 1);
    }
  }

  lemma {:induction false} ValueOfBinary(n: nat)
    ensures Value(Binary(n)) == n
  {
    if n >= 2 {
      ValueOfBinary(n / 2);
      assert Binary(n)[..|Binary(n)| - 1] == Binary(n / 2);
    } else {
      assert Binary(n)[..0] == [];
    }
  }

  lemma {:induction false} BinaryLength(n: nat, w: nat)
    requires w > 0
    ensures |Binary(n)| <= w <==> n < Pow2(w)
    decreases w
  {
    if n >= 2 {
      if w == 1 {
        assert Pow2(1) == 2 * Pow2(0);
      } else {
        BinaryLength(n / 2, w - 1);
      }
    } else {
      assert Pow2(w) == 2 * Pow2(w - 1);
    }
  }

  lemma {:induction false} ValueUnique(p: Bits, q: Bits)
    requires |p| == |q| && Value(p) == Value(q)
    ensures p == q
  {
    if p != [] {
      var n := |p| - 1;
      ValueUnique(p[..n], q[..n]);
      assert p == p[..n] + [p[n]] && q == q[..n] + [q[n]];
    }
  }

  /** A padded numeral has the value and, when that fits, the width asked for. */
  lemma Dec2BinValue(n: nat, width: nat)
    requires width > 0
    ensures Value(Dec2Bin(n, width)) == n
    ensures |Dec2Bin(n, width)| == width <==> n < Pow2(width)
  {
    var bits := Binary(n);
    ValueOfBinary(n);
    BinaryLength(n, width);
    ValueConcat(Repeat(0, width - |bits|), bits);
    ValueOfRepeat(0, |Repeat(0, width - |bits|)|);
    if |bits| > width {
      assert Repeat(0, width - |bits|) == [];
    }
  }

  // ---- addresses ----

  type Octet = n: nat | n < 256

  datatype Addr = Addr(a: Octet, b: Octet, c: Octet, d: Octet)

  /** An address with a prefix length, "a.b.c.d/cidr". */
  datatype Network = Network(addr: Addr, cidr: nat)

  function Addr2Bin(x: Addr): Bits {
    Dec2Bin(x.a, 8) + Dec2Bin(x.b, 8) + Dec2Bin(x.c, 8) + Dec2Bin(x.d, 8)
  }

  function Bin2Addr(bits: Bits): Option<Addr> {
    if |bits| != 32 then None
    else
      PowConstants();
      ValueBound(bits[0..8]);
      ValueBound(bits[8..16]);
      ValueBound(bits[16..24]);
      ValueBound(bits[24..32]);
      Some(Addr(Value(bits[0..8]), Value(bits[8..16]), Value(bits[16..24]), Value(bits[24..32])))
  }

  function Addr2Dec(x: Addr): nat {
    Value(Addr2Bin(x))
  }

  function Dec2Addr(n: nat): Option<Addr> {
    Bin2Addr(Dec2Bin(n, 32))
  }

  lemma Addr2DecValue(x: Addr)
    ensures |Addr2Bin(x)| == 32
    ensures Addr2Dec(x) == x.a * 0x100_0000 + x.b * 0x1_0000 + x.c * 0x100 + x.d < 0x1_0000_0000
  {
    hide Dec2Bin, Value, Pow2;
    var a, b, c := Dec2Bin(x.a, 8), Dec2Bin(x.b, 8), Dec2Bin(x.c, 8);
    PowConstants();
    Dec2BinValue(x.a, 8);
    AppendOctet(a, x.b);
    AppendOctet(a + b, x.c);
    AppendOctet(a + b + c, x.d);
  }

  lemma AppendOctet(bits: Bits, n: Octet)
    ensures |Dec2Bin(n, 8)| == 8
    ensures Value(bits + Dec2Bin(n, 8)) == Value(bits) * 0x100 + n
  {
    hide Dec2Bin, Value, Pow2;
    PowConstants();
    Dec2BinValue(n, 8);
    ValueConcat(bits, Dec2Bin(n, 8));
  }

  lemma Bin2AddrOctets(x: Addr)
    ensures Bin2Addr(Addr2Bin(x)) == Some(x)
  {
    PowConstants();
    var a, b, c, d := Dec2Bin(x.a, 8), Dec2Bin(x.b, 8), Dec2Bin(x.c, 8), Dec2Bin(x.d, 8);
    Dec2BinValue(x.a, 8);
    Dec2BinValue(x.b, 8);
    Dec2BinValue(x.c, 8);
    Dec2BinValue(x.d, 8);
    hide Dec2Bin, Value;
    var bits := a + b + c + d;
    assert bits[0..8] == a && bits[8..16] == b && bits[16..24] == c && bits[24..32] == d;
  }

  /** Address to decimal and back. */
  lemma Dec2AddrUndoes(x: Addr)
    ensures Dec2Addr(Addr2Dec(x)) == Some(x)
  {
    Addr2DecValue(x);
    PowConstants();
    Dec2BinValue(Addr2Dec(x), 32);
    ValueUnique(Dec2Bin(Addr2Dec(x), 32), Addr2Bin(x));
    Bin2AddrOctets(x);
  }

  /** Decimal to address and back; the conversion fails exactly beyond 32 bits. */
  lemma Addr2DecUndoes(n: nat)
    ensures Dec2Addr(n).Some? <==> n < 0x1_0000_0000
    ensures Dec2Addr(n).Some? ==> Addr2Dec(Dec2Addr(n).value) == n
  {
    hide Dec2Bin, Value, Pow2, Addr2Bin;
    PowConstants();
    Dec2BinValue(n, 32);
    var bits := Dec2Bin(n, 32);
    if |bits| == 32 {
      Bin2AddrBits(bits);
    }
  }

  // ---- masks ----

  function Cidr2Mask(cidr: nat): Option<Addr> {
    if cidr > 32 then None else Bin2Addr(Repeat(1, cidr) + Repeat(0, 32 - cidr))
  }

  function FirstZero(bits: Bits): (i: nat)
    ensures i <= |bits|
    ensures forall k :: 0 <= k < i ==> bits[k] == 1
    ensures i < |bits| ==> bits[i] == 0
  {
    if bits == [] || bits[0] == 0 then 0 else 1 + FirstZero(bits[1..])
  }

  function Mask2Cidr(mask: Addr): nat {
    FirstZero(Addr2Bin(mask))
  }

  lemma MaskValue(cidr: nat, rest: nat)
    ensures Value(Repeat(1, cidr) + Repeat(0, rest)) == Pow2(cidr + rest) - Pow2(rest)
  {
    ValueConcat(Repeat(1, cidr), Repeat(0, rest));
    ValueOfRepeat(1, cidr);
    ValueOfRepeat(0, rest);
    PowAdd(cidr, rest);
    hide Pow2, Value, Repeat;
    assert (Pow2(cidr) - 1) * Pow2(rest) == Pow2(cidr) * Pow2(rest) - Pow2(rest);
  }

  lemma MaskBits(cidr: nat)
    requires cidr <= 32
    ensures Cidr2Mask(cidr).Some? && Addr2Bin(Cidr2Mask(cidr).value) == Repeat(1, cidr) + Repeat(0, 32 - cidr)
    ensures Addr2Dec(Cidr2Mask(cidr).value) == Pow2(32) - Pow2(32 - cidr)
  {
    hide Pow2, Value, Repeat, Addr2Bin;
    var bits := Repeat(1, cidr) + Repeat(0, 32 - cidr);
    assert Cidr2Mask(cidr) == Bin2Addr(bits);
    hide Bin2Addr, Cidr2Mask;
    Bin2AddrBits(bits);
    MaskValue(cidr, 32 - cidr);
    assert Addr2Dec(Bin2Addr(bits).value) == Value(bits);
  }

  lemma Bin2AddrBits(bits: Bits)
    requires |bits| == 32
    ensures Bin2Addr(bits).Some? && Addr2Bin(Bin2Addr(bits).value) == bits
  {
    var x := Bin2Addr(bits).value;
    PowConstants();
    Dec2BinValue(x.a, 8);
    Dec2BinValue(x.b, 8);
    Dec2BinValue(x.c, 8);
    Dec2BinValue(x.d, 8);
    ValueUnique(Dec2Bin(x.a, 8), bits[0..8]);
    ValueUnique(Dec2Bin(x.b, 8), bits[8..16]);
    ValueUnique(Dec2Bin(x.c, 8), bits[16..24]);
    ValueUnique(Dec2Bin(x.d, 8), bits[24..32]);
    hide Dec2Bin, Value;
    assert bits[0..8] + bits[8..16] + bits[16..24] + bits[24..32] == bits;
  }

  lemma NoWideMask(cidr: nat)
    requires cidr > 32
    ensures Cidr2Mask(cidr).None?
  {
  }

  /** Prefix length to mask and back; beyond 32 there is no mask. */
  lemma Mask2CidrUndoes(cidr: nat)
    ensures Cidr2Mask(cidr).Some? <==> cidr <= 32
    ensures Cidr2Mask(cidr).Some? ==> Mask2Cidr(Cidr2Mask(cidr).value) == cidr
  {
    hide Addr2Bin, FirstZero, Cidr2Mask;
    if cidr > 32 {
      NoWideMask(cidr);
      return;
    }
    MaskBits(cidr);
    FirstZeroOfMask(cidr, 32 - cidr);
  }

  lemma FirstZeroOfMask(cidr: nat, rest: nat)
    ensures FirstZero(Repeat(1, cidr) + Repeat(0, rest)) == cidr
  {
    var bits := Repeat(1, cidr) + Repeat(0, rest);
    assert forall k :: 0 <= k < cidr ==> bits[k] == 1;
    assert rest > 0 ==> bits[cidr] == 0;
  }

  /** A numeral is ones followed by zeros, split at its first zero, exactly when no one
      comes after a zero. */
  lemma OnesFirst(bits: Bits)
    ensures bits == Repeat(1, FirstZero(bits)) + Repeat(0, |bits| - FirstZero(bits)) <==>
            forall i, j :: 0 <= i < j < |bits| && bits[j] == 1 ==> bits[i] == 1
  {
    var z := FirstZero(bits);
    if forall i, j :: 0 <= i < j < |bits| && bits[j] == 1 ==> bits[i] == 1 {
      forall k | z <= k < |bits| ensures bits[k] == 0 {
        assert bits[z] == 0;
      }
    }
  }

  /** Mask to prefix length and back returns the mask exactly when its ones come first. */
  lemma Cidr2MaskUndoes(mask: Addr)
    ensures Cidr2Mask(Mask2Cidr(mask)) == Some(mask) <==>
            forall i, j :: 0 <= i < j < 32 && Addr2Bin(mask)[j] == 1 ==> Addr2Bin(mask)[i] == 1
  {
    hide Addr2Bin, FirstZero, Repeat, Bin2Addr, Addr2Dec, Pow2;
    Addr2DecValue(mask);
    MaskBits(Mask2Cidr(mask));
    OnesFirst(Addr2Bin(mask));
    Bin2AddrOctets(mask);
  }

  // ---- networks ----

  // Bash's & on non-negative integers.
  function And(x: nat, y: nat): nat {
    if x == 0 || y == 0 then 0 else 2 * And(x / 2, y / 2) + (x % 2) * (y % 2)
  }

  function Cidr2Range(cidr: nat): nat
    requires cidr <= 32
  {
    Pow2(32 - cidr)
  }

  function Addr2Net(n: Network): Option<Network> {
    if n.cidr > 32 then None
    else
      match Cidr2Mask(n.cidr)
      case None => None
      case Some(mask) =>
        match Dec2Addr(And(Addr2Dec(n.addr), Addr2Dec(mask)))
        case None => None
        case Some(net) => Some(Network(net, n.cidr))
  }

  /** nuts_addrsum, for adding and subtracting; None when the sum is negative or needs more
      than 32 bits. */
  function AddrSum(x: Addr, n: int): Option<Addr> {
    var sum := Addr2Dec(x) + n;
    if sum < 0 then None else Bin2Addr(Pad(Binary(sum), 32))
  }

  function Net2Bcast(n: Network): Option<Addr> {
    if n.cidr > 32 then None else AddrSum(n.addr, Cidr2Range(n.cidr) - 1)
  }

  lemma AddrSumIs(x: Addr, n: int)
    ensures AddrSum(x, n).Some? <==> 0 <= Addr2Dec(x) + n < 0x1_0000_0000
    ensures AddrSum(x, n).Some? ==> Addr2Dec(AddrSum(x, n).value) == Addr2Dec(x) + n
  {
    if Addr2Dec(x) + n >= 0 {
      Addr2DecUndoes(Addr2Dec(x) + n);
    }
  }

  /** Subtracting undoes adding. */
  lemma AddrSumUndoes(x: Addr, n: int)
    requires AddrSum(x, n).Some?
    ensures AddrSum(AddrSum(x, n).value, -n) == Some(x)
  {
    hide AddrSum;
    var y := AddrSum(x, n).value;
    AddrSumIs(x, n);
    AddrSumIs(y, -n);
    Addr2DecValue(x);
    AddrUnique(AddrSum(y, -n).value, x);
  }

  lemma {:induction false} AndOnes(x: nat, n: nat)
    requires x < Pow2(n)
    ensures And(x, Pow2(n) - 1) == x
  {
    if n > 0 && x > 0 {
      AndOnes(x / 2, n - 1);
      assert (Pow2(n) - 1) / 2 == Pow2(n - 1) - 1 && (Pow2(n) - 1) % 2 == 1;
    }
  }

  lemma {:induction false} AndMask(x: nat, n: nat, k: nat)
    requires x < Pow2(n) && k <= n
    ensures Pow2(k) <= Pow2(n)
    ensures And(x, Pow2(n) - Pow2(k)) == x - x % Pow2(k)
    decreases n
  {
    if k == 0 {
      AndOnes(x, n);
    } else {
      AndMask(x / 2, n - 1, k - 1);
      var m := Pow2(n) - Pow2(k);
      assert m / 2 == Pow2(n - 1) - Pow2(k - 1) && m % 2 == 0;
      DoubleMod(x, Pow2(k - 1));
      assert And(x, m) == 2 * And(x / 2, m / 2) by {
        if x == 0 || m == 0 {
          assert And(x / 2, m / 2) == 0;
        }
      }
    }
  }

  lemma DoubleMod(x: nat, p: nat)
    requires p > 0
    ensures x - x % (2 * p) == 2 * (x / 2 - (x / 2) % p)
  {
    var q, r := x / 2 / p, x / 2 % p;
    assert x / 2 == p * q + r;
    var s := 2 * r + x % 2;
    assert x == 2 * (x / 2) + x % 2;
    assert x == (2 * p) * q + s by {
      assert 2 * (p * q) == (2 * p) * q;
    }
    ModUnique(x, 2 * p, q, s);
  }

  lemma ModUnique(x: int, m: int, q: int, r: int)
    requires m > 0 && 0 <= r < m && x == m * q + r
    ensures x % m == r
  {
    var d := x / m - q;
    assert m * d == r - x % m by {
      assert m * (x / m) - m * q == m * d;
    }
    assert d == 0;
  }

  /** The network of an address is the largest multiple of the block size not above it. */
  lemma Addr2NetAligns(n: Network)
    requires n.cidr <= 32
    ensures Addr2Net(n).Some? && Addr2Net(n).value.cidr == n.cidr
    ensures var net, size := Addr2Dec(Addr2Net(n).value.addr), Cidr2Range(n.cidr);
            net == Addr2Dec(n.addr) - Addr2Dec(n.addr) % size && net % size == 0 && net + size <= 0x1_0000_0000
  {
    hide Addr2Dec, Cidr2Mask, And, Pow2, Dec2Addr;
    PowConstants();
    Addr2DecValue(n.addr);
    MaskBits(n.cidr);
    var x, size := Addr2Dec(n.addr), Cidr2Range(n.cidr);
    AndMask(x, 32, 32 - n.cidr);
    Addr2DecUndoes(x - x % size);
    BlockFits(x, n.cidr);
  }

  lemma BlockFits(x: nat, cidr: nat)
    requires cidr <= 32 && x < 0x1_0000_0000
    ensures var size := Pow2(32 - cidr); (x - x % size) % size == 0 && x - x % size + size <= 0x1_0000_0000
  {
    PowConstants();
    PowAdd(cidr, 32 - cidr);
    hide Pow2;
    BlockOf(x, Pow2(32 - cidr), Pow2(cidr));
  }

  lemma MulMonotone(a: nat, b: int, c: int)
    requires b <= c
    ensures a * b <= a * c
  {
    assert a * c - a * b == a * (c - b);
  }

  lemma MulCancels(a: nat, b: int, c: int)
    requires a * b < a * c
    ensures b < c
  {
    if c <= b {
      MulMonotone(a, c, b);
    }
  }

  // Blocks of one size tile the numbers below a whole number of blocks.
  lemma BlockOf(x: nat, size: nat, blocks: nat)
    requires size > 0 && x < blocks * size
    ensures (x - x % size) % size == 0 && x - x % size + size <= blocks * size
  {
    var q := x / size;
    assert x - x % size == size * q;
    ModUnique(size * q, size, q, 0);
    MulCancels(size, q, blocks);
    MulMonotone(size, q + 1, blocks);
  }

  /** An address and its network share the block that ends at the broadcast address. */
  lemma BcastEndsBlock(n: Network)
    requires n.cidr <= 32
    ensures Addr2Net(n).Some? && Net2Bcast(Addr2Net(n).value).Some?
    ensures var net := Addr2Net(n).value;
            var first, last := Addr2Dec(net.addr), Addr2Dec(Net2Bcast(net).value);
            first <= Addr2Dec(n.addr) <= last == first + Cidr2Range(n.cidr) - 1
  {
    Addr2NetAligns(n);
    var net, size := Addr2Net(n).value, Cidr2Range(n.cidr);
    AddrSumIs(net.addr, size - 1);
    assert 0 <= Addr2Dec(n.addr) % size < size;
  }

  // ---- adjacent networks and supernets ----

  // The address after a network, or None when there is none.
  function After(n: Network): Option<Addr> {
    match Net2Bcast(n)
    case None => None
    case Some(last) => AddrSum(last, 1)
  }

  predicate Adjacent(n1: Network, n2: Network) {
    n1.cidr <= 32 && n2.cidr <= 32 && (After(n1) == Some(n2.addr) || After(n2) == Some(n1.addr))
  }

  /** nuts_super: the network that is printed, or None when the check fails. */
  function Super(n1: Network, n2: Network): Option<Network> {
    if n1 == n2 || n1.cidr > 32 || n2.cidr > 32 then None
    else
      match (Addr2Net(n1), Addr2Net(n2))
      case (Some(net1), Some(net2)) =>
        if net1.cidr != net2.cidr || !Adjacent(net1, net2) || net1.cidr == 0 then None
        else
          var below := Addr2Dec(net1.addr) < Addr2Dec(net2.addr);
          var first := if below then net1.addr else net2.addr;
          var last := Net2Bcast(if below then net2 else net1);
          var supernet := Network(first, net1.cidr - 1);
          if last != Net2Bcast(supernet) then None else Some(supernet)
      case _ => None
  }

  /** The addresses of a network, counted from its address as it stands. */
  predicate In(x: int, n: Network)
    requires n.cidr <= 32
  {
    Addr2Dec(n.addr) <= x < Addr2Dec(n.addr) + Cidr2Range(n.cidr)
  }

  function NetDec(n: Network): nat
    requires n.cidr <= 32
  {
    Addr2NetAligns(n);
    Addr2Dec(Addr2Net(n).value.addr)
  }

  lemma AddrUnique(x: Addr, y: Addr)
    requires Addr2Dec(x) == Addr2Dec(y)
    ensures x == y
  {
    Dec2AddrUndoes(x);
    Dec2AddrUndoes(y);
  }

  lemma AfterIs(n: Network, y: Addr)
    requires n.cidr <= 32
    ensures After(n) == Some(y) <==> Addr2Dec(n.addr) + Cidr2Range(n.cidr) == Addr2Dec(y)
  {
    AddrSumIs(n.addr, Cidr2Range(n.cidr) - 1);
    Addr2DecValue(y);
    if Net2Bcast(n).Some? {
      AddrSumIs(Net2Bcast(n).value, 1);
      if After(n).Some? && Addr2Dec(After(n).value) == Addr2Dec(y) {
        AddrUnique(After(n).value, y);
      }
    }
  }

  /** nuts_super succeeds exactly for two networks of one size, the second starting where the
      first ends; host addresses are first mapped to their networks. */
  lemma SuperIff(n1: Network, n2: Network)
    ensures Super(n1, n2).Some? <==>
            && n1.cidr == n2.cidr <= 32
            && (NetDec(n1) + Cidr2Range(n1.cidr) == NetDec(n2) || NetDec(n2) + Cidr2Range(n1.cidr) == NetDec(n1))
    ensures Super(n1, n2).Some? ==>
            n1.cidr > 0 && Super(n1, n2).value.cidr == n1.cidr - 1 &&
            Addr2Dec(Super(n1, n2).value.addr) == Min(NetDec(n1), NetDec(n2))
  {
    hide Addr2Net, Net2Bcast, After, Addr2Dec, Cidr2Range;
    if n1.cidr > 32 || n2.cidr > 32 {
      return;
    }
    Addr2NetAligns(n1);
    Addr2NetAligns(n2);
    var net1, net2 := Addr2Net(n1).value, Addr2Net(n2).value;
    AfterIs(net1, net2.addr);
    AfterIs(net2, net1.addr);
    if n1.cidr == n2.cidr && Adjacent(net1, net2) {
      NeighboursAreProper(net1, net2);
      if NetDec(n1) < NetDec(n2) {
        HalvesEndTogether(net1, net2);
      } else {
        HalvesEndTogether(net2, net1);
      }
    }
  }

  // The whole address space has no neighbour, and a block is not empty.
  lemma NeighboursAreProper(n1: Network, n2: Network)
    requires n1.cidr == n2.cidr <= 32
    requires Addr2Dec(n1.addr) + Cidr2Range(n1.cidr) == Addr2Dec(n2.addr) ||
             Addr2Dec(n2.addr) + Cidr2Range(n1.cidr) == Addr2Dec(n1.addr)
    ensures n1.cidr > 0 && Cidr2Range(n1.cidr) > 0
  {
    PowConstants();
    Addr2DecValue(n1.addr);
    Addr2DecValue(n2.addr);
    hide Addr2Dec;
  }

  lemma RangeDoubles(cidr: nat)
    requires 0 < cidr <= 32
    ensures Cidr2Range(cidr - 1) == 2 * Cidr2Range(cidr)
  {
  }

  // The upper of two neighbours ends where the doubled lower one ends.
  lemma HalvesEndTogether(lower: Network, upper: Network)
    requires 0 < lower.cidr == upper.cidr <= 32
    requires Addr2Dec(lower.addr) + Cidr2Range(lower.cidr) == Addr2Dec(upper.addr)
    ensures Net2Bcast(upper) == Net2Bcast(Network(lower.addr, lower.cidr - 1))
  {
    hide AddrSum, Addr2Dec, Cidr2Range;
    var size := Cidr2Range(lower.cidr);
    RangeDoubles(lower.cidr);
    NeighboursAreProper(lower, upper);
    AddrSumIs(upper.addr, size - 1);
    AddrSumIs(lower.addr, 2 * size - 1);
    if AddrSum(upper.addr, size - 1).Some? {
      AddrUnique(AddrSum(upper.addr, size - 1).value, AddrSum(lower.addr, 2 * size - 1).value);
    }
  }

  /** The interval that nuts_super prints is the disjoint union of the two networks. */
  lemma SuperIsUnion(n1: Network, n2: Network, x: int)
    requires n1.cidr <= 32 && n2.cidr <= 32 && Super(n1, n2).Some?
    ensures var net1, net2, supernet := Addr2Net(n1).value, Addr2Net(n2).value, Super(n1, n2).value;
            && (In(x, supernet) <==> In(x, net1) || In(x, net2))
            && !(In(x, net1) && In(x, net2))
  {
    hide Super, Addr2Net, Addr2Dec, Cidr2Range;
    SuperIff(n1, n2);
    Addr2NetAligns(n1);
    Addr2NetAligns(n2);
    RangeDoubles(n1.cidr);
  }

  /** It is an aligned block if and only if the lower network starts at a multiple of the
      doubled size, which the script does not check. */
  lemma SuperAlignedIff(n1: Network, n2: Network)
    requires n1.cidr <= 32 && n2.cidr <= 32 && Super(n1, n2).Some?
    ensures Addr2Net(Super(n1, n2).value) == Super(n1, n2) <==>
            Min(NetDec(n1), NetDec(n2)) % (2 * Cidr2Range(n1.cidr)) == 0
  {
    SuperIff(n1, n2);
    var supernet := Super(n1, n2).value;
    Addr2NetAligns(supernet);
    assert Cidr2Range(supernet.cidr) == 2 * Cidr2Range(n1.cidr);
    if Addr2Dec(Addr2Net(supernet).value.addr) == Addr2Dec(supernet.addr) {
      AddrUnique(Addr2Net(supernet).value.addr, supernet.addr);
    }
  }

  /** 192.168.1.0/24 and 192.168.2.0/24 pass for a supernet that is no block. */
  lemma UnalignedSupernet(n1: Network, n2: Network)
    requires n1 == Network(Addr(192, 168, 1, 0), 24) && n2 == Network(Addr(192, 168, 2, 0), 24)
    ensures Super(n1, n2) == Some(n1.(cidr := 23)) && Addr2Net(n1.(cidr := 23)) != Super(n1, n2)
  {
    hide Super, Addr2Net, Addr2Dec, Cidr2Range;
    Range24();
    Addr2DecValue(n1.addr);
    Addr2DecValue(n2.addr);
    Addr2NetAligns(n1);
    Addr2NetAligns(n2);
    SuperIff(n1, n2);
    AddrUnique(Super(n1, n2).value.addr, n1.addr);
    SuperAlignedIff(n1, n2);
  }

  lemma Range24()
    ensures Cidr2Range(24) == 256
  {
    PowConstants();
  }
}
