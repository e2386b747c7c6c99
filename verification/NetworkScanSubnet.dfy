/** Subnets of IPv4 addresses, src-tauri/src/services/network_scan_subnet.rs. Addresses are
    32-bit numbers. */
module NetworkScanSubnet {
  import opened Bytes

  type u32 = x: int | 0 <= x < 0x1_0000_0000
  type u8 = x: int | 0 <= x < 256

  const MAX_SCAN_HOSTS: nat := 4096
  const ALL_ONES: u32 := 0xFFFF_FFFF

  // ----- Bits -----

  function Pow2(n: nat): (r: nat)
    ensures r > 0
  {
    if n == 0 then 1 else 2 * Pow2(n - 1)
  }

  /** The bit of weight 2^i. */
  predicate Bit(x: nat, i: nat) {
    if i == 0 then x % 2 == 1 else Bit(x / 2, i - 1)
  }

  function And(a: nat, b: nat): (r: nat)
    ensures r <= a && r <= b
  {
    if a == 0 || b == 0 then 0 else 2 * And(a / 2, b / 2) + if a % 2 == 1 && b % 2 == 1 then 1 else 0
  }

  function Or(a: nat, b: nat): nat {
    if a == 0 then b else if b == 0 then a
    else 2 * Or(a / 2, b / 2) + if a % 2 == 1 || b % 2 == 1 then 1 else 0
  }

  function CountOnes(x: nat): nat {
    if x == 0 then 0 else x % 2 + CountOnes(x / 2)
  }

  lemma Pow2Of32()
    ensures Pow2(32) == 0x1_0000_0000
  {
    assert Pow2(8) == 256;
    assert Pow2(16) == 65536;
    assert Pow2(24) == 0x100_0000;
  }

  lemma {:induction false} Pow2Grows(m: nat, n: nat)
    requires m <= n
    ensures Pow2(m) <= Pow2(n)
    ensures m < n ==> 2 * Pow2(m) <= Pow2(n)
  {
    if m < n {
      Pow2Grows(m, n - 1);
    }
  }

  // ----- The operations -----

  /** Shifting left drops the bits beyond 32. */
  function ShiftLeft(x: u32, n: nat): u32 {
    x * Pow2(n) % 0x1_0000_0000
  }

  function PrefixMask(prefixLength: u8): u32
    requires prefixLength <= 32
  {
    if prefixLength == 0 then 0 else ShiftLeft(ALL_ONES, 32 - prefixLength)
  }

  function NetmaskPrefix(mask: u32): Option<u8> {
    var prefix := CountOnes(mask);
    if prefix <= 32 && mask == PrefixMask(prefix) then Some(prefix) else None
  }

  datatype CidrError = PrefixTooLong | TooManyHosts(count: nat)

  /** The first and the last address to scan. */
  function ScanRange(address: u32, prefix: u8): (r: (u32, u32))
    requires prefix <= 32
    ensures r.0 <= r.1
  {
    hide And, Or, PrefixMask, Low;
    var mask := PrefixMask(prefix);
    BoundsOfSubnet(address, prefix);
    var network: u32 := And(address, mask);
    var broadcast: u32 := Or(network, ALL_ONES - mask);
    if prefix >= 31 then (network, broadcast)
    else (if network == ALL_ONES then network else network + 1, if broadcast == 0 then 0 else broadcast - 1)
  }

  function CidrHosts(address: u32, prefix: u8): Result<seq<u32>, CidrError> {
    if prefix > 32 then Err(PrefixTooLong)
    else
      var (first, last) := ScanRange(address, prefix);
      var count := last - first + 1;
      if count > MAX_SCAN_HOSTS then Err(TooManyHosts(count))
      else Ok(seq(count, i requires 0 <= i < count => first + i))
  }

  // ----- Masks -----

  lemma MaskValue(prefix: u8)
    requires prefix <= 32
    ensures Pow2(32 - prefix) <= 0x1_0000_0000
    ensures PrefixMask(prefix) == 0x1_0000_0000 - Pow2(32 - prefix)
  {
    Pow2Of32();
    Pow2Grows(32 - prefix, 32);
    var k := Pow2(32 - prefix);
    if prefix > 0 {
      Pow2Grows(32 - prefix, 31);
      assert Pow2(32) == 2 * Pow2(31);
      ShiftedOnes(k);
    }
  }

  lemma ShiftedOnes(k: nat)
    requires 0 < k < 0x1_0000_0000
    ensures (0xFFFF_FFFF * k) % 0x1_0000_0000 == 0x1_0000_0000 - k
  {
  }

  lemma {:induction false} AndOnes(a: nat, w: nat)
    requires a < Pow2(w)
    ensures And(a, Pow2(w) - 1) == a
  {
    if w > 0 && a > 0 {
      assert (Pow2(w) - 1) / 2 == Pow2(w - 1) - 1 && (Pow2(w) - 1) % 2 == 1;
      AndOnes(a / 2, w - 1);
    }
  }

  /** What is left of the low bits, and of the others. */
  function Low(x: nat, k: nat): (r: nat)
    ensures r < Pow2(k) && r <= x
  {
    if k == 0 then 0 else 2 * Low(x / 2, k - 1) + x % 2
  }

  function High(x: nat, k: nat): nat {
    if k == 0 then x else High(x / 2, k - 1)
  }

  /** Masking clears the low bits. */
  lemma {:induction false} AndMask(a: nat, w: nat, k: nat)
    requires a < Pow2(w) && k <= w
    ensures Pow2(k) <= Pow2(w) && And(a, Pow2(w) - Pow2(k)) == a - Low(a, k)
  {
    hide And;
    Pow2Grows(k, w);
    if k == 0 {
      AndOnes(a, w);
    } else {
      AndMask(a / 2, w - 1, k - 1);
      MaskStep(a, Pow2(w - 1), Pow2(k - 1), Low(a / 2, k - 1));
    }
  }

  lemma MaskStep(a: nat, p: nat, q: nat, low: nat)
    requires q <= p && And(a / 2, p - q) == a / 2 - low
    ensures And(a, 2 * p - 2 * q) == a - (2 * low + a % 2)
  {
    hide And;
    AndHalves(a / 2, a % 2, p - q);
    assert a == 2 * (a / 2) + a % 2;
    assert 2 * p - 2 * q == 2 * (p - q);
  }

  lemma AndHalves(h: nat, r: nat, g: nat)
    requires r < 2
    ensures And(2 * h + r, 2 * g) == 2 * And(h, g)
  {
  }

  lemma {:induction false} ClearedLow(a: nat, k: nat)
    ensures Low(a - Low(a, k), k) == 0
  {
    if k > 0 {
      ClearedLow(a / 2, k - 1);
      assert (a - Low(a, k)) / 2 == a / 2 - Low(a / 2, k - 1);
    }
  }

  /** Setting the low bits of a number whose low bits are clear. */
  lemma {:induction false} OrLowOnes(a: nat, k: nat)
    requires Low(a, k) == 0
    ensures Or(a, Pow2(k) - 1) == a + Pow2(k) - 1
  {
    if a > 0 && k > 0 {
      OrLowOnes(a / 2, k - 1);
      assert (Pow2(k) - 1) / 2 == Pow2(k - 1) - 1 && (Pow2(k) - 1) % 2 == 1;
    }
  }

  lemma {:induction false} BlockFits(a: nat, w: nat, k: nat)
    requires a < Pow2(w) && k <= w
    ensures a - Low(a, k) + Pow2(k) <= Pow2(w)
  {
    if k > 0 {
      BlockFits(a / 2, w - 1, k - 1);
    }
  }

  /** The subnet is the aligned block around the address. */
  lemma BoundsOfSubnet(address: u32, prefix: u8)
    requires prefix <= 32
    ensures var k, mask := 32 - prefix, PrefixMask(prefix);
            var network := address - Low(address, k);
            && And(address, mask) == network && network + Pow2(k) <= 0x1_0000_0000
            && Or(network, ALL_ONES - mask) == network + Pow2(k) - 1
    ensures prefix <= 30 ==> Pow2(32 - prefix) >= 4
    ensures prefix == 31 ==> Pow2(32 - prefix) == 2
    ensures prefix == 32 ==> Pow2(32 - prefix) == 1
  {
    hide And, Or, PrefixMask, Low;
    Pow2Of32();
    MaskValue(prefix);
    AndMask(address, 32, 32 - prefix);
    BlockFits(address, 32, 32 - prefix);
    ClearedLow(address, 32 - prefix);
    OrLowOnes(address - Low(address, 32 - prefix), 32 - prefix);
    if prefix <= 30 {
      Pow2Grows(2, 32 - prefix);
      assert Pow2(2) == 4;
    }
  }

  lemma RangeOfSubnet(address: u32, prefix: u8)
    requires prefix <= 32
    ensures var d := Pow2(32 - prefix);
            var network := address - Low(address, 32 - prefix);
            && (prefix >= 31 ==> ScanRange(address, prefix) == (network, network + d - 1))
            && (prefix <= 30 ==> d >= 4 && ScanRange(address, prefix) == (network + 1, network + d - 2))
    ensures prefix == 31 ==> Pow2(32 - prefix) == 2
    ensures prefix == 32 ==> Pow2(32 - prefix) == 1
  {
    hide And, Or, PrefixMask, Pow2, Low;
    BoundsOfSubnet(address, prefix);
  }

  // ----- Masks and their prefixes -----

  lemma {:induction false} OnesOf(w: nat)
    ensures CountOnes(Pow2(w) - 1) == w
  {
    if w > 0 {
      assert (Pow2(w) - 1) / 2 == Pow2(w - 1) - 1 && (Pow2(w) - 1) % 2 == 1;
      OnesOf(w - 1);
    }
  }

  lemma {:induction false} OnesOfMask(w: nat, k: nat)
    requires k <= w
    ensures Pow2(k) <= Pow2(w) && CountOnes(Pow2(w) - Pow2(k)) == w - k
  {
    Pow2Grows(k, w);
    if k == 0 {
      OnesOf(w);
    } else {
      var m := Pow2(w) - Pow2(k);
      OnesOfMask(w - 1, k - 1);
      assert m / 2 == Pow2(w - 1) - Pow2(k - 1) && m % 2 == 0;
    }
  }

  /** The prefix of a netmask is the inverse of the mask of a prefix. */
  lemma PrefixOfMask(mask: u32, prefix: u8)
    ensures NetmaskPrefix(mask) == Some(prefix) <==> prefix <= 32 && mask == PrefixMask(prefix)
  {
    hide CountOnes, PrefixMask;
    if prefix <= 32 && mask == PrefixMask(prefix) {
      Pow2Of32();
      MaskValue(prefix);
      OnesOfMask(32, 32 - prefix);
    }
  }

  /** In a contiguous mask every bit above a set bit is set. */
  predicate Contiguous(mask: nat) {
    forall i, j :: 0 <= i < j < 32 && Bit(mask, i) ==> Bit(mask, j)
  }

  lemma {:induction false} BitOfMask(w: nat, k: nat, i: nat)
    requires k <= w && i < w
    ensures Pow2(k) <= Pow2(w) && (Bit(Pow2(w) - Pow2(k), i) <==> i >= k)
  {
    Pow2Grows(k, w);
    var m := Pow2(w) - Pow2(k);
    if k == 0 {
      assert (Pow2(w) - 1) / 2 == Pow2(w - 1) - 1 && (Pow2(w) - 1) % 2 == 1;
      if i > 0 {
        BitOfMask(w - 1, 0, i - 1);
      }
    } else {
      assert m / 2 == Pow2(w - 1) - Pow2(k - 1) && m % 2 == 0;
      if i > 0 {
        BitOfMask(w - 1, k - 1, i - 1);
      }
    }
  }

  /** Numbers of so many bits are told apart by their bits. */
  lemma {:induction false} BitsDetermine(x: nat, y: nat, w: nat)
    requires x < Pow2(w) && y < Pow2(w) && forall i :: 0 <= i < w ==> Bit(x, i) == Bit(y, i)
    ensures x == y
  {
    if w > 0 {
      assert Bit(x, 0) == Bit(y, 0);
      forall i | 0 <= i < w - 1
        ensures Bit(x / 2, i) == Bit(y / 2, i)
      {
        var j := i + 1;
        assert Bit(x, j) == Bit(y, j);
      }
      BitsDetermine(x / 2, y / 2, w - 1);
    }
  }

  /** Exactly the contiguous masks have a prefix. */
  lemma PrefixMeansContiguous(mask: u32)
    ensures NetmaskPrefix(mask).Some? <==> Contiguous(mask)
  {
    hide Bit, NetmaskPrefix, PrefixMask, Pow2;
    Pow2Of32();
    if NetmaskPrefix(mask).Some? {
      var p := NetmaskPrefix(mask).value;
      PrefixOfMask(mask, p);
      MaskValue(p);
      forall i, j | 0 <= i < j < 32 && Bit(mask, i)
        ensures Bit(mask, j)
      {
        BitOfMask(32, 32 - p, i);
        BitOfMask(32, 32 - p, j);
      }
    }
    if Contiguous(mask) {
      var k := LowestBit(mask, 0);
      MaskValue(32 - k);
      forall i | 0 <= i < 32
        ensures Bit(mask, i) == Bit(PrefixMask(32 - k), i)
      {
        BitOfMask(32, k, i);
      }
      BitsDetermine(mask, PrefixMask(32 - k), 32);
      PrefixOfMask(mask, 32 - k);
    }
  }

  function LowestBit(mask: nat, i: nat): (k: nat)
    requires i <= 32
    ensures i <= k <= 32 && forall j :: i <= j < k ==> !Bit(mask, j)
    ensures k < 32 ==> Bit(mask, k)
    decreases 32 - i
  {
    if i == 32 || Bit(mask, i) then i else LowestBit(mask, i + 1)
  }

  // ----- Hosts -----

  /** Two addresses agree on their first bits. */
  predicate SameSubnet(x: u32, y: u32, prefix: u8) {
    forall i :: 32 - prefix as int <= i < 32 && 0 <= i ==> Bit(x, i) == Bit(y, i)
  }

  lemma {:induction false} BitOfHigh(x: nat, k: nat, i: nat)
    requires i >= k
    ensures Bit(x, i) == Bit(High(x, k), i - k)
  {
    if k > 0 {
      BitOfHigh(x / 2, k - 1, i - 1);
    }
  }

  lemma {:induction false} HighIsSmall(x: nat, w: nat, k: nat)
    requires x < Pow2(w) && k <= w
    ensures High(x, k) < Pow2(w - k)
  {
    if k > 0 {
      HighIsSmall(x / 2, w - 1, k - 1);
    }
  }

  lemma SameSubnetIsSameHigh(x: u32, y: u32, prefix: u8)
    requires prefix <= 32
    ensures SameSubnet(x, y, prefix) <==> High(x, 32 - prefix) == High(y, 32 - prefix)
  {
    hide Bit, Pow2, High;
    Pow2Of32();
    var k := 32 - prefix;
    var a, b := High(x, k), High(y, k);
    HighIsSmall(x, 32, k);
    HighIsSmall(y, 32, k);
    if SameSubnet(x, y, prefix) {
      forall i | 0 <= i < 32 - k
        ensures Bit(a, i) == Bit(b, i)
      {
        var j := i + k;
        assert Bit(x, j) == Bit(y, j);
        BitOfHigh(x, k, j);
        BitOfHigh(y, k, j);
      }
      BitsDetermine(a, b, 32 - k);
    }
    if a == b {
      forall i | k <= i < 32
        ensures Bit(x, i) == Bit(y, i)
      {
        BitOfHigh(x, k, i);
        BitOfHigh(y, k, i);
      }
    }
  }

  lemma {:induction false} InBlock(x: nat, a: nat, k: nat)
    ensures High(x, k) == High(a, k) <==> a - Low(a, k) <= x < a - Low(a, k) + Pow2(k)
  {
    if k > 0 {
      InBlock(x / 2, a / 2, k - 1);
    }
  }

  lemma {:induction false} SameHighSameLow(x: nat, a: nat, k: nat)
    requires High(x, k) == High(a, k)
    ensures x - Low(x, k) == a - Low(a, k)
  {
    if k > 0 {
      SameHighSameLow(x / 2, a / 2, k - 1);
    }
  }

  predicate LowBits(x: nat, k: nat, b: bool) {
    forall i :: 0 <= i < k ==> Bit(x, i) == b
  }

  /** The network address has only zeros after the prefix, the broadcast address only ones. */
  predicate IsNetwork(x: u32, prefix: u8)
    requires prefix <= 32
  {
    LowBits(x, 32 - prefix, false)
  }

  predicate IsBroadcast(x: u32, prefix: u8)
    requires prefix <= 32
  {
    LowBits(x, 32 - prefix, true)
  }

  lemma {:induction false} LowZeros(x: nat, k: nat)
    ensures LowBits(x, k, false) <==> Low(x, k) == 0
  {
    hide LowBits;
    if k > 0 {
      LowZeros(x / 2, k - 1);
    }
    LowBitsFirst(x, k, false);
  }

  lemma {:induction false} LowOnes(x: nat, k: nat)
    ensures LowBits(x, k, true) <==> Low(x, k) == Pow2(k) - 1
  {
    hide LowBits;
    if k > 0 {
      LowOnes(x / 2, k - 1);
    }
    LowBitsFirst(x, k, true);
  }

  lemma LowBitsFirst(x: nat, k: nat, b: bool)
    ensures LowBits(x, k, b) <==> k == 0 || ((x % 2 == 1) == b && LowBits(x / 2, k - 1, b))
  {
    if k > 0 {
      if LowBits(x, k, b) {
        assert Bit(x, 0) == b;
        forall i | 0 <= i < k - 1
          ensures Bit(x / 2, i) == b
        {
          var j := i + 1;
          assert Bit(x, j) == b;
        }
      }
      if (x % 2 == 1) == b && LowBits(x / 2, k - 1, b) {
        forall i | 0 <= i < k
          ensures Bit(x, i) == b
        {
          if i > 0 {
            assert Bit(x / 2, i - 1) == b;
          }
        }
      }
    }
  }

  /** Accepted are exactly the prefixes from 20 to 32. */
  lemma AcceptedPrefixes(address: u32, prefix: u8)
    ensures CidrHosts(address, prefix).Ok? <==> 20 <= prefix <= 32
    ensures prefix < 20 ==> CidrHosts(address, prefix) == Err(TooManyHosts(Pow2(32 - prefix) - 2))
    ensures prefix > 32 ==> CidrHosts(address, prefix) == Err(PrefixTooLong)
  {
    hide ScanRange, Low;
    if prefix <= 32 {
      RangeOfSubnet(address, prefix);
      if prefix >= 20 {
        Pow2Grows(32 - prefix, 12);
      } else {
        Pow2Grows(13, 32 - prefix);
      }
      assert Pow2(12) == 4096 by {
        assert Pow2(8) == 256;
      }
      assert Pow2(13) == 2 * Pow2(12);
    }
  }

  /** The hosts of a subnet, each once and in ascending order: all its addresses, without the
      network and broadcast addresses where there are more than two. */
  lemma HostsOfSubnet(address: u32, prefix: u8)
    requires CidrHosts(address, prefix).Ok?
    ensures var hosts := CidrHosts(address, prefix).value;
            && (forall i, j :: 0 <= i < j < |hosts| ==> hosts[i] < hosts[j])
            && forall x: u32 :: x in hosts
                 <==> SameSubnet(x, address, prefix)
                      && (prefix >= 31 || (!IsNetwork(x, prefix) && !IsBroadcast(x, prefix)))
  {
    hide ScanRange, SameSubnet, IsNetwork, IsBroadcast, Pow2, Low, High;
    RangeOfSubnet(address, prefix);
    var hosts := CidrHosts(address, prefix).value;
    var d := Pow2(32 - prefix);
    var network := address - Low(address, 32 - prefix);
    var first := if prefix >= 31 then network else network + 1;
    var last := if prefix >= 31 then network + d - 1 else network + d - 2;
    assert |hosts| == last - first + 1 && forall i :: 0 <= i < |hosts| ==> hosts[i] == first + i;
    forall x: u32
      ensures x in hosts
              <==> SameSubnet(x, address, prefix)
                   && (prefix >= 31 || (!IsNetwork(x, prefix) && !IsBroadcast(x, prefix)))
    {
      if first <= x <= last {
        assert hosts[x - first] == x;
      }
      SameSubnetIsSameHigh(x, address, prefix);
      InBlock(x, address, 32 - prefix);
      if High(x, 32 - prefix) == High(address, 32 - prefix) {
        EndsOfBlock(x, address, prefix);
      }
    }
  }

  lemma EndsOfBlock(x: u32, address: u32, prefix: u8)
    requires prefix <= 32 && High(x, 32 - prefix) == High(address, 32 - prefix)
    ensures var k := 32 - prefix;
            && (IsNetwork(x, prefix) <==> x == address - Low(address, k))
            && (IsBroadcast(x, prefix) <==> x == address - Low(address, k) + Pow2(k) - 1)
  {
    hide Pow2, LowBits, Low, High;
    LowZeros(x, 32 - prefix);
    LowOnes(x, 32 - prefix);
    SameHighSameLow(x, address, 32 - prefix);
  }
}
