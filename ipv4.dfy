/** IPv4 addresses as Go's `net.IP` holds them, four bytes in network order,
    with the arithmetic the subnet sweep needs: the big-endian value of an
    address, the in-place increment `inc`, CIDR blocks (RFC 4632, section
    3.1) and the dotted-quad rendering of `IP.String`
    (backend/snmp/scanner.go). */
module Ipv4 {
  import opened Common
  import opened Text

  /** 2^32, the number of IPv4 addresses. */
  const AddressSpace: nat := 0x1_0000_0000

  function Pow2(n: nat): (r: nat)
    ensures r >= 1
  {
    if n == 0 then 1 else 2 * Pow2(n - 1)
  }

  lemma {:induction false} Pow2Add(a: nat, b: nat)
    ensures Pow2(a + b) == Pow2(a) * Pow2(b)
  {
    if a > 0 {
      Pow2Add(a - 1, b);
      assert Pow2(a + b) == 2 * Pow2(a - 1 + b);
    }
  }

  lemma Pow2Of32()
    ensures Pow2(32) == AddressSpace
  {
    assert Pow2(4) == 16;
    Pow2Add(4, 4);
    Pow2Add(8, 8);
    Pow2Add(16, 16);
  }

  lemma MulAtLeast(x: int, d: int)
    requires x >= 1 && d > 0
    ensures x * d >= d
  {}

  lemma SubMul(a: int, b: int, d: int)
    ensures (a - b) * d == a * d - b * d
  {}

  lemma MulLe(a: int, b: int, c: nat)
    requires a <= b
    ensures a * c <= b * c
  {}

  /** Euclidean division is determined by its defining equation. */
  lemma ModUnique(a: int, d: int, k: int, r: int)
    requires d > 0 && 0 <= r < d && a == k * d + r
    ensures a / d == k && a % d == r
  {
    var q, m := a / d, a % d;
    assert a == q * d + m;
    if q > k {
      MulAtLeast(q - k, d);
      SubMul(q, k, d);
    } else if q < k {
      MulAtLeast(k - q, d);
      SubMul(k, q, d);
    }
  }

  function Pow256(n: nat): (r: nat)
    ensures r >= 1
  {
    if n == 0 then 1 else 256 * Pow256(n - 1)
  }

  /** The value of a byte sequence read as a big-endian unsigned number. */
  function BigEndian(s: seq<byte>): (v: nat)
    ensures v < Pow256(|s|)
  {
    if s == [] then 0
    else
      var hi := BigEndian(s[..|s| - 1]);
      MulLe(hi, Pow256(|s| - 1) - 1, 256);
      hi * 256 + s[|s| - 1]
  }

  /** The `n` low-order bytes of `v`, big-endian. */
  function Bytes(v: nat, n: nat): (s: seq<byte>)
    ensures |s| == n
  {
    if n == 0 then [] else Bytes(v / 256, n - 1) + [v % 256]
  }

  /** `Bytes` and `BigEndian` are inverse on values that fit. */
  lemma {:induction false} BigEndianOfBytes(v: nat, n: nat)
    requires v < Pow256(n)
    ensures BigEndian(Bytes(v, n)) == v
  {
    if n > 0 {
      var s := Bytes(v, n);
      assert s[..n - 1] == Bytes(v / 256, n - 1);
      BigEndianOfBytes(v / 256, n - 1);
    }
  }

  /** Every byte sequence is the big-endian rendering of its own value. */
  lemma {:induction false} BytesOfBigEndian(s: seq<byte>)
    ensures Bytes(BigEndian(s), |s|) == s
  {
    if s != [] {
      var n := |s|;
      var pre := s[..n - 1];
      BytesOfBigEndian(pre);
      ModUnique(BigEndian(s), 256, BigEndian(pre), s[n - 1]);
      assert s == pre + [s[n - 1]];
    }
  }

  /** All bytes from index `k` on are 255. */
  predicate AllMax(s: seq<byte>, k: nat) {
    forall j :: k <= j < |s| ==> s[j] == 255
  }

  /** The big-endian successor of a byte sequence, wrapping to all zeros. */
  function Successor(s: seq<byte>): (r: seq<byte>)
    ensures |r| == |s|
  {
    if s == [] then []
    else if s[|s| - 1] == 255 then Successor(s[..|s| - 1]) + [0]
    else s[..|s| - 1] + [s[|s| - 1] + 1]
  }

  /** `inc` adds one to the big-endian value, wrapping from the largest
      value to zero. */
  lemma {:induction false} SuccessorWraps(s: seq<byte>)
    ensures BigEndian(Successor(s)) ==
              if BigEndian(s) + 1 == Pow256(|s|) then 0 else BigEndian(s) + 1
  {
    SuccessorValue(s);
    var p := Pow256(|s|);
    if BigEndian(s) + 1 == p {
      ModUnique(p, p, 1, 0);
    } else {
      ModUnique(BigEndian(s) + 1, p, 0, BigEndian(s) + 1);
    }
  }

  /** `inc` adds one modulo 256^n to the big-endian value. */
  lemma {:induction false} SuccessorValue(s: seq<byte>)
    ensures BigEndian(Successor(s)) == (BigEndian(s) + 1) % Pow256(|s|)
  {
    if s != [] {
      var n := |s|;
      var pre := s[..n - 1];
      var r := Successor(s);
      assert r[..n - 1] == (if s[n - 1] == 255 then Successor(pre) else pre);
      var p := Pow256(n - 1);
      if s[n - 1] == 255 {
        SuccessorValue(pre);
        var q := BigEndian(pre) + 1;
        assert BigEndian(s) + 1 == q * 256;
        assert BigEndian(r) == (q % p) * 256;
        ScaledMod(q, p);
      } else {
        assert BigEndian(r) == BigEndian(s) + 1;
        MulLe(BigEndian(pre), p - 1, 256);
        ModUnique(BigEndian(s) + 1, Pow256(n), 0, BigEndian(s) + 1);
      }
    }
  }

  lemma ScaledMod(q: nat, p: nat)
    requires p >= 1
    ensures (q * 256) % (p * 256) == (q % p) * 256
  {
    var k, m := q / p, q % p;
    assert q == k * p + m;
    assert q * 256 == k * (p * 256) + m * 256;
    assert m * 256 < p * 256;
    ModUnique(q * 256, p * 256, k, m * 256);
  }

  /** `inc` changes byte `i` exactly when every byte to its right wraps
      around: such a byte is incremented (modulo 256), every other byte is
      left as it is. So the carry stops at the first byte from the right that
      does not wrap, and everything to its left is unchanged. */
  lemma {:induction false} SuccessorBytes(s: seq<byte>, i: nat)
    requires i < |s|
    ensures Successor(s)[i] == if AllMax(s, i + 1) then (s[i] as int + 1) % 256 else s[i]
  {
    var n := |s|;
    if i < n - 1 {
      var pre := s[..n - 1];
      if s[n - 1] == 255 {
        SuccessorBytes(pre, i);
        assert AllMax(s, i + 1) == AllMax(pre, i + 1);
      } else {
        assert !AllMax(s, i + 1);
      }
    }
  }

  /** Go's `inc`: add one to the address in place, carrying from the last byte. */
  method Inc(ip: array<byte>)
    modifies ip
    ensures ip[..] == Successor(old(ip[..]))
  {
    var j := ip.Length - 1;
    assert ip[..j + 1] == ip[..] && ip[j + 1..] == [];
    while j >= 0
      invariant -1 <= j < ip.Length
      invariant ip[..j + 1] == old(ip[..j + 1])
      invariant Successor(old(ip[..])) == Successor(ip[..j + 1]) + ip[j + 1..]
    {
      ghost var s := ip[..];
      ip[j] := (ip[j] as int + 1) % 256;
      assert ip[..] == s[j := ip[j]];
      if ip[j] > 0 {
        CarryStops(s, j, ip[..]);
        return;
      }
      CarryGoesOn(s, j, ip[..]);
      j := j - 1;
    }
  }

  /** A byte below 255 absorbs the increment. */
  lemma CarryStops(s: seq<byte>, j: nat, t: seq<byte>)
    requires j < |s| && s[j] != 255 && t == s[j := s[j] + 1]
    ensures Successor(s[..j + 1]) + s[j + 1..] == t
  {
    assert s[..j + 1][..j] == s[..j];
    assert t == s[..j] + [s[j] + 1] + s[j + 1..];
  }

  /** A byte at 255 wraps to 0 and passes the carry to its left. */
  lemma CarryGoesOn(s: seq<byte>, j: nat, t: seq<byte>)
    requires j < |s| && s[j] == 255 && t == s[j := 0]
    ensures t[..j] == s[..j]
    ensures Successor(s[..j + 1]) + s[j + 1..] == Successor(t[..j]) + t[j..]
  {
    assert s[..j + 1][..j] == s[..j];
    assert t[j..] == [0] + s[j + 1..];
  }

  /** A CIDR block as `net.ParseCIDR` returns it: the written address and
      the prefix length. */
  datatype Cidr = Cidr(address: seq<byte>, prefix: nat)

  /** The blocks the sweep accepts: an IPv4 address and a prefix of 1 to 32
      bits. With prefix 0 every address, including the 0.0.0.0 that `inc`
      wraps to after 255.255.255.255, lies in the block, so the sweep would
      never end. */
  predicate SweepableBlock(c: Cidr) {
    |c.address| == 4 && 1 <= c.prefix <= 32
  }

  /** The number of addresses of a block with this prefix. */
  function BlockSize(prefix: nat): (size: nat)
    requires prefix <= 32
    ensures size >= 1
  {
    Pow2(32 - prefix)
  }

  /** The low `n` bits of `v`. */
  function LowBits(v: nat, n: nat): (r: nat)
    ensures r < Pow2(n) && r <= v
  {
    if n == 0 then 0 else 2 * LowBits(v / 2, n - 1) + v % 2
  }

  /** The low `n` bits are the remainder modulo 2^n. */
  lemma {:induction false} LowBitsMod(v: nat, n: nat)
    ensures LowBits(v, n) == v % Pow2(n)
  {
    if n == 0 {
      ModUnique(v, 1, v, 0);
    } else {
      LowBitsMod(v / 2, n - 1);
      var p := Pow2(n - 1);
      var q, r := v / 2 / p, v / 2 % p;
      assert v / 2 == q * p + r;
      assert q * (2 * p) == 2 * (q * p);
      ModUnique(v, 2 * p, q, 2 * r + v % 2);
    }
  }

  /** `ip.Mask(ipnet.Mask)`: the address with its host bits cleared. */
  function Masked(v: nat, prefix: nat): nat
    requires prefix <= 32
  {
    v - LowBits(v, 32 - prefix)
  }

  /** `ipnet.Contains`: the address has the block's network bits. */
  predicate InBlock(v: nat, network: nat, prefix: nat)
    requires prefix <= 32
  {
    Masked(v, prefix) == network
  }

  /** The addresses of a block are the `size` consecutive values from its
      network address on. */
  lemma InBlockRange(v: nat, network: nat, prefix: nat)
    requires prefix <= 32
    requires network % BlockSize(prefix) == 0
    ensures InBlock(v, network, prefix) <==> network <= v < network + BlockSize(prefix)
  {
    LowBitsMod(v, 32 - prefix);
    AlignedRange(v, network, BlockSize(prefix));
  }

  lemma AlignedRange(v: nat, network: nat, size: nat)
    requires size >= 1 && network % size == 0
    ensures v - v % size == network <==> network <= v < network + size
  {
    if network <= v < network + size {
      var m := network / size;
      assert network == m * size;
      ModUnique(v, size, m, v - network);
    }
  }

  /** The block of a network address lies inside the address space. */
  lemma BlockFits(network: nat, prefix: nat)
    requires prefix <= 32
    requires network < AddressSpace && network % BlockSize(prefix) == 0
    ensures network + BlockSize(prefix) <= AddressSpace
    ensures prefix >= 1 ==> BlockSize(prefix) < AddressSpace
  {
    var size := BlockSize(prefix);
    var blocks := Pow2(prefix);
    Pow2Add(32 - prefix, prefix);
    Pow2Of32();
    AlignedFits(network, size, blocks);
    if prefix >= 1 {
      MulLe(2, blocks, size);
    }
  }

  lemma AlignedFits(network: nat, size: nat, blocks: nat)
    requires size >= 1 && network < size * blocks && network % size == 0
    ensures network + size <= size * blocks
  {
    var m := network / size;
    assert network == m * size;
    if m >= blocks {
      MulLe(blocks, m, size);
    }
    MulLe(m + 1, blocks, size);
  }

  /** Addresses that the sweep probes: last octet neither 0 nor 255. */
  predicate UsableOctet(v: nat) {
    v % 256 != 0 && v % 256 != 255
  }

  /** The values the sweep dispatches, in order, among the `n` addresses
      from `network` on. */
  function Sweep(network: nat, n: nat): seq<nat> {
    if n == 0 then []
    else Sweep(network, n - 1) + (if UsableOctet(network + n - 1) then [network + n - 1] else [])
  }

  /** Every value the sweep lists is a usable address of the range. */
  lemma {:induction false} SweepWithin(network: nat, n: nat)
    ensures forall i :: 0 <= i < |Sweep(network, n)| ==>
              network <= Sweep(network, n)[i] < network + n && UsableOctet(Sweep(network, n)[i])
  {
    if n > 0 {
      SweepWithin(network, n - 1);
      var prev := Sweep(network, n - 1);
      assert Sweep(network, n)[..|prev|] == prev;
    }
  }

  /** The sweep lists its values in strictly ascending order, so none twice. */
  lemma {:induction false} SweepAscending(network: nat, n: nat)
    ensures forall i, j :: 0 <= i < j < |Sweep(network, n)| ==> Sweep(network, n)[i] < Sweep(network, n)[j]
  {
    if n > 0 {
      SweepAscending(network, n - 1);
      SweepWithin(network, n - 1);
      var prev := Sweep(network, n - 1);
      var s := Sweep(network, n);
      assert s[..|prev|] == prev;
      forall i, j | 0 <= i < j < |s|
        ensures s[i] < s[j]
      {
        if j < |prev| {
          assert s[i] == prev[i] && s[j] == prev[j];
        } else {
          assert s[i] == prev[i] && s[j] == network + n - 1;
        }
      }
    }
  }

  /** The sweep misses no usable address of the range. */
  lemma {:induction false} SweepComplete(network: nat, n: nat, v: nat)
    requires network <= v < network + n && UsableOctet(v)
    ensures v in Sweep(network, n)
  {
    var prev := Sweep(network, n - 1);
    var s := Sweep(network, n);
    assert s[..|prev|] == prev;
    if v < network + n - 1 {
      SweepComplete(network, n - 1, v);
      var k :| 0 <= k < |prev| && prev[k] == v;
      assert s[k] == v;
    } else {
      assert s[|s| - 1] == v;
    }
  }

  /** Go's `IP.String` for an IPv4 address: the decimal octets joined by
      dots, built up here one octet at a time from the left. */
  function DottedDecimal(s: seq<byte>): (r: string)
    requires |s| >= 1
    ensures |r| >= 2 * |s| - 1
  {
    if |s| == 1 then Decimal(s[0])
    else DottedDecimal(s[..|s| - 1]) + "." + Decimal(s[|s| - 1])
  }

  /** The rendering is the decimals of the octets joined with ".". */
  lemma {:induction false} DottedIsJoin(s: seq<byte>)
    requires |s| >= 1
    ensures DottedDecimal(s) == Join(Decimals(s), ".")
  {
    if |s| > 1 {
      var pre := s[..|s| - 1];
      var ds, last := Decimals(pre), Decimal(s[|s| - 1]);
      DottedIsJoin(pre);
      assert Decimals(s) == ds + [last];
      JoinSnoc(ds, last, ".");
    }
  }

  /** The dotted rendering of the `n` low-order bytes of a value. */
  function DottedValue(v: nat, n: nat): (r: string)
    ensures |r| >= 2 * n - 1
  {
    if n <= 1 then Decimal(v % 256)
    else DottedValue(v / 256, n - 1) + "." + Decimal(v % 256)
  }

  /** Rendering the bytes and rendering their big-endian value agree. */
  lemma {:induction false} DottedOfValue(s: seq<byte>)
    requires |s| >= 1
    ensures DottedDecimal(s) == DottedValue(BigEndian(s), |s|)
  {
    var n := |s|;
    var pre := s[..n - 1];
    ModUnique(BigEndian(s), 256, BigEndian(pre), s[n - 1]);
    if n > 1 {
      DottedOfValue(pre);
    }
  }

  /** The sweep's filter: `strings.HasSuffix(ip, ".0") || strings.HasSuffix(ip, ".255")`. */
  predicate Skipped(s: string) {
    HasSuffix(s, ".0") || HasSuffix(s, ".255")
  }

  /** On a dotted quad the string filter is a test of the last octet: it
      skips exactly the addresses whose last octet is 0 or 255. */
  lemma SkippedIffEdgeOctet(ip: seq<byte>)
    requires |ip| == 4
    ensures Skipped(DottedDecimal(ip)) <==> ip[3] == 0 || ip[3] == 255
  {
    SuffixAfterDot(DottedDecimal(ip[..3]), Decimal(ip[3]));
    DecimalEdges(ip[3]);
  }

  /** The same test stated on address values: the filter skips an address
      iff its value is 0 or 255 modulo 256. */
  lemma SkippedIffUnusable(v: nat)
    ensures Skipped(DottedValue(v, 4)) <==> !UsableOctet(v)
  {
    SuffixAfterDot(DottedValue(v / 256, 3), Decimal(v % 256));
    DecimalEdges(v % 256);
  }

  /** A string ending in a dot and a run of one to three digits ends in ".0"
      or ".255" exactly when that run is "0" or "255". */
  lemma SuffixAfterDot(head: string, d: string)
    requires |head| >= 3 && 1 <= |d| <= 3 && AllDigits(d)
    ensures HasSuffix(head + "." + d, ".0") <==> d == "0"
    ensures HasSuffix(head + "." + d, ".255") <==> d == "255"
  {
    var s := head + "." + d;
    var n := |s|;
    assert s[n - |d|..] == d;
    assert s[n - |d| - 1] == '.';
    if |d| == 1 {
      assert s[n - 2..] == "." + d;
      assert s[n - 2] == '.';
    } else if |d| == 2 {
      assert s[n - 2] == d[0];
      assert s[n - 3] == '.';
    } else {
      assert s[n - 2] == d[1];
      assert s[n - 4..] == "." + d;
    }
  }

  /** The only bytes rendered "0" and "255" are 0 and 255. */
  lemma DecimalEdges(b: byte)
    ensures Decimal(b) == "0" <==> b == 0
    ensures Decimal(b) == "255" <==> b == 255
  {
    if b >= 10 {
      var hi := b / 10;
      assert Decimal(b) == Decimal(hi) + [Digit(b % 10)];
      if hi >= 10 {
        assert Decimal(hi) == [Digit(hi / 10), Digit(hi % 10)];
        var r := Decimal(b);
        assert r == [Digit(hi / 10), Digit(hi % 10), Digit(b % 10)];
        if r == "255" {
          assert r[0] == '2' && r[1] == '5' && r[2] == '5';
          assert hi == 25 && b % 10 == 5;
        }
      }
    }
  }
}
