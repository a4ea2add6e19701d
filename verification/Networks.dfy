/** Networks as 128-bit arithmetic: bit paths, canonical forms, and the IPv4-mapped range. */
module Networks {
  import opened Powers
  import opened Coders
  import opened Tries

  datatype Net = V4(addr: nat, len: nat) | V6(addr: nat, len: nat)

  function Width(n: Net): nat {
    if n.V4? then 32 else 128
  }

  /** An address of its family with a prefix length no longer than it. */
  type Network = n: Net | n.addr < Pow2(Width(n)) && n.len <= Width(n) witness (
    assert Pow2(32) >= 1; V4(0, 0))

  /** ::ffff:0:0/96, the range that holds every IPv4 address. */
  const MAPPED: nat := 0xffff_0000_0000

  /** The largest multiple of `d` up to `x`. */
  function Cut(x: nat, d: nat): nat
    requires d > 0
  {
    x / d * d
  }

  /** The address cut to `len` of `width` bits: host bits cleared. */
  function Masked(addr: nat, width: nat, len: nat): nat
    requires len <= width
  {
    Cut(addr, Pow2(width - len))
  }

  /** The network with its host bits cleared. */
  function Canonicalized(n: Network): Network {
    MaskedBound(n.addr, Width(n), n.len);
    var addr := Masked(n.addr, Width(n), n.len);
    if n.V4? then V4(addr, n.len) else V6(addr, n.len)
  }

  /** Low zero bits of a number of `width` bits; zero has all of them. */
  function TrailingZeros(x: nat, width: nat): nat {
    if width == 0 || x % 2 != 0 then 0 else 1 + TrailingZeros(x / 2, width - 1)
  }

  /** No bit set below the prefix boundary. */
  predicate IsCanonical(n: Network) {
    TrailingZeros(n.addr, Width(n)) >= Width(n) - n.len
  }

  function BitAt(x: nat, width: nat, i: nat): bool
    requires i < width
  {
    x / Pow2(width - 1 - i) % 2 != 0
  }

  /** The 128-bit address whose top bits are the path; IPv4 sits inside the mapped range. */
  function Range(n: Network): nat {
    if n.V4? then n.addr + MAPPED else n.addr
  }

  function BitCount(n: Network): (r: nat)
    ensures r <= 128
  {
    if n.V4? then n.len + 96 else n.len
  }

  function IpToBits(n: Network): Path {
    seq(BitCount(n), i requires 0 <= i < BitCount(n) => BitAt(Range(n), 128, i))
  }

  /** The value of a path read as the top bits of a `width`-bit number. */
  function PathValue(path: Path, width: nat): (r: nat)
    requires |path| <= width
  {
    if path == [] then 0
    else (if path[0] then Pow2(width - 1) else 0) + PathValue(path[1..], width - 1)
  }

  /** The network of a path; the mapped range is written as IPv4. */
  function BitsToNetwork(path: Path): Network
    requires |path| <= 128
  {
    var range := PathValue(path, 128);
    PathValueBound(path, 128);
    if |path| >= 96 && range / Pow2(32) == 0xffff then V4(range % Pow2(32), |path| - 96)
    else V6(range, |path|)
  }

  // ---------------------------------------------------------------- division by powers of two

  lemma DivMul(q: nat, d: nat, r: nat)
    requires d > 0
    ensures (q * d + r) / d == q + r / d && (q * d + r) % d == r % d
  {
    assert d * (q + r / d) == q * d + d * (r / d);
    DivUnique(q * d + r, d, q + r / d, r % d);
  }

  lemma DivKeeps(x: nat, d: nat)
    requires d > 0
    ensures x / d * d <= x < x / d * d + d
  {
    assert x / d * d == d * (x / d);
  }

  lemma MaskedBound(addr: nat, width: nat, len: nat)
    requires len <= width && addr < Pow2(width)
    ensures Masked(addr, width, len) < Pow2(width)
  {
    DivKeeps(addr, Pow2(width - len));
  }

  lemma {:induction false} PathValueBound(path: Path, width: nat)
    requires |path| <= width
    ensures PathValue(path, width) < Pow2(width)
  {
    if path != [] {
      PathValueBound(path[1..], width - 1);
    }
  }

  /** Peeling the top bit off a number. */
  lemma TopBit(x: nat, width: nat)
    requires width > 0 && x < Pow2(width)
    ensures var half := Pow2(width - 1);
      var rest := if BitAt(x, width, 0) then x - half else x;
      0 <= rest < half
  {
    var half := Pow2(width - 1);
    if x < half {
      DivUnique(x, half, 0, x);
    } else {
      DivUnique(x, half, 1, x - half);
    }
  }

  /** Below the top bit nothing changes when it is peeled off. */
  lemma LowerBit(x: nat, width: nat, i: nat)
    requires 0 < i < width && x < Pow2(width) && x >= Pow2(width - 1)
    ensures BitAt(x, width, i) == BitAt(x - Pow2(width - 1), width - 1, i - 1)
  {
    var rest := x - Pow2(width - 1);
    Pow2Add(i, width - 1 - i);
    SameParity(Pow2(i - 1), Pow2(width - 1 - i), rest, x);
  }

  lemma SameParity(half: nat, d: nat, rest: nat, x: nat)
    requires d > 0 && x == (2 * half) * d + rest
    ensures (x / d) % 2 == (rest / d) % 2
  {
    DivMul(2 * half, d, rest);
  }

  /** The top `n` bits of a number. */
  function TopBits(x: nat, width: nat, n: nat): Path
    requires n <= width
  {
    seq(n, i requires 0 <= i < n => BitAt(x, width, i))
  }

  lemma TopBitsFirst(x: nat, width: nat, n: nat)
    requires 0 < n <= width && x < Pow2(width)
    ensures var half := Pow2(width - 1);
      var rest := if BitAt(x, width, 0) then x - half else x;
      0 <= rest < half && TopBits(x, width, n) == [BitAt(x, width, 0)] + TopBits(rest, width - 1, n - 1)
  {
    var half := Pow2(width - 1);
    TopBit(x, width);
    var rest := if BitAt(x, width, 0) then x - half else x;
    forall i | 0 < i < n ensures TopBits(x, width, n)[i] == TopBits(rest, width - 1, n - 1)[i - 1] {
      if x >= half {
        LowerBit(x, width, i);
        assert BitAt(x, width, 0) by {
          DivUnique(x, half, 1, x - half);
        }
      }
    }
  }

  /** Reading the top bits back clears the host bits and nothing else. */
  lemma {:induction false} ValueOfTopBits(x: nat, width: nat, n: nat)
    requires n <= width && x < Pow2(width)
    ensures PathValue(TopBits(x, width, n), width) == Masked(x, width, n)
    decreases n
  {
    if n == 0 {
      DivUnique(x, Pow2(width), 0, x);
    } else {
      var bit := BitAt(x, width, 0);
      TopBitsFirst(x, width, n);
      var rest := if bit then x - Pow2(width - 1) else x;
      ValueOfTopBits(rest, width - 1, n - 1);
      assert TopBits(x, width, n)[1..] == TopBits(rest, width - 1, n - 1);
      if bit {
        Pow2Add(n - 1, width - n);
        MaskedAbove(Pow2(n - 1), Pow2(width - n), rest, x);
      }
    }
  }

  lemma MaskedAbove(q: nat, d: nat, rest: nat, x: nat)
    requires d > 0 && x == q * d + rest
    ensures x / d * d == q * d + rest / d * d
  {
    DivMul(q, d, rest);
    assert (q + rest / d) * d == q * d + rest / d * d;
  }

  lemma LeadingBit(path: Path, width: nat)
    requires 0 < |path| <= width
    ensures PathValue(path, width) < Pow2(width) && BitAt(PathValue(path, width), width, 0) == path[0]
  {
    PathValueBound(path, width);
    PathValueBound(path[1..], width - 1);
    DivUnique(PathValue(path, width), Pow2(width - 1), if path[0] then 1 else 0, PathValue(path[1..], width - 1));
  }

  /** Writing a path's value as bits gives the path. */
  lemma {:induction false} TopBitsOfValue(path: Path, width: nat)
    requires |path| <= width
    ensures TopBits(PathValue(path, width), width, |path|) == path
    decreases |path|
  {
    if path != [] {
      LeadingBit(path, width);
      TopBitsFirst(PathValue(path, width), width, |path|);
      TopBitsOfValue(path[1..], width - 1);
    }
  }

  lemma MultipleCancels(a: nat, b: nat, d: nat)
    requires d > 0 && a * d == b * d
    ensures a == b
  {
    DivMul(a, d, 0);
    DivMul(b, d, 0);
  }

  lemma TopBitsMasked(x: nat, width: nat, n: nat)
    requires n <= width && x < Pow2(width)
    ensures TopBits(Masked(x, width, n), width, n) == TopBits(x, width, n)
  {
    ValueOfTopBits(x, width, n);
    TopBitsOfValue(TopBits(x, width, n), width);
  }

  lemma SameCut(x: nat, y: nat, d: nat)
    requires d > 0
    ensures x / d * d == y / d * d <==> x / d == y / d
  {
    var a, b := x / d, y / d;
    if a * d == b * d {
      MultipleCancels(a, b, d);
    }
  }

  lemma SameMasked(x: nat, y: nat, width: nat, n: nat)
    requires n <= width && x < Pow2(width) && y < Pow2(width)
    ensures TopBits(x, width, n) == TopBits(y, width, n) <==> Masked(x, width, n) == Masked(y, width, n)
  {
    ValueOfTopBits(x, width, n);
    ValueOfTopBits(y, width, n);
    TopBitsMasked(x, width, n);
    TopBitsMasked(y, width, n);
  }

  /** Two numbers share their top bits exactly when they agree after the shift. */
  lemma SameTopBits(x: nat, y: nat, width: nat, n: nat)
    requires n <= width && x < Pow2(width) && y < Pow2(width)
    ensures TopBits(x, width, n) == TopBits(y, width, n) <==> x / Pow2(width - n) == y / Pow2(width - n)
  {
    SameMasked(x, y, width, n);
    SameCut(x, y, Pow2(width - n));
  }

  // ---------------------------------------------------------------- canonical networks

  lemma ModTwice(x: nat, d: nat)
    requires d > 0
    ensures x % (2 * d) == 0 <==> x % 2 == 0 && (x / 2) % d == 0
  {
    var h := x / 2;
    assert 2 * (d * (h / d)) == (2 * d) * (h / d);
    DivUnique(x, 2 * d, h / d, 2 * (h % d) + x % 2);
  }

  /** Counting trailing zeros decides divisibility, with no special case for zero or for /0. */
  lemma {:induction false} TrailingZerosMeaning(x: nat, width: nat, k: nat)
    requires k <= width && x < Pow2(width)
    ensures TrailingZeros(x, width) >= k <==> x % Pow2(k) == 0
    decreases k
  {
    if k > 0 {
      TrailingZerosMeaning(x / 2, width - 1, k - 1);
      ModTwice(x, Pow2(k - 1));
    }
  }

  lemma CutUnchanged(x: nat, d: nat)
    requires d > 0
    ensures x / d * d == x <==> x % d == 0
    ensures (x / d * d) % d == 0
  {
    var q := x / d;
    assert x == d * q + x % d;
    DivMul(q, d, 0);
  }

  /** Counting zeros tells whether cutting a number leaves it alone. */
  lemma ZerosAreCut(x: nat, width: nat, k: nat)
    requires k <= width && x < Pow2(width)
    ensures TrailingZeros(x, width) >= k <==> Cut(x, Pow2(k)) == x
    ensures Cut(x, Pow2(k)) % Pow2(k) == 0
  {
    TrailingZerosMeaning(x, width, k);
    CutUnchanged(x, Pow2(k));
  }

  lemma MaskedMeaning(x: nat, width: nat, len: nat)
    requires len <= width && x < Pow2(width)
    ensures TrailingZeros(x, width) >= width - len <==> Masked(x, width, len) == x
    ensures TrailingZeros(Masked(x, width, len), width) >= width - len
  {
    var k := width - len;
    ZerosAreCut(x, width, k);
    DivKeeps(x, Pow2(k));
    TrailingZerosMeaning(Cut(x, Pow2(k)), width, k);
  }

  lemma CanonicalizedParts(n: Network)
    ensures var c := Canonicalized(n);
      Width(c) == Width(n) && c.len == n.len && c.addr == Masked(n.addr, Width(n), n.len) && (c == n <==> c.addr == n.addr)
  {
  }

  /** A network is canonical exactly when clearing its host bits changes nothing. */
  lemma CanonicalMeaning(n: Network)
    ensures IsCanonical(n) <==> Canonicalized(n) == n
    ensures IsCanonical(Canonicalized(n))
  {
    MaskedMeaning(n.addr, Width(n), n.len);
    CanonicalizedParts(n);
  }

  lemma CanonicalizedTwice(n: Network)
    ensures Canonicalized(Canonicalized(n)) == Canonicalized(n)
  {
    CanonicalMeaning(n);
    CanonicalMeaning(Canonicalized(n));
  }

  // ---------------------------------------------------------------- the IPv4-mapped range

  lemma Sizes()
    ensures Pow2(32) == 0x1_0000_0000 && Pow2(128) == Pow2(96) * 0x1_0000_0000
    ensures MAPPED == 0xffff * Pow2(32) && MAPPED + Pow2(32) <= Pow2(128)
  {
    assert Pow2(8) == 256;
    Pow2Add(8, 8);
    Pow2Add(16, 16);
    Pow2Add(96, 32);
    Pow2Add(16, 80);
    assert Pow2(96) == 65536 * Pow2(80);
    assert Pow2(96) * 0x1_0000_0000 >= 65536 * 0x1_0000_0000;
  }

  /** The path of the whole mapped range: eighty zeros, sixteen ones. */
  function MappedPath(): Path {
    TopBits(MAPPED, 128, 96)
  }

  lemma RangeBound(n: Network)
    ensures Range(n) < Pow2(128) && IpToBits(n) == TopBits(Range(n), 128, BitCount(n))
  {
    Sizes();
  }

  lemma TopBitsPrefix(x: nat, width: nat, m: nat, n: nat)
    requires m <= n <= width
    ensures TopBits(x, width, n)[..m] == TopBits(x, width, m)
  {
  }

  /** Every IPv4 network is at or below the mapped range; shifted right its range is 0xffff. */
  lemma MappedInside(addr: nat)
    requires addr < Pow2(128)
    ensures MappedPath() == TopBits(addr, 128, 96) <==> addr / Pow2(32) == 0xffff
  {
    Sizes();
    SameTopBits(MAPPED, addr, 128, 96);
    DivMul(0xffff, Pow2(32), 0);
  }

  lemma V4Inside(n: Network)
    requires n.V4?
    ensures MappedPath() <= IpToBits(n)
  {
    Sizes();
    RangeBound(n);
    DivMul(0xffff, Pow2(32), n.addr);
    DivUnique(n.addr, Pow2(32), 0, n.addr);
    MappedInside(Range(n));
    TopBitsPrefix(Range(n), 128, 96, BitCount(n));
  }

  /** The test the entry gate applies to IPv6 text. */
  predicate TouchesMapped(n: Network) {
    n.V6? &&
    if 1 <= n.len <= 96 then n.addr / Pow2(128 - n.len) == MAPPED / Pow2(128 - n.len)
    else n.addr / Pow2(32) == 0xffff
  }

  lemma ShortTouches(addr: nat, len: nat)
    requires addr < Pow2(128) && 1 <= len <= 96
    ensures addr / Pow2(128 - len) == MAPPED / Pow2(128 - len) <==> !Apart(TopBits(addr, 128, len), MappedPath())
  {
    Sizes();
    SameTopBits(addr, MAPPED, 128, len);
    TopBitsPrefix(MAPPED, 128, len, 96);
    assert TopBits(addr, 128, len) <= MappedPath() <==> TopBits(addr, 128, len) == MappedPath()[..len];
  }

  lemma LongerApart(p: Path, q: Path)
    requires |q| < |p|
    ensures !Apart(p, q) <==> q == p[..|q|]
  {
  }

  lemma LongTouches(addr: nat, len: nat)
    requires addr < Pow2(128) && 96 < len <= 128
    ensures addr / Pow2(32) == 0xffff <==> !Apart(TopBits(addr, 128, len), MappedPath())
  {
    MappedInside(addr);
    TopBitsPrefix(addr, 128, 96, len);
    var path, mapped := TopBits(addr, 128, len), MappedPath();
    assert |mapped| == 96 && path[..96] == TopBits(addr, 128, 96);
    LongerApart(path, mapped);
  }

  /** Apart from ::/0 the shifted comparison finds exactly the IPv6 networks that share an address with IPv4. */
  lemma TouchesMappedMeaning(n: Network)
    requires n.V6? && n.len > 0
    ensures TouchesMapped(n) <==> !Apart(IpToBits(n), MappedPath())
  {
    RangeBound(n);
    if n.len <= 96 {
      ShortTouches(n.addr, n.len);
    } else {
      LongTouches(n.addr, n.len);
    }
  }

  // ---------------------------------------------------------------- round trips

  lemma WrittenRange(path: Path)
    requires |path| <= 128
    ensures Range(BitsToNetwork(path)) == PathValue(path, 128) && BitCount(BitsToNetwork(path)) == |path|
  {
    Sizes();
    var range := PathValue(path, 128);
    assert range == Pow2(32) * (range / Pow2(32)) + range % Pow2(32);
  }

  /** Every path of at most 128 bits is the path of the network it is written as. */
  lemma PathRoundTrip(path: Path)
    requires |path| <= 128
    ensures IpToBits(BitsToNetwork(path)) == path
  {
    TopBitsOfValue(path, 128);
    WrittenRange(path);
    RangeBound(BitsToNetwork(path));
  }

  /** IPv6 text for a network at or below the mapped range; its path is written as IPv4. */
  predicate MappedText(n: Network) {
    n.V6? && n.len >= 96 && n.addr / Pow2(32) == 0xffff
  }

  lemma MappedShare(p: nat, d: nat)
    requires p * d == 0x1_0000_0000
    ensures (0xffff * p) * d == MAPPED
  {
    assert (0xffff * p) * d == 0xffff * (p * d);
  }

  lemma MappedCut(addr: nat, len: nat, p: nat, d: nat)
    requires len <= 32 && p == Pow2(len) && d == Pow2(32 - len)
    ensures (addr + MAPPED) / d * d == addr / d * d + MAPPED
  {
    Sizes();
    Pow2Add(len, 32 - len);
    MappedShare(p, d);
    MaskedAbove(0xffff * p, d, addr, addr + MAPPED);
  }

  lemma ValueOfBits(n: Network)
    ensures PathValue(IpToBits(n), 128) == Range(Canonicalized(n))
  {
    RangeBound(n);
    ValueOfTopBits(Range(n), 128, BitCount(n));
    if n.V4? {
      MappedCut(n.addr, n.len, Pow2(n.len), Pow2(32 - n.len));
    }
  }

  lemma CutKeepsTop(n: Network)
    requires n.V6? && n.len >= 96
    ensures Canonicalized(n).addr / Pow2(32) == n.addr / Pow2(32)
  {
    TopBitsMasked(n.addr, 128, n.len);
    TopBitsPrefix(n.addr, 128, 96, n.len);
    TopBitsPrefix(Canonicalized(n).addr, 128, 96, n.len);
    SameTopBits(n.addr, Canonicalized(n).addr, 128, 96);
  }

  /** Writing a network's path gives its canonical form back, except for IPv6 text inside the mapped range. */
  lemma BitsRoundTrip(n: Network)
    ensures !MappedText(n) ==> BitsToNetwork(IpToBits(n)) == Canonicalized(n)
    ensures MappedText(n) ==> BitsToNetwork(IpToBits(n)).V4?
  {
    ValueOfBits(n);
    Sizes();
    var c := Canonicalized(n);
    if n.V4? {
      DivMul(0xffff, Pow2(32), c.addr);
      DivUnique(c.addr, Pow2(32), 0, c.addr);
    } else if n.len >= 96 {
      CutKeepsTop(n);
    }
  }

  /** The exact condition under which converting there and back is the identity. */
  lemma NetworkRoundTripIff(n: Network)
    ensures BitsToNetwork(IpToBits(n)) == n <==> IsCanonical(n) && !MappedText(n)
  {
    BitsRoundTrip(n);
    CanonicalMeaning(n);
  }

  /** Host bits never reach the path. */
  lemma CanonicalSamePath(n: Network)
    ensures IpToBits(Canonicalized(n)) == IpToBits(n)
  {
    ValueOfBits(n);
    ValueOfBits(Canonicalized(n));
    CanonicalizedTwice(n);
    RangeBound(n);
    RangeBound(Canonicalized(n));
    TopBitsOfValue(IpToBits(n), 128);
    TopBitsOfValue(IpToBits(Canonicalized(n)), 128);
  }

  /** Different canonical networks outside the mapped text have different paths. */
  lemma PathsSeparateNetworks(m: Network, n: Network)
    requires IsCanonical(m) && IsCanonical(n) && !MappedText(m) && !MappedText(n) && IpToBits(m) == IpToBits(n)
    ensures m == n
  {
    NetworkRoundTripIff(m);
    NetworkRoundTripIff(n);
  }

  /** What a path is written as is canonical and outside the mapped text. */
  lemma WrittenNetwork(path: Path)
    requires |path| <= 128
    ensures IsCanonical(BitsToNetwork(path)) && !MappedText(BitsToNetwork(path))
  {
    PathRoundTrip(path);
    NetworkRoundTripIff(BitsToNetwork(path));
  }
}
