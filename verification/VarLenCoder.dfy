/**
 * The variable-length integer code of the binary format: a value is a unary
 * class number followed by its big-endian position inside the class.
 */
module Coders {
  import opened Wrappers
  import opened Powers

  type Bit = b: int | 0 <= b <= 1 witness 0

  const U32: nat := 0x1_0000_0000

  // ---------------------------------------------------------------- specification

  /** The `n` low bits of `v`, most significant first. */
  function BigEndian(n: nat, v: nat): (r: seq<Bit>)
    ensures |r| == n
  {
    if n == 0 then [] else BigEndian(n - 1, v / 2) + [v % 2]
  }

  function BigEndianValue(bits: seq<Bit>): nat {
    if bits == [] then 0 else 2 * BigEndianValue(bits[..|bits| - 1]) + bits[|bits| - 1]
  }

  /** How many integers the classes hold together. */
  function Total(classes: seq<nat>): nat {
    if classes == [] then 0 else Pow2(classes[0]) + Total(classes[1..])
  }

  /** The codeword of the `v`-th integer of the classes; past the last class the walk just ends. */
  function Codeword(classes: seq<nat>, v: nat): seq<Bit>
    requires classes != []
  {
    if v < Pow2(classes[0]) then (if |classes| == 1 then [] else [0]) + BigEndian(classes[0], v)
    else if |classes| == 1 then [1] + BigEndian(classes[0], v - Pow2(classes[0]))
    else [1] + Codeword(classes[1..], v - Pow2(classes[0]))
  }

  /** Length the size routine reports; past the last class it keeps counting as the loop does. */
  function CodeLength(classes: seq<nat>, v: nat): nat
    requires classes != []
  {
    if v < Pow2(classes[0]) then (if |classes| == 1 then 0 else 1) + classes[0]
    else if |classes| == 1 then 1 + classes[0]
    else 1 + CodeLength(classes[1..], v - Pow2(classes[0]))
  }

  /** Reads one integer of the classes at `pos`; None when the stream runs out. */
  function ReadCode(classes: seq<nat>, stream: seq<Bit>, pos: nat): (r: Option<(nat, nat)>)
    requires classes != []
    decreases |classes|
  {
    if |classes| == 1 then ReadPosition(classes[0], stream, pos)
    else if pos >= |stream| then None
    else if stream[pos] == 0 then ReadPosition(classes[0], stream, pos + 1)
    else Raised(Pow2(classes[0]), ReadCode(classes[1..], stream, pos + 1))
  }

  /** A reading with its value moved up by `base`. */
  function Raised(base: nat, r: Option<(nat, nat)>): Option<(nat, nat)> {
    if r.None? then None else Some((base + r.value.0, r.value.1))
  }

  function ReadPosition(n: nat, stream: seq<Bit>, pos: nat): Option<(nat, nat)> {
    if n == 0 then Some((0, pos))
    else if pos + n > |stream| then None
    else Some((BigEndianValue(stream[pos..pos + n]), pos + n))
  }

  // ---------------------------------------------------------------- the code is a bijection

  lemma {:induction false} BigEndianValueBound(bits: seq<Bit>)
    ensures BigEndianValue(bits) < Pow2(|bits|)
  {
    if bits != [] {
      BigEndianValueBound(bits[..|bits| - 1]);
    }
  }

  lemma {:induction false} BigEndianRoundTrip(n: nat, v: nat)
    requires v < Pow2(n)
    ensures BigEndianValue(BigEndian(n, v)) == v
  {
    if n > 0 {
      BigEndianRoundTrip(n - 1, v / 2);
      assert BigEndian(n, v)[..n - 1] == BigEndian(n - 1, v / 2);
    }
  }

  lemma {:induction false} BigEndianOfValue(bits: seq<Bit>)
    ensures BigEndian(|bits|, BigEndianValue(bits)) == bits
  {
    if bits != [] {
      BigEndianOfValue(bits[..|bits| - 1]);
    }
  }

  lemma {:induction false} DivByTwice(v: nat, p: nat)
    requires p > 0
    ensures (v / 2) / p == v / (2 * p)
  {
    var q := (v / 2) / p;
    assert v == 2 * (p * q + (v / 2) % p) + v % 2;
    assert 2 * (p * q) == (2 * p) * q;
    DivUnique(v, 2 * p, q, 2 * ((v / 2) % p) + v % 2);
  }

  lemma DivUnique(v: nat, d: nat, q: nat, r: nat)
    requires v == d * q + r && r < d
    ensures v / d == q && v % d == r
  {
    var e: int := v / d - q;
    assert d * e == r - v % d;
    ProductSign(d, e);
  }

  lemma ProductSign(d: nat, e: int)
    ensures e >= 1 ==> d * e >= d
    ensures e <= -1 ==> d * e <= 0 - d
  {
    assert d * e == d * (e - 1) + d == d * (e + 1) - d;
    if e >= 1 {
      assert d * (e - 1) >= 0;
    } else if e <= -1 {
      assert d * (e + 1) <= 0;
    }
  }

  /** Bit `b` of the big-endian form, the way the encoder computes it by shifting. */
  lemma {:induction false} BigEndianAt(n: nat, v: nat, b: nat)
    requires b < n
    ensures BigEndian(n, v)[b] == (v / Pow2(n - 1 - b)) % 2
  {
    if b < n - 1 {
      BigEndianAt(n - 1, v / 2, b);
      DivByTwice(v, Pow2(n - 2 - b));
    }
  }

  lemma {:induction false} CodewordLength(classes: seq<nat>, v: nat)
    requires classes != []
    ensures |Codeword(classes, v)| == CodeLength(classes, v)
  {
    if v >= Pow2(classes[0]) && |classes| > 1 {
      CodewordLength(classes[1..], v - Pow2(classes[0]));
    }
  }

  /** A reading moves forward inside the stream. */
  lemma {:induction false} ReadAdvances(classes: seq<nat>, stream: seq<Bit>, pos: nat)
    requires classes != [] && pos <= |stream| && ReadCode(classes, stream, pos).Some?
    ensures pos <= ReadCode(classes, stream, pos).value.1 <= |stream|
    ensures |classes| > 1 ==> pos < ReadCode(classes, stream, pos).value.1
  {
    if |classes| > 1 && stream[pos] != 0 {
      ReadAdvances(classes[1..], stream, pos + 1);
    }
  }

  lemma ReadUndoesPosition(n: nat, v: nat, stream: seq<Bit>, pos: nat)
    requires v < Pow2(n) && pos + n <= |stream| && stream[pos..pos + n] == BigEndian(n, v)
    ensures ReadPosition(n, stream, pos) == Some((v, pos + n))
  {
    BigEndianRoundTrip(n, v);
  }

  /** Decoding undoes encoding, wherever the codeword stands in the stream. */
  lemma {:induction false} ReadUndoesCodeword(classes: seq<nat>, v: nat, stream: seq<Bit>, pos: nat)
    requires classes != [] && v < Total(classes)
    requires pos + |Codeword(classes, v)| <= |stream|
    requires stream[pos..pos + |Codeword(classes, v)|] == Codeword(classes, v)
    ensures ReadCode(classes, stream, pos) == Some((v, pos + |Codeword(classes, v)|))
  {
    var word := Codeword(classes, v);
    if |classes| == 1 {
      assert Total(classes) == Pow2(classes[0]) + Total([]);
      ReadUndoesPosition(classes[0], v, stream, pos);
    } else {
      assert stream[pos] == stream[pos..pos + |word|][0] == word[0];
      assert stream[pos + 1..pos + |word|] == word[1..];
      if v < Pow2(classes[0]) {
        assert word[1..] == BigEndian(classes[0], v);
        ReadUndoesPosition(classes[0], v, stream, pos + 1);
      } else {
        assert word[1..] == Codeword(classes[1..], v - Pow2(classes[0]));
        ReadUndoesCodeword(classes[1..], v - Pow2(classes[0]), stream, pos + 1);
      }
    }
  }

  /** The value lies in the classes, and its codeword is what stands between the positions. */
  ghost predicate Spells(classes: seq<nat>, stream: seq<Bit>, pos: nat, v: nat, next: nat)
    requires classes != []
  {
    v < Total(classes) && pos <= next <= |stream| && stream[pos..next] == Codeword(classes, v)
  }

  lemma SpellsMore(classes: seq<nat>, stream: seq<Bit>, pos: nat, v: nat, next: nat)
    requires |classes| > 1 && pos < |stream| && stream[pos] == 1
    requires Spells(classes[1..], stream, pos + 1, v, next)
    ensures Spells(classes, stream, pos, Pow2(classes[0]) + v, next)
  {
    assert stream[pos..next] == [stream[pos]] + stream[pos + 1..next];
  }

  lemma SpellsHere(classes: seq<nat>, stream: seq<Bit>, pos: nat)
    requires classes != [] && pos <= |stream|
    requires var at := if |classes| == 1 then pos else pos + 1;
      (|classes| > 1 ==> pos < |stream| && stream[pos] == 0) && ReadPosition(classes[0], stream, at).Some?
    ensures var at := if |classes| == 1 then pos else pos + 1;
      var (v, next) := ReadPosition(classes[0], stream, at).value;
      Spells(classes, stream, pos, v, next)
  {
    var at := if |classes| == 1 then pos else pos + 1;
    var (v, next) := ReadPosition(classes[0], stream, at).value;
    PositionUndoesRead(classes[0], stream, at);
    assert stream[pos..next] == stream[pos..at] + stream[at..next];
    assert |classes| > 1 ==> stream[pos..at] == [0];
  }

  /** Re-encoding a decoded value gives exactly the bits that were read. */
  lemma {:induction false} CodewordUndoesRead(classes: seq<nat>, stream: seq<Bit>, pos: nat)
    requires classes != [] && pos <= |stream| && ReadCode(classes, stream, pos).Some?
    ensures var (v, next) := ReadCode(classes, stream, pos).value;
      && v < Total(classes)
      && pos <= next <= |stream|
      && stream[pos..next] == Codeword(classes, v)
  {
    if |classes| == 1 || stream[pos] == 0 {
      SpellsHere(classes, stream, pos);
    } else {
      CodewordUndoesRead(classes[1..], stream, pos + 1);
      var (v, next) := ReadCode(classes[1..], stream, pos + 1).value;
      SpellsMore(classes, stream, pos, v, next);
    }
  }

  lemma PositionUndoesRead(n: nat, stream: seq<Bit>, pos: nat)
    requires pos <= |stream| && ReadPosition(n, stream, pos).Some?
    ensures var (v, next) := ReadPosition(n, stream, pos).value;
      v < Pow2(n) && pos <= next <= |stream| && stream[pos..next] == BigEndian(n, v)
  {
    if n > 0 {
      BigEndianOfValue(stream[pos..pos + n]);
      BigEndianValueBound(stream[pos..pos + n]);
    }
  }

  /** The code is complete: enough bits always decode to something. */
  lemma {:induction false} ReadIsTotal(classes: seq<nat>, stream: seq<Bit>, pos: nat)
    requires classes != []
    requires forall i :: 0 <= i < |classes| ==> pos + |classes| + classes[i] <= |stream|
    ensures ReadCode(classes, stream, pos).Some?
  {
    if |classes| > 1 && stream[pos] != 0 {
      forall i | 0 <= i < |classes[1..]| ensures pos + 1 + |classes[1..]| + classes[1..][i] <= |stream| {
        assert classes[1..][i] == classes[i + 1];
      }
      ReadIsTotal(classes[1..], stream, pos + 1);
    }
  }

  /** A bound on every reported length, used to budget the size of a whole program. */
  lemma {:induction false} CodeLengthBound(classes: seq<nat>, v: nat, widest: nat)
    requires classes != []
    requires forall i :: 0 <= i < |classes| ==> classes[i] <= widest
    ensures CodeLength(classes, v) <= |classes| + widest
  {
    if v >= Pow2(classes[0]) && |classes| > 1 {
      CodeLengthBound(classes[1..], v - Pow2(classes[0]), widest);
    }
  }

  // ---------------------------------------------------------------- the coder itself

  datatype VarLenCoder = VarLenCoder(minval: nat, clsbits: seq<nat>, maxval: nat) {

    ghost predicate Valid() {
      clsbits != [] && maxval == minval + Total(clsbits) - 1 && maxval < U32
    }

    predicate CanEncode(val: nat) {
      minval <= val <= maxval
    }

    /** The wrapping `u32` difference the size routine starts from. */
    function Offset(val: nat): nat {
      (val - minval) % U32
    }

    /** The number of bits the encoder spends on `val`. */
    function Size(val: nat): nat
      requires clsbits != []
    {
      CodeLength(clsbits, Offset(val))
    }

    function Bits(val: nat): seq<Bit>
      requires clsbits != [] && minval <= val
    {
      Codeword(clsbits, val - minval)
    }

    function Read(stream: seq<Bit>, pos: nat): (r: Option<(nat, nat)>)
      requires clsbits != []
      ensures r.Some? ==> r.value.0 >= minval
    {
      Raised(minval, ReadCode(clsbits, stream, pos))
    }

    static method New(minval: nat, clsbits: seq<nat>) returns (coder: VarLenCoder)
      requires clsbits != [] && minval + Total(clsbits) <= U32
      ensures coder.Valid() && coder.minval == minval && coder.clsbits == clsbits
    {
      var total := 0;
      var i := 0;
      while i < |clsbits|
        invariant 0 <= i <= |clsbits|
        invariant total + Total(clsbits[i..]) == Total(clsbits)
      {
        assert clsbits[i..][1..] == clsbits[i + 1..];
        total := total + Pow2(clsbits[i]);
        i := i + 1;
      }
      coder := VarLenCoder(minval, clsbits, minval + total - 1);
    }

    /** The size routine: the same class walk as the encoder, counting instead of emitting. */
    method EncodeSize(val: nat) returns (size: nat)
      requires clsbits != []
      ensures size == Size(val)
    {
      var v: nat := Offset(val);
      var ret, bits := 0, 0;
      var k := 0;
      while k < |clsbits|
        invariant 0 <= k <= |clsbits|
        invariant k < |clsbits| ==> ret + CodeLength(clsbits[k..], v) == Size(val)
        invariant k == |clsbits| ==> ret + bits == Size(val)
      {
        bits := clsbits[k];
        assert clsbits[k..][0] == bits && clsbits[k..][1..] == clsbits[k + 1..];
        if v >= Pow2(bits) {
          v := v - Pow2(bits);
          ret := ret + 1;
        } else {
          ret := ret + if k + 1 < |clsbits| then 1 else 0;
          break;
        }
        k := k + 1;
      }
      size := ret + bits;
    }

    method Encode(val: nat, out: seq<Bit>) returns (ret: seq<Bit>)
      requires clsbits != [] && minval <= val
      ensures ret == out + Bits(val)
    {
      var v: nat := val - minval;
      ret := out;
      var bits := 0;
      var k := 0;
      ghost var word := Bits(val);
      while k < |clsbits|
        invariant 0 <= k <= |clsbits|
        invariant k < |clsbits| ==> ret + Codeword(clsbits[k..], v) == out + word
        invariant k == |clsbits| ==> ret + BigEndian(bits, v) == out + word
      {
        bits := clsbits[k];
        assert clsbits[k..][0] == bits && clsbits[k..][1..] == clsbits[k + 1..];
        if v >= Pow2(bits) {
          v := v - Pow2(bits);
          ret := ret + [1];
        } else {
          if k + 1 < |clsbits| {
            ret := ret + [0];
          }
          break;
        }
        k := k + 1;
      }
      ret := EncodePosition(bits, v, ret);
    }

    /** The encoder's second loop: the position inside the class, high bit first. */
    static method EncodePosition(bits: nat, v: nat, out: seq<Bit>) returns (ret: seq<Bit>)
      ensures ret == out + BigEndian(bits, v)
    {
      ret := out;
      var b := 0;
      while b < bits
        invariant 0 <= b <= bits
        invariant ret == out + BigEndian(bits, v)[..b]
      {
        BigEndianAt(bits, v, b);
        ret := ret + [(v / Pow2(bits - 1 - b)) % 2];
        b := b + 1;
      }
    }

    method Decode(stream: seq<Bit>, start: nat) returns (r: Option<(nat, nat)>)
      requires clsbits != []
      ensures r == Read(stream, start)
    {
      var bitpos: nat := start;
      var val: nat := minval;
      var bits := 0;
      var k := 0;
      while k < |clsbits|
        invariant 0 <= k < |clsbits|
        invariant val >= minval
        invariant Read(stream, start) == Raised(val, ReadCode(clsbits[k..], stream, bitpos))
        decreases |clsbits| - k
      {
        bits := clsbits[k];
        assert clsbits[k..][0] == bits && clsbits[k..][1..] == clsbits[k + 1..];
        var bit: Bit := 0;
        if k + 1 < |clsbits| {
          if bitpos >= |stream| {
            return None;
          }
          bit := stream[bitpos];
          bitpos := bitpos + 1;
        }
        if bit == 0 {
          break;
        }
        val := val + Pow2(bits);
        k := k + 1;
      }
      assert Read(stream, start) == Raised(val, ReadPosition(bits, stream, bitpos));
      r := DecodePosition(bits, val, stream, bitpos);
    }

    /** The decoder's second loop: the position inside the class, high bit first. */
    static method DecodePosition(bits: nat, base: nat, stream: seq<Bit>, first: nat) returns (r: Option<(nat, nat)>)
      ensures r == Raised(base, ReadPosition(bits, stream, first))
    {
      var bitpos, val := first, base;
      var i := 0;
      while i < bits
        invariant 0 <= i <= bits && bitpos == first + i
        invariant i > 0 ==> bitpos <= |stream|
        invariant i > 0 ==> val == base + BigEndianValue(stream[first..bitpos]) * Pow2(bits - i)
        invariant i == 0 ==> val == base
      {
        if bitpos >= |stream| {
          return None;
        }
        var bit := stream[bitpos];
        bitpos := bitpos + 1;
        ShiftIn(stream[first..bitpos], Pow2(bits - 1 - i));
        assert stream[first..bitpos][..i] == stream[first..bitpos - 1];
        val := val + bit * Pow2(bits - 1 - i);
        i := i + 1;
      }
      return Some((val, bitpos));
    }
  }

  lemma ShiftIn(read: seq<Bit>, p: nat)
    requires read != []
    ensures BigEndianValue(read) * p == BigEndianValue(read[..|read| - 1]) * (2 * p) + read[|read| - 1] * p
  {
    Distribute(BigEndianValue(read[..|read| - 1]), read[|read| - 1], p);
  }

  lemma Distribute(high: nat, bit: nat, p: nat)
    ensures (2 * high + bit) * p == high * (2 * p) + bit * p
  {
  }
}
