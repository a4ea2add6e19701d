/** The instruction tree of the binary format: its coders, its smart constructors, its meaning. */
module BinNodes {
  import opened Wrappers
  import opened Powers
  import opened Coders
  import opened Tries

  /** Largest encodable ASN, match value and jump distance. */
  const ASN_MAX: nat := 33_521_664
  const MATCH_MAX: nat := 511
  const JUMP_MAX: nat := 2_147_483_632

  /** `count` classes of widths rising by one. */
  function Widths(first: nat, count: nat): (r: seq<nat>)
    ensures |r| == count && forall i :: 0 <= i < count ==> r[i] == first + i
  {
    seq(count, i => first + i)
  }

  const CODER_INS := VarLenCoder(0, [0, 0, 1], 3)
  const CODER_ASN := VarLenCoder(1, Widths(15, 10), ASN_MAX)
  const CODER_MATCH := VarLenCoder(2, Widths(1, 8), MATCH_MAX)
  const CODER_JUMP := VarLenCoder(17, Widths(5, 26), JUMP_MAX)

  /** Classes of consecutive widths hold a difference of two powers of two. */
  lemma {:induction false} ConsecutiveTotal(classes: seq<nat>, first: nat)
    requires forall i :: 0 <= i < |classes| ==> classes[i] == first + i
    ensures Total(classes) == Pow2(first + |classes|) - Pow2(first)
  {
    if classes != [] {
      ConsecutiveTotal(classes[1..], first + 1);
    }
  }

  lemma Pow2Values()
    ensures Pow2(1) == 2 && Pow2(5) == 32 && Pow2(9) == 512 && Pow2(15) == 32768
    ensures Pow2(25) == 33554432 && Pow2(31) == 2147483648
  {
    Pow2Add(5, 10);
    Pow2Add(10, 15);
    Pow2Add(15, 16);
    assert Pow2(5) == 32 && Pow2(10) == 1024 && Pow2(16) == 65536;
  }

  lemma InsValid()
    ensures CODER_INS.Valid()
  {
    assert [0, 0, 1][1..] == [0, 1] && [0, 1][1..] == [1] && [1][1..] == [];
    assert Pow2(0) == 1 && Pow2(1) == 2;
    assert Total([1]) == 2 + Total([]);
    assert Total([0, 1]) == 1 + Total([1]);
    assert Total([0, 0, 1]) == 1 + Total([0, 1]);
  }

  lemma AsnValid()
    ensures CODER_ASN.Valid()
  {
    Pow2Values();
    ConsecutiveTotal(CODER_ASN.clsbits, 15);
  }

  lemma MatchValid()
    ensures CODER_MATCH.Valid()
  {
    Pow2Values();
    ConsecutiveTotal(CODER_MATCH.clsbits, 1);
  }

  lemma JumpTotal()
    ensures Total(CODER_JUMP.clsbits) == JUMP_MAX - 16
  {
    Pow2Values();
    ConsecutiveTotal(CODER_JUMP.clsbits, 5);
  }

  lemma JumpValid()
    ensures CODER_JUMP.Valid()
  {
    JumpTotal();
  }

  /** The largest encodable values are what the class tables add up to. */
  lemma CodersValid()
    ensures CODER_INS.Valid() && CODER_ASN.Valid() && CODER_MATCH.Valid() && CODER_JUMP.Valid()
  {
    InsValid();
    AsnValid();
    MatchValid();
    JumpValid();
  }

  // ---------------------------------------------------------------- what the class tables come to

  function BitLength(v: nat): nat {
    if v == 0 then 0 else 1 + BitLength(v / 2)
  }

  lemma {:induction false} BitLengthBounds(v: nat, n: nat)
    requires 0 < v < Pow2(n)
    ensures 1 <= BitLength(v) <= n && Pow2(BitLength(v) - 1) <= v < Pow2(BitLength(v))
  {
    assert BitLength(v) == 1 + BitLength(v / 2);
    if v == 1 {
      assert n != 0;
    } else {
      BitLengthBounds(v / 2, n - 1);
    }
  }

  /** The only length whose powers of two enclose the value. */
  lemma {:induction false} BitLengthIs(v: nat, n: nat)
    requires n > 0 && Pow2(n - 1) <= v < Pow2(n)
    ensures BitLength(v) == n
  {
    assert BitLength(v) == 1 + BitLength(v / 2);
    if n > 1 {
      BitLengthIs(v / 2, n - 1);
    }
  }

  function Ones(n: int): seq<Bit> {
    if n <= 0 then [] else [1] + Ones(n - 1)
  }

  /**
   * With `count` classes whose widths rise by one from `first`: one 1 for every bit the
   * value has beyond `first + 1`, a 0 unless that is the most there can be, then the bits
   * below the leading one.
   */
  function Gamma(first: nat, count: nat, v: nat): seq<Bit>
    requires v > 0
  {
    var more := BitLength(v) - 1 - first;
    Ones(more) + (if more < count - 1 then [0] else []) + BigEndian(BitLength(v) - 1, v)
  }

  /** Bits past the low ones do not show. */
  lemma {:induction false} BigEndianLow(n: nat, v: nat)
    ensures BigEndian(n, v + Pow2(n)) == BigEndian(n, v)
  {
    if n > 0 {
      BigEndianLow(n - 1, v / 2);
      assert (v + Pow2(n)) / 2 == v / 2 + Pow2(n - 1);
    }
  }

  lemma FirstClass(first: nat, count: nat, v: nat)
    requires v < Pow2(first) && count > 0
    ensures Gamma(first, count, v + Pow2(first)) == (if count == 1 then [] else [0]) + BigEndian(first, v)
  {
    BitLengthIs(v + Pow2(first), first + 1);
    BigEndianLow(first, v);
  }

  lemma LaterClass(classes: seq<nat>, v: nat)
    requires classes != [] && Pow2(classes[0]) <= v < Total(classes)
    ensures |classes| > 1 && v - Pow2(classes[0]) < Total(classes[1..])
    ensures Codeword(classes, v) == [1] + Codeword(classes[1..], v - Pow2(classes[0]))
  {
    if |classes| == 1 {
      LastTotal(classes);
      assert false;
    }
  }

  lemma LastTotal(classes: seq<nat>)
    requires |classes| == 1
    ensures Total(classes) == Pow2(classes[0])
  {
    assert classes[1..] == [];
  }

  ghost predicate Consecutive(classes: seq<nat>, first: nat) {
    classes != [] && forall i :: 0 <= i < |classes| ==> classes[i] == first + i
  }

  /** The codeword of the position with leading one put back is the closed form. */
  ghost predicate ClosedForm(classes: seq<nat>, first: nat, v: nat)
    requires classes != [] && v >= Pow2(first)
  {
    Codeword(classes, v - Pow2(first)) == Gamma(first, |classes|, v)
  }

  lemma FirstForm(classes: seq<nat>, first: nat, v: nat)
    requires Consecutive(classes, first) && Pow2(first) <= v < Pow2(first + 1)
    ensures ClosedForm(classes, first, v)
  {
    FirstClass(first, |classes|, v - Pow2(first));
  }

  lemma LaterForm(classes: seq<nat>, first: nat, v: nat)
    requires Consecutive(classes, first) && v >= Pow2(first + 1) && v - Pow2(first) < Total(classes)
    ensures |classes| > 1 && v - Pow2(first + 1) < Total(classes[1..])
    ensures ClosedForm(classes[1..], first + 1, v) ==> ClosedForm(classes, first, v)
  {
    LaterClass(classes, v - Pow2(first));
    GammaMore(first, |classes|, v);
  }

  /** A code of consecutive widths, in closed form. */
  lemma {:induction false} ConsecutiveCode(classes: seq<nat>, first: nat, v: nat)
    requires Consecutive(classes, first) && v >= Pow2(first) && v - Pow2(first) < Total(classes)
    ensures ClosedForm(classes, first, v)
    decreases |classes|
  {
    if v < Pow2(first + 1) {
      FirstForm(classes, first, v);
    } else {
      LaterForm(classes, first, v);
      ConsecutiveCode(classes[1..], first + 1, v);
    }
  }

  lemma GammaMore(first: nat, count: nat, v: nat)
    requires v >= Pow2(first + 1) && count > 1
    ensures Gamma(first, count, v) == [1] + Gamma(first + 1, count - 1, v)
  {
    LongEnough(v, first + 1);
    assert Ones(BitLength(v) - 1 - first) == [1] + Ones(BitLength(v) - 2 - first);
  }

  lemma {:induction false} LongEnough(v: nat, n: nat)
    requires v >= Pow2(n)
    ensures BitLength(v) > n
  {
    if n > 0 {
      LongEnough(v / 2, n - 1);
    }
  }

  lemma {:induction false} OnesLength(n: nat)
    ensures |Ones(n)| == n
  {
    if n > 0 {
      OnesLength(n - 1);
    }
  }

  /** Twice the bit length, less what the narrowest class saves, and no stop bit in the widest. */
  function GammaSize(first: nat, count: nat, v: nat): int {
    2 * (BitLength(v) - 1) - first + if BitLength(v) < first + count then 1 else 0
  }

  lemma GammaLength(first: nat, count: nat, v: nat)
    requires v >= Pow2(first)
    ensures |Gamma(first, count, v)| == GammaSize(first, count, v)
  {
    LongEnough(v, first);
    OnesLength(BitLength(v) - 1 - first);
  }

  /** An argument code in closed form: which bits a value takes, and how many. */
  lemma CodesOf(coder: VarLenCoder, first: nat, count: nat, v: nat, shifted: nat)
    requires coder.Valid() && coder.clsbits == Widths(first, count) && coder.CanEncode(v)
    requires shifted == v - coder.minval + Pow2(first)
    ensures coder.Bits(v) == Gamma(first, count, shifted) && coder.Size(v) == GammaSize(first, count, shifted)
  {
    ConsecutiveCode(coder.clsbits, first, shifted);
    CodewordLength(coder.clsbits, v - coder.minval);
    GammaLength(first, count, shifted);
  }

  lemma AsnCode(v: nat)
    requires 1 <= v <= ASN_MAX
    ensures CODER_ASN.Bits(v) == Gamma(15, 10, v + 32767)
    ensures var n := BitLength(v + 32767); CODER_ASN.Size(v) == 2 * n - 17 + if n < 25 then 1 else 0
  {
    AsnValid();
    Pow2Values();
    CodesOf(CODER_ASN, 15, 10, v, v + 32767);
  }

  /** n bits to compare take 2 n bits, and eight of them 15. */
  lemma MatchCode(v: nat)
    requires 2 <= v <= MATCH_MAX
    ensures CODER_MATCH.Bits(v) == Gamma(1, 8, v)
    ensures var n := BitLength(v) - 1; CODER_MATCH.Size(v) == 2 * n - 1 + if n < 8 then 1 else 0
  {
    MatchValid();
    assert Pow2(1) == 2;
    CodesOf(CODER_MATCH, 1, 8, v, v);
  }

  lemma JumpCode(v: nat)
    requires 17 <= v <= JUMP_MAX
    ensures CODER_JUMP.Bits(v) == Gamma(5, 26, v + 15)
    ensures var n := BitLength(v + 15); CODER_JUMP.Size(v) == 2 * n - 7 + if n < 31 then 1 else 0
  {
    JumpValid();
    Pow2Values();
    CodesOf(CODER_JUMP, 5, 26, v, v + 15);
  }

  /** A MATCH argument: a leading one, then the bits to compare. */
  type Pattern = v: nat | v > 0 witness 1

  datatype BinNode =
    | Return(asn: nat)
    | Jump(left: BinNode, right: BinNode)
    | Match(val: Pattern, sub: BinNode)
    | Default(fallback: nat, inner: BinNode)
    | End

  const RETURN: nat := 0
  const JUMP: nat := 1
  const MATCH: nat := 2
  const DEFAULT: nat := 3
  const END: nat := 4

  // ---------------------------------------------------------------- smart constructors

  /** The size a node is built with: its instruction, its argument and the programs under it, in bits. */
  function Size(n: BinNode): nat {
    match n
    case Return(v) => CODER_INS.Size(RETURN) + CODER_ASN.Size(v)
    case Jump(left, right) => CODER_INS.Size(JUMP) + CODER_JUMP.Size(Size(left) % U32) + Size(left) + Size(right)
    case Match(val, sub) => CODER_INS.Size(MATCH) + CODER_MATCH.Size(val) + Size(sub)
    case Default(v, sub) => CODER_INS.Size(DEFAULT) + CODER_ASN.Size(v) + Size(sub)
    case End => 0
  }

  /** The argument with one more bit, 1 or 0, to compare first. */
  function WithOne(v: Pattern): Pattern {
    v + Pow2(BitLength(v))
  }

  function WithZero(v: Pattern): Pattern {
    v + Pow2(BitLength(v) - 1)
  }

  /** A MATCH short enough to take one more bit. */
  predicate Fusible(n: BinNode) {
    n.Match? && n.val <= 0xff
  }

  /** Follows one of two programs on the next bit, absorbing it into a MATCH where one side fails. */
  function BranchNode(left: BinNode, right: BinNode): BinNode {
    if left.End? && right.End? then left
    else if left.End? then
      if Fusible(right) then
        Match(WithOne(right.val), right.sub)
      else Match(3, right)
    else if right.End? then
      if Fusible(left) then
        Match(WithZero(left.val), left.sub)
      else Match(2, left)
    else Jump(left, right)
  }

  function DefaultNode(v: nat, sub: BinNode): BinNode {
    if sub.End? then Return(v)
    else if sub.Return? || sub.Default? then sub
    else Default(v, sub)
  }

  // ---------------------------------------------------------------- meaning

  /** The range a MATCH argument wraps around `sub`: one bit of the path per bit below the top one. */
  function Wrap(val: nat, sub: Trie, fallback: nat): Trie {
    if val < 2 then sub
    else Wrap(val / 2, if val % 2 != 0 then Merge(Leaf(fallback), sub) else Merge(sub, Leaf(fallback)), fallback)
  }

  /** The map a program denotes where failing answers `fallback`; the empty program always fails. */
  function Eval(n: BinNode, fallback: nat): Trie {
    match n
    case Return(v) => Leaf(v)
    case Jump(l, r) => Merge(Eval(l, fallback), Eval(r, fallback))
    case Match(val, sub) => Wrap(val, Eval(sub, fallback), fallback)
    case Default(v, sub) => Eval(sub, v)
    case End => Leaf(fallback)
  }

  lemma {:induction false} WrapHigh(v: Pattern, sub: Trie, fallback: nat)
    ensures Wrap(WithOne(v), sub, fallback) == Merge(Leaf(fallback), Wrap(v, sub, fallback))
    ensures Wrap(WithZero(v), sub, fallback) == Merge(Wrap(v, sub, fallback), Leaf(fallback))
    decreases v
  {
    if v > 1 {
      var sub' := if v % 2 != 0 then Merge(Leaf(fallback), sub) else Merge(sub, Leaf(fallback));
      WrapHigh(v / 2, sub', fallback);
      assert WithOne(v) / 2 == WithOne(v / 2) && WithOne(v) % 2 == v % 2;
      assert WithZero(v) / 2 == WithZero(v / 2) && WithZero(v) % 2 == v % 2;
    } else {
      assert BitLength(1) == 1 && Pow2(1) == 2 && Pow2(0) == 1;
      WrapOneBit(sub, fallback);
    }
  }

  lemma WrapOneBit(sub: Trie, fallback: nat)
    ensures Wrap(3, sub, fallback) == Merge(Leaf(fallback), sub)
    ensures Wrap(2, sub, fallback) == Merge(sub, Leaf(fallback))
  {
    assert Wrap(3, sub, fallback) == Wrap(1, Merge(Leaf(fallback), sub), fallback);
    assert Wrap(2, sub, fallback) == Wrap(1, Merge(sub, Leaf(fallback)), fallback);
  }

  lemma FailLeftMeaning(right: BinNode, fallback: nat)
    requires !right.End?
    ensures Eval(BranchNode(End, right), fallback) == Merge(Leaf(fallback), Eval(right, fallback))
  {
    if Fusible(right) {
      var val, sub := right.val, right.sub;
      WrapHigh(val, Eval(sub, fallback), fallback);
      assert BranchNode(End, right) == Match(WithOne(val), sub);
    } else {
      WrapOneBit(Eval(right, fallback), fallback);
      assert BranchNode(End, right) == Match(3, right);
    }
  }

  lemma FailRightMeaning(left: BinNode, fallback: nat)
    requires !left.End?
    ensures Eval(BranchNode(left, End), fallback) == Merge(Eval(left, fallback), Leaf(fallback))
  {
    if Fusible(left) {
      var val, sub := left.val, left.sub;
      WrapHigh(val, Eval(sub, fallback), fallback);
      assert BranchNode(left, End) == Match(WithZero(val), sub);
    } else {
      WrapOneBit(Eval(left, fallback), fallback);
      assert BranchNode(left, End) == Match(2, left);
    }
  }

  /** Absorbing a failing side into a MATCH does not change what the pair denotes. */
  lemma BranchNodeMeaning(left: BinNode, right: BinNode, fallback: nat)
    ensures Eval(BranchNode(left, right), fallback) == Merge(Eval(left, fallback), Eval(right, fallback))
  {
    if left.End? && !right.End? {
      FailLeftMeaning(right, fallback);
      assert BranchNode(left, right) == BranchNode(End, right);
    } else if right.End? && !left.End? {
      FailRightMeaning(left, fallback);
      assert BranchNode(left, right) == BranchNode(left, End);
    }
  }

  lemma DefaultNodeMeaning(v: nat, sub: BinNode, fallback: nat)
    ensures Eval(DefaultNode(v, sub), fallback) == Eval(sub, v)
  {
  }

  lemma {:induction false} WrapCanonical(val: nat, sub: Trie, fallback: nat)
    requires Canonical(sub)
    ensures Canonical(Wrap(val, sub, fallback))
    decreases val
  {
    if val >= 2 {
      WrapCanonical(val / 2, if val % 2 != 0 then Merge(Leaf(fallback), sub) else Merge(sub, Leaf(fallback)), fallback);
    }
  }

  lemma {:induction false} EvalCanonical(n: BinNode, fallback: nat)
    ensures Canonical(Eval(n, fallback))
  {
    match n {
      case Return(v) =>
      case Jump(l, r) =>
        EvalCanonical(l, fallback);
        EvalCanonical(r, fallback);
      case Match(val, sub) =>
        EvalCanonical(sub, fallback);
        WrapCanonical(val, Eval(sub, fallback), fallback);
      case Default(v, sub) => EvalCanonical(sub, v);
      case End =>
    }
  }

  // ---------------------------------------------------------------- what the constructors build

  /**
   * Programs without End, as the constructors leave them: values are
   * in range below, and a DEFAULT never stands on a RETURN or another DEFAULT.
   */
  ghost predicate WellFormed(n: BinNode) {
    match n
    case Return(v) => v >= 1
    case Jump(l, r) => WellFormed(l) && WellFormed(r)
    case Match(val, sub) => 2 <= val <= MATCH_MAX && WellFormed(sub)
    case Default(v, sub) => v >= 1 && WellFormed(sub) && (sub.Jump? || sub.Match?)
    case End => false
  }

  /** End occurs as the whole program or not at all. */
  ghost predicate Built(n: BinNode) {
    n == End || WellFormed(n)
  }

  lemma InsSizes()
    ensures CODER_INS.Size(RETURN) == 1 && CODER_INS.Size(JUMP) == 2
    ensures CODER_INS.Size(MATCH) == 3 && CODER_INS.Size(DEFAULT) == 3
  {
    var c := [0, 0, 1];
    assert c[1..] == [0, 1] && [0, 1][1..] == [1];
    assert Pow2(0) == 1 && Pow2(1) == 2;
    assert CodeLength([0, 0, 1], 0) == 1;
    assert CodeLength([0, 0, 1], 1) == 1 + CodeLength([0, 1], 0) == 2;
    assert CodeLength([0, 0, 1], 2) == 1 + CodeLength([0, 1], 1) == 2 + CodeLength([1], 0) == 3;
    assert CodeLength([0, 0, 1], 3) == 1 + CodeLength([0, 1], 2) == 2 + CodeLength([1], 1) == 3;
  }

  lemma AsnSizeAtLeast(v: nat)
    ensures CODER_ASN.Size(v) >= 16
  {
    CodeLengthAtLeast(CODER_ASN.clsbits, CODER_ASN.Offset(v), 15);
  }

  lemma {:induction false} CodeLengthAtLeast(classes: seq<nat>, v: nat, narrowest: nat)
    requires classes != []
    requires forall i :: 0 <= i < |classes| ==> classes[i] >= narrowest
    ensures CodeLength(classes, v) >= narrowest + if |classes| == 1 && v < Pow2(classes[0]) then 0 else 1
  {
    if v >= Pow2(classes[0]) && |classes| > 1 {
      CodeLengthAtLeast(classes[1..], v - Pow2(classes[0]), narrowest);
    }
  }

  /** The smallest program takes 17 bits, which is where the jump coder starts. */
  lemma {:induction false} SmallestProgram(n: BinNode)
    requires WellFormed(n)
    ensures Size(n) >= CODER_JUMP.minval == 17
  {
    InsSizes();
    match n {
      case Return(v) => AsnSizeAtLeast(v);
      case Jump(l, r) => SmallestProgram(l);
      case Match(val, sub) => SmallestProgram(sub);
      case Default(v, sub) => SmallestProgram(sub);
      case End =>
    }
  }

  /** A fused MATCH argument still fits nine bits. */
  lemma FusedPattern(v: nat)
    requires 2 <= v <= 0xff
    ensures 2 <= WithOne(v) <= MATCH_MAX && 2 <= WithZero(v) <= MATCH_MAX
  {
    assert Pow2(8) == 256;
    BitLengthBounds(v, 8);
    Pow2Monotone(BitLength(v), 8);
  }

  lemma MatchBuilt(v: Pattern, sub: BinNode)
    requires 2 <= v <= MATCH_MAX && WellFormed(sub)
    ensures WellFormed(Match(v, sub))
  {
  }

  lemma FailLeftBuilt(right: BinNode)
    requires WellFormed(right)
    ensures WellFormed(BranchNode(End, right))
  {
    if Fusible(right) {
      var val := right.val;
      FusedPattern(val);
      MatchBuilt(WithOne(val), right.sub);
    } else {
      MatchBuilt(3, right);
    }
  }

  lemma FailRightBuilt(left: BinNode)
    requires WellFormed(left)
    ensures WellFormed(BranchNode(left, End))
  {
    if Fusible(left) {
      var val := left.val;
      FusedPattern(val);
      MatchBuilt(WithZero(val), left.sub);
    } else {
      MatchBuilt(2, left);
    }
  }

  lemma BranchNodeBuilt(left: BinNode, right: BinNode)
    requires Built(left) && Built(right)
    ensures Built(BranchNode(left, right))
    ensures BranchNode(left, right) == End <==> left == End && right == End
  {
    if left == End && right != End {
      FailLeftBuilt(right);
    } else if right == End && left != End {
      FailRightBuilt(left);
    }
  }

  lemma DefaultNodeBuilt(v: nat, sub: BinNode)
    requires v >= 1 && Built(sub)
    ensures WellFormed(DefaultNode(v, sub))
  {
  }

  // ---------------------------------------------------------------- decoding to a map

  /** The interpreter of decoded programs; End has no meaning inside one. */
  function Interpret(n: BinNode, fallback: nat): Option<Trie> {
    match n
    case Return(v) => Some(Leaf(v))
    case Jump(l, r) =>
      var lt :- Interpret(l, fallback);
      var rt :- Interpret(r, fallback);
      Some(Merge(lt, rt))
    case Match(val, sub) =>
      var st :- Interpret(sub, fallback);
      Some(Wrap(val, st, fallback))
    case Default(v, sub) => Interpret(sub, v)
    case End => None
  }

  /** The whole program: End alone is the empty map. */
  function FromNode(n: BinNode): Option<Trie> {
    if n.End? then Some(Leaf(0)) else Interpret(n, 0)
  }

  lemma {:induction false} InterpretIsEval(n: BinNode, fallback: nat)
    requires WellFormed(n)
    ensures Interpret(n, fallback) == Some(Eval(n, fallback))
  {
    match n {
      case Return(v) =>
      case Jump(l, r) =>
        InterpretIsEval(l, fallback);
        InterpretIsEval(r, fallback);
      case Match(val, sub) => InterpretIsEval(sub, fallback);
      case Default(v, sub) => InterpretIsEval(sub, v);
      case End =>
    }
  }

  /** Recursion over the program, with a loop over the bits of a MATCH. */
  method RunInterpret(n: BinNode, fallback: nat) returns (r: Option<Trie>)
    ensures r == Interpret(n, fallback)
    decreases n
  {
    match n {
      case Return(v) => return Some(Leaf(v));
      case Jump(left, right) =>
        var lt := RunInterpret(left, fallback);
        if lt.None? {
          return None;
        }
        var rt := RunInterpret(right, fallback);
        if rt.None? {
          return None;
        }
        return Some(Merge(lt.value, rt.value));
      case Match(v, s) =>
        var st := RunInterpret(s, fallback);
        if st.None? {
          return None;
        }
        var val: nat, sub := v, st.value;
        while val >= 2
          invariant Wrap(val, sub, fallback) == Wrap(v, st.value, fallback)
        {
          var bit := val % 2;
          val := val / 2;
          sub := if bit != 0 then Merge(Leaf(fallback), sub) else Merge(sub, Leaf(fallback));
        }
        return Some(sub);
      case Default(v, s) => r := RunInterpret(s, v);
      case End => return None;
    }
  }
}
