/** Exactly which byte strings are maps, and which map each of them is. */
module Files {
  import opened Wrappers
  import opened Bytes
  import opened Powers
  import opened Coders
  import opened Tries
  import opened BinNodes
  import opened Wire

  // ---------------------------------------------------------------- programs as they may be written

  /** The bits of a program whose every JUMP names the length of its left side. */
  function Spelled(w: FieldCode, n: BinNode): seq<Bit> {
    match n
    case Return(v) => w.write(Opcode, RETURN) + w.write(Asn, v)
    case Jump(l, r) =>
      w.write(Opcode, JUMP) + w.write(Distance, |Spelled(w, l)|) + (Spelled(w, l) + Spelled(w, r))
    case Match(val, sub) => w.write(Opcode, MATCH) + w.write(Argument, val) + Spelled(w, sub)
    case Default(v, sub) => w.write(Opcode, DEFAULT) + w.write(Asn, v) + Spelled(w, sub)
    case End => []
  }

  /** No End, and every argument and distance is one its coder can carry. */
  ghost predicate Spellable(w: FieldCode, n: BinNode) {
    match n
    case Return(v) => InRange(Asn, v)
    case Jump(l, r) => InRange(Distance, |Spelled(w, l)|) && Spellable(w, l) && Spellable(w, r)
    case Match(val, sub) => InRange(Argument, val) && Spellable(w, sub)
    case Default(v, sub) => InRange(Asn, v) && Spellable(w, sub)
    case End => false
  }

  /** What the decoder's constructors make of the program. */
  function Rebuilt(n: BinNode): BinNode {
    match n
    case Return(v) => n
    case Jump(l, r) => BranchNode(Rebuilt(l), Rebuilt(r))
    case Match(val, sub) => Match(val, Rebuilt(sub))
    case Default(v, sub) => DefaultNode(v, Rebuilt(sub))
    case End => n
  }

  lemma {:induction false} RebuiltMeaning(n: BinNode, fallback: nat)
    ensures Eval(Rebuilt(n), fallback) == Eval(n, fallback)
  {
    match n {
      case Return(v) =>
      case Jump(l, r) =>
        RebuiltMeaning(l, fallback);
        RebuiltMeaning(r, fallback);
        BranchNodeMeaning(Rebuilt(l), Rebuilt(r), fallback);
      case Match(val, sub) => RebuiltMeaning(sub, fallback);
      case Default(v, sub) =>
        RebuiltMeaning(sub, v);
        DefaultNodeMeaning(v, Rebuilt(sub), fallback);
      case End =>
    }
  }

  // ---------------------------------------------------------------- reading a written program

  /** The decoder reads the program at `pos` and stops where it ends. */
  ghost predicate ReadAs(w: FieldCode, n: BinNode, bits: seq<Bit>, pos: nat)
    requires Lawful(w)
  {
    pos <= |bits| && DecodeNode(w, bits, pos) == Some((Rebuilt(n), pos + |Spelled(w, n)|))
  }

  /** If the program stands at `pos`, it is read there. */
  ghost predicate ReadsSpelled(w: FieldCode, n: BinNode, bits: seq<Bit>, pos: nat)
    requires Lawful(w)
  {
    Spellable(w, n) && At(bits, pos, Spelled(w, n)) ==> ReadAs(w, n, bits, pos)
  }

  /** An opcode and its argument in front of something else. */
  ghost predicate Headed(w: FieldCode, ins: nat, f: Field, v: nat, rest: seq<Bit>, bits: seq<Bit>, pos: nat) {
    var at := pos + |w.write(Opcode, ins)|;
    && HeadAt(w, ins, f, v, bits, pos)
    && At(bits, pos + HeadLength(w, ins, f, v), rest)
  }

  lemma HeadStands(w: FieldCode, ins: nat, f: Field, v: nat, rest: seq<Bit>, bits: seq<Bit>, pos: nat)
    requires Lawful(w) && InRange(Opcode, ins) && InRange(f, v)
    ensures At(bits, pos, w.write(Opcode, ins) + w.write(f, v) + rest) ==> Headed(w, ins, f, v, rest, bits, pos)
  {
    if At(bits, pos, w.write(Opcode, ins) + w.write(f, v) + rest) {
      HeadAppend(w, ins, f, v, rest, bits, pos);
    }
  }

  lemma ReadsReturn(w: FieldCode, v: nat, bits: seq<Bit>, pos: nat)
    requires Lawful(w)
    ensures ReadsSpelled(w, Return(v), bits, pos)
  {
    if InRange(Asn, v) {
      assert Spelled(w, Return(v)) + [] == Spelled(w, Return(v));
      HeadStands(w, RETURN, Asn, v, [], bits, pos);
    }
  }

  /** After the head, the body of the decoder does what is left to do. */
  lemma HeadedDecodes(w: FieldCode, ins: nat, f: Field, v: nat, rest: seq<Bit>, bits: seq<Bit>, pos: nat)
    requires Lawful(w) && Headed(w, ins, f, v, rest, bits, pos)
    ensures var at := pos + |w.write(Opcode, ins)|;
      && at <= |bits| && w.read(f, bits, at) == Some((v, pos + HeadLength(w, ins, f, v)))
      && DecodeNode(w, bits, pos) == DecodeBody(w, ins, bits, at)
  {
    HeadDecodes(w, ins, f, v, bits, pos);
  }

  lemma ReadsMatch(w: FieldCode, val: Pattern, sub: BinNode, bits: seq<Bit>, pos: nat)
    requires Lawful(w) && ReadsSpelled(w, sub, bits, pos + HeadLength(w, MATCH, Argument, val))
    ensures ReadsSpelled(w, Match(val, sub), bits, pos)
  {
    if InRange(Argument, val) {
      HeadStands(w, MATCH, Argument, val, Spelled(w, sub), bits, pos);
      if Headed(w, MATCH, Argument, val, Spelled(w, sub), bits, pos) {
        HeadedDecodes(w, MATCH, Argument, val, Spelled(w, sub), bits, pos);
      }
    }
  }

  lemma ReadsDefault(w: FieldCode, v: nat, sub: BinNode, bits: seq<Bit>, pos: nat)
    requires Lawful(w) && ReadsSpelled(w, sub, bits, pos + HeadLength(w, DEFAULT, Asn, v))
    ensures ReadsSpelled(w, Default(v, sub), bits, pos)
  {
    if InRange(Asn, v) {
      HeadStands(w, DEFAULT, Asn, v, Spelled(w, sub), bits, pos);
      if Headed(w, DEFAULT, Asn, v, Spelled(w, sub), bits, pos) {
        HeadedDecodes(w, DEFAULT, Asn, v, Spelled(w, sub), bits, pos);
      }
    }
  }

  /** A JUMP and its distance, then both sides. */
  ghost predicate JumpSpelled(w: FieldCode, l: BinNode, r: BinNode, bits: seq<Bit>, pos: nat, next: nat) {
    && HeadAt(w, JUMP, Distance, |Spelled(w, l)|, bits, pos)
    && At(bits, next, Spelled(w, l)) && At(bits, next + |Spelled(w, l)|, Spelled(w, r))
  }

  lemma JumpParted(w: FieldCode, l: BinNode, r: BinNode, bits: seq<Bit>, pos: nat, next: nat)
    requires Lawful(w) && next == pos + HeadLength(w, JUMP, Distance, |Spelled(w, l)|)
    ensures Spellable(w, Jump(l, r)) && At(bits, pos, Spelled(w, Jump(l, r))) ==>
      JumpSpelled(w, l, r, bits, pos, next)
  {
    if Spellable(w, Jump(l, r)) && At(bits, pos, Spelled(w, Jump(l, r))) {
      HeadAppendTwo(w, |Spelled(w, l)|, Spelled(w, l), Spelled(w, r), bits, pos);
    }
  }

  lemma BodyReadsSides(w: FieldCode, l: BinNode, r: BinNode, bits: seq<Bit>, pos: nat, next: nat)
    requires Lawful(w) && pos <= |bits| && w.read(Distance, bits, pos) == Some((|Spelled(w, l)|, next))
    requires ReadAs(w, l, bits, next) && ReadAs(w, r, bits, next + |Spelled(w, l)|)
    ensures DecodeBody(w, JUMP, bits, pos) ==
      Some((BranchNode(Rebuilt(l), Rebuilt(r)), next + |Spelled(w, l)| + |Spelled(w, r)|))
  {
  }

  lemma JumpReadAs(w: FieldCode, l: BinNode, r: BinNode, bits: seq<Bit>, pos: nat, next: nat)
    requires Lawful(w) && next == pos + HeadLength(w, JUMP, Distance, |Spelled(w, l)|)
    requires HeadAt(w, JUMP, Distance, |Spelled(w, l)|, bits, pos)
    requires ReadAs(w, l, bits, next) && ReadAs(w, r, bits, next + |Spelled(w, l)|)
    ensures ReadAs(w, Jump(l, r), bits, pos)
  {
    HeadDecodes(w, JUMP, Distance, |Spelled(w, l)|, bits, pos);
    BodyReadsSides(w, l, r, bits, pos + |w.write(Opcode, JUMP)|, next);
  }

  lemma ReadsJump(w: FieldCode, l: BinNode, r: BinNode, bits: seq<Bit>, pos: nat, next: nat)
    requires Lawful(w) && next == pos + HeadLength(w, JUMP, Distance, |Spelled(w, l)|)
    requires ReadsSpelled(w, l, bits, next) && ReadsSpelled(w, r, bits, next + |Spelled(w, l)|)
    ensures ReadsSpelled(w, Jump(l, r), bits, pos)
  {
    JumpParted(w, l, r, bits, pos, next);
    if Spellable(w, Jump(l, r)) && JumpSpelled(w, l, r, bits, pos, next) {
      JumpReadAs(w, l, r, bits, pos, next);
    }
  }

  lemma {:induction false} SpelledReads(w: FieldCode, n: BinNode, bits: seq<Bit>, pos: nat)
    requires Lawful(w)
    ensures ReadsSpelled(w, n, bits, pos)
  {
    match n {
      case Return(v) => ReadsReturn(w, v, bits, pos);
      case Jump(l, r) =>
        var next := pos + HeadLength(w, JUMP, Distance, |Spelled(w, l)|);
        SpelledReads(w, l, bits, next);
        SpelledReads(w, r, bits, next + |Spelled(w, l)|);
        ReadsJump(w, l, r, bits, pos, next);
      case Match(val, sub) =>
        SpelledReads(w, sub, bits, pos + HeadLength(w, MATCH, Argument, val));
        ReadsMatch(w, val, sub, bits, pos);
      case Default(v, sub) =>
        SpelledReads(w, sub, bits, pos + HeadLength(w, DEFAULT, Asn, v));
        ReadsDefault(w, v, sub, bits, pos);
      case End =>
    }
  }

  // ---------------------------------------------------------------- what was read was written

  /** A reading finds the very bits that writing its value gives. */
  ghost predicate Echoes(w: FieldCode) {
    forall f, bits: seq<Bit>, pos: nat {:trigger w.read(f, bits, pos)} ::
      pos <= |bits| && w.read(f, bits, pos).Some? ==>
        var (v, next) := w.read(f, bits, pos).value;
        At(bits, pos, w.write(f, v)) && next == pos + |w.write(f, v)|
  }

  lemma CodedEcho(f: Field, bits: seq<Bit>, pos: nat)
    requires pos <= |bits| && CODED.read(f, bits, pos).Some?
    ensures var (v, next) := CODED.read(f, bits, pos).value;
      At(bits, pos, CODED.write(f, v)) && next == pos + |CODED.write(f, v)|
  {
    CodersListed(f);
    ValidReading(CoderOf(f), bits, pos);
    InRangeIsCanEncode(f, CODED.read(f, bits, pos).value.0);
  }

  lemma CodedEchoes()
    ensures Echoes(CODED)
  {
    forall f, bits: seq<Bit>, pos: nat | pos <= |bits| && CODED.read(f, bits, pos).Some?
      ensures var (v, next) := CODED.read(f, bits, pos).value;
        At(bits, pos, CODED.write(f, v)) && next == pos + |CODED.write(f, v)|
    {
      CodedEcho(f, bits, pos);
    }
  }

  lemma AtJoin(stream: seq<Bit>, pos: nat, a: seq<Bit>, b: seq<Bit>)
    requires At(stream, pos, a) && At(stream, pos + |a|, b)
    ensures At(stream, pos, a + b)
  {
    assert stream[pos..pos + |a + b|] == stream[pos..pos + |a|] + stream[pos + |a|..pos + |a| + |b|];
  }

  /** The program stands between the two positions, and is the one that was read. */
  ghost predicate StandsFrom(w: FieldCode, n: BinNode, m: BinNode, bits: seq<Bit>, pos: nat, end: nat) {
    Spellable(w, n) && At(bits, pos, Spelled(w, n)) && end == pos + |Spelled(w, n)| && Rebuilt(n) == m
  }

  lemma HeadJoins(w: FieldCode, ins: nat, f: Field, v: nat, rest: seq<Bit>, bits: seq<Bit>, pos: nat)
    requires At(bits, pos, w.write(Opcode, ins)) && At(bits, pos + |w.write(Opcode, ins)|, w.write(f, v))
    requires At(bits, pos + HeadLength(w, ins, f, v), rest)
    ensures At(bits, pos, w.write(Opcode, ins) + w.write(f, v) + rest)
  {
    AtJoin(bits, pos, w.write(Opcode, ins), w.write(f, v));
    AtJoin(bits, pos, w.write(Opcode, ins) + w.write(f, v), rest);
  }

  /** One field read: its value is in range and its bits stand there. */
  ghost predicate FieldRead(w: FieldCode, f: Field, bits: seq<Bit>, pos: nat, v: nat, next: nat) {
    && w.read(f, bits, pos) == Some((v, next)) && InRange(f, v)
    && At(bits, pos, w.write(f, v)) && next == pos + |w.write(f, v)| && pos < next <= |bits|
  }

  lemma ReadOf(w: FieldCode, f: Field, bits: seq<Bit>, pos: nat) returns (v: nat, next: nat)
    requires Lawful(w) && Echoes(w) && pos <= |bits| && w.read(f, bits, pos).Some?
    ensures FieldRead(w, f, bits, pos, v, next)
  {
    v, next := w.read(f, bits, pos).value.0, w.read(f, bits, pos).value.1;
  }

  /** The decoder makes `m` of the bits between the two positions. */
  ghost predicate Yields(w: FieldCode, bits: seq<Bit>, pos: nat, m: BinNode, end: nat)
    requires Lawful(w)
  {
    pos <= |bits| && DecodeNode(w, bits, pos) == Some((m, end))
  }

  lemma ReturnStandsFrom(w: FieldCode, bits: seq<Bit>, pos: nat, at: nat, v: nat, end: nat)
    requires FieldRead(w, Opcode, bits, pos, RETURN, at) && FieldRead(w, Asn, bits, at, v, end)
    ensures StandsFrom(w, Return(v), Return(v), bits, pos, end)
  {
    AtJoin(bits, pos, w.write(Opcode, RETURN), w.write(Asn, v));
  }

  lemma JumpStandsFrom(w: FieldCode, l: BinNode, r: BinNode, lm: BinNode, rm: BinNode,
                       bits: seq<Bit>, pos: nat, at: nat, jump: nat, next: nat, end: nat)
    requires FieldRead(w, Opcode, bits, pos, JUMP, at) && FieldRead(w, Distance, bits, at, jump, next)
    requires StandsFrom(w, l, lm, bits, next, next + jump) && StandsFrom(w, r, rm, bits, next + jump, end)
    ensures StandsFrom(w, Jump(l, r), BranchNode(lm, rm), bits, pos, end)
  {
    AtJoin(bits, next, Spelled(w, l), Spelled(w, r));
    HeadJoins(w, JUMP, Distance, jump, Spelled(w, l) + Spelled(w, r), bits, pos);
  }

  lemma MatchStandsFrom(w: FieldCode, val: Pattern, sub: BinNode, m: BinNode, bits: seq<Bit>,
                        pos: nat, at: nat, next: nat, end: nat)
    requires FieldRead(w, Opcode, bits, pos, MATCH, at) && FieldRead(w, Argument, bits, at, val, next)
    requires StandsFrom(w, sub, m, bits, next, end)
    ensures StandsFrom(w, Match(val, sub), Match(val, m), bits, pos, end)
  {
    HeadJoins(w, MATCH, Argument, val, Spelled(w, sub), bits, pos);
  }

  lemma DefaultStandsFrom(w: FieldCode, v: nat, sub: BinNode, m: BinNode, bits: seq<Bit>,
                          pos: nat, at: nat, next: nat, end: nat)
    requires FieldRead(w, Opcode, bits, pos, DEFAULT, at) && FieldRead(w, Asn, bits, at, v, next)
    requires StandsFrom(w, sub, m, bits, next, end)
    ensures StandsFrom(w, Default(v, sub), DefaultNode(v, m), bits, pos, end)
  {
    HeadJoins(w, DEFAULT, Asn, v, Spelled(w, sub), bits, pos);
  }

  lemma BodyOf(w: FieldCode, bits: seq<Bit>, pos: nat, ins: nat, at: nat, m: BinNode, end: nat)
    requires Lawful(w) && Yields(w, bits, pos, m, end) && FieldRead(w, Opcode, bits, pos, ins, at)
    ensures DecodeBody(w, ins, bits, at) == Some((m, end)) && ins <= DEFAULT
  {
  }

  lemma ReadReturn(w: FieldCode, bits: seq<Bit>, pos: nat, at: nat, m: BinNode, end: nat) returns (n: BinNode)
    requires Lawful(w) && Echoes(w) && FieldRead(w, Opcode, bits, pos, RETURN, at)
    requires DecodeBody(w, RETURN, bits, at) == Some((m, end))
    ensures StandsFrom(w, n, m, bits, pos, end)
  {
    var v, next := ReadOf(w, Asn, bits, at);
    n := Return(v);
    ReturnStandsFrom(w, bits, pos, at, v, next);
  }

  lemma JumpYields(w: FieldCode, bits: seq<Bit>, at: nat, m: BinNode, end: nat)
    returns (jump: nat, next: nat, lm: BinNode, mid: nat, rm: BinNode)
    requires Lawful(w) && Echoes(w) && at <= |bits| && DecodeBody(w, JUMP, bits, at) == Some((m, end))
    ensures FieldRead(w, Distance, bits, at, jump, next) && mid == next + jump
    ensures Yields(w, bits, next, lm, mid) && Yields(w, bits, mid, rm, end) && m == BranchNode(lm, rm)
  {
    jump, next := ReadOf(w, Distance, bits, at);
    lm, mid := DecodeNode(w, bits, next).value.0, DecodeNode(w, bits, next).value.1;
    rm := DecodeNode(w, bits, mid).value.0;
  }

  lemma MatchYields(w: FieldCode, bits: seq<Bit>, at: nat, m: BinNode, end: nat)
    returns (val: Pattern, next: nat, sub: BinNode)
    requires Lawful(w) && Echoes(w) && at <= |bits| && DecodeBody(w, MATCH, bits, at) == Some((m, end))
    ensures FieldRead(w, Argument, bits, at, val, next) && Yields(w, bits, next, sub, end) && m == Match(val, sub)
  {
    var v: nat;
    v, next := ReadOf(w, Argument, bits, at);
    val, sub := v, DecodeNode(w, bits, next).value.0;
  }

  lemma DefaultYields(w: FieldCode, bits: seq<Bit>, at: nat, m: BinNode, end: nat)
    returns (v: nat, next: nat, sub: BinNode)
    requires Lawful(w) && Echoes(w) && at <= |bits| && DecodeBody(w, DEFAULT, bits, at) == Some((m, end))
    ensures FieldRead(w, Asn, bits, at, v, next) && Yields(w, bits, next, sub, end) && m == DefaultNode(v, sub)
  {
    v, next := ReadOf(w, Asn, bits, at);
    sub := DecodeNode(w, bits, next).value.0;
  }

  lemma {:induction false} ReadJump(w: FieldCode, bits: seq<Bit>, pos: nat, at: nat, m: BinNode, end: nat)
    returns (n: BinNode)
    requires Lawful(w) && Echoes(w) && FieldRead(w, Opcode, bits, pos, JUMP, at)
    requires DecodeBody(w, JUMP, bits, at) == Some((m, end))
    ensures StandsFrom(w, n, m, bits, pos, end)
    decreases |bits| - pos, 0
  {
    var jump, next, lm, mid, rm := JumpYields(w, bits, at, m, end);
    var l := ReadIsSpelled(w, bits, next, lm, mid);
    var r := ReadIsSpelled(w, bits, mid, rm, end);
    n := Jump(l, r);
    JumpStandsFrom(w, l, r, lm, rm, bits, pos, at, jump, next, end);
  }

  lemma {:induction false} ReadMatch(w: FieldCode, bits: seq<Bit>, pos: nat, at: nat, m: BinNode, end: nat)
    returns (n: BinNode)
    requires Lawful(w) && Echoes(w) && FieldRead(w, Opcode, bits, pos, MATCH, at)
    requires DecodeBody(w, MATCH, bits, at) == Some((m, end))
    ensures StandsFrom(w, n, m, bits, pos, end)
    decreases |bits| - pos, 0
  {
    var val, next, sm := MatchYields(w, bits, at, m, end);
    var sub := ReadIsSpelled(w, bits, next, sm, end);
    n := Match(val, sub);
    MatchStandsFrom(w, val, sub, sm, bits, pos, at, next, end);
  }

  lemma {:induction false} ReadDefault(w: FieldCode, bits: seq<Bit>, pos: nat, at: nat, m: BinNode, end: nat)
    returns (n: BinNode)
    requires Lawful(w) && Echoes(w) && FieldRead(w, Opcode, bits, pos, DEFAULT, at)
    requires DecodeBody(w, DEFAULT, bits, at) == Some((m, end))
    ensures StandsFrom(w, n, m, bits, pos, end)
    decreases |bits| - pos, 0
  {
    var v, next, sm := DefaultYields(w, bits, at, m, end);
    var sub := ReadIsSpelled(w, bits, next, sm, end);
    n := Default(v, sub);
    DefaultStandsFrom(w, v, sub, sm, bits, pos, at, next, end);
  }

  /** Whatever the decoder reads is a spelled program, and it read all of it and nothing more. */
  lemma {:induction false} ReadIsSpelled(w: FieldCode, bits: seq<Bit>, pos: nat, m: BinNode, end: nat)
    returns (n: BinNode)
    requires Lawful(w) && Echoes(w) && Yields(w, bits, pos, m, end)
    ensures StandsFrom(w, n, m, bits, pos, end)
    decreases |bits| - pos, 1
  {
    var ins, at := ReadOf(w, Opcode, bits, pos);
    BodyOf(w, bits, pos, ins, at, m, end);
    if ins == RETURN {
      n := ReadReturn(w, bits, pos, at, m, end);
    } else if ins == JUMP {
      n := ReadJump(w, bits, pos, at, m, end);
    } else if ins == MATCH {
      n := ReadMatch(w, bits, pos, at, m, end);
    } else {
      n := ReadDefault(w, bits, pos, at, m, end);
    }
  }

  // ---------------------------------------------------------------- bytes and bits are the same thing

  lemma {:induction false} LowBitsValue(b: nat, n: nat)
    requires b < Pow2(n)
    ensures PackedValue(LowBits(b, n)) == b
    decreases n
  {
    if n > 0 {
      LowBitsValue(b / 2, n - 1);
      assert LowBits(b, n)[1..] == LowBits(b / 2, n - 1);
    }
  }

  lemma PackOfByte(byte: Byte, rest: seq<Bit>)
    ensures Pack(LowBits(byte, 8) + rest) == [byte] + Pack(rest)
  {
    var word := LowBits(byte, 8);
    assert Pow2(8) == 256;
    LowBitsValue(byte, 8);
    assert (word + rest)[..8] == word && (word + rest)[8..] == rest;
    PackFirst(word + rest);
  }

  /** Packing undoes unpacking. */
  lemma {:induction false} PackUndoesUnpack(bytes: seq<Byte>)
    ensures Pack(Unpack(bytes)) == bytes && |Unpack(bytes)| == 8 * |bytes|
  {
    if bytes != [] {
      PackUndoesUnpack(bytes[1..]);
      PackOfByte(bytes[0], Unpack(bytes[1..]));
    }
  }

  lemma Grouped<T>(x: seq<T>, y: seq<T>, z: seq<T>)
    ensures x + (y + z) == (x + y) + z
  {
  }

  lemma {:induction false} UnpackAppend(a: seq<Byte>, b: seq<Byte>)
    ensures Unpack(a + b) == Unpack(a) + Unpack(b)
  {
    if a == [] {
      assert a + b == b;
    } else {
      var first, rest := a[0], a[1..];
      UnpackAppend(rest, b);
      Grouped([first], rest, b);
      assert [first] + rest == a;
      UnpackFirst(first, rest + b);
      Grouped(LowBits(first, 8), Unpack(rest), Unpack(b));
    }
  }

  /** Fewer than eight zeros up to a whole number of bytes are the padding. */
  lemma PaddingIs(n: nat, k: nat, bytes: nat)
    requires n + k == 8 * bytes && k < 8
    ensures k == Padding(n)
  {
  }

  // ---------------------------------------------------------------- where every bit stands

  /** The four opcodes. */
  lemma OpcodeBits()
    ensures CODED.write(Opcode, RETURN) == [0] && CODED.write(Opcode, JUMP) == [1, 0]
    ensures CODED.write(Opcode, MATCH) == [1, 1, 0] && CODED.write(Opcode, DEFAULT) == [1, 1, 1]
  {
    assert [0, 0, 1][1..] == [0, 1] && [0, 1][1..] == [1];
    assert Pow2(0) == 1 && Pow2(1) == 2;
    assert Codeword([1], 0) == BigEndian(1, 0) == [0];
    assert Codeword([1], 1) == BigEndian(1, 1) == [1];
    assert Codeword([0, 1], 0) == [0] + BigEndian(0, 0) && Codeword([0, 0, 1], 0) == [0] + BigEndian(0, 0);
    assert Codeword([0, 1], 1) == [1] + Codeword([1], 0) && Codeword([0, 1], 2) == [1] + Codeword([1], 1);
  }

  lemma LaterByte(bytes: seq<Byte>, k: nat, i: nat)
    requires 0 < k < |bytes| && i < 8 && 8 * (k - 1) + i < |Unpack(bytes[1..])|
    ensures 8 * k + i < |Unpack(bytes)| && Unpack(bytes)[8 * k + i] == Unpack(bytes[1..])[8 * (k - 1) + i]
  {
  }

  /** Bit i of byte k is bit 8 k + i of the stream. */
  lemma {:induction false} UnpackAt(bytes: seq<Byte>, k: nat, i: nat)
    requires k < |bytes| && i < 8
    ensures 8 * k + i < |Unpack(bytes)| && Unpack(bytes)[8 * k + i] == (bytes[k] / Pow2(i)) % 2
  {
    if k == 0 {
      LowBitsAt(bytes[0], 8, i);
    } else {
      UnpackAt(bytes[1..], k - 1, i);
      LaterByte(bytes, k, i);
    }
  }

  // ---------------------------------------------------------------- the accepted files

  /** The program `n`, written out and padded to whole bytes, is the file. */
  ghost predicate IsFileOf(bytes: seq<Byte>, n: BinNode) {
    Spellable(CODED, n) && bytes == Pack(Spelled(CODED, n))
  }

  /** What the decoder made of an accepted file, and the bits it left over. */
  lemma AcceptedParts(bytes: seq<Byte>) returns (m: BinNode, pos: nat)
    requires Lawful(CODED) && FromBinary(bytes).Some? && bytes != []
    ensures Yields(CODED, Unpack(bytes), 0, m, pos) && FromBinary(bytes) == FromNode(m)
    ensures |Unpack(bytes)| == 8 * |bytes| && pos <= |Unpack(bytes)| <= pos + 7
    ensures forall i :: pos <= i < |Unpack(bytes)| ==> Unpack(bytes)[i] == 0
  {
    var bits := Unpack(bytes);
    PackUndoesUnpack(bytes);
    m, pos := DecodeNode(CODED, bits, 0).value.0, DecodeNode(CODED, bits, 0).value.1;
  }

  lemma AcceptedProgram(bytes: seq<Byte>) returns (n: BinNode)
    requires FromBinary(bytes).Some? && bytes != []
    ensures IsFileOf(bytes, n) && FromBinary(bytes) == Some(Eval(n, 0))
  {
    CodedLawful();
    CodedEchoes();
    var m, pos := AcceptedParts(bytes);
    n := ReadIsSpelled(CODED, Unpack(bytes), 0, m, pos);
    RebuiltMeaning(n, 0);
    DecodedSound(CODED, Unpack(bytes), 0);
    SoundMeaning(m);
    AcceptedBits(bytes, Spelled(CODED, n));
  }

  /** What passes the checks after the program is the program, packed. */
  lemma AcceptedBits(bytes: seq<Byte>, word: seq<Bit>)
    requires var bits := Unpack(bytes);
      && At(bits, 0, word) && |bits| == 8 * |bytes| && |word| + 7 >= |bits|
      && forall i :: |word| <= i < |bits| ==> bits[i] == 0
    ensures bytes == Pack(word)
  {
    var bits := Unpack(bytes);
    PaddingIs(|word|, |bits| - |word|, |bytes|);
    UnpackUndoesPack(word);
    assert bits == word + Zeros(|bits| - |word|);
    PackUndoesUnpack(bytes);
    PackUndoesUnpack(Pack(word));
  }

  lemma SpellsSomething(n: BinNode)
    requires Spellable(CODED, n)
    ensures Spelled(CODED, n) != []
  {
    CodedLawful();
    WritesSomething(CODED, RETURN);
    WritesSomething(CODED, JUMP);
    WritesSomething(CODED, MATCH);
    WritesSomething(CODED, DEFAULT);
  }

  /** A program read from the front of the bits. */
  lemma FrontDecodes(n: BinNode, rest: seq<Bit>)
    requires Lawful(CODED) && Spellable(CODED, n)
    ensures DecodeNode(CODED, Spelled(CODED, n) + rest, 0) == Some((Rebuilt(n), |Spelled(CODED, n)|))
  {
    var bits := Spelled(CODED, n) + rest;
    assert bits[..|Spelled(CODED, n)|] == Spelled(CODED, n);
    SpelledReads(CODED, n, bits, 0);
  }

  lemma FileAccepted(bytes: seq<Byte>, n: BinNode)
    requires IsFileOf(bytes, n)
    ensures bytes != [] && FromBinary(bytes) == Some(Eval(n, 0))
  {
    var word := Spelled(CODED, n);
    var pad := Padding(|word|);
    CodedLawful();
    SpellsSomething(n);
    UnpackUndoesPack(word);
    FrontDecodes(n, Zeros(pad));
    PaddingAccepted(word, pad, Rebuilt(n));
    DecodedSound(CODED, word + Zeros(pad), 0);
    SoundMeaning(Rebuilt(n));
    RebuiltMeaning(n, 0);
    assert Unpack([]) == [];
  }

  /**
   * The decoder accepts nothing but the empty file, which is the empty map, and the
   * packed bits of programs whose jumps name the true length of what they skip; each
   * of those it accepts, and gives the map the program means.
   */
  lemma AcceptedFiles(bytes: seq<Byte>, t: Trie)
    ensures FromBinary(bytes) == Some(t) <==>
      (bytes == [] && t == Leaf(0)) || exists n :: IsFileOf(bytes, n) && Eval(n, 0) == t
  {
    if bytes == [] {
      assert Unpack(bytes) == [];
    }
    if FromBinary(bytes) == Some(t) && bytes != [] {
      var n := AcceptedProgram(bytes);
    }
    if n :| IsFileOf(bytes, n) && Eval(n, 0) == t {
      FileAccepted(bytes, n);
    }
  }

  /** A program in front of other bits: the file is accepted exactly when those are the padding. */
  lemma FrontAccepted(bytes: seq<Byte>, n: BinNode, rest: seq<Bit>)
    requires Spellable(CODED, n) && Unpack(bytes) == Spelled(CODED, n) + rest && FromBinary(bytes).Some?
    ensures |rest| <= 7 && forall i :: 0 <= i < |rest| ==> rest[i] == 0
  {
    var word := Spelled(CODED, n);
    var bits := Unpack(bytes);
    CodedLawful();
    SpellsSomething(n);
    FrontDecodes(n, rest);
    forall i | 0 <= i < |rest| ensures rest[i] == 0 {
      assert bits[|word| + i] == rest[i];
    }
  }

  /** A file and more bytes are its program and at least eight more bits. */
  lemma Continued(word: seq<Bit>, more: seq<Byte>) returns (rest: seq<Bit>)
    requires more != []
    ensures Unpack(Pack(word) + more) == word + rest && |rest| > 7
  {
    UnpackUndoesPack(word);
    UnpackAppend(Pack(word), more);
    PackUndoesUnpack(more);
    rest := Zeros(Padding(|word|)) + Unpack(more);
    Grouped(word, Zeros(Padding(|word|)), Unpack(more));
  }

  /** No accepted file but the empty one is continued by another accepted file. */
  lemma NoFileContinuesAnother(bytes: seq<Byte>, more: seq<Byte>)
    requires FromBinary(bytes).Some? && bytes != [] && more != []
    ensures FromBinary(bytes + more).None?
  {
    var n := AcceptedProgram(bytes);
    var rest := Continued(Spelled(CODED, n), more);
    OverlongRefused(bytes + more, n, rest);
  }

  lemma OverlongRefused(bytes: seq<Byte>, n: BinNode, rest: seq<Bit>)
    requires Spellable(CODED, n) && Unpack(bytes) == Spelled(CODED, n) + rest && |rest| > 7
    ensures FromBinary(bytes).None?
  {
    if FromBinary(bytes).Some? {
      FrontAccepted(bytes, n, rest);
      assert false;
    }
  }

  /** The bits of its program determine an accepted file. */
  lemma ProgramDeterminesFile(a: seq<Byte>, b: seq<Byte>, n: BinNode)
    requires IsFileOf(a, n) && FromBinary(b).Some? && Spelled(CODED, n) <= Unpack(b)
    ensures a == b
  {
    var word := Spelled(CODED, n);
    PackUndoesUnpack(b);
    var rest := Unpack(b)[|word|..];
    assert Unpack(b) == word + rest;
    FrontAccepted(b, n, rest);
    assert forall i :: |word| <= i < |word| + |rest| ==> Unpack(b)[i] == rest[i - |word|];
    AcceptedBits(b, word);
  }
}
