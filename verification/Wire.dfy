/** The bit and byte form of programs, and the exact condition under which a map survives it. */
module Wire {
  import opened Wrappers
  import opened Bytes
  import opened Powers
  import opened Coders
  import opened Tries
  import opened Contexts
  import opened BinNodes
  import opened Compile

  // ---------------------------------------------------------------- bits at a position

  /** The bits of `word` stand in the stream at `pos`. */
  ghost predicate At(stream: seq<Bit>, pos: nat, word: seq<Bit>) {
    pos + |word| <= |stream| && stream[pos..pos + |word|] == word
  }

  lemma AtAppend(stream: seq<Bit>, pos: nat, a: seq<Bit>, b: seq<Bit>)
    requires At(stream, pos, a + b)
    ensures At(stream, pos, a) && At(stream, pos + |a|, b)
  {
    assert stream[pos..pos + |a|] == stream[pos..pos + |a + b|][..|a|] == a;
    assert stream[pos + |a|..pos + |a| + |b|] == stream[pos..pos + |a + b|][|a|..] == b;
  }

  // ---------------------------------------------------------------- the fields of an instruction

  /** What an instruction is made of: its opcode and an argument of one of three kinds. */
  datatype Field = Opcode | Asn | Argument | Distance

  function CoderOf(f: Field): VarLenCoder {
    match f
    case Opcode => CODER_INS
    case Asn => CODER_ASN
    case Argument => CODER_MATCH
    case Distance => CODER_JUMP
  }

  /** The values a field can carry. */
  predicate InRange(f: Field, v: nat) {
    match f
    case Opcode => v <= DEFAULT
    case Asn => 1 <= v <= ASN_MAX
    case Argument => 2 <= v <= MATCH_MAX
    case Distance => 17 <= v <= JUMP_MAX
  }

  lemma InRangeIsCanEncode(f: Field, v: nat)
    ensures InRange(f, v) <==> CoderOf(f).CanEncode(v)
  {
  }

  /** A way of writing and reading fields, with the size it takes a program to have. */
  datatype FieldCode = FieldCode(
    write: (Field, nat) -> seq<Bit>, read: (Field, seq<Bit>, nat) -> Option<(nat, nat)>, span: BinNode -> nat)

  function WriteField(f: Field, v: nat): seq<Bit> {
    if InRange(f, v) then CoderOf(f).Bits(v) else []
  }

  function ReadField(f: Field, bits: seq<Bit>, pos: nat): Option<(nat, nat)> {
    CoderOf(f).Read(bits, pos)
  }

  /** The format's own: every field in its variable-length code, every size as the constructors add it up. */
  const CODED := FieldCode(WriteField, ReadField, Size)

  /** What programs need of their fields: reading undoes writing, advances and stays in range. */
  ghost predicate Lawful(w: FieldCode) {
    && (forall f, v: nat, bits: seq<Bit>, pos: nat {:trigger At(bits, pos, w.write(f, v))} ::
          InRange(f, v) && At(bits, pos, w.write(f, v)) ==>
            w.read(f, bits, pos) == Some((v, pos + |w.write(f, v)|)))
    && (forall f, bits: seq<Bit>, pos: nat {:trigger w.read(f, bits, pos)} ::
          pos <= |bits| && w.read(f, bits, pos).Some? ==>
            pos < w.read(f, bits, pos).value.1 <= |bits| && InRange(f, w.read(f, bits, pos).value.0))
  }

  /** Fields take exactly the bits the coders' size routine reports. */
  ghost predicate Measured(w: FieldCode) {
    forall f, v: nat {:trigger w.write(f, v)} :: InRange(f, v) ==> |w.write(f, v)| == CoderOf(f).Size(v)
  }

  lemma CodersListed(f: Field)
    ensures CoderOf(f).Valid() && |CoderOf(f).clsbits| > 1
  {
    CodersValid();
  }

  lemma ValidRoundTrip(coder: VarLenCoder, val: nat, bits: seq<Bit>, pos: nat)
    requires coder.Valid() && coder.CanEncode(val) && At(bits, pos, coder.Bits(val))
    ensures coder.Read(bits, pos) == Some((val, pos + |coder.Bits(val)|))
  {
    ReadUndoesCodeword(coder.clsbits, val - coder.minval, bits, pos);
  }

  /** A reading advances, stays in the coder's range, and re-encodes to the bits it read. */
  lemma ValidReading(coder: VarLenCoder, bits: seq<Bit>, pos: nat)
    requires coder.Valid() && |coder.clsbits| > 1 && pos <= |bits| && coder.Read(bits, pos).Some?
    ensures var (val, next) := coder.Read(bits, pos).value;
      coder.CanEncode(val) && pos < next <= |bits| && bits[pos..next] == coder.Bits(val)
  {
    CodewordUndoesRead(coder.clsbits, bits, pos);
    ReadAdvances(coder.clsbits, bits, pos);
  }

  lemma ValidLength(coder: VarLenCoder, val: nat)
    requires coder.Valid() && coder.CanEncode(val)
    ensures |coder.Bits(val)| == coder.Size(val)
  {
    CodewordLength(coder.clsbits, val - coder.minval);
  }

  lemma WritingOf(coder: VarLenCoder, f: Field, v: nat, bits: seq<Bit>, pos: nat)
    requires coder == CoderOf(f) && coder.Valid() && coder.CanEncode(v) && InRange(f, v)
    requires At(bits, pos, CODED.write(f, v))
    ensures CODED.read(f, bits, pos) == Some((v, pos + |CODED.write(f, v)|))
  {
    ValidRoundTrip(coder, v, bits, pos);
  }

  lemma CodedWriting(f: Field, v: nat, bits: seq<Bit>, pos: nat)
    requires InRange(f, v) && At(bits, pos, CODED.write(f, v))
    ensures CODED.read(f, bits, pos) == Some((v, pos + |CODED.write(f, v)|))
  {
    CodersValid();
    match f {
      case Opcode => WritingOf(CODER_INS, f, v, bits, pos);
      case Asn => WritingOf(CODER_ASN, f, v, bits, pos);
      case Argument => WritingOf(CODER_MATCH, f, v, bits, pos);
      case Distance => WritingOf(CODER_JUMP, f, v, bits, pos);
    }
  }

  lemma CodedReading(f: Field, bits: seq<Bit>, pos: nat)
    requires pos <= |bits| && CODED.read(f, bits, pos).Some?
    ensures pos < CODED.read(f, bits, pos).value.1 <= |bits| && InRange(f, CODED.read(f, bits, pos).value.0)
  {
    CodersListed(f);
    ValidReading(CoderOf(f), bits, pos);
    InRangeIsCanEncode(f, CODED.read(f, bits, pos).value.0);
  }

  /** The four class tables make a lawful field code. */
  lemma CodedLawful()
    ensures Lawful(CODED)
  {
    forall f, v: nat, bits: seq<Bit>, pos: nat | InRange(f, v) && At(bits, pos, CODED.write(f, v))
      ensures CODED.read(f, bits, pos) == Some((v, pos + |CODED.write(f, v)|))
    {
      CodedWriting(f, v, bits, pos);
    }
    forall f, bits: seq<Bit>, pos: nat | pos <= |bits| && CODED.read(f, bits, pos).Some?
      ensures pos < CODED.read(f, bits, pos).value.1 <= |bits| && InRange(f, CODED.read(f, bits, pos).value.0)
    {
      CodedReading(f, bits, pos);
    }
  }

  lemma CodedMeasured()
    ensures Measured(CODED)
  {
    forall f, v: nat | InRange(f, v) ensures |CODED.write(f, v)| == CoderOf(f).Size(v) {
      CodersListed(f);
      InRangeIsCanEncode(f, v);
      ValidLength(CoderOf(f), v);
    }
  }

  // ---------------------------------------------------------------- encoding

  /** Every assertion of the encoder holds: all arguments are in range and no End is reached. */
  predicate Encodable(w: FieldCode, n: BinNode) {
    match n
    case Return(v) => InRange(Asn, v)
    case Jump(l, r) => InRange(Distance, w.span(l) % U32) && Encodable(w, l) && Encodable(w, r)
    case Match(val, sub) => InRange(Argument, val) && Encodable(w, sub)
    case Default(v, sub) => InRange(Asn, v) && Encodable(w, sub)
    case End => false
  }

  /** The instruction and its argument. */
  function Head(w: FieldCode, n: BinNode): seq<Bit> {
    match n
    case Return(v) => w.write(Opcode, RETURN) + w.write(Asn, v)
    case Jump(l, r) => w.write(Opcode, JUMP) + w.write(Distance, w.span(l) % U32)
    case Match(val, sub) => w.write(Opcode, MATCH) + w.write(Argument, val)
    case Default(v, sub) => w.write(Opcode, DEFAULT) + w.write(Asn, v)
    case End => []
  }

  function EncodeBits(w: FieldCode, n: BinNode): seq<Bit> {
    match n
    case Return(v) => Head(w, n)
    case Jump(l, r) => Head(w, n) + (EncodeBits(w, l) + EncodeBits(w, r))
    case Match(val, sub) => Head(w, n) + EncodeBits(w, sub)
    case Default(v, sub) => Head(w, n) + EncodeBits(w, sub)
    case End => []
  }

  /** The distance of every JUMP survives the cast to 32 bits and is one the coder can carry. */
  predicate JumpsFit(w: FieldCode, n: BinNode) {
    match n
    case Return(v) => true
    case Jump(l, r) => w.span(l) <= JUMP_MAX && JumpsFit(w, l) && JumpsFit(w, r)
    case Match(val, sub) => JumpsFit(w, sub)
    case Default(v, sub) => JumpsFit(w, sub)
    case End => true
  }

  /** Bits of an opcode and its argument. */
  function HeadLength(w: FieldCode, ins: nat, f: Field, v: nat): nat {
    |w.write(Opcode, ins)| + |w.write(f, v)|
  }

  function Length(w: FieldCode, n: BinNode): nat {
    match n
    case Return(v) => HeadLength(w, RETURN, Asn, v)
    case Jump(l, r) => HeadLength(w, JUMP, Distance, w.span(l) % U32) + Length(w, l) + Length(w, r)
    case Match(val, sub) => HeadLength(w, MATCH, Argument, val) + Length(w, sub)
    case Default(v, sub) => HeadLength(w, DEFAULT, Asn, v) + Length(w, sub)
    case End => 0
  }

  lemma {:induction false} LengthOfBits(w: FieldCode, n: BinNode)
    ensures |EncodeBits(w, n)| == Length(w, n)
  {
    match n {
      case Return(v) =>
      case Jump(l, r) =>
        LengthOfBits(w, l);
        LengthOfBits(w, r);
      case Match(val, sub) => LengthOfBits(w, sub);
      case Default(v, sub) => LengthOfBits(w, sub);
      case End =>
    }
  }

  lemma HeadMeasured(ins: nat, f: Field, v: nat)
    requires InRange(Opcode, ins) && InRange(f, v)
    ensures HeadLength(CODED, ins, f, v) == CODER_INS.Size(ins) + CoderOf(f).Size(v)
  {
    CodedMeasured();
  }

  /** If the jumps of an encodable program fit, its size is its length. */
  ghost predicate Exact(n: BinNode) {
    WellFormed(n) && Encodable(CODED, n) && JumpsFit(CODED, n) ==> Length(CODED, n) == Size(n)
  }

  lemma JumpExact(l: BinNode, r: BinNode)
    requires Exact(l) && Exact(r)
    ensures Exact(Jump(l, r))
  {
    if InRange(Distance, Size(l) % U32) {
      HeadMeasured(JUMP, Distance, Size(l) % U32);
    }
  }

  lemma MatchExact(val: Pattern, sub: BinNode)
    requires Exact(sub)
    ensures Exact(Match(val, sub))
  {
    if InRange(Argument, val) {
      HeadMeasured(MATCH, Argument, val);
    }
  }

  lemma AsnExact(v: nat, sub: BinNode)
    ensures Exact(Return(v)) && (Exact(sub) ==> Exact(Default(v, sub)))
  {
    if InRange(Asn, v) {
      HeadMeasured(RETURN, Asn, v);
      HeadMeasured(DEFAULT, Asn, v);
    }
  }

  lemma {:induction false} AllExact(n: BinNode)
    ensures Exact(n)
  {
    match n {
      case Return(v) => AsnExact(v, End);
      case Jump(l, r) =>
        AllExact(l);
        AllExact(r);
        JumpExact(l, r);
      case Match(val, sub) =>
        AllExact(sub);
        MatchExact(val, sub);
      case Default(v, sub) =>
        AllExact(sub);
        AsnExact(v, sub);
      case End =>
    }
  }

  /** With jumps in range the size is the length of the encoding, bit for bit. */
  lemma ExactSize(n: BinNode)
    requires WellFormed(n) && Encodable(CODED, n) && JumpsFit(CODED, n)
    ensures Length(CODED, n) == Size(n)
  {
    AllExact(n);
  }

  /**
   * What the decoder needs of a program: its arguments are in range, its shape is
   * one the constructors leave, and a left side whose jumps fit is as long as its size.
   */
  ghost predicate Fit(w: FieldCode, n: BinNode) {
    match n
    case Return(v) => InRange(Asn, v)
    case Jump(l, r) =>
      && !l.End? && !r.End? && (JumpsFit(w, l) ==> Length(w, l) == w.span(l))
      && InRange(Distance, w.span(l) % U32) && Fit(w, l) && Fit(w, r)
    case Match(val, sub) => InRange(Argument, val) && Fit(w, sub)
    case Default(v, sub) => InRange(Asn, v) && (sub.Jump? || sub.Match?) && Fit(w, sub)
    case End => false
  }

  lemma {:induction false} ProgramsFit(n: BinNode)
    requires WellFormed(n) && Encodable(CODED, n)
    ensures Fit(CODED, n)
  {
    match n {
      case Return(v) =>
      case Jump(l, r) =>
        ProgramsFit(l);
        ProgramsFit(r);
        if JumpsFit(CODED, l) {
          ExactSize(l);
        }
      case Match(val, sub) => ProgramsFit(sub);
      case Default(v, sub) => ProgramsFit(sub);
      case End =>
    }
  }

  // ---------------------------------------------------------------- decoding

  /** Reads one program at `pos`. */
  function DecodeNode(w: FieldCode, bits: seq<Bit>, pos: nat): (r: Option<(BinNode, nat)>)
    requires Lawful(w) && pos <= |bits|
    ensures r.Some? ==> pos < r.value.1 <= |bits|
    decreases |bits| - pos, 1
  {
    var op := w.read(Opcode, bits, pos);
    if op.None? then None else DecodeBody(w, op.value.0, bits, op.value.1)
  }

  /** What follows the opcode; a JUMP whose distance is not its left side's length is refused. */
  function DecodeBody(w: FieldCode, ins: nat, bits: seq<Bit>, pos: nat): (r: Option<(BinNode, nat)>)
    requires Lawful(w) && pos <= |bits|
    ensures r.Some? ==> pos <= r.value.1 <= |bits|
    decreases |bits| - pos, 0
  {
    if ins == RETURN then
      var (asn, next) :- w.read(Asn, bits, pos);
      Some((Return(asn), next))
    else if ins == JUMP then
      var (jump, next) :- w.read(Distance, bits, pos);
      var (left, mid) :- DecodeNode(w, bits, next);
      if mid != next + jump then None
      else
        var (right, end) :- DecodeNode(w, bits, mid);
        Some((BranchNode(left, right), end))
    else if ins == MATCH then
      var (val, next) :- w.read(Argument, bits, pos);
      var (sub, end) :- DecodeNode(w, bits, next);
      Some((Match(val, sub), end))
    else if ins == DEFAULT then
      var (asn, next) :- w.read(Asn, bits, pos);
      var (sub, end) :- DecodeNode(w, bits, next);
      Some((DefaultNode(asn, sub), end))
    else if ins == END then Some((End, pos))
    else None
  }

  /** ASNs of a program are bounded. */
  ghost predicate Bounded(n: BinNode, most: nat) {
    match n
    case Return(v) => v <= most
    case Jump(l, r) => Bounded(l, most) && Bounded(r, most)
    case Match(val, sub) => Bounded(sub, most)
    case Default(v, sub) => v <= most && Bounded(sub, most)
    case End => true
  }

  /** What a decoded program always is: without End, with sizes added up and encodable ASNs. */
  ghost predicate Sound(n: BinNode) {
    WellFormed(n) && Bounded(n, ASN_MAX)
  }

  lemma BranchSound(l: BinNode, r: BinNode)
    requires Sound(l) && Sound(r)
    ensures Sound(BranchNode(l, r))
  {
    BranchNodeBuilt(l, r);
  }

  lemma MatchSound(val: Pattern, sub: BinNode)
    requires Sound(sub) && InRange(Argument, val)
    ensures Sound(Match(val, sub))
  {
    MatchBuilt(val, sub);
  }

  lemma DefaultSound(v: nat, sub: BinNode)
    requires Sound(sub) && InRange(Asn, v)
    ensures Sound(DefaultNode(v, sub))
  {
    DefaultNodeBuilt(v, sub);
  }

  /** Whatever bits are read, the program that comes out is well formed and has encodable ASNs. */
  lemma {:induction false} DecodedSound(w: FieldCode, bits: seq<Bit>, pos: nat)
    requires Lawful(w) && pos <= |bits| && DecodeNode(w, bits, pos).Some?
    ensures Sound(DecodeNode(w, bits, pos).value.0)
    decreases |bits| - pos
  {
    var (ins, at) := w.read(Opcode, bits, pos).value;
    assert InRange(Opcode, ins);
    if ins == RETURN {
      assert InRange(Asn, w.read(Asn, bits, at).value.0);
    } else if ins == JUMP {
      var next := w.read(Distance, bits, at).value.1;
      var (left, mid) := DecodeNode(w, bits, next).value;
      DecodedSound(w, bits, next);
      DecodedSound(w, bits, mid);
      BranchSound(left, DecodeNode(w, bits, mid).value.0);
    } else if ins == MATCH {
      var (val, next) := w.read(Argument, bits, at).value;
      DecodedSound(w, bits, next);
      MatchSound(val, DecodeNode(w, bits, next).value.0);
    } else {
      var (asn, next) := w.read(Asn, bits, at).value;
      DecodedSound(w, bits, next);
      DefaultSound(asn, DecodeNode(w, bits, next).value.0);
    }
  }

  /** An opcode and its argument read back one after the other. */
  ghost predicate HeadAt(w: FieldCode, ins: nat, f: Field, v: nat, bits: seq<Bit>, pos: nat) {
    var at := pos + |w.write(Opcode, ins)|;
    && w.read(Opcode, bits, pos) == Some((ins, at))
    && w.read(f, bits, at) == Some((v, pos + HeadLength(w, ins, f, v)))
    && pos + HeadLength(w, ins, f, v) <= |bits|
  }

  /** The program `n` laid out in the stream from `pos`: its fields read back one after the other. */
  ghost predicate Laid(w: FieldCode, n: BinNode, bits: seq<Bit>, pos: nat) {
    match n
    case Return(v) => HeadAt(w, RETURN, Asn, v, bits, pos)
    case Jump(l, r) =>
      var jump := w.span(l) % U32;
      var next := pos + HeadLength(w, JUMP, Distance, jump);
      HeadAt(w, JUMP, Distance, jump, bits, pos) && Laid(w, l, bits, next) && Laid(w, r, bits, next + Length(w, l))
    case Match(val, sub) =>
      HeadAt(w, MATCH, Argument, val, bits, pos) && Laid(w, sub, bits, pos + HeadLength(w, MATCH, Argument, val))
    case Default(v, sub) =>
      HeadAt(w, DEFAULT, Asn, v, bits, pos) && Laid(w, sub, bits, pos + HeadLength(w, DEFAULT, Asn, v))
    case End => false
  }

  lemma HeadAppend(w: FieldCode, ins: nat, f: Field, v: nat, rest: seq<Bit>, bits: seq<Bit>, pos: nat)
    requires Lawful(w) && InRange(Opcode, ins) && InRange(f, v)
    requires At(bits, pos, w.write(Opcode, ins) + w.write(f, v) + rest)
    ensures HeadAt(w, ins, f, v, bits, pos) && At(bits, pos + HeadLength(w, ins, f, v), rest)
  {
    AtAppend(bits, pos, w.write(Opcode, ins) + w.write(f, v), rest);
    AtAppend(bits, pos, w.write(Opcode, ins), w.write(f, v));
  }

  lemma HeadAppendTwo(w: FieldCode, jump: nat, a: seq<Bit>, b: seq<Bit>, bits: seq<Bit>, pos: nat)
    requires Lawful(w) && InRange(Distance, jump)
    requires At(bits, pos, w.write(Opcode, JUMP) + w.write(Distance, jump) + (a + b))
    ensures HeadAt(w, JUMP, Distance, jump, bits, pos)
    ensures var next := pos + HeadLength(w, JUMP, Distance, jump); At(bits, next, a) && At(bits, next + |a|, b)
  {
    HeadAppend(w, JUMP, Distance, jump, a + b, bits, pos);
    AtAppend(bits, pos + HeadLength(w, JUMP, Distance, jump), a, b);
  }

  /** A JUMP with its distance, then the bits of both sides. */
  ghost predicate JumpAt(w: FieldCode, l: BinNode, r: BinNode, bits: seq<Bit>, pos: nat, jump: nat) {
    var next := pos + HeadLength(w, JUMP, Distance, jump);
    && HeadAt(w, JUMP, Distance, jump, bits, pos)
    && At(bits, next, EncodeBits(w, l)) && At(bits, next + Length(w, l), EncodeBits(w, r))
  }

  lemma JumpParts(w: FieldCode, l: BinNode, r: BinNode, bits: seq<Bit>, pos: nat, jump: nat)
    requires Lawful(w) && jump == w.span(l) % U32
    ensures InRange(Distance, jump) && At(bits, pos, EncodeBits(w, Jump(l, r))) ==> JumpAt(w, l, r, bits, pos, jump)
  {
    if InRange(Distance, jump) && At(bits, pos, EncodeBits(w, Jump(l, r))) {
      HeadAppendTwo(w, jump, EncodeBits(w, l), EncodeBits(w, r), bits, pos);
      LengthOfBits(w, l);
    }
  }

  /** If the program's bits stand at `pos`, it is laid out there. */
  ghost predicate Stands(w: FieldCode, n: BinNode, bits: seq<Bit>, pos: nat) {
    Fit(w, n) && At(bits, pos, EncodeBits(w, n)) ==> Laid(w, n, bits, pos)
  }

  lemma SidesLaid(w: FieldCode, l: BinNode, r: BinNode, bits: seq<Bit>, pos: nat, jump: nat, next: nat)
    requires jump == w.span(l) % U32 && next == pos + HeadLength(w, JUMP, Distance, jump)
    ensures JumpAt(w, l, r, bits, pos, jump) && Laid(w, l, bits, next) && Laid(w, r, bits, next + Length(w, l)) ==>
      Laid(w, Jump(l, r), bits, pos)
  {
  }

  lemma JumpStands(w: FieldCode, l: BinNode, r: BinNode, bits: seq<Bit>, pos: nat, jump: nat, next: nat)
    requires Lawful(w) && jump == w.span(l) % U32 && next == pos + HeadLength(w, JUMP, Distance, jump)
    requires Stands(w, l, bits, next) && Stands(w, r, bits, next + Length(w, l))
    ensures Stands(w, Jump(l, r), bits, pos)
  {
    JumpParts(w, l, r, bits, pos, jump);
    SidesLaid(w, l, r, bits, pos, jump, next);
  }

  lemma MatchStands(w: FieldCode, val: Pattern, sub: BinNode, bits: seq<Bit>, pos: nat)
    requires Lawful(w) && Stands(w, sub, bits, pos + HeadLength(w, MATCH, Argument, val))
    ensures Stands(w, Match(val, sub), bits, pos)
  {
    if InRange(Argument, val) && At(bits, pos, EncodeBits(w, Match(val, sub))) {
      HeadAppend(w, MATCH, Argument, val, EncodeBits(w, sub), bits, pos);
    }
  }

  lemma DefaultStands(w: FieldCode, v: nat, sub: BinNode, bits: seq<Bit>, pos: nat)
    requires Lawful(w) && Stands(w, sub, bits, pos + HeadLength(w, DEFAULT, Asn, v))
    ensures Stands(w, Default(v, sub), bits, pos)
  {
    if InRange(Asn, v) && At(bits, pos, EncodeBits(w, Default(v, sub))) {
      HeadAppend(w, DEFAULT, Asn, v, EncodeBits(w, sub), bits, pos);
    }
  }

  lemma ReturnStands(w: FieldCode, v: nat, bits: seq<Bit>, pos: nat)
    requires Lawful(w)
    ensures Stands(w, Return(v), bits, pos)
  {
    if InRange(Asn, v) && At(bits, pos, EncodeBits(w, Return(v))) {
      assert Head(w, Return(v)) + [] == Head(w, Return(v));
      HeadAppend(w, RETURN, Asn, v, [], bits, pos);
    }
  }

  lemma {:induction false} AllStand(w: FieldCode, n: BinNode, bits: seq<Bit>, pos: nat)
    requires Lawful(w)
    ensures Stands(w, n, bits, pos)
  {
    match n {
      case Return(v) => ReturnStands(w, v, bits, pos);
      case Jump(l, r) =>
        var jump := w.span(l) % U32;
        var next := pos + HeadLength(w, JUMP, Distance, jump);
        AllStand(w, l, bits, next);
        AllStand(w, r, bits, next + Length(w, l));
        JumpStands(w, l, r, bits, pos, jump, next);
      case Match(val, sub) =>
        AllStand(w, sub, bits, pos + HeadLength(w, MATCH, Argument, val));
        MatchStands(w, val, sub, bits, pos);
      case Default(v, sub) =>
        AllStand(w, sub, bits, pos + HeadLength(w, DEFAULT, Asn, v));
        DefaultStands(w, v, sub, bits, pos);
      case End =>
    }
  }

  /** A program whose bits are in the stream is laid out there. */
  lemma EncodingLaid(w: FieldCode, n: BinNode, bits: seq<Bit>, pos: nat)
    requires Lawful(w) && Fit(w, n) && At(bits, pos, EncodeBits(w, n))
    ensures Laid(w, n, bits, pos)
  {
    AllStand(w, n, bits, pos);
  }

  /** The decoder returns the program and stops at its end when every jump fits, and otherwise refuses. */
  ghost predicate Decodes(w: FieldCode, n: BinNode, bits: seq<Bit>, pos: nat)
    requires Lawful(w)
  {
    && pos <= |bits|
    && DecodeNode(w, bits, pos) == if JumpsFit(w, n) then Some((n, pos + Length(w, n))) else None
  }

  /** The cast to 32 bits changes every distance the jump coder cannot carry. */
  lemma CastExact(size: nat)
    requires InRange(Distance, size % U32)
    ensures size % U32 == size <==> size <= JUMP_MAX
  {
  }

  lemma CastKeeps(size: nat)
    requires 17 <= size <= JUMP_MAX
    ensures InRange(Distance, size % U32)
  {
  }

  /** After the opcode of a head the decoder goes on with what the opcode asks for. */
  lemma HeadDecodes(w: FieldCode, ins: nat, f: Field, v: nat, bits: seq<Bit>, pos: nat)
    requires Lawful(w) && HeadAt(w, ins, f, v, bits, pos)
    ensures pos + |w.write(Opcode, ins)| <= |bits| &&
            DecodeNode(w, bits, pos) == DecodeBody(w, ins, bits, pos + |w.write(Opcode, ins)|)
  {
  }

  /** The consistency check of a JUMP, by what its left side really takes. */
  lemma DecodeJump(w: FieldCode, l: BinNode, r: BinNode, jump: nat, bits: seq<Bit>, pos: nat, next: nat)
    requires Lawful(w) && pos <= |bits| && w.read(Distance, bits, pos) == Some((jump, next))
    requires Decodes(w, l, bits, next) && Decodes(w, r, bits, next + Length(w, l))
    ensures DecodeBody(w, JUMP, bits, pos) ==
      if JumpsFit(w, l) && Length(w, l) == jump && JumpsFit(w, r) then
        Some((BranchNode(l, r), next + Length(w, l) + Length(w, r)))
      else None
  {
  }

  /** A JUMP fits exactly when the check of its distance and both sides do. */
  lemma JumpFitsIff(w: FieldCode, l: BinNode, r: BinNode, jump: nat)
    requires jump == w.span(l) % U32 && (jump == w.span(l) <==> w.span(l) <= JUMP_MAX)
    requires JumpsFit(w, l) ==> Length(w, l) == w.span(l)
    ensures JumpsFit(w, Jump(l, r)) <==> JumpsFit(w, l) && Length(w, l) == jump && JumpsFit(w, r)
    ensures Length(w, Jump(l, r)) == HeadLength(w, JUMP, Distance, jump) + Length(w, l) + Length(w, r)
  {
  }

  lemma JumpDecodes(w: FieldCode, l: BinNode, r: BinNode, jump: nat, bits: seq<Bit>, pos: nat, next: nat)
    requires Lawful(w) && HeadAt(w, JUMP, Distance, jump, bits, pos) && next == pos + HeadLength(w, JUMP, Distance, jump)
    requires Decodes(w, l, bits, next) && Decodes(w, r, bits, next + Length(w, l)) && !l.End? && !r.End?
    requires jump == w.span(l) % U32 && (jump == w.span(l) <==> w.span(l) <= JUMP_MAX)
    requires JumpsFit(w, l) ==> Length(w, l) == w.span(l)
    ensures Decodes(w, Jump(l, r), bits, pos)
  {
    HeadDecodes(w, JUMP, Distance, jump, bits, pos);
    DecodeJump(w, l, r, jump, bits, pos + |w.write(Opcode, JUMP)|, next);
    JumpFitsIff(w, l, r, jump);
    assert BranchNode(l, r) == Jump(l, r);
  }

  lemma MatchDecodes(w: FieldCode, val: Pattern, sub: BinNode, bits: seq<Bit>, pos: nat)
    requires Lawful(w) && HeadAt(w, MATCH, Argument, val, bits, pos)
    requires Decodes(w, sub, bits, pos + HeadLength(w, MATCH, Argument, val))
    ensures Decodes(w, Match(val, sub), bits, pos)
  {
  }

  lemma DefaultDecodes(w: FieldCode, v: nat, sub: BinNode, bits: seq<Bit>, pos: nat)
    requires Lawful(w) && HeadAt(w, DEFAULT, Asn, v, bits, pos) && (sub.Jump? || sub.Match?)
    requires Decodes(w, sub, bits, pos + HeadLength(w, DEFAULT, Asn, v))
    ensures Decodes(w, Default(v, sub), bits, pos)
  {
  }

  lemma ReturnDecodes(w: FieldCode, v: nat, bits: seq<Bit>, pos: nat)
    requires Lawful(w) && HeadAt(w, RETURN, Asn, v, bits, pos)
    ensures Decodes(w, Return(v), bits, pos)
  {
  }

  /** If the program is laid out at `pos`, the decoder reads it there. */
  ghost predicate Reads(w: FieldCode, n: BinNode, bits: seq<Bit>, pos: nat)
    requires Lawful(w)
  {
    Fit(w, n) && Laid(w, n, bits, pos) ==> Decodes(w, n, bits, pos)
  }

  lemma JumpReads(w: FieldCode, l: BinNode, r: BinNode, bits: seq<Bit>, pos: nat, next: nat)
    requires Lawful(w) && next == pos + HeadLength(w, JUMP, Distance, w.span(l) % U32)
    requires Reads(w, l, bits, next) && Reads(w, r, bits, next + Length(w, l))
    ensures Reads(w, Jump(l, r), bits, pos)
  {
    if Fit(w, Jump(l, r)) && Laid(w, Jump(l, r), bits, pos) {
      CastExact(w.span(l));
      JumpDecodes(w, l, r, w.span(l) % U32, bits, pos, next);
    }
  }

  lemma MatchReads(w: FieldCode, val: Pattern, sub: BinNode, bits: seq<Bit>, pos: nat)
    requires Lawful(w) && Reads(w, sub, bits, pos + HeadLength(w, MATCH, Argument, val))
    ensures Reads(w, Match(val, sub), bits, pos)
  {
    if Fit(w, Match(val, sub)) && Laid(w, Match(val, sub), bits, pos) {
      MatchDecodes(w, val, sub, bits, pos);
    }
  }

  lemma DefaultReads(w: FieldCode, v: nat, sub: BinNode, bits: seq<Bit>, pos: nat)
    requires Lawful(w) && Reads(w, sub, bits, pos + HeadLength(w, DEFAULT, Asn, v))
    ensures Reads(w, Default(v, sub), bits, pos)
  {
    if Fit(w, Default(v, sub)) && Laid(w, Default(v, sub), bits, pos) {
      DefaultDecodes(w, v, sub, bits, pos);
    }
  }

  lemma ReturnReads(w: FieldCode, v: nat, bits: seq<Bit>, pos: nat)
    requires Lawful(w)
    ensures Reads(w, Return(v), bits, pos)
  {
    if Laid(w, Return(v), bits, pos) {
      ReturnDecodes(w, v, bits, pos);
    }
  }

  lemma {:induction false} AllRead(w: FieldCode, n: BinNode, bits: seq<Bit>, pos: nat)
    requires Lawful(w)
    ensures Reads(w, n, bits, pos)
  {
    match n {
      case Return(v) => ReturnReads(w, v, bits, pos);
      case Jump(l, r) =>
        var next := pos + HeadLength(w, JUMP, Distance, w.span(l) % U32);
        AllRead(w, l, bits, next);
        AllRead(w, r, bits, next + Length(w, l));
        JumpReads(w, l, r, bits, pos, next);
      case Match(val, sub) =>
        AllRead(w, sub, bits, pos + HeadLength(w, MATCH, Argument, val));
        MatchReads(w, val, sub, bits, pos);
      case Default(v, sub) =>
        AllRead(w, sub, bits, pos + HeadLength(w, DEFAULT, Asn, v));
        DefaultReads(w, v, sub, bits, pos);
      case End =>
    }
  }

  /** Decoding a program wherever it is laid out. */
  lemma DecodeLaid(w: FieldCode, n: BinNode, bits: seq<Bit>, pos: nat)
    requires Lawful(w) && Fit(w, n) && Laid(w, n, bits, pos)
    ensures Decodes(w, n, bits, pos)
  {
    AllRead(w, n, bits, pos);
  }

  // ---------------------------------------------------------------- bytes

  /** The value of bits packed low bit first. */
  function PackedValue(bits: seq<Bit>): nat {
    if bits == [] then 0 else bits[0] + 2 * PackedValue(bits[1..])
  }

  lemma {:induction false} PackedBound(bits: seq<Bit>)
    ensures PackedValue(bits) < Pow2(|bits|)
  {
    if bits != [] {
      PackedBound(bits[1..]);
    }
  }

  function PackByte(bits: seq<Bit>): Byte
    requires |bits| <= 8
  {
    PackedBound(bits);
    assert Pow2(8) == 256;
    Pow2Monotone(|bits|, 8);
    PackedValue(bits)
  }

  function Pack(bits: seq<Bit>): seq<Byte> {
    if bits == [] then []
    else if |bits| <= 8 then [PackByte(bits)]
    else [PackByte(bits[..8])] + Pack(bits[8..])
  }

  /** The `n` low bits of `b`, low bit first. */
  function LowBits(b: nat, n: nat): (r: seq<Bit>)
    ensures |r| == n
  {
    if n == 0 then [] else [b % 2] + LowBits(b / 2, n - 1)
  }

  function Unpack(bytes: seq<Byte>): seq<Bit> {
    if bytes == [] then [] else LowBits(bytes[0], 8) + Unpack(bytes[1..])
  }

  function Zeros(n: nat): seq<Bit> {
    seq(n, i => 0)
  }

  lemma {:induction false} UnpackByte(bits: seq<Bit>, n: nat)
    requires |bits| <= n
    ensures LowBits(PackedValue(bits), n) == bits + Zeros(n - |bits|)
    decreases n
  {
    if bits != [] {
      UnpackByte(bits[1..], n - 1);
      assert PackedValue(bits) % 2 == bits[0] && PackedValue(bits) / 2 == PackedValue(bits[1..]);
    } else if n > 0 {
      UnpackByte([], n - 1);
    }
  }

  /** The bits that fill the last byte. */
  function Padding(n: nat): (pad: nat)
    ensures pad < 8
  {
    (8 - n % 8) % 8
  }

  lemma PaddingRepeats(n: nat)
    ensures Padding(n + 8) == Padding(n)
  {
  }

  lemma UnpackByteWhole(bits: seq<Bit>)
    requires |bits| <= 8
    ensures LowBits(PackByte(bits), 8) == bits + Zeros(8 - |bits|)
  {
    UnpackByte(bits, 8);
  }

  lemma PackFirst(bits: seq<Bit>)
    requires |bits| >= 8
    ensures Pack(bits) == [PackByte(bits[..8])] + Pack(bits[8..])
  {
    if |bits| == 8 {
      assert bits[..8] == bits;
    }
  }

  lemma UnpackFirst(byte: Byte, rest: seq<Byte>)
    ensures Unpack([byte] + rest) == LowBits(byte, 8) + Unpack(rest)
  {
    assert ([byte] + rest)[1..] == rest;
  }

  lemma UnpackOne(byte: Byte)
    ensures Unpack([byte]) == LowBits(byte, 8)
  {
    UnpackFirst(byte, []);
    assert [byte] + [] == [byte];
    assert LowBits(byte, 8) + [] == LowBits(byte, 8);
  }

  lemma UnpackLast(bits: seq<Bit>)
    requires 0 < |bits| < 8
    ensures Unpack(Pack(bits)) == bits + Zeros(8 - |bits|)
  {
    UnpackByteWhole(bits);
    UnpackOne(PackByte(bits));
  }

  lemma UnpackMore(bits: seq<Bit>, tail: seq<Bit>)
    requires |bits| >= 8 && Unpack(Pack(bits[8..])) == tail
    ensures Unpack(Pack(bits)) == bits[..8] + tail
  {
    PackFirst(bits);
    UnpackFirst(PackByte(bits[..8]), Pack(bits[8..]));
    UnpackByteWhole(bits[..8]);
    assert bits[..8] + Zeros(0) == bits[..8];
  }

  /** Unpacking undoes packing up to fewer than eight zero bits. */
  lemma {:induction false} UnpackUndoesPack(bits: seq<Bit>)
    ensures Unpack(Pack(bits)) == bits + Zeros(Padding(|bits|))
  {
    if bits == [] {
    } else if |bits| < 8 {
      UnpackLast(bits);
      assert Padding(|bits|) == 8 - |bits|;
    } else {
      UnpackUndoesPack(bits[8..]);
      PaddingRepeats(|bits| - 8);
      UnpackJoin(bits, Zeros(Padding(|bits|)));
    }
  }

  lemma Rejoin(bits: seq<Bit>, pad: seq<Bit>)
    requires |bits| >= 8
    ensures bits[..8] + (bits[8..] + pad) == bits + pad
  {
  }

  lemma UnpackJoin(bits: seq<Bit>, pad: seq<Bit>)
    requires |bits| >= 8 && Unpack(Pack(bits[8..])) == bits[8..] + pad
    ensures Unpack(Pack(bits)) == bits + pad
  {
    UnpackMore(bits, bits[8..] + pad);
    Rejoin(bits, pad);
  }

  // ---------------------------------------------------------------- the binary form of a map

  /** The encoder's bits, or None where one of its assertions aborts. */
  function ToBits(n: BinNode): Option<seq<Bit>> {
    if n.End? then Some([])
    else if Encodable(CODED, n) then Some(EncodeBits(CODED, n))
    else None
  }

  ghost function ToBinary(t: Trie, fill: bool): Option<seq<Byte>> {
    var bits :- ToBits(ToNode(t, fill));
    Some(Pack(bits))
  }

  function FromBits(bits: seq<Bit>): Option<Trie> {
    if bits == [] then Some(Leaf(0))
    else
      CodedLawful();
      var (n, pos) :- DecodeNode(CODED, bits, 0);
      if pos + 7 < |bits| then None
      else if exists i :: pos <= i < |bits| && bits[i] != 0 then None
      else FromNode(n)
  }

  function FromBinary(bytes: seq<Byte>): Option<Trie> {
    FromBits(Unpack(bytes))
  }

  ghost predicate RoundTrips(t: Trie, fill: bool) {
    var bytes := ToBinary(t, fill);
    bytes.Some? && FromBinary(bytes.value).Some? && Meets(FromBinary(bytes.value).value, t, fill)
  }

  ghost predicate AsnsFit(t: Trie) {
    forall v: nat :: HasAsn(t, v) ==> v <= ASN_MAX
  }

  // ---------------------------------------------------------------- which ASNs a program carries

  ghost predicate TableBounded(table: ProgramTable, most: nat) {
    forall c :: c in table ==> (c.Some? ==> c.value <= most) && Bounded(table[c], most)
  }

  lemma BranchBounded(l: BinNode, r: BinNode, most: nat)
    requires Bounded(l, most) && Bounded(r, most)
    ensures Bounded(BranchNode(l, r), most)
  {
  }

  lemma HalvesBounded(l: ProgramTable, r: ProgramTable, c: Context, n: BinNode, most: nat)
    requires TableBounded(l, most) && TableBounded(r, most) && FromHalves(PROGRAMS, l, r, c, n)
    ensures Bounded(n, most) && (c.Some? ==> c.value <= most)
  {
    if c in l && c in r && n == BranchNode(l[c], r[c]) {
      BranchBounded(l[c], r[c], most);
    } else if None in l && c in r && n == BranchNode(l[None], r[c]) {
      BranchBounded(l[None], r[c], most);
    } else {
      BranchBounded(l[c], r[None], most);
    }
  }

  lemma {:induction false} CompiledBounded(t: Trie, fill: bool, most: nat)
    requires forall v: nat :: HasAsn(t, v) ==> v <= most
    ensures TableBounded(Tabulate(PROGRAMS, t, fill).0, most)
  {
    match t {
      case Leaf(v) =>
        assert HasAsn(t, v);
      case Branch(left, right) =>
        assert forall v: nat :: HasAsn(left, v) || HasAsn(right, v) ==> HasAsn(t, v);
        CompiledBounded(left, fill, most);
        CompiledBounded(right, fill, most);
        TableOfBranch(PROGRAMS, t, fill);
        StepBounded(Tabulate(PROGRAMS, left, fill).0, Tabulate(PROGRAMS, right, fill).0, Hole(t, fill), most);
    }
  }

  lemma StepBounded(l: ProgramTable, r: ProgramTable, hole: bool, most: nat)
    requires TableBounded(l, most) && TableBounded(r, most)
    ensures TableBounded(JoinStep(PROGRAMS, l, r, hole), most)
  {
    forall c | c in JoinStep(PROGRAMS, l, r, hole)
      ensures (c.Some? ==> c.value <= most) && Bounded(JoinStep(PROGRAMS, l, r, hole)[c], most)
    {
      StepProvenance(PROGRAMS, l, r, hole, c);
      EntryBounded(l, r, c, JoinStep(PROGRAMS, l, r, hole)[c], most);
    }
  }

  lemma EntryBounded(l: ProgramTable, r: ProgramTable, c: Context, n: BinNode, most: nat)
    requires TableBounded(l, most) && TableBounded(r, most)
    requires FromHalves(PROGRAMS, l, r, c, n) || (c.None? && FromCoveredHalves(PROGRAMS, l, r, n))
    ensures Bounded(n, most) && (c.Some? ==> c.value <= most)
  {
    if FromHalves(PROGRAMS, l, r, c, n) {
      HalvesBounded(l, r, c, n, most);
    } else {
      var k, y :| FromHalves(PROGRAMS, l, r, Some(k), y) && n == PROGRAMS.cover(k, y);
      HalvesBounded(l, r, Some(k), y, most);
      DefaultBounded(k, y, most);
      assert n == DefaultNode(k, y);
    }
  }

  lemma DefaultBounded(k: nat, n: BinNode, most: nat)
    requires k <= most && Bounded(n, most)
    ensures Bounded(DefaultNode(k, n), most)
  {
  }

  lemma {:induction false} EncodableBounded(n: BinNode)
    requires Encodable(CODED, n)
    ensures Bounded(n, ASN_MAX)
  {
    match n {
      case Return(v) =>
      case Jump(l, r) =>
        EncodableBounded(l);
        EncodableBounded(r);
      case Match(val, sub) => EncodableBounded(sub);
      case Default(v, sub) => EncodableBounded(sub);
      case End =>
    }
  }

  /** Of a well-formed program with fitting jumps, only an ASN can stop the encoder. */
  lemma {:induction false} BoundedEncodable(n: BinNode)
    requires Sound(n) && JumpsFit(CODED, n)
    ensures Encodable(CODED, n)
  {
    match n {
      case Return(v) =>
      case Jump(l, r) =>
        SmallestProgram(l);
        CastKeeps(Size(l));
        BoundedEncodable(l);
        BoundedEncodable(r);
      case Match(val, sub) => BoundedEncodable(sub);
      case Default(v, sub) => BoundedEncodable(sub);
      case End =>
    }
  }

  lemma {:induction false} WrapAsns(val: nat, sub: Trie, fallback: nat, v: nat)
    requires HasAsn(Wrap(val, sub, fallback), v)
    ensures HasAsn(sub, v) || v == fallback
    decreases val
  {
    if val >= 2 {
      WrapAsns(val / 2, if val % 2 != 0 then Merge(Leaf(fallback), sub) else Merge(sub, Leaf(fallback)), fallback, v);
    }
  }

  lemma {:induction false} EvalAsns(n: BinNode, fallback: nat, most: nat, v: nat)
    requires Bounded(n, most) && HasAsn(Eval(n, fallback), v)
    ensures v <= most || v == fallback
  {
    match n {
      case Return(_) =>
      case Jump(l, r) =>
        if HasAsn(Eval(l, fallback), v) {
          EvalAsns(l, fallback, most, v);
        } else {
          EvalAsns(r, fallback, most, v);
        }
      case Match(val, sub) =>
        WrapAsns(val, Eval(sub, fallback), fallback, v);
        if v != fallback {
          EvalAsns(sub, fallback, most, v);
        }
      case Default(k, sub) => EvalAsns(sub, k, most, v);
      case End =>
    }
  }

  /** An extension carries every ASN it had to keep. */
  lemma {:induction false} ExtensionAsns(actual: Trie, req: Trie, v: nat)
    requires Extends(actual, req) && HasAsn(req, v) && v != 0
    ensures HasAsn(actual, v)
    decreases actual, req
  {
    if req.Branch? {
      ExtendsHalves(actual, req);
      var bit := HasAsn(req.right, v);
      ExtensionAsns(Half(actual, bit), Half(req, bit), v);
    } else if actual.Branch? {
      ExtensionAsns(actual.left, req, v);
    }
  }

  // ---------------------------------------------------------------- the round trip

  /** The checks around the decoded program: fewer than eight bits left over, all zero. */
  lemma PaddingAccepted(word: seq<Bit>, pad: nat, n: BinNode)
    requires Lawful(CODED) && word != [] && pad < 8
    requires DecodeNode(CODED, word + Zeros(pad), 0) == Some((n, |word|))
    ensures FromBits(word + Zeros(pad)) == FromNode(n)
  {
    var bits := word + Zeros(pad);
    assert forall i :: |word| <= i < |bits| ==> bits[i] == 0;
  }

  /** The decoder on the bits of a well-formed program, padded. */
  lemma DecodePadded(n: BinNode, pad: nat)
    requires Lawful(CODED) && WellFormed(n) && Encodable(CODED, n)
    ensures Decodes(CODED, n, EncodeBits(CODED, n) + Zeros(pad), 0)
  {
    var word := EncodeBits(CODED, n);
    assert At(word + Zeros(pad), 0, word);
    ProgramsFit(n);
    EncodingLaid(CODED, n, word + Zeros(pad), 0);
    DecodeLaid(CODED, n, word + Zeros(pad), 0);
  }

  lemma DecodePacked(n: BinNode)
    requires WellFormed(n) && Encodable(CODED, n)
    ensures FromBinary(Pack(EncodeBits(CODED, n))) == if JumpsFit(CODED, n) then Some(Eval(n, 0)) else None
  {
    var word := EncodeBits(CODED, n);
    var pad := Padding(|word|);
    CodedLawful();
    EncodesSomething(CODED, n);
    UnpackUndoesPack(word);
    DecodePadded(n, pad);
    LengthOfBits(CODED, n);
    if JumpsFit(CODED, n) {
      PaddingAccepted(word, pad, n);
      InterpretIsEval(n, 0);
    }
  }

  lemma EncodesSomething(w: FieldCode, n: BinNode)
    requires Lawful(w) && Encodable(w, n)
    ensures EncodeBits(w, n) != []
  {
    LengthOfBits(w, n);
    WritesSomething(w, RETURN);
    WritesSomething(w, JUMP);
    WritesSomething(w, MATCH);
    WritesSomething(w, DEFAULT);
  }

  /** A reading that advances means a writing that is not empty. */
  lemma WritesSomething(w: FieldCode, ins: nat)
    requires Lawful(w) && InRange(Opcode, ins)
    ensures w.write(Opcode, ins) != []
  {
    var word := w.write(Opcode, ins);
    assert At(word, 0, word);
    assert w.read(Opcode, word, 0) == Some((ins, |word|));
  }

  /**
   * The binary form gives a canonical map back (with `fill`, an extension of it)
   * exactly when its ASNs are encodable and every jump of its program fits the
   * 32-bit cast and the jump coder.
   */
  lemma RoundTripIff(t: Trie, fill: bool)
    requires Canonical(t)
    ensures RoundTrips(t, fill) <==> AsnsFit(t) && JumpsFit(CODED, ToNode(t, fill))
  {
    var n := ToNode(t, fill);
    CompiledMeaning(t, fill);
    if n == End {
      EmptyProgram(t, fill);
    } else if Encodable(CODED, n) {
      EncodableRoundTrips(t, fill);
    } else if AsnsFit(t) && JumpsFit(CODED, n) {
      CompiledSound(t, fill);
      BoundedEncodable(n);
    }
  }

  lemma EncodableRoundTrips(t: Trie, fill: bool)
    requires Canonical(t) && ToNode(t, fill) != End && Encodable(CODED, ToNode(t, fill))
    ensures AsnsFit(t) && (RoundTrips(t, fill) <==> JumpsFit(CODED, ToNode(t, fill)))
  {
    var n := ToNode(t, fill);
    CompiledMeaning(t, fill);
    DecodePacked(n);
    EncodableBounded(n);
    CarriedAsns(n, t, fill);
  }

  lemma CompiledSound(t: Trie, fill: bool)
    requires Canonical(t) && AsnsFit(t) && ToNode(t, fill) != End
    ensures Sound(ToNode(t, fill))
  {
    CompiledMeaning(t, fill);
    CompiledBounded(t, fill, ASN_MAX);
    BestFound(PROGRAMS, t, fill);
  }

  lemma CarriedAsns(n: BinNode, t: Trie, fill: bool)
    requires Bounded(n, ASN_MAX) && Meets(Eval(n, 0), t, fill)
    ensures AsnsFit(t)
  {
    forall v: nat | HasAsn(t, v) ensures v <= ASN_MAX {
      CarriedAsn(n, t, fill, v);
    }
  }

  lemma CarriedAsn(n: BinNode, t: Trie, fill: bool, v: nat)
    requires Bounded(n, ASN_MAX) && Meets(Eval(n, 0), t, fill) && HasAsn(t, v)
    ensures v <= ASN_MAX
  {
    if v != 0 {
      if fill {
        ExtensionAsns(Eval(n, 0), t, v);
      }
      EvalAsns(n, 0, ASN_MAX, v);
    }
  }

  lemma EmptyProgram(t: Trie, fill: bool)
    requires Canonical(t) && ToNode(t, fill) == End
    ensures RoundTrips(t, fill) && AsnsFit(t)
  {
    CompiledMeaning(t, fill);
    CarriedAsns(End, t, fill);
    assert ToBinary(t, fill) == Some([]);
    assert FromBinary([]) == Some(Leaf(0));
  }

  lemma {:induction false} SmallProgramFits(n: BinNode)
    requires WellFormed(n) && Size(n) <= JUMP_MAX
    ensures JumpsFit(CODED, n)
  {
    match n {
      case Return(v) =>
      case Jump(l, r) =>
        SmallProgramFits(l);
        SmallProgramFits(r);
      case Match(val, sub) => SmallProgramFits(sub);
      case Default(v, sub) => SmallProgramFits(sub);
      case End =>
    }
  }

  /** Up to sixteen million leaves no jump can be too far, so encodable ASNs are all that is needed. */
  lemma SmallMapsRoundTrip(t: Trie, fill: bool)
    requires Canonical(t) && AsnsFit(t) && Leaves(t) <= 16_000_000
    ensures RoundTrips(t, fill)
    ensures !fill ==> FromBinary(ToBinary(t, fill).value) == Some(t)
    ensures fill ==> Extends(FromBinary(ToBinary(t, fill).value).value, t)
  {
    CompiledSize(t, fill);
    CompiledMeaning(t, fill);
    if ToNode(t, fill) != End {
      SmallProgramFits(ToNode(t, fill));
    }
    RoundTripIff(t, fill);
  }

  /** One ASN past the coder's range already cannot be written. */
  lemma OversizeAsnFails()
    ensures !RoundTrips(Leaf(ASN_MAX + 1), false)
  {
    RoundTripIff(Leaf(ASN_MAX + 1), false);
    assert HasAsn(Leaf(ASN_MAX + 1), ASN_MAX + 1);
  }

  lemma {:induction false} WrapLeaves(val: nat, sub: Trie, fallback: nat)
    requires val >= 1
    ensures Leaves(Wrap(val, sub, fallback)) < Leaves(sub) + BitLength(val)
    decreases val
  {
    if val >= 2 {
      WrapLeaves(val / 2, if val % 2 != 0 then Merge(Leaf(fallback), sub) else Merge(sub, Leaf(fallback)), fallback);
    }
  }

  lemma MatchLeaves(val: Pattern, sub: Trie, fallback: nat)
    requires val <= MATCH_MAX
    ensures Leaves(Wrap(val, sub, fallback)) <= Leaves(sub) + 8
  {
    assert Pow2(9) == 512;
    BitLengthBounds(val, 9);
    WrapLeaves(val, sub, fallback);
  }

  lemma MatchSizeAtLeast(val: Pattern, sub: BinNode)
    ensures Size(Match(val, sub)) >= 5 + Size(sub)
  {
    InsSizes();
    CodeLengthAtLeast(CODER_MATCH.clsbits, CODER_MATCH.Offset(val), 1);
  }

  /** A small program cannot mean a wide map: two bits at least for every leaf. */
  lemma {:induction false} LeavesNeedBits(n: BinNode, fallback: nat)
    requires WellFormed(n)
    ensures Leaves(Eval(n, fallback)) <= 2 * Size(n)
  {
    match n {
      case Return(v) => SmallestProgram(n);
      case Jump(l, r) =>
        LeavesNeedBits(l, fallback);
        LeavesNeedBits(r, fallback);
      case Match(val, sub) =>
        LeavesNeedBits(sub, fallback);
        MatchLeaves(val, Eval(sub, fallback), fallback);
        MatchSizeAtLeast(val, sub);
      case Default(v, sub) => LeavesNeedBits(sub, v);
      case End =>
    }
  }

  lemma {:induction false} WrapLeaf(val: nat, sub: Trie, fallback: nat)
    requires val >= 2
    ensures var t := Wrap(val, sub, fallback); t.Branch? ==> t.left.Leaf? || t.right.Leaf?
    decreases val
  {
    var t := if val % 2 != 0 then Merge(Leaf(fallback), sub) else Merge(sub, Leaf(fallback));
    if val >= 4 {
      WrapLeaf(val / 2, t, fallback);
    } else {
      assert Wrap(val, sub, fallback) == Wrap(1, t, fallback) == t;
    }
  }

  /** A map branching on both sides is compiled to a JUMP over its whole left half. */
  lemma {:induction false} WideJump(n: BinNode, fallback: nat, t: Trie)
    requires WellFormed(n) && Eval(n, fallback) == t && t.Branch? && t.left.Branch? && t.right.Branch?
    requires Leaves(t.left) > 2 * JUMP_MAX
    ensures !JumpsFit(CODED, n)
  {
    match n {
      case Return(v) =>
      case Jump(l, r) => LeavesNeedBits(l, fallback);
      case Match(val, sub) => WrapLeaf(val, Eval(sub, fallback), fallback);
      case Default(v, sub) => WideJump(sub, v, t);
      case End =>
    }
  }

  /** Maps too wide for the jump coder cannot be written, however small their ASNs. */
  lemma WideMapFails(t: Trie)
    requires Canonical(t) && t.Branch? && t.left.Branch? && t.right.Branch? && Leaves(t.left) > 2 * JUMP_MAX
    ensures !RoundTrips(t, false)
  {
    CompiledMeaning(t, false);
    WideJump(ToNode(t, false), 0, t);
    RoundTripIff(t, false);
  }

  /** Every address of `depth` bits answers 1 or 2 by its last bit. */
  function Alternating(depth: nat): Trie {
    if depth == 0 then Leaf(1)
    else if depth == 1 then Branch(Leaf(1), Leaf(2))
    else Branch(Alternating(depth - 1), Alternating(depth - 1))
  }

  lemma {:induction false} AlternatingMap(depth: nat)
    requires depth >= 1
    ensures Canonical(Alternating(depth)) && Leaves(Alternating(depth)) == Pow2(depth)
    ensures forall v: nat :: HasAsn(Alternating(depth), v) ==> 1 <= v <= 2
  {
    if depth > 1 {
      AlternatingMap(depth - 1);
    }
  }

  lemma AlternatingHalves(depth: nat)
    requires depth > 2
    ensures var t := Alternating(depth);
      t.Branch? && t.left == t.right == Alternating(depth - 1) && t.left.Branch?
  {
  }

  lemma TwoToTheWord()
    ensures Pow2(32) == U32
  {
    assert Pow2(8) == 256;
    Pow2Add(8, 8);
    Pow2Add(16, 16);
  }

  lemma AlternatingWide(depth: nat)
    requires depth >= 32
    ensures Leaves(Alternating(depth)) > 2 * JUMP_MAX
  {
    AlternatingMap(depth);
    TwoToTheWord();
    Pow2Monotone(32, depth);
  }

  /** Two wide equal halves are already too much. */
  lemma TwinFails(half: Trie) returns (t: Trie)
    requires Canonical(half) && half.Branch? && Leaves(half) > 2 * JUMP_MAX
    ensures t == Branch(half, half) && !RoundTrips(t, false)
  {
    t := Branch(half, half);
    WideMapFails(t);
  }

  lemma AlternatingFits(depth: nat)
    requires depth >= 1
    ensures Canonical(Alternating(depth)) && AsnsFit(Alternating(depth))
  {
    AlternatingMap(depth);
  }

  /** From 33 bits on a valid map with no ASN but 1 and 2 is one the format cannot carry. */
  lemma AlternatingFails(depth: nat) returns (t: Trie)
    requires depth >= 33
    ensures t == Alternating(depth) && !RoundTrips(t, false)
  {
    AlternatingFits(depth - 1);
    AlternatingWide(depth - 1);
    AlternatingHalves(depth);
    t := TwinFails(Alternating(depth - 1));
  }

  lemma SoundMeaning(n: BinNode)
    requires Sound(n)
    ensures FromNode(n) == Some(Eval(n, 0)) && Canonical(Eval(n, 0)) && AsnsFit(Eval(n, 0))
  {
    InterpretIsEval(n, 0);
    EvalCanonical(n, 0);
    forall v: nat | HasAsn(Eval(n, 0), v) ensures v <= ASN_MAX {
      EvalAsns(n, 0, ASN_MAX, v);
    }
  }

  lemma DecodedMapValid(bits: seq<Bit>)
    requires FromBits(bits).Some?
    ensures Canonical(FromBits(bits).value) && AsnsFit(FromBits(bits).value)
  {
    if bits != [] {
      CodedLawful();
      DecodedSound(CODED, bits, 0);
      SoundMeaning(DecodeNode(CODED, bits, 0).value.0);
    }
  }

  /**
   * Any bytes that decode at all decode to a canonical map of encodable ASNs, so
   * re-encoding what was read gives it back exactly when its own jumps fit.
   */
  lemma DecodedMapsReencode(bytes: seq<Byte>)
    requires FromBinary(bytes).Some?
    ensures var t := FromBinary(bytes).value;
      && Canonical(t) && AsnsFit(t)
      && (RoundTrips(t, false) <==> JumpsFit(CODED, ToNode(t, false)))
  {
    DecodedMapValid(Unpack(bytes));
    RoundTripIff(FromBinary(bytes).value, false);
  }

  // ---------------------------------------------------------------- encoder, packing loops and decoder over bit buffers

  method EncodeField(f: Field, val: nat, out: seq<Bit>) returns (bits: seq<Bit>)
    requires InRange(f, val)
    ensures bits == out + CODED.write(f, val)
  {
    bits := CoderOf(f).Encode(val, out);
  }

  method DecodeField(f: Field, bits: seq<Bit>, pos: nat) returns (r: Option<(nat, nat)>)
    ensures r == CODED.read(f, bits, pos)
  {
    r := CoderOf(f).Decode(bits, pos);
  }

  /** An opcode and its argument; None where the coder's assertion fails. */
  method RunHead(ins: nat, f: Field, val: nat, out: seq<Bit>) returns (r: Option<seq<Bit>>)
    requires InRange(Opcode, ins)
    ensures r == if InRange(f, val) then Some(out + (CODED.write(Opcode, ins) + CODED.write(f, val))) else None
  {
    var bits := EncodeField(Opcode, ins, out);
    if !InRange(f, val) {
      return None;
    }
    var all := EncodeField(f, val, bits);
    Regroup(out, CODED.write(Opcode, ins), CODED.write(f, val), []);
    r := Some(all);
  }

  method RunEncode(n: BinNode, out: seq<Bit>) returns (r: Option<seq<Bit>>)
    ensures r == if Encodable(CODED, n) then Some(out + EncodeBits(CODED, n)) else None
    decreases n
  {
    match n {
      case Return(v) => r := RunHead(RETURN, Asn, v, out);
      case Jump(left, right) =>
        var head := RunHead(JUMP, Distance, Size(left) % U32, out);
        if head.None? {
          return None;
        }
        var l := RunEncode(left, head.value);
        if l.None? {
          return None;
        }
        r := RunEncode(right, l.value);
        Regroup(out, Head(CODED, n), EncodeBits(CODED, left), EncodeBits(CODED, right));
      case Match(val, sub) =>
        var head := RunHead(MATCH, Argument, val, out);
        if head.None? {
          return None;
        }
        r := RunEncode(sub, head.value);
        Regroup(out, Head(CODED, n), EncodeBits(CODED, sub), []);
      case Default(v, sub) =>
        var head := RunHead(DEFAULT, Asn, v, out);
        if head.None? {
          return None;
        }
        r := RunEncode(sub, head.value);
        Regroup(out, Head(CODED, n), EncodeBits(CODED, sub), []);
      case End => return None;
    }
  }

  lemma Regroup(out: seq<Bit>, a: seq<Bit>, b: seq<Bit>, c: seq<Bit>)
    ensures out + a + b + c == out + (a + (b + c)) && out + a + b == out + (a + b)
  {
  }

  /** One bit moved `n` places up. */
  function Shifted(bit: Bit, n: nat): nat {
    if bit == 0 then 0 else Pow2(n)
  }

  /** Between two bits: whole bytes are out, the bits since `done` are in the accumulator. */
  ghost predicate Packing(bits: seq<Bit>, done: nat, nbits: nat, val: nat, bytes: seq<Byte>) {
    && done + nbits <= |bits| && nbits < 8
    && val == PackedValue(bits[done..done + nbits])
    && bytes + Pack(bits[done..]) == Pack(bits)
  }

  lemma PackingStep(bits: seq<Bit>, done: nat, nbits: nat, val: nat, bytes: seq<Byte>)
    requires Packing(bits, done, nbits, val, bytes) && done + nbits < |bits|
    ensures var v := val + Shifted(bits[done + nbits], nbits);
      if nbits == 7 then v < 256 && Packing(bits, done + 8, 0, 0, bytes + [v])
      else Packing(bits, done, nbits + 1, v, bytes)
  {
    PackedStep(bits, done, done + nbits);
    if nbits == 7 {
      PackedFull(bits, done);
      var v := val + Shifted(bits[done + nbits], nbits);
      assert (bytes + [v]) + Pack(bits[done + 8..]) == bytes + ([v] + Pack(bits[done + 8..]));
    }
  }

  lemma PackingEnd(bits: seq<Bit>, done: nat, nbits: nat, val: nat, bytes: seq<Byte>)
    requires Packing(bits, done, nbits, val, bytes) && done + nbits == |bits|
    ensures nbits == 0 ==> Pack(bits) == bytes
    ensures nbits != 0 ==> val < 256 && Pack(bits) == bytes + [val]
  {
    assert bits[done..] == bits[done..done + nbits];
    if nbits != 0 {
      PackedLast(bits[done..]);
    }
  }

  method RunPack(bits: seq<Bit>) returns (bytes: seq<Byte>)
    ensures bytes == Pack(bits)
  {
    bytes := [];
    var val: nat, nbits: nat := 0, 0;
    ghost var done: nat := 0;
    var i := 0;
    while i < |bits|
      invariant i == done + nbits && Packing(bits, done, nbits, val, bytes)
    {
      PackingStep(bits, done, nbits, val, bytes);
      val := val + Shifted(bits[i], nbits);
      nbits := nbits + 1;
      i := i + 1;
      if nbits == 8 {
        bytes := bytes + [val];
        done := i;
        val, nbits := 0, 0;
      }
    }
    PackingEnd(bits, done, nbits, val, bytes);
    if nbits != 0 {
      bytes := bytes + [val];
    }
  }

  /** The last byte holds the bits left over. */
  lemma PackedLast(bits: seq<Bit>)
    requires 0 < |bits| < 8
    ensures 0 <= PackedValue(bits) < 256 && Pack(bits) == [PackedValue(bits)]
  {
    var byte: Byte := PackByte(bits);
  }

  lemma PackedStep(bits: seq<Bit>, done: nat, i: nat)
    requires done <= i < |bits|
    ensures PackedValue(bits[done..i + 1]) == PackedValue(bits[done..i]) + Shifted(bits[i], i - done)
  {
    PackedAppend(bits[done..i], bits[i]);
    assert bits[done..i + 1] == bits[done..i] + [bits[i]];
  }

  lemma PackedFull(bits: seq<Bit>, done: nat)
    requires done + 8 <= |bits|
    ensures 0 <= PackedValue(bits[done..done + 8]) < 256
    ensures Pack(bits[done..]) == [PackedValue(bits[done..done + 8])] + Pack(bits[done + 8..])
  {
    var rest := bits[done..];
    PackFirst(rest);
    assert rest[..8] == bits[done..done + 8] && rest[8..] == bits[done + 8..];
    var byte: Byte := PackByte(rest[..8]);
  }

  lemma {:induction false} PackedAppend(bits: seq<Bit>, bit: Bit)
    ensures PackedValue(bits + [bit]) == PackedValue(bits) + Shifted(bit, |bits|)
  {
    if bits == [] {
      assert [] + [bit] == [bit];
    } else {
      PackedAppend(bits[1..], bit);
      assert (bits + [bit])[1..] == bits[1..] + [bit];
    }
  }

  method RunUnpack(bytes: seq<Byte>) returns (bits: seq<Bit>)
    ensures bits == Unpack(bytes)
  {
    bits := [];
    var k := 0;
    while k < |bytes|
      invariant 0 <= k <= |bytes|
      invariant bits + Unpack(bytes[k..]) == Unpack(bytes)
    {
      assert bytes[k..] == [bytes[k]] + bytes[k + 1..];
      UnpackFirst(bytes[k], bytes[k + 1..]);
      Regroup(bits, LowBits(bytes[k], 8), Unpack(bytes[k + 1..]), []);
      bits := AppendByte(bytes[k], bits);
      k := k + 1;
    }
  }

  method AppendByte(byte: Byte, out: seq<Bit>) returns (bits: seq<Bit>)
    ensures bits == out + LowBits(byte, 8)
  {
    bits := out;
    var i := 0;
    while i < 8
      invariant 0 <= i <= 8
      invariant bits == out + LowBits(byte, 8)[..i]
    {
      LowBitsAt(byte, 8, i);
      bits := bits + [(byte / Pow2(i)) % 2];
      i := i + 1;
    }
  }

  lemma {:induction false} LowBitsAt(b: nat, n: nat, i: nat)
    requires i < n
    ensures LowBits(b, n)[i] == (b / Pow2(i)) % 2
  {
    if i > 0 {
      LowBitsAt(b / 2, n - 1, i - 1);
      DivByTwice(b, Pow2(i - 1));
    }
  }

  method RunDecode(bits: seq<Bit>, pos: nat) returns (r: Option<(BinNode, nat)>)
    requires Lawful(CODED) && pos <= |bits|
    ensures r == DecodeNode(CODED, bits, pos)
    decreases |bits| - pos
  {
    var ins := DecodeField(Opcode, bits, pos);
    if ins.None? {
      return None;
    }
    var (op, at) := ins.value;
    if op == RETURN {
      var asn := DecodeField(Asn, bits, at);
      if asn.None? {
        return None;
      }
      return Some((Return(asn.value.0), asn.value.1));
    } else if op == JUMP {
      var jump := DecodeField(Distance, bits, at);
      if jump.None? {
        return None;
      }
      var left := RunDecode(bits, jump.value.1);
      if left.None? || left.value.1 != jump.value.1 + jump.value.0 {
        return None;
      }
      var right := RunDecode(bits, left.value.1);
      if right.None? {
        return None;
      }
      return Some((BranchNode(left.value.0, right.value.0), right.value.1));
    } else if op == MATCH {
      var val := DecodeField(Argument, bits, at);
      if val.None? {
        return None;
      }
      var sub := RunDecode(bits, val.value.1);
      if sub.None? {
        return None;
      }
      return Some((Match(val.value.0, sub.value.0), sub.value.1));
    } else if op == DEFAULT {
      var asn := DecodeField(Asn, bits, at);
      if asn.None? {
        return None;
      }
      var sub := RunDecode(bits, asn.value.1);
      if sub.None? {
        return None;
      }
      return Some((DefaultNode(asn.value.0, sub.value.0), sub.value.1));
    } else if op == END {
      return Some((End, at));
    }
    return None;
  }

  /** Serialising a trie: compile, encode, pack. */
  method Serialize(t: Trie, fill: bool) returns (r: Option<seq<Byte>>)
    ensures r == ToBinary(t, fill)
  {
    var n := CompileTrie(t, fill);
    if n.End? {
      var empty := RunPack([]);
      return Some(empty);
    }
    var bits := RunEncode(n, []);
    if bits.None? {
      return None;
    }
    assert [] + EncodeBits(CODED, n) == EncodeBits(CODED, n);
    var bytes := RunPack(bits.value);
    return Some(bytes);
  }

  /** Deserialising: unpack, decode one program, check the padding, interpret. */
  method Deserialize(bytes: seq<Byte>) returns (r: Option<Trie>)
    ensures r == FromBinary(bytes)
  {
    var bits := RunUnpack(bytes);
    if bits == [] {
      return Some(Leaf(0));
    }
    CodedLawful();
    var decoded := RunDecode(bits, 0);
    if decoded.None? {
      return None;
    }
    var (n, pos) := decoded.value;
    if pos + 7 < |bits| {
      return None;
    }
    if exists i :: pos <= i < |bits| && bits[i] != 0 {
      return None;
    }
    if n.End? {
      return Some(Leaf(0));
    }
    r := RunInterpret(n, 0);
  }
}
