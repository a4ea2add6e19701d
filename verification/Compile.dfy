/** Compiling a trie to a program: the table over contexts, and that every program in it means the map. */
module Compile {
  import opened Wrappers
  import opened Coders
  import opened Tries
  import opened Contexts
  import opened BinNodes

  type ProgramTable = Table<BinNode>

  /** Programs as descriptions of subtrees. */
  const PROGRAMS: Algebra<BinNode> := Algebra(End, v => Return(v), BranchNode, DefaultNode, Size)

  ghost function ToNode(t: Trie, fill: bool): BinNode {
    Best(PROGRAMS, t, fill)
  }

  /** The program answers like `t` wherever context `c` lets it stand. */
  ghost predicate Denotes(n: BinNode, c: Context, t: Trie, fill: bool) {
    && Built(n)
    && forall a :: Fits(Some(a), c) ==> Meets(Eval(n, a), t, fill)
  }

  ghost predicate AllDenote(table: ProgramTable, t: Trie, fill: bool) {
    forall c :: c in table ==> Denotes(table[c], c, t, fill)
  }

  lemma BranchDenotes(l: BinNode, r: BinNode, cl: Context, cr: Context, c: Context, t: Trie, fill: bool)
    requires t.Branch? && Canonical(t) && Fits(c, cl) && Fits(c, cr)
    requires Denotes(l, cl, t.left, fill) && Denotes(r, cr, t.right, fill)
    ensures Denotes(BranchNode(l, r), c, t, fill)
  {
    BranchNodeBuilt(l, r);
    forall a | Fits(Some(a), c) ensures Meets(Eval(BranchNode(l, r), a), t, fill) {
      BranchNodeMeaning(l, r, a);
      MeetsBranch(Eval(l, a), Eval(r, a), t, fill);
    }
  }

  lemma DefaultDenotes(n: BinNode, k: nat, t: Trie, fill: bool)
    ensures k > 0 && Denotes(n, Some(k), t, fill) ==> Denotes(DefaultNode(k, n), None, t, fill)
  {
    if k > 0 && Denotes(n, Some(k), t, fill) {
      DefaultNodeBuilt(k, n);
      forall a ensures Meets(Eval(DefaultNode(k, n), a), t, fill) {
        DefaultNodeMeaning(k, n, a);
        assert Fits(Some(k), Some(k));
      }
    }
  }

  lemma HalvesDenote(l: ProgramTable, r: ProgramTable, c: Context, n: BinNode, t: Trie, fill: bool)
    requires t.Branch? && Canonical(t) && FromHalves(PROGRAMS, l, r, c, n)
    requires AllDenote(l, t.left, fill) && AllDenote(r, t.right, fill)
    ensures Denotes(n, c, t, fill)
  {
    if c in l && c in r && n == BranchNode(l[c], r[c]) {
      BranchDenotes(l[c], r[c], c, c, c, t, fill);
    } else if None in l && c in r && n == BranchNode(l[None], r[c]) {
      BranchDenotes(l[None], r[c], None, c, c, t, fill);
    } else {
      BranchDenotes(l[c], r[None], c, None, c, t, fill);
    }
  }

  lemma CoveredDenotes(l: ProgramTable, r: ProgramTable, k: nat, y: BinNode, t: Trie, fill: bool)
    requires t.Branch? && Canonical(t) && FromHalves(PROGRAMS, l, r, Some(k), y)
    requires AllDenote(l, t.left, fill) && AllDenote(r, t.right, fill)
    requires k > 0
    ensures Denotes(DefaultNode(k, y), None, t, fill)
  {
    HalvesDenote(l, r, Some(k), y, t, fill);
    DefaultDenotes(y, k, t, fill);
  }

  lemma StepDenotes(l: ProgramTable, r: ProgramTable, t: Trie, fill: bool)
    requires t.Branch? && Canonical(t)
    requires AllDenote(l, t.left, fill) && AllDenote(r, t.right, fill)
    requires Shaped(l, Hole(t.left, fill)) && Shaped(r, Hole(t.right, fill))
    ensures AllDenote(JoinStep(PROGRAMS, l, r, Hole(t, fill)), t, fill)
  {
    var table := JoinStep(PROGRAMS, l, r, Hole(t, fill));
    forall c | c in table ensures Denotes(table[c], c, t, fill) {
      StepProvenance(PROGRAMS, l, r, Hole(t, fill), c);
      if FromHalves(PROGRAMS, l, r, c, table[c]) {
        HalvesDenote(l, r, c, table[c], t, fill);
      } else {
        var k, y :| FromHalves(PROGRAMS, l, r, Some(k), y) && table[c] == PROGRAMS.cover(k, y);
        CoversAreAssigned(PROGRAMS, l, r, k, y);
        CoveredDenotes(l, r, k, y, t, fill);
      }
    }
  }

  lemma LeafDenotes(v: nat, fill: bool)
    ensures AllDenote(LeafTable(PROGRAMS, v, fill), Leaf(v), fill)
  {
    var table := LeafTable(PROGRAMS, v, fill);
    forall c | c in table ensures Denotes(table[c], c, Leaf(v), fill) {
      forall a | Fits(Some(a), c) ensures Meets(Eval(table[c], a), Leaf(v), fill) {
      }
    }
  }

  /**
   * The invariant of the dynamic program: in every table, the program for Some(k)
   * means the subtree under default k, and the one for None under any default.
   */
  lemma {:induction false} TableDenotes(t: Trie, fill: bool)
    requires Canonical(t)
    ensures AllDenote(Tabulate(PROGRAMS, t, fill).0, t, fill)
  {
    match t {
      case Leaf(v) => LeafDenotes(v, fill);
      case Branch(left, right) =>
        TableDenotes(left, fill);
        TableDenotes(right, fill);
        TabulateShaped(PROGRAMS, left, fill);
        TabulateShaped(PROGRAMS, right, fill);
        StepDenotes(Tabulate(PROGRAMS, left, fill).0, Tabulate(PROGRAMS, right, fill).0, t, fill);
        TableOfBranch(PROGRAMS, t, fill);
    }
  }

  /** The compiled program is well built and means the map (with `fill`, a map extending it). */
  lemma CompiledMeaning(t: Trie, fill: bool)
    requires Canonical(t)
    ensures Built(ToNode(t, fill))
    ensures Meets(Eval(ToNode(t, fill), 0), t, fill)
  {
    TableDenotes(t, fill);
    BestFound(PROGRAMS, t, fill);
  }

  /**
   * The default constructor is handed every explicit context of the joined table of a
   * hole-free branch, before any pruning; all of them are assigned ASNs.
   */
  lemma DefaultsAreAssigned(t: Trie, fill: bool, k: nat)
    requires t.Branch? && !Hole(t, fill)
    requires Some(k) in Joined(PROGRAMS, Tabulate(PROGRAMS, t.left, fill).0, Tabulate(PROGRAMS, t.right, fill).0)
    ensures k > 0
  {
    var l, r := Tabulate(PROGRAMS, t.left, fill).0, Tabulate(PROGRAMS, t.right, fill).0;
    TabulateShaped(PROGRAMS, t.left, fill);
    TabulateShaped(PROGRAMS, t.right, fill);
    JoinedOrigin(PROGRAMS, l, r, Some(k));
    CoversAreAssigned(PROGRAMS, l, r, k, Joined(PROGRAMS, l, r)[Some(k)]);
  }

  // ---------------------------------------------------------------- how large a program can get

  function Leaves(t: Trie): (n: nat)
    ensures n >= 1
  {
    match t
    case Leaf(_) => 1
    case Branch(l, r) => Leaves(l) + Leaves(r)
  }

  lemma SizeBound(n: BinNode)
    ensures n.Return? ==> Size(n) <= 37
    ensures n.Jump? ==> Size(n) <= 60 + Size(n.left) + Size(n.right)
    ensures n.Match? ==> Size(n.sub) <= Size(n) <= 19 + Size(n.sub)
    ensures n.Default? ==> Size(n) <= 37 + Size(n.inner)
  {
    InsSizes();
    match n {
      case Return(v) => CodeLengthBound(CODER_ASN.clsbits, CODER_ASN.Offset(v), 24);
      case Jump(l, r) => CodeLengthBound(CODER_JUMP.clsbits, CODER_JUMP.Offset(Size(l) % U32), 30);
      case Match(v, sub) => CodeLengthBound(CODER_MATCH.clsbits, CODER_MATCH.Offset(v), 8);
      case Default(v, sub) => CodeLengthBound(CODER_ASN.clsbits, CODER_ASN.Offset(v), 24);
      case End =>
    }
  }

  lemma BranchSizeBound(l: BinNode, r: BinNode)
    ensures Size(BranchNode(l, r)) <= 60 + Size(l) + Size(r)
  {
    SizeBound(BranchNode(l, r));
    SizeBound(l);
    SizeBound(r);
  }

  lemma DefaultSizeBound(v: nat, sub: BinNode)
    ensures Size(DefaultNode(v, sub)) <= 37 + Size(sub)
  {
    SizeBound(Return(v));
    SizeBound(Default(v, sub));
  }

  ghost predicate AllWithin(table: ProgramTable, bound: nat) {
    forall c :: c in table ==> Size(table[c]) <= bound
  }

  lemma StepWithin(l: ProgramTable, r: ProgramTable, t: Trie, fill: bool, m: nat, n: nat)
    requires t.Branch? && AllDenote(l, t.left, fill) && AllDenote(r, t.right, fill)
    requires AllWithin(l, m) && AllWithin(r, n)
    ensures AllWithin(JoinStep(PROGRAMS, l, r, Hole(t, fill)), 97 + m + n)
  {
    var table := JoinStep(PROGRAMS, l, r, Hole(t, fill));
    forall c, x | FromHalves(PROGRAMS, l, r, c, x) ensures Size(x) <= 60 + m + n {
      if c in l && c in r && x == BranchNode(l[c], r[c]) {
        BranchSizeBound(l[c], r[c]);
      } else if None in l && c in r && x == BranchNode(l[None], r[c]) {
        BranchSizeBound(l[None], r[c]);
      } else {
        BranchSizeBound(l[c], r[None]);
      }
    }
    forall c | c in table ensures Size(table[c]) <= 97 + m + n {
      StepProvenance(PROGRAMS, l, r, Hole(t, fill), c);
      if !FromHalves(PROGRAMS, l, r, c, table[c]) {
        var k, y :| FromHalves(PROGRAMS, l, r, Some(k), y) && table[c] == PROGRAMS.cover(k, y);
        DefaultSizeBound(k, y);
      }
    }
  }

  /** A program takes at most 134 bits per leaf of the trie. */
  lemma {:induction false} TableWithin(t: Trie, fill: bool)
    requires Canonical(t)
    ensures AllWithin(Tabulate(PROGRAMS, t, fill).0, 134 * Leaves(t) - 97)
  {
    match t {
      case Leaf(v) => SizeBound(Return(v));
      case Branch(left, right) =>
        TableWithin(left, fill);
        TableWithin(right, fill);
        TableDenotes(left, fill);
        TableDenotes(right, fill);
        TableOfBranch(PROGRAMS, t, fill);
        StepWithin(Tabulate(PROGRAMS, left, fill).0, Tabulate(PROGRAMS, right, fill).0, t, fill,
                   134 * Leaves(left) - 97, 134 * Leaves(right) - 97);
    }
  }

  lemma CompiledSize(t: Trie, fill: bool)
    requires Canonical(t)
    ensures Size(ToNode(t, fill)) <= 134 * Leaves(t)
  {
    TableWithin(t, fill);
    BestFound(PROGRAMS, t, fill);
  }

  // ---------------------------------------------------------------- recursion over local tables

  method BuildTable(t: Trie, fill: bool) returns (table: ProgramTable, hole: bool)
    ensures table == Tabulate(PROGRAMS, t, fill).0 && hole == Tabulate(PROGRAMS, t, fill).1
    decreases t
  {
    match t {
      case Leaf(v) =>
        if v == 0 {
          return map[if fill then None else Some(0) := End], true;
        }
        return map[None := Return(v), Some(v) := End], false;
      case Branch(l, r) =>
        var lt, lhole := BuildTable(l, fill);
        var rt, rhole := BuildTable(r, fill);
        hole := (lhole || rhole) && !fill;
        table := Combine(PROGRAMS, lt, rt, hole);
    }
  }

  method CompileTrie(t: Trie, fill: bool) returns (n: BinNode)
    ensures n == ToNode(t, fill)
  {
    var table, _ := BuildTable(t, fill);
    if Some(0) in table {
      n := table[Some(0)];
    } else {
      n := if None in table then table[None] else End;
    }
  }
}
