/** What a tally elects, the map it makes, and why no order of iteration can change it. */
module Consensus {
  import opened Wrappers
  import opened Bytes
  import opened Ordering
  import opened Counters
  import opened Tries
  import opened Entries
  import opened BinNodes
  import opened Compile
  import opened Wire
  import opened Networks
  import opened Claims
  import opened Engine
  import opened Histories

  datatype ConsensusEntry = ConsensusEntry(prefix: Text, asn: nat, votes: nat)

  datatype Artifact = Artifact(
    epoch: U64, topic: Text, localPeer: Text, threshold: nat, participants: seq<Text>, accepted: nat,
    rejected: map<Reason, nat>, entries: seq<ConsensusEntry>, observations: seq<Observation>, consensus: Trie)

  // ---------------------------------------------------------------- who wins

  /** A vote count that beats another ASN of the same network: more votes, or as many for a smaller ASN. */
  predicate Beats(votes: nat, asn: nat, otherVotes: nat, otherAsn: nat) {
    votes > otherVotes || (votes == otherVotes && asn < otherAsn)
  }

  /** Reaches the threshold and beats every other ASN of its network. */
  ghost predicate Leads(votes: map<Key, nat>, threshold: nat, key: Key) {
    && key in votes && votes[key] >= threshold
    && forall k :: k in votes && k.prefix == key.prefix && k != key ==> Beats(votes[key], key.asn, votes[k], k.asn)
  }

  /** No ASN of the network has more votes, and none with as many is smaller. */
  ghost predicate Tops(votes: map<Key, nat>, key: Key)
    requires key in votes
  {
    && (forall k :: k in votes && k.prefix == key.prefix ==> votes[k] <= votes[key])
    && (forall k :: k in votes && k.prefix == key.prefix && votes[k] == votes[key] ==> key.asn <= k.asn)
  }

  /** The winner has the most votes, at least the threshold, and among equals the smallest ASN. */
  lemma LeadsMeaning(votes: map<Key, nat>, threshold: nat, key: Key)
    ensures Leads(votes, threshold, key) <==> key in votes && votes[key] >= threshold && Tops(votes, key)
  {
    if key in votes && Tops(votes, key) {
      forall k | k in votes && k.prefix == key.prefix && k != key ensures Beats(votes[key], key.asn, votes[k], k.asn) {
        assert k.asn != key.asn;
      }
    }
  }

  lemma LeaderUnique(votes: map<Key, nat>, threshold: nat, a: Key, b: Key)
    requires Leads(votes, threshold, a) && Leads(votes, threshold, b) && a.prefix == b.prefix
    ensures a == b
  {
  }

  lemma {:induction false} BestOf(votes: map<Key, nat>, prefix: Text, keys: set<Key>) returns (best: Key)
    requires keys != {} && forall k :: k in keys ==> k in votes && k.prefix == prefix
    ensures best in keys
    ensures forall k :: k in keys && k != best ==> Beats(votes[best], best.asn, votes[k], k.asn)
    decreases keys
  {
    var key :| key in keys;
    if keys == {key} {
      best := key;
    } else {
      var rest := BestOf(votes, prefix, keys - {key});
      best := if Beats(votes[key], key.asn, votes[rest], rest.asn) then key else rest;
      assert rest != key && key.prefix == rest.prefix;
    }
  }

  /** A network has a winner exactly when some ASN reaches the threshold on it. */
  lemma LeaderIff(votes: map<Key, nat>, threshold: nat, prefix: Text)
    ensures (exists k :: Leads(votes, threshold, k) && k.prefix == prefix) <==>
      exists k :: k in votes && k.prefix == prefix && votes[k] >= threshold
  {
    if k :| k in votes && k.prefix == prefix && votes[k] >= threshold {
      var rivals := set k | k in votes && k.prefix == prefix;
      assert k in rivals;
      var best := BestOf(votes, prefix, rivals);
      assert Leads(votes, threshold, best);
    }
  }

  ghost function Leaders(votes: map<Key, nat>, threshold: nat): set<Key> {
    set k | k in votes && Leads(votes, threshold, k)
  }

  // ---------------------------------------------------------------- the report

  /** Most votes first, then by prefix text, then by ASN. */
  predicate ReportLe(a: ConsensusEntry, b: ConsensusEntry) {
    if a.votes != b.votes then a.votes > b.votes
    else if a.prefix != b.prefix then TextLe(a.prefix, b.prefix)
    else a.asn <= b.asn
  }

  lemma ReportOrder()
    ensures TotalOrder(ReportLe)
  {
    TextOrder();
  }

  ghost function Participants(seen: set<Text>): seq<Text> {
    TextOrder();
    Sorted(TextLe, seen)
  }

  function Line(votes: map<Key, nat>, key: Key): ConsensusEntry
    requires key in votes
  {
    ConsensusEntry(key.prefix, key.asn, votes[key])
  }

  ghost function Lines(votes: map<Key, nat>, threshold: nat): set<ConsensusEntry> {
    set k | k in Leaders(votes, threshold) :: Line(votes, k)
  }

  ghost function Report(votes: map<Key, nat>, threshold: nat): seq<ConsensusEntry> {
    ReportOrder();
    Sorted(ReportLe, Lines(votes, threshold))
  }

  /** A line is in the report exactly when it names such a winner with its votes. */
  lemma ReportLineMeaning(votes: map<Key, nat>, threshold: nat, e: ConsensusEntry)
    ensures e in Report(votes, threshold) <==>
      var key := Key(e.prefix, e.asn);
      key in votes && votes[key] == e.votes && e.votes >= threshold && Tops(votes, key)
  {
    var key := Key(e.prefix, e.asn);
    ReportOrder();
    LeadsMeaning(votes, threshold, key);
    if Leads(votes, threshold, key) {
      assert key in Leaders(votes, threshold) && Line(votes, key) in Lines(votes, threshold);
    }
  }

  /** Most votes first; among equals the prefix texts ascend, and no network has two lines. */
  lemma ReportAscends(votes: map<Key, nat>, threshold: nat, i: nat, j: nat)
    requires i < j < |Report(votes, threshold)|
    ensures var a, b := Report(votes, threshold)[i], Report(votes, threshold)[j];
      a.votes > b.votes || (a.votes == b.votes && TextLess(a.prefix, b.prefix))
    ensures Report(votes, threshold)[i].prefix != Report(votes, threshold)[j].prefix
  {
    var report := Report(votes, threshold);
    var a, b := report[i], report[j];
    ReportOrder();
    assert a in report && b in report;
    ReportLineMeaning(votes, threshold, a);
    ReportLineMeaning(votes, threshold, b);
    LeadsMeaning(votes, threshold, Key(a.prefix, a.asn));
    LeadsMeaning(votes, threshold, Key(b.prefix, b.asn));
    if a.prefix == b.prefix {
      LeaderUnique(votes, threshold, Key(a.prefix, a.asn), Key(b.prefix, b.asn));
    }
    TextLeMeaning(a.prefix, b.prefix);
  }

  /** The senders are listed once each, in text order. */
  lemma ParticipantsAscend(seen: set<Text>, i: nat, j: nat)
    requires i < j < |Participants(seen)|
    ensures TextLess(Participants(seen)[i], Participants(seen)[j])
    ensures forall t :: t in Participants(seen) <==> t in seen
  {
    TextOrder();
    TextLeMeaning(Participants(seen)[i], Participants(seen)[j]);
  }

  // ---------------------------------------------------------------- the map of a report

  function Assignment(env: Env, line: ConsensusEntry): Option<Entry> {
    var n :- CanonicalPrefix(env, line.prefix);
    Some(Entry(IpToBits(n), line.asn))
  }

  function Assignments(env: Env, report: seq<ConsensusEntry>): Option<seq<Entry>> {
    if report == [] then Some([])
    else
      var front :- Assignments(env, report[..|report| - 1]);
      var last :- Assignment(env, report[|report| - 1]);
      Some(front + [last])
  }

  /** Loading a report rebuilds its map; a prefix that does not parse refuses it. */
  function FromReport(env: Env, report: seq<ConsensusEntry>): Option<Trie> {
    var es :- Assignments(env, report);
    Some(UpdateAll(Leaf(0), es))
  }

  /** Votes name canonical networks outside the IPv6 text for IPv4, and encodable ASNs. */
  ghost predicate ValidVotes(env: Env, votes: map<Key, nat>) {
    forall k :: k in votes ==> VoteNetwork(env, k.prefix) && 0 < k.asn <= ASN_MAX
  }

  function PathOf(env: Env, text: Text): Path {
    if env.parse(text).Some? then IpToBits(env.parse(text).value) else []
  }

  lemma KnownPrefix(env: Env, line: ConsensusEntry)
    requires VoteNetwork(env, line.prefix)
    ensures CanonicalPrefix(env, line.prefix) == env.parse(line.prefix)
    ensures Assignment(env, line) == Some(Entry(PathOf(env, line.prefix), line.asn))
  {
    CanonicalMeaning(env.parse(line.prefix).value);
  }

  lemma {:induction false} KnownAssignments(env: Env, report: seq<ConsensusEntry>)
    requires forall e :: e in report ==> VoteNetwork(env, e.prefix)
    ensures Assignments(env, report).Some?
    ensures var es := Assignments(env, report).value;
      |es| == |report| && forall i :: 0 <= i < |es| ==> es[i] == Entry(PathOf(env, report[i].prefix), report[i].asn)
  {
    if report != [] {
      var front := report[..|report| - 1];
      assert report == front + [report[|report| - 1]];
      KnownAssignments(env, front);
      KnownPrefix(env, report[|report| - 1]);
    }
  }

  /** Every line is a leader's, each once, in any order. */
  ghost predicate Lists(votes: map<Key, nat>, threshold: nat, lines: seq<ConsensusEntry>) {
    Distinct(lines) && forall e :: e in lines <==> e in Lines(votes, threshold)
  }

  lemma ListedLine(votes: map<Key, nat>, threshold: nat, lines: seq<ConsensusEntry>, e: ConsensusEntry)
    requires Lists(votes, threshold, lines) && e in lines
    ensures Leads(votes, threshold, Key(e.prefix, e.asn)) && e.votes == votes[Key(e.prefix, e.asn)]
  {
  }

  lemma ReportLists(votes: map<Key, nat>, threshold: nat)
    ensures Lists(votes, threshold, Report(votes, threshold))
  {
    ReportOrder();
  }

  /** Sorting the lines in whatever order they were met gives the report. */
  lemma SortedLines(votes: map<Key, nat>, threshold: nat, lines: seq<ConsensusEntry>)
    requires Lists(votes, threshold, lines)
    ensures SortBy(ReportLe, lines) == Report(votes, threshold)
  {
    ReportOrder();
    SortOfEnumeration(ReportLe, lines, Lines(votes, threshold));
  }

  lemma ListedAssignments(env: Env, votes: map<Key, nat>, threshold: nat, lines: seq<ConsensusEntry>)
    requires ValidVotes(env, votes) && Lists(votes, threshold, lines)
    ensures Assignments(env, lines).Some? && Consistent(Assignments(env, lines).value)
    ensures forall e :: e in Assignments(env, lines).value <==>
      exists k :: Leads(votes, threshold, k) && e == Entry(PathOf(env, k.prefix), k.asn)
  {
    forall e | e in lines ensures VoteNetwork(env, e.prefix) {
      ListedLine(votes, threshold, lines, e);
    }
    KnownAssignments(env, lines);
    var es := Assignments(env, lines).value;
    forall e ensures e in es <==> exists k :: Leads(votes, threshold, k) && e == Entry(PathOf(env, k.prefix), k.asn) {
      if e in es {
        var i :| 0 <= i < |es| && es[i] == e;
        ListedLine(votes, threshold, lines, lines[i]);
        assert e == Entry(PathOf(env, Key(lines[i].prefix, lines[i].asn).prefix), lines[i].asn);
      }
      if k :| Leads(votes, threshold, k) && e == Entry(PathOf(env, k.prefix), k.asn) {
        assert k in Leaders(votes, threshold) && Line(votes, k) in Lines(votes, threshold);
        var i :| 0 <= i < |lines| && lines[i] == Line(votes, k);
        assert es[i] == e;
      }
    }
    forall e, f | e in es && f in es && e.prefix == f.prefix ensures e.asn == f.asn {
      var a :| Leads(votes, threshold, a) && e == Entry(PathOf(env, a.prefix), a.asn);
      var b :| Leads(votes, threshold, b) && f == Entry(PathOf(env, b.prefix), b.asn);
      VotePathsSeparate(env, a.prefix, b.prefix);
      LeaderUnique(votes, threshold, a, b);
    }
  }

  /** The map of the sorted report. */
  ghost function ConsensusMap(env: Env, votes: map<Key, nat>, threshold: nat): Trie
    requires ValidVotes(env, votes)
  {
    ReportLists(votes, threshold);
    ListedAssignments(env, votes, threshold, Report(votes, threshold));
    FromReport(env, Report(votes, threshold)).value
  }

  /** In whatever order the winners are met, their assignments make the map of the sorted report. */
  lemma AnyOrderSameMap(env: Env, votes: map<Key, nat>, threshold: nat, lines: seq<ConsensusEntry>)
    requires ValidVotes(env, votes) && Lists(votes, threshold, lines)
    ensures FromReport(env, lines) == Some(ConsensusMap(env, votes, threshold))
  {
    ReportLists(votes, threshold);
    ListedAssignments(env, votes, threshold, Report(votes, threshold));
    ListedAssignments(env, votes, threshold, lines);
    OrderIrrelevant(Leaf(0), Assignments(env, lines).value, Assignments(env, Report(votes, threshold)).value);
  }

  // ---------------------------------------------------------------- what the map says

  /** The winner with the longest path that covers `path`. */
  ghost predicate Covers(env: Env, votes: map<Key, nat>, threshold: nat, path: Path, key: Key) {
    && Leads(votes, threshold, key) && PathOf(env, key.prefix) <= path
    && forall k :: Leads(votes, threshold, k) && PathOf(env, k.prefix) <= path ==>
         |PathOf(env, k.prefix)| <= |PathOf(env, key.prefix)|
  }

  lemma PathLength(env: Env, text: Text)
    ensures |PathOf(env, text)| <= 128
  {
  }

  /** The list assigns to every winner's path the ASN that won there, and nothing else. */
  ghost predicate AssignsWinners(env: Env, votes: map<Key, nat>, threshold: nat, es: seq<Entry>) {
    forall e :: e in es <==> exists k :: Leads(votes, threshold, k) && e == Entry(PathOf(env, k.prefix), k.asn)
  }

  lemma WinnersResolve(env: Env, votes: map<Key, nat>, threshold: nat, path: Path, es: seq<Entry>)
    requires |path| >= 128 && AssignsWinners(env, votes, threshold, es)
    ensures Resolves(es, path)
  {
    forall e | e in es ensures !(path < e.prefix) {
      var k :| Leads(votes, threshold, k) && e == Entry(PathOf(env, k.prefix), k.asn);
      PathLength(env, k.prefix);
    }
  }

  /** The entry of the covering winner is the one that longest-prefix match finds. */
  lemma CoveringWins(env: Env, votes: map<Key, nat>, threshold: nat, path: Path, key: Key, es: seq<Entry>)
    requires Covers(env, votes, threshold, path, key) && Consistent(es) && AssignsWinners(env, votes, threshold, es)
    requires (exists e :: e in es && e.prefix <= path) ==> exists i :: Winner(es, path, i)
    ensures exists i :: Winner(es, path, i) && es[i].asn == key.asn
  {
    var mine := Entry(PathOf(env, key.prefix), key.asn);
    assert mine in es && mine.prefix <= path;
    var i :| Winner(es, path, i);
    assert es[i] in es;
    var k :| Leads(votes, threshold, k) && es[i] == Entry(PathOf(env, k.prefix), k.asn);
    var j :| 0 <= j < |es| && es[j] == mine;
    assert |es[i].prefix| == |mine.prefix|;
    assert es[i].prefix == path[..|mine.prefix|] == mine.prefix;
  }

  lemma CoveredAnswer(env: Env, votes: map<Key, nat>, threshold: nat, path: Path, key: Key, es: seq<Entry>)
    requires Covers(env, votes, threshold, path, key) && Consistent(es) && AssignsWinners(env, votes, threshold, es)
    requires |path| >= 128
    ensures Lookup(UpdateAll(Leaf(0), es), path) == Some(key.asn)
  {
    WinnersResolve(env, votes, threshold, path, es);
    UpdateIsLongestPrefixMatch(Leaf(0), es, path);
    CoveringWins(env, votes, threshold, path, key, es);
  }

  lemma UncoveredAnswer(env: Env, votes: map<Key, nat>, threshold: nat, path: Path, es: seq<Entry>)
    requires AssignsWinners(env, votes, threshold, es) && |path| >= 128
    requires forall k :: Leads(votes, threshold, k) ==> !(PathOf(env, k.prefix) <= path)
    ensures Lookup(UpdateAll(Leaf(0), es), path) == Some(0)
  {
    WinnersResolve(env, votes, threshold, path, es);
    forall e | e in es ensures !(e.prefix <= path) {
      var k :| Leads(votes, threshold, k) && e == Entry(PathOf(env, k.prefix), k.asn);
    }
    UpdateIsLongestPrefixMatch(Leaf(0), es, path);
  }

  /** The map of the report is the bulk update of the winners' assignments. */
  lemma WinnersMap(env: Env, votes: map<Key, nat>, threshold: nat) returns (es: seq<Entry>)
    requires ValidVotes(env, votes)
    ensures Consistent(es) && AssignsWinners(env, votes, threshold, es)
    ensures ConsensusMap(env, votes, threshold) == UpdateAll(Leaf(0), es)
  {
    ReportLists(votes, threshold);
    ListedAssignments(env, votes, threshold, Report(votes, threshold));
    es := Assignments(env, Report(votes, threshold)).value;
  }

  /** Every full address gets the ASN that won its most specific network, or stays unassigned. */
  lemma ConsensusIsLongestWinner(env: Env, votes: map<Key, nat>, threshold: nat, path: Path)
    requires ValidVotes(env, votes) && |path| >= 128
    ensures Canonical(ConsensusMap(env, votes, threshold))
    ensures forall k :: Covers(env, votes, threshold, path, k) ==>
              Lookup(ConsensusMap(env, votes, threshold), path) == Some(k.asn)
    ensures (forall k :: Leads(votes, threshold, k) ==> !(PathOf(env, k.prefix) <= path)) ==>
              Lookup(ConsensusMap(env, votes, threshold), path) == Some(0)
  {
    var es := WinnersMap(env, votes, threshold);
    UpdateCanonical(Leaf(0), es);
    forall k | Covers(env, votes, threshold, path, k) ensures Lookup(UpdateAll(Leaf(0), es), path) == Some(k.asn) {
      CoveredAnswer(env, votes, threshold, path, k, es);
    }
    if forall k :: Leads(votes, threshold, k) ==> !(PathOf(env, k.prefix) <= path) {
      UncoveredAnswer(env, votes, threshold, path, es);
    }
  }

  // ---------------------------------------------------------------- every reachable tally

  lemma AssertedVote(env: Env, es: seq<ClaimEntry>, key: Key)
    requires Sane(env) && Asserts(env, es, key)
    ensures VoteNetwork(env, key.prefix) && 0 < key.asn <= ASN_MAX
  {
    var e :| e in es && EntryKey(env, e) == Success(key);
    KeyNetwork(env, e);
  }

  lemma {:induction false} VotedFor(env: Env, ledger: seq<Claim>, key: Key)
    requires VotesFor(env, ledger, key) > 0
    ensures exists c :: c in ledger && Asserts(env, c.entries, key)
    decreases ledger
  {
    var front, last := ledger[..|ledger| - 1], ledger[|ledger| - 1];
    assert ledger == front + [last];
    if !Asserts(env, last.entries, key) {
      VotedFor(env, front, key);
    } else {
      assert last in ledger;
    }
  }

  lemma RecordedVotesValid(env: Env, s: State, ledger: seq<Claim>)
    requires Sane(env) && Recorded(env, s, ledger)
    ensures ValidVotes(env, s.votes)
  {
    forall k | k in s.votes ensures VoteNetwork(env, k.prefix) && 0 < k.asn <= ASN_MAX {
      assert Count(s.votes, k) == VotesFor(env, ledger, k);
      VotedFor(env, ledger, k);
      var c :| c in ledger && Asserts(env, c.entries, k);
      AssertedVote(env, c.entries, k);
    }
  }

  /** In every reachable state the winners make a map, which is the same for every order. */
  lemma ReachableConsensus(env: Env, threshold: nat, epoch: U64, limits: Limits, inputs: seq<Input>)
    requires Sane(env)
    ensures ValidVotes(env, Run(env, Initial(threshold, epoch, limits), inputs).votes)
  {
    var s := Initial(threshold, epoch, limits);
    VotesAreHistory(env, threshold, epoch, limits, inputs);
    RecordedVotesValid(env, Run(env, s, inputs), Ledger(env, s, inputs));
  }

  /** Deleting refused inputs changes neither the winners nor the map. */
  lemma ConsensusNonInterference(
    env: Env, threshold: nat, epoch: U64, limits: Limits, inputs: seq<Input>, drop: set<nat>)
    requires Sane(env)
    ensures var s := Initial(threshold, epoch, limits);
      var all, kept := Run(env, s, inputs), Run(env, s, Surviving(env, s, inputs, drop));
      && ValidVotes(env, all.votes) && ValidVotes(env, kept.votes)
      && Report(kept.votes, kept.threshold) == Report(all.votes, all.threshold)
      && ConsensusMap(env, kept.votes, kept.threshold) == ConsensusMap(env, all.votes, all.threshold)
  {
    var s := Initial(threshold, epoch, limits);
    NonInterference(env, s, inputs, drop);
    ReachableConsensus(env, threshold, epoch, limits, inputs);
  }

  /** Engines with one threshold that accepted the same claims in different orders publish the same consensus. */
  lemma ArrivalOrderIrrelevant(env: Env, s: State, t: State, l: seq<Claim>, m: seq<Claim>)
    requires Sane(env) && Recorded(env, s, l) && Recorded(env, t, m)
    requires multiset(l) == multiset(m) && s.threshold == t.threshold
    ensures ValidVotes(env, s.votes) && ValidVotes(env, t.votes)
    ensures Participants(s.seen) == Participants(t.seen)
    ensures Report(s.votes, s.threshold) == Report(t.votes, t.threshold)
    ensures ConsensusMap(env, s.votes, s.threshold) == ConsensusMap(env, t.votes, t.threshold)
  {
    RecordedVotesValid(env, s, l);
    SameClaimsSameTally(env, s, t, l, m);
  }

  // ---------------------------------------------------------------- the map can be saved

  /** No accepted claim can make the encoder abort: only a jump too far could, never an ASN. */
  lemma ConsensusEncodes(env: Env, votes: map<Key, nat>, threshold: nat)
    requires ValidVotes(env, votes)
    ensures var m := ConsensusMap(env, votes, threshold);
      AsnsFit(m) && (RoundTrips(m, false) <==> JumpsFit(CODED, ToNode(m, false)))
  {
    var es := WinnersMap(env, votes, threshold);
    var m := ConsensusMap(env, votes, threshold);
    forall v: nat | HasAsn(m, v) ensures v <= ASN_MAX {
      ByLengthIsStableSort(es);
      ApplyAsns(Leaf(0), ByLength(es), v);
      if v != 0 {
        var e :| e in es && e.asn == v;
        var k :| Leads(votes, threshold, k) && e == Entry(PathOf(env, k.prefix), k.asn);
      }
    }
    UpdateCanonical(Leaf(0), es);
    RoundTripIff(m, false);
  }
}
