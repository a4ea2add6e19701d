/** From a map to claims, through the gates and the tally, and back to the same map. */
module Unanimity {
  import opened Wrappers
  import opened Bytes
  import opened Ordering
  import opened Counters
  import opened Tries
  import opened Entries
  import opened FlatEntries
  import opened BinNodes
  import opened Wire
  import opened Networks
  import opened Claims
  import opened Engine
  import opened Histories
  import opened Consensus

  lemma FlatWithin(t: Trie, e: Entry)
    requires e in Flat(t, false)
    ensures |e.prefix| <= Depth(t)
  {
    FlatIsAssignedLeaves(t, e);
    if |e.prefix| > Depth(t) {
      DeepLookup(t, e.prefix[..Depth(t)]);
    }
  }

  function Written(env: Env, e: Entry): ClaimEntry
    requires |e.prefix| <= 128
  {
    ClaimEntry(env.show(BitsToNetwork(e.prefix)), e.asn)
  }

  /** The flat form of a map, printed. */
  function ClaimEntries(env: Env, t: Trie): (r: seq<ClaimEntry>)
    requires Depth(t) <= 128
    ensures |r| == |Flat(t, false)|
  {
    var es := Flat(t, false);
    assert forall i :: 0 <= i < |es| ==> |es[i].prefix| <= 128 by {
      forall i | 0 <= i < |es| ensures |es[i].prefix| <= 128 {
        FlatWithin(t, es[i]);
      }
    }
    seq(|es|, i requires 0 <= i < |es| && |es[i].prefix| <= 128 => Written(env, es[i]))
  }

  /** A participant's claim for a map. */
  function ClaimFor(env: Env, t: Trie, epoch: U64, sender: Text): Claim
    requires Depth(t) <= 128
  {
    var entries := ClaimEntries(env, t);
    Claim(epoch, sender, env.digest(epoch, sender, entries), entries)
  }

  lemma ClaimMember(env: Env, t: Trie, e: Entry)
    requires Depth(t) <= 128 && e in Flat(t, false)
    ensures |e.prefix| <= 128 && Written(env, e) in ClaimEntries(env, t)
  {
    FlatWithin(t, e);
    var i :| 0 <= i < |Flat(t, false)| && Flat(t, false)[i] == e;
    assert ClaimEntries(env, t)[i] == Written(env, e);
  }

  lemma MemberOfClaim(env: Env, t: Trie, x: ClaimEntry) returns (e: Entry)
    requires Depth(t) <= 128 && x in ClaimEntries(env, t)
    ensures e in Flat(t, false) && |e.prefix| <= 128 && x == Written(env, e)
  {
    var i :| 0 <= i < |ClaimEntries(env, t)| && ClaimEntries(env, t)[i] == x;
    e := Flat(t, false)[i];
    FlatWithin(t, e);
  }

  /** The entry says of one assigned leaf what the map says of it. */
  ghost predicate Reports(env: Env, t: Trie, path: Path, x: ClaimEntry) {
    |path| <= 128 && AssignedLeaf(t, path, x.asn) && x.prefix == env.show(BitsToNetwork(path))
  }

  /** A participant's claim names every assigned leaf of the map, printed, and nothing else. */
  lemma ClaimReportsLeaves(env: Env, t: Trie, x: ClaimEntry)
    requires Depth(t) <= 128
    ensures x in ClaimEntries(env, t) <==> exists path :: Reports(env, t, path, x)
  {
    if x in ClaimEntries(env, t) {
      var e := MemberOfClaim(env, t, x);
      FlatIsAssignedLeaves(t, e);
      assert Reports(env, t, e.prefix, x);
    }
    if path :| Reports(env, t, path, x) {
      FlatIsAssignedLeaves(t, Entry(path, x.asn));
      ClaimMember(env, t, Entry(path, x.asn));
    }
  }

  // ---------------------------------------------------------------- one printed entry at the gate

  /** Of printed networks the gate stops exactly those whose range holds all of IPv4. */
  lemma WrittenTouches(path: Path)
    requires |path| <= 128
    ensures var n := BitsToNetwork(path);
      n.len == 0 || TouchesMapped(n) <==> path <= MappedPath()
  {
    var n := BitsToNetwork(path);
    PathRoundTrip(path);
    WrittenNetwork(path);
    if n.V4? {
      V4Inside(n);
      assert n.len == 0 ==> path == MappedPath();
    } else if n.len > 0 {
      TouchesMappedMeaning(n);
      if MappedPath() <= path {
        BelowMappedIsText(n);
      }
    }
  }

  lemma BelowMappedIsText(n: Network)
    requires n.V6? && MappedPath() <= IpToBits(n)
    ensures MappedText(n)
  {
    RangeBound(n);
    TopBitsPrefix(n.addr, 128, 96, n.len);
    MappedInside(n.addr);
  }

  lemma WrittenAdmitted(env: Env, e: Entry)
    requires Sane(env) && |e.prefix| <= 128 && e.asn > 0
    ensures var r := EntryKey(env, Written(env, e));
      && (r.Success? <==> e.asn <= ASN_MAX && !(e.prefix <= MappedPath()))
      && (r.Success? ==> r == Success(Key(Written(env, e).prefix, e.asn)))
  {
    var n := BitsToNetwork(e.prefix);
    WrittenTouches(e.prefix);
    WrittenNetwork(e.prefix);
    CanonicalMeaning(n);
    assert env.parse(env.show(n)) == Some(n);
    assert |env.show(n)| <= MAX_PREFIX_LEN;
  }

  lemma WrittenPath(env: Env, e: Entry)
    requires Sane(env) && |e.prefix| <= 128
    ensures PathOf(env, Written(env, e).prefix) == e.prefix
  {
    assert env.parse(env.show(BitsToNetwork(e.prefix))) == Some(BitsToNetwork(e.prefix));
    PathRoundTrip(e.prefix);
  }

  // ---------------------------------------------------------------- the whole claim at the gate

  lemma {:induction false} LookupBelow(t: Trie, path: Path, n: nat, v: nat)
    requires n <= |path| && Lookup(t, path[..n]) == Some(v)
    ensures Lookup(t, path) == Some(v)
  {
    if t.Branch? {
      assert path[..n][1..] == path[1..][..n - 1];
      LookupBelow(Half(t, path[0]), path[1..], n - 1, v);
    }
  }

  lemma {:induction false} FirstAnswer(t: Trie, path: Path, v: nat) returns (n: nat)
    requires Lookup(t, path) == Some(v) && v > 0
    ensures n <= |path| && AssignedLeaf(t, path[..n], v)
    decreases |path|
  {
    if n' :| 0 <= n' < |path| && Lookup(t, path[..n']).Some? {
      LookupBelow(t, path, n', Lookup(t, path[..n']).value);
      n := FirstAnswer(t, path[..n'], v);
      assert path[..n'][..n] == path[..n];
    } else {
      n := |path|;
      assert path[..n] == path;
    }
  }

  /** The map gives all of IPv4 one ASN, in an entry for that range or a wider one. */
  ghost predicate CoversIpv4(t: Trie) {
    var answer := Lookup(t, MappedPath());
    answer.Some? && answer.value > 0
  }

  lemma CoversIpv4Meaning(t: Trie)
    ensures CoversIpv4(t) <==> exists e :: e in Flat(t, false) && e.prefix <= MappedPath()
  {
    if CoversIpv4(t) {
      var v := Lookup(t, MappedPath()).value;
      var n := FirstAnswer(t, MappedPath(), v);
      FlatIsAssignedLeaves(t, Entry(MappedPath()[..n], v));
    }
    if e :| e in Flat(t, false) && e.prefix <= MappedPath() {
      FlatIsAssignedLeaves(t, e);
      assert MappedPath()[..|e.prefix|] == e.prefix;
      LookupBelow(t, MappedPath(), |e.prefix|, e.asn);
    }
  }

  lemma WrittenConsistent(env: Env, t: Trie, x: ClaimEntry, y: ClaimEntry)
    requires Sane(env) && Depth(t) <= 128 && x in ClaimEntries(env, t) && y in ClaimEntries(env, t)
    requires x.prefix == y.prefix
    ensures x.asn == y.asn
  {
    var e := MemberOfClaim(env, t, x);
    var f := MemberOfClaim(env, t, y);
    WrittenPath(env, e);
    WrittenPath(env, f);
    FlatIsAssignedLeaves(t, e);
    FlatIsAssignedLeaves(t, f);
  }

  /** Every flat entry passes on its own. */
  ghost predicate EntriesPass(t: Trie) {
    forall e :: e in Flat(t, false) ==> e.asn <= ASN_MAX && !(e.prefix <= MappedPath())
  }

  lemma EntriesPassMeaning(t: Trie)
    ensures EntriesPass(t) <==> AsnsFit(t) && !CoversIpv4(t)
  {
    CoversIpv4Meaning(t);
    forall v: nat ensures Carries(Flat(t, false), v) <==> v > 0 && HasAsn(t, v) {
      FlatAsns(t, false, v);
    }
    if EntriesPass(t) {
      forall v: nat | HasAsn(t, v) ensures v <= ASN_MAX {
        if v > 0 {
          assert Carries(Flat(t, false), v);
        }
      }
    }
    if AsnsFit(t) {
      forall e | e in Flat(t, false) ensures e.asn <= ASN_MAX {
        assert Carries(Flat(t, false), e.asn);
      }
    }
  }

  lemma FlatAssigned(t: Trie, e: Entry)
    requires e in Flat(t, false)
    ensures e.asn > 0
  {
    FlatIsAssignedLeaves(t, e);
  }

  /** The entry gate accepts the claim of a map exactly when its ASNs are encodable and it does not cover IPv4. */
  lemma EntryGateIff(env: Env, t: Trie)
    requires Sane(env) && Depth(t) <= 128
    ensures VoteKeys(env, ClaimEntries(env, t)).Success? <==> AsnsFit(t) && !CoversIpv4(t)
  {
    var es := ClaimEntries(env, t);
    VoteKeysMeaning(env, es);
    EntriesPassMeaning(t);
    if EntriesPass(t) {
      forall x | x in es ensures EntryKey(env, x) == Success(Key(x.prefix, x.asn)) {
        var e := MemberOfClaim(env, t, x);
        FlatAssigned(t, e);
        WrittenAdmitted(env, e);
      }
      forall x, y | x in es && y in es && SamePrefix(EntryKey(env, x), EntryKey(env, y)) ensures x.asn == y.asn {
        WrittenConsistent(env, t, x, y);
      }
    } else {
      var e :| e in Flat(t, false) && !(e.asn <= ASN_MAX && !(e.prefix <= MappedPath()));
      ClaimMember(env, t, e);
      FlatAssigned(t, e);
      WrittenAdmitted(env, e);
      assert EntryKey(env, Written(env, e)).Failure?;
    }
  }

  /** What else the gates ask of a claim for the current epoch. */
  predicate Welcome(s: State, entries: nat, sender: Text) {
    && |sender| <= s.limits.maxSenderIdLen && sender !in s.seen && |s.seen| < s.limits.maxSenders
    && s.limits.minEntries <= entries <= s.limits.maxEntries && s.epoch <= s.limits.maxEpoch
  }

  /** An honest claim for the current epoch is accepted exactly when the entry gate can accept its map. */
  lemma HonestClaimIff(env: Env, s: State, t: Trie, sender: Text)
    requires Sane(env) && Depth(t) <= 128 && Welcome(s, |Flat(t, false)|, sender)
    ensures Judge(env, s, ClaimFor(env, t, s.epoch, sender), sender).Passed? <==> AsnsFit(t) && !CoversIpv4(t)
  {
    EntryGateIff(env, t);
    assert HexDigest(env.digest(s.epoch, sender, ClaimEntries(env, t)));
  }

  // ---------------------------------------------------------------- agreeing claims in the tally

  /** How many claims of the ledger have exactly these entries. */
  function Supporters(ledger: seq<Claim>, es: seq<ClaimEntry>): nat {
    if ledger == [] then 0
    else Supporters(ledger[..|ledger| - 1], es) + if ledger[|ledger| - 1].entries == es then 1 else 0
  }

  /** What the claims of one list decide of a vote: all of them cast it, or none does. */
  lemma {:induction false} SupportedVotes(env: Env, ledger: seq<Claim>, es: seq<ClaimEntry>, key: Key)
    ensures Supporters(ledger, es) <= |ledger| && VotesFor(env, ledger, key) <= |ledger|
    ensures Asserts(env, es, key) ==> VotesFor(env, ledger, key) >= Supporters(ledger, es)
    ensures !Asserts(env, es, key) ==> VotesFor(env, ledger, key) <= |ledger| - Supporters(ledger, es)
    decreases ledger
  {
    if ledger != [] {
      SupportedVotes(env, ledger[..|ledger| - 1], es, key);
    }
  }

  lemma {:induction false} SomeSupporter(ledger: seq<Claim>, es: seq<ClaimEntry>)
    requires Supporters(ledger, es) > 0
    ensures exists c :: c in ledger && c.entries == es
    decreases ledger
  {
    var front, last := ledger[..|ledger| - 1], ledger[|ledger| - 1];
    assert ledger == front + [last];
    if last.entries == es {
      assert last in ledger;
    } else {
      SomeSupporter(front, es);
    }
  }

  lemma {:induction false} AllSupport(ledger: seq<Claim>, es: seq<ClaimEntry>)
    requires forall c :: c in ledger ==> c.entries == es
    ensures Supporters(ledger, es) == |ledger|
    decreases ledger
  {
    if ledger != [] {
      var front, last := ledger[..|ledger| - 1], ledger[|ledger| - 1];
      assert ledger == front + [last];
      assert last in ledger;
      AllSupport(front, es);
    }
  }

  /** Every accepted claim of the epoch is a claim for `t`. */
  ghost predicate Unanimous(env: Env, ledger: seq<Claim>, t: Trie)
    requires Depth(t) <= 128
  {
    ledger != [] && forall c :: c in ledger ==> c.entries == ClaimEntries(env, t)
  }

  /** Some accepted claim is a claim for `t`, so its votes are those of its map. */
  lemma SupportedAdmissible(env: Env, s: State, ledger: seq<Claim>, t: Trie)
    requires Depth(t) <= 128 && Recorded(env, s, ledger) && Supporters(ledger, ClaimEntries(env, t)) > 0
    ensures Admissible(env, ClaimEntries(env, t))
  {
    SomeSupporter(ledger, ClaimEntries(env, t));
  }

  lemma SupportedLeaders(env: Env, s: State, ledger: seq<Claim>, t: Trie, key: Key)
    requires Depth(t) <= 128 && Recorded(env, s, ledger)
    requires var n := Supporters(ledger, ClaimEntries(env, t)); |ledger| - n < s.threshold <= n
    ensures Leads(s.votes, s.threshold, key) <==> Asserts(env, ClaimEntries(env, t), key)
  {
    var es := ClaimEntries(env, t);
    SupportedAdmissible(env, s, ledger, t);
    SupportedVotes(env, ledger, es, key);
    assert Count(s.votes, key) == VotesFor(env, ledger, key);
    if Asserts(env, es, key) {
      forall k | k in s.votes && k.prefix == key.prefix && k != key
        ensures Beats(s.votes[key], key.asn, s.votes[k], k.asn)
      {
        SupportedVotes(env, ledger, es, k);
        assert Count(s.votes, k) == VotesFor(env, ledger, k);
        if Asserts(env, es, k) {
          OneAsnPerClaim(env, es, key.prefix, k.asn, key.asn);
        }
      }
    }
  }

  lemma UnanimousLeaders(env: Env, s: State, ledger: seq<Claim>, t: Trie, key: Key)
    requires Depth(t) <= 128 && Recorded(env, s, ledger) && Unanimous(env, ledger, t)
    ensures Leads(s.votes, s.threshold, key) <==> Asserts(env, ClaimEntries(env, t), key) && |ledger| >= s.threshold
  {
    var es := ClaimEntries(env, t);
    AllSupport(ledger, es);
    SupportedAdmissible(env, s, ledger, t);
    SupportedVotes(env, ledger, es, key);
    assert Count(s.votes, key) == VotesFor(env, ledger, key);
    if key in s.votes {
      forall k | k in s.votes && k.prefix == key.prefix ensures k == key {
        SupportedVotes(env, ledger, es, k);
        assert Count(s.votes, k) == VotesFor(env, ledger, k);
        OneAsnPerClaim(env, es, key.prefix, k.asn, key.asn);
      }
    }
  }

  /** The votes of the claim for `t`, as paths, are the flat entries of `t`. */
  lemma AssertedPaths(env: Env, t: Trie, e: Entry)
    requires Sane(env) && Depth(t) <= 128 && Admissible(env, ClaimEntries(env, t))
    ensures e in Flat(t, false) <==>
      exists k :: Asserts(env, ClaimEntries(env, t), k) && e == Entry(PathOf(env, k.prefix), k.asn)
  {
    if e in Flat(t, false) {
      ClaimMember(env, t, e);
      FlatAssigned(t, e);
      WrittenAdmitted(env, e);
      WrittenPath(env, e);
      assert Asserts(env, ClaimEntries(env, t), Key(Written(env, e).prefix, e.asn));
    }
    if k :| Asserts(env, ClaimEntries(env, t), k) && e == Entry(PathOf(env, k.prefix), k.asn) {
      var x :| x in ClaimEntries(env, t) && EntryKey(env, x) == Success(k);
      var f := MemberOfClaim(env, t, x);
      FlatAssigned(t, f);
      WrittenAdmitted(env, f);
      WrittenPath(env, f);
    }
  }

  /** When the winners are exactly the votes of the claim for `t`, they make `t`. */
  lemma ElectedMakeMap(env: Env, votes: map<Key, nat>, threshold: nat, t: Trie)
    requires Sane(env) && Canonical(t) && Depth(t) <= 128 && Admissible(env, ClaimEntries(env, t))
    requires ValidVotes(env, votes)
    requires forall key :: Leads(votes, threshold, key) <==> Asserts(env, ClaimEntries(env, t), key)
    ensures ConsensusMap(env, votes, threshold) == t
  {
    var es := WinnersMap(env, votes, threshold);
    forall e ensures e in es <==> e in Flat(t, false) {
      AssertedPaths(env, t, e);
    }
    OrderIrrelevant(Leaf(0), es, Flat(t, false));
    FlatRebuilds(t, false);
  }

  /** Without winners the map is empty. */
  lemma NobodyElected(env: Env, votes: map<Key, nat>, threshold: nat)
    requires ValidVotes(env, votes) && forall key :: !Leads(votes, threshold, key)
    ensures ConsensusMap(env, votes, threshold) == Leaf(0)
  {
    var es := WinnersMap(env, votes, threshold);
    EmptyOrMember(es);
  }

  /**
   * What the threshold guarantees: if at least that many accepted claims were made from
   * the map `t`, and the other accepted claims, whatever they say, are fewer, the
   * consensus map is `t`.
   */
  lemma QuorumConsensus(env: Env, s: State, ledger: seq<Claim>, t: Trie)
    requires Sane(env) && Canonical(t) && Depth(t) <= 128 && Recorded(env, s, ledger)
    requires var n := Supporters(ledger, ClaimEntries(env, t)); |ledger| - n < s.threshold <= n
    ensures ValidVotes(env, s.votes) && ConsensusMap(env, s.votes, s.threshold) == t
  {
    RecordedVotesValid(env, s, ledger);
    SupportedVotes(env, ledger, ClaimEntries(env, t), Key([], 0));
    SupportedAdmissible(env, s, ledger, t);
    forall key ensures Leads(s.votes, s.threshold, key) <==> Asserts(env, ClaimEntries(env, t), key) {
      SupportedLeaders(env, s, ledger, t, key);
    }
    ElectedMakeMap(env, s.votes, s.threshold, t);
  }

  /**
   * When every accepted claim of the epoch was made from the map `t`, the consensus
   * map is `t` if they reach the threshold, and empty otherwise.
   */
  lemma UnanimousConsensus(env: Env, s: State, ledger: seq<Claim>, t: Trie)
    requires Sane(env) && Canonical(t) && Depth(t) <= 128
    requires Recorded(env, s, ledger) && Unanimous(env, ledger, t)
    ensures ValidVotes(env, s.votes)
    ensures ConsensusMap(env, s.votes, s.threshold) == if |ledger| >= s.threshold then t else Leaf(0)
  {
    RecordedVotesValid(env, s, ledger);
    forall key ensures Leads(s.votes, s.threshold, key) <==>
                       Asserts(env, ClaimEntries(env, t), key) && |ledger| >= s.threshold
    {
      UnanimousLeaders(env, s, ledger, t, key);
    }
    if |ledger| >= s.threshold {
      assert ledger[0] in ledger;
      ElectedMakeMap(env, s.votes, s.threshold, t);
    } else {
      NobodyElected(env, s.votes, s.threshold);
    }
  }

  // ---------------------------------------------------------------- a whole unanimous round

  /** One claim for `t` from each sender, in order. */
  function Round(env: Env, t: Trie, epoch: U64, senders: seq<Text>): (r: seq<Input>)
    requires Depth(t) <= 128
    ensures |r| == |senders|
  {
    seq(|senders|, i requires 0 <= i < |senders| => FromPeer(ClaimFor(env, t, epoch, senders[i]), senders[i]))
  }

  /** The engine has room for one claim of this map from every sender. */
  ghost predicate HasRoom(s: State, t: Trie, senders: seq<Text>) {
    && |senders| <= s.limits.maxSenders && s.epoch <= s.limits.maxEpoch
    && s.limits.minEntries <= |Flat(t, false)| <= s.limits.maxEntries
    && forall x :: x in senders ==> |x| <= s.limits.maxSenderIdLen
  }

  /** The ledger holds exactly the claims of these senders. */
  ghost predicate ClaimsOf(env: Env, t: Trie, epoch: U64, senders: seq<Text>, ledger: seq<Claim>)
    requires Depth(t) <= 128
  {
    |ledger| == |senders| && forall i :: 0 <= i < |ledger| ==> ledger[i] == ClaimFor(env, t, epoch, senders[i])
  }

  /** All these claims were accepted in the epoch they name. */
  ghost predicate RoundDone(env: Env, s: State, t: Trie, epoch: U64, senders: seq<Text>)
    requires Depth(t) <= 128
  {
    var inputs := Round(env, t, epoch, senders);
    && Run(env, s, inputs).epoch == epoch && Run(env, s, inputs).limits == s.limits
    && ClaimsOf(env, t, epoch, senders, Ledger(env, s, inputs))
  }

  lemma {:induction false} RoundAccepted(
    env: Env, threshold: nat, epoch: U64, limits: Limits, t: Trie, senders: seq<Text>)
    requires Sane(env) && Depth(t) <= 128 && AsnsFit(t) && !CoversIpv4(t) && Distinct(senders)
    requires HasRoom(Initial(threshold, epoch, limits), t, senders)
    ensures RoundDone(env, Initial(threshold, epoch, limits), t, epoch, senders)
    decreases |senders|
  {
    if senders != [] {
      var front, last := senders[..|senders| - 1], senders[|senders| - 1];
      assert senders == front + [last];
      RoundAccepted(env, threshold, epoch, limits, t, front);
      OneMoreAccepted(env, threshold, epoch, limits, t, front, last);
    }
  }

  lemma OneMoreAccepted(
    env: Env, threshold: nat, epoch: U64, limits: Limits, t: Trie, front: seq<Text>, last: Text)
    requires Sane(env) && Depth(t) <= 128 && AsnsFit(t) && !CoversIpv4(t) && Distinct(front + [last])
    requires HasRoom(Initial(threshold, epoch, limits), t, front + [last])
    requires RoundDone(env, Initial(threshold, epoch, limits), t, epoch, front)
    ensures RoundDone(env, Initial(threshold, epoch, limits), t, epoch, front + [last])
  {
    var s := Initial(threshold, epoch, limits);
    var before := Round(env, t, epoch, front);
    RoundFront(env, t, epoch, front, last);
    VotesAreHistory(env, threshold, epoch, limits, before);
    NextAccepted(env, Run(env, s, before), t, front, last, Ledger(env, s, before));
    JoinsLedger(env, s, t, epoch, Round(env, t, epoch, front + [last]), before, last);
  }

  lemma RoundFront(env: Env, t: Trie, epoch: U64, front: seq<Text>, last: Text)
    requires Depth(t) <= 128
    ensures var all := Round(env, t, epoch, front + [last]);
      all[..|front|] == Round(env, t, epoch, front) && all[|front|] == FromPeer(ClaimFor(env, t, epoch, last), last)
  {
  }

  lemma NextAccepted(env: Env, s: State, t: Trie, front: seq<Text>, last: Text, ledger: seq<Claim>)
    requires Sane(env) && Depth(t) <= 128 && AsnsFit(t) && !CoversIpv4(t) && Distinct(front + [last])
    requires Recorded(env, s, ledger) && HasRoom(s, t, front + [last]) && ClaimsOf(env, t, s.epoch, front, ledger)
    ensures Judge(env, s, ClaimFor(env, t, s.epoch, last), last).Passed?
  {
    NewSender(env, s, t, s.epoch, front, last, ledger);
    HonestClaimIff(env, s, t, last);
  }

  lemma NewSender(env: Env, s: State, t: Trie, epoch: U64, front: seq<Text>, last: Text, ledger: seq<Claim>)
    requires Depth(t) <= 128 && Distinct(front + [last]) && ClaimsOf(env, t, epoch, front, ledger)
    ensures forall c :: c in ledger ==> c.sender != last
  {
    forall i | 0 <= i < |front| ensures front[i] != last {
      assert (front + [last])[i] == front[i] && (front + [last])[|front|] == last;
    }
  }

  lemma JoinsLedger(env: Env, s: State, t: Trie, epoch: U64, inputs: seq<Input>, before: seq<Input>, last: Text)
    requires Depth(t) <= 128 && |inputs| == |before| + 1 && inputs[..|before|] == before
    requires inputs[|before|] == FromPeer(ClaimFor(env, t, epoch, last), last)
    requires Run(env, s, before).epoch == epoch
    requires Judge(env, Run(env, s, before), ClaimFor(env, t, epoch, last), last).Passed?
    ensures Ledger(env, s, inputs) == Ledger(env, s, before) + [ClaimFor(env, t, epoch, last)]
    ensures Run(env, s, inputs).epoch == epoch && Run(env, s, inputs).limits == Run(env, s, before).limits
  {
  }

  /**
   * End to end: enough distinct senders submitting the claim of one map make the
   * engine finalize exactly that map.
   */
  lemma UnanimousRound(env: Env, threshold: nat, epoch: U64, limits: Limits, t: Trie, senders: seq<Text>)
    requires Sane(env) && Canonical(t) && Depth(t) <= 128 && AsnsFit(t) && !CoversIpv4(t)
    requires Distinct(senders) && |senders| >= threshold && |senders| >= 1
    requires HasRoom(Initial(threshold, epoch, limits), t, senders)
    ensures var s := Run(env, Initial(threshold, epoch, limits), Round(env, t, epoch, senders));
      && s.accepted == |senders|
      && ValidVotes(env, s.votes) && ConsensusMap(env, s.votes, s.threshold) == t
  {
    var start := Initial(threshold, epoch, limits);
    var inputs := Round(env, t, epoch, senders);
    var s := Run(env, start, inputs);
    var ledger := Ledger(env, start, inputs);
    RoundAccepted(env, threshold, epoch, limits, t, senders);
    VotesAreHistory(env, threshold, epoch, limits, inputs);
    NonInterference(env, start, inputs, {});
    ThresholdKept(env, start, inputs);
    assert ledger[0] in ledger;
    UnanimousConsensus(env, s, ledger, t);
  }

  lemma {:induction false} ThresholdKept(env: Env, s: State, inputs: seq<Input>)
    ensures Run(env, s, inputs).threshold == s.threshold
  {
    if inputs != [] {
      ThresholdKept(env, s, inputs[..|inputs| - 1]);
      StepKeepsCap(env, Run(env, s, inputs[..|inputs| - 1]), inputs[|inputs| - 1]);
    }
  }
}
