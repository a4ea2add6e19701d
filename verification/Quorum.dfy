/** The engine object: fields rewritten in place, maps walked in any order. */
module Quorum {
  import opened Wrappers
  import opened Bytes
  import opened Ordering
  import opened Counters
  import opened Tries
  import opened Entries
  import opened Networks
  import opened Claims
  import opened Engine
  import opened Histories
  import opened Consensus
  import opened ASMaps

  class QuorumEngine {
    const env: Env
    const threshold: nat
    var epoch: U64
    var limits: Limits
    var seenSenders: set<Text>
    var votes: map<Key, nat>
    var observations: seq<Observation>
    var rejectionsSeen: nat
    var acceptedClaims: nat
    var rejectedClaims: map<Reason, nat>

    function Contents(): State
      reads this
    {
      State(threshold, epoch, limits, seenSenders, votes, observations, rejectionsSeen, acceptedClaims, rejectedClaims)
    }

    constructor WithLimits(env: Env, threshold: nat, epoch: U64, limits: Limits)
      ensures this.env == env && Contents() == Initial(threshold, epoch, limits)
    {
      this.env := env;
      this.threshold := threshold;
      this.epoch := epoch;
      this.limits := limits.(
        maxSenders := Max(Max(limits.maxSenders, threshold), 1),
        maxEpoch := Higher(limits.maxEpoch, Lower(SatAdd(epoch, limits.maxEpochSkew), EPOCH_ABSOLUTE_MAX)));
      seenSenders := {};
      votes := map[];
      observations := [];
      rejectionsSeen := 0;
      acceptedClaims := 0;
      rejectedClaims := map[];
    }

    /** An engine whose epoch ceiling comes from the clock reading `now`. */
    static method New(env: Env, threshold: nat, epoch: U64, now: U64) returns (e: QuorumEngine)
      ensures fresh(e) && e.env == env && e.Contents() == Initial(threshold, epoch, AtUnixTime(now))
    {
      e := new QuorumEngine.WithLimits(env, threshold, epoch, AtUnixTime(now));
    }

    method ResetForEpoch(epoch: U64)
      modifies this
      ensures Contents() == Reset(old(Contents()), epoch)
    {
      this.epoch := epoch;
      seenSenders := {};
      votes := map[];
      observations := [];
      rejectionsSeen := 0;
      acceptedClaims := 0;
      rejectedClaims := map[];
    }

    /** The local entry point: an operator setting or the epoch timer. */
    method AdvanceEpoch(epoch: U64)
      modifies this
      ensures Contents() == AdvanceTo(old(Contents()), epoch)
    {
      limits := limits.(
        maxEpoch := Higher(limits.maxEpoch, Lower(SatAdd(epoch, limits.maxEpochSkew), EPOCH_ABSOLUTE_MAX)));
      ResetForEpoch(epoch);
    }

    method EpochTimer()
      modifies this
      ensures Contents() == Step(env, old(Contents()), Tick)
      ensures old(epoch) < U64_MAX ==> epoch == old(epoch) + 1
      ensures old(epoch) == U64_MAX ==> epoch == U64_MAX
    {
      var next := SatAdd(epoch, 1);
      AdvanceEpoch(next);
    }

    method CountRefusal(reason: Reason)
      modifies `rejectedClaims
      ensures Contents() == CountRejection(old(Contents()), reason)
    {
      rejectedClaims := rejectedClaims[reason := Count(rejectedClaims, reason) + 1];
    }

    method RecordRefusal(c: Claim, source: Text, reason: Reason)
      modifies `rejectionsSeen, `observations, `rejectedClaims
      ensures Contents() == RecordRejection(old(Contents()), c, source, reason)
    {
      rejectionsSeen := rejectionsSeen + 1;
      if rejectionsSeen <= limits.maxRejectionObservations {
        observations := observations + [Observation(c.epoch, source, c.sender, c.hash, Some(reason))];
      }
      CountRefusal(reason);
    }

    /** Gate 9's loop over the validated votes. */
    method CastVotes(keys: seq<Key>)
      modifies `votes
      ensures votes == Tally(old(votes), keys)
    {
      var i := 0;
      while i < |keys|
        invariant 0 <= i <= |keys|
        invariant votes == Tally(old(votes), keys[..i])
      {
        assert keys[..i + 1][..i] == keys[..i];
        votes := votes[keys[i] := Count(votes, keys[i]) + 1];
        i := i + 1;
      }
      assert keys[..i] == keys;
    }

    /** The nine gates; true when the claim was accepted and the senders reach the threshold. */
    method ProcessClaimFromPeer(c: Claim, source: Text) returns (reached: bool)
      modifies this
      ensures Contents() == Receive(env, old(Contents()), c, source)
      ensures reached <==> Judge(env, old(Contents()), c, source).Passed? && |seenSenders| >= threshold
    {
      var shape := ShapeViolation(limits, c);
      if shape.Some? {
        CountRefusal(shape.value);
        return false;
      }
      if c.sender != source {
        CountRefusal(SourceMismatch);
        return false;
      }
      var expected := env.digest(c.epoch, c.sender, c.entries);
      if c.hash != expected {
        RecordRefusal(c, source, ClaimHashMismatch);
        return false;
      }
      if c.epoch < epoch {
        RecordRefusal(c, source, StaleEpoch);
        return false;
      }
      if c.epoch > SatAdd(epoch, limits.maxEpochSkew) {
        RecordRefusal(c, source, EpochJumpTooLarge);
        return false;
      }
      var keys := ValidatedVoteKeys(env, c.entries);
      if keys.Failure? {
        RecordRefusal(c, source, keys.error);
        return false;
      }
      if c.epoch > epoch {
        ResetForEpoch(c.epoch);
      }
      reached := Settle(c, source, keys.value);
    }

    /** Gates 8 and 9. */
    method Settle(c: Claim, source: Text, keys: seq<Key>) returns (reached: bool)
      modifies this
      ensures Contents() == Settled(env, old(Contents()), c, source, keys)
      ensures reached <==> Admission(old(Contents()), c.sender).None? && |seenSenders| >= threshold
    {
      if c.sender !in seenSenders && |seenSenders| >= limits.maxSenders {
        RecordRefusal(c, source, SenderLimitExceeded);
        return false;
      }
      if c.sender in seenSenders {
        RecordRefusal(c, source, DuplicateSender);
        return false;
      }
      seenSenders := seenSenders + {c.sender};
      CastVotes(keys);
      observations := observations +
        [Observation(epoch, source, c.sender, env.digest(c.epoch, c.sender, c.entries), None)];
      acceptedClaims := acceptedClaims + 1;
      reached := |seenSenders| >= threshold;
    }

    /** A claim from an operator's file: its source is the identity its sender text parses to. */
    method ProcessClaim(c: Claim) returns (reached: bool)
      modifies this
      ensures Contents() == Step(env, old(Contents()), Replayed(c))
      ensures reached <==> Accepts(env, old(Contents()), Replayed(c)) && |seenSenders| >= threshold
    {
      if |c.sender| > limits.maxSenderIdLen {
        CountRefusal(InvalidSenderId);
        return false;
      }
      var source := env.peer(c.sender);
      if source.None? {
        CountRefusal(UnparsableSender);
        return false;
      }
      reached := ProcessClaimFromPeer(c, source.value);
    }

    /** One gossip payload: counted when too large or unreadable, and processed otherwise. */
    method FromGossip(data: seq<Byte>, source: Text) returns (reached: bool)
      modifies this
      ensures Contents() == Step(env, old(Contents()), Gossip(data, source))
      ensures reached <==> Accepts(env, old(Contents()), Gossip(data, source)) && |seenSenders| >= threshold
    {
      if |data| > MAX_CLAIM_BYTES {
        CountRefusal(OversizeClaim);
        return false;
      }
      var claim := env.decode(data);
      if claim.None? {
        CountRefusal(MalformedClaim);
        return false;
      }
      reached := ProcessClaimFromPeer(claim.value, source);
    }

    // -------------------------------------------------------------- finalize

    /** Every network on which some ASN reached the threshold is there. */
    ghost predicate Complete(done: set<Key>, best: map<Text, (nat, nat)>)
      requires done <= votes.Keys
      reads this
    {
      forall k :: k in done && votes[k] >= threshold ==> k.prefix in best
    }

    /** What is there was met, reached the threshold and has the recorded votes. */
    ghost predicate Genuine(done: set<Key>, best: map<Text, (nat, nat)>)
      requires done <= votes.Keys
      reads this
    {
      forall p :: p in best ==> Key(p, best[p].0) in done && votes[Key(p, best[p].0)] == best[p].1 >= threshold
    }

    /** No other ASN met on the network does better. */
    ghost predicate Unbeaten(done: set<Key>, best: map<Text, (nat, nat)>)
      requires done <= votes.Keys
      reads this
    {
      forall k :: k in done && k.prefix in best && k.asn != best[k.prefix].0 ==>
        Beats(best[k.prefix].1, best[k.prefix].0, votes[k], k.asn)
    }

    /** The best ASN of every network met so far, with its votes. */
    ghost predicate Elected(done: set<Key>, best: map<Text, (nat, nat)>)
      requires done <= votes.Keys
      reads this
    {
      Complete(done, best) && Genuine(done, best) && Unbeaten(done, best)
    }

    /** One pass over the votes, in any order. */
    method Elect() returns (best: map<Text, (nat, nat)>)
      ensures Elected(votes.Keys, best)
    {
      best := map[];
      var pending := votes.Keys;
      while pending != {}
        invariant pending <= votes.Keys
        invariant Elected(votes.Keys - pending, best)
        decreases |pending|
      {
        ghost var done := votes.Keys - pending;
        var key :| key in pending;
        pending := pending - {key};
        assert votes.Keys - pending == done + {key};
        ElectedGrows(done, best, key);
        if votes[key] >= threshold {
          if key.prefix in best {
            var (asn, count) := best[key.prefix];
            if votes[key] > count || (votes[key] == count && key.asn < asn) {
              best := best[key.prefix := (key.asn, votes[key])];
            }
          } else {
            best := best[key.prefix := (key.asn, votes[key])];
          }
        }
      }
      assert votes.Keys - pending == votes.Keys;
    }

    /** What one more vote does to the record. */
    function Challenged(best: map<Text, (nat, nat)>, key: Key): map<Text, (nat, nat)>
      requires key in votes
      reads this
    {
      if votes[key] >= threshold &&
         (key.prefix in best ==> Beats(votes[key], key.asn, best[key.prefix].1, best[key.prefix].0))
      then best[key.prefix := (key.asn, votes[key])]
      else best
    }

    lemma StaysUnbeaten(done: set<Key>, best: map<Text, (nat, nat)>, key: Key)
      requires done <= votes.Keys && key in votes && Elected(done, best)
      ensures Unbeaten(done + {key}, Challenged(best, key))
    {
      var next := Challenged(best, key);
      forall k | k in done + {key} && k.prefix in next && k.asn != next[k.prefix].0
        ensures Beats(next[k.prefix].1, next[k.prefix].0, votes[k], k.asn)
      {
        if k.prefix != key.prefix {
          assert k in done && next[k.prefix] == best[k.prefix];
        }
      }
    }

    lemma ElectedGrows(done: set<Key>, best: map<Text, (nat, nat)>, key: Key)
      requires done <= votes.Keys && key in votes && Elected(done, best)
      ensures Elected(done + {key}, Challenged(best, key))
    {
      StaysUnbeaten(done, best, key);
    }

    lemma ElectedLead(best: map<Text, (nat, nat)>)
      requires Elected(votes.Keys, best)
      ensures forall p :: p in best ==> Leads(votes, threshold, Key(p, best[p].0))
      ensures forall k :: Leads(votes, threshold, k) ==> k.prefix in best && best[k.prefix] == (k.asn, votes[k])
    {
      forall p | p in best ensures Leads(votes, threshold, Key(p, best[p].0)) {
        assert Key(p, best[p].0) in votes.Keys;
      }
      forall k | Leads(votes, threshold, k) ensures k.prefix in best && best[k.prefix] == (k.asn, votes[k]) {
        assert k in votes.Keys;
        LeaderUnique(votes, threshold, k, Key(k.prefix, best[k.prefix].0));
      }
    }

    ghost predicate Gathered(best: map<Text, (nat, nat)>, done: set<Text>, entries: seq<Entry>, lines: seq<ConsensusEntry>)
      requires done <= best.Keys
    {
      && Assignments(env, lines) == Some(entries)
      && Distinct(lines)
      && forall e :: e in lines <==> e.prefix in done && best[e.prefix] == (e.asn, e.votes)
    }

    /** The elected entries and report lines, in whatever order the map yields them. */
    method Gather(best: map<Text, (nat, nat)>) returns (entries: seq<Entry>, lines: seq<ConsensusEntry>)
      requires forall p :: p in best ==> VoteNetwork(env, p)
      ensures Gathered(best, best.Keys, entries, lines)
    {
      entries, lines := [], [];
      var pending := best.Keys;
      while pending != {}
        invariant pending <= best.Keys
        invariant Gathered(best, best.Keys - pending, entries, lines)
        decreases |pending|
      {
        ghost var done := best.Keys - pending;
        var p :| p in pending;
        pending := pending - {p};
        assert best.Keys - pending == done + {p};
        var line := ConsensusEntry(p, best[p].0, best[p].1);
        KnownPrefix(env, line);
        var parsed := CanonicalPrefix(env, p);
        if parsed.Some? {
          GatheredGrows(best, done, entries, lines, line, parsed.value);
          entries := entries + [Entry(IpToBits(parsed.value), line.asn)];
          lines := lines + [line];
        }
      }
      assert best.Keys - pending == best.Keys;
    }

    lemma GatheredGrows(best: map<Text, (nat, nat)>, done: set<Text>, entries: seq<Entry>,
                        lines: seq<ConsensusEntry>, line: ConsensusEntry, n: Network)
      requires done <= best.Keys && Gathered(best, done, entries, lines)
      requires line.prefix in best && line.prefix !in done && best[line.prefix] == (line.asn, line.votes)
      requires CanonicalPrefix(env, line.prefix) == Some(n)
      ensures Gathered(best, done + {line.prefix}, entries + [Entry(IpToBits(n), line.asn)], lines + [line])
    {
      assert (lines + [line])[..|lines|] == lines;
      assert line !in lines;
    }

    /** The artifact of the current tally. */
    method Finalize(topic: Text, localPeer: Text) returns (a: Artifact)
      requires ValidVotes(env, votes)
      ensures a == Artifact(epoch, topic, localPeer, threshold, Participants(seenSenders), acceptedClaims,
                            rejectedClaims, Report(votes, threshold), observations, ConsensusMap(env, votes, threshold))
    {
      var best := Elect();
      ElectedLead(best);
      var entries, lines := Gather(best);
      GatheredLists(best, entries, lines);
      AnyOrderSameMap(env, votes, threshold, lines);
      SortedLines(votes, threshold, lines);
      var state := new ASMap();
      state.UpdateMulti(entries);
      var report := SortBy(ReportLe, lines);
      var participants := ListSenders();
      a := Artifact(epoch, topic, localPeer, threshold, participants, acceptedClaims, rejectedClaims, report,
        observations, state.trie);
    }

    lemma GatheredLists(best: map<Text, (nat, nat)>, entries: seq<Entry>, lines: seq<ConsensusEntry>)
      requires forall p :: p in best ==> Leads(votes, threshold, Key(p, best[p].0)) && best[p].1 == votes[Key(p, best[p].0)]
      requires forall k :: Leads(votes, threshold, k) ==> k.prefix in best && best[k.prefix] == (k.asn, votes[k])
      requires Gathered(best, best.Keys, entries, lines)
      ensures Lists(votes, threshold, lines)
    {
      forall e ensures e in lines <==> e in Lines(votes, threshold) {
        if e in lines {
          assert Key(e.prefix, e.asn) in Leaders(votes, threshold);
          assert Line(votes, Key(e.prefix, e.asn)) == e;
        }
      }
    }

    /** The senders in text order, whatever order the set yields them in. */
    method ListSenders() returns (list: seq<Text>)
      ensures list == Participants(seenSenders)
    {
      list := [];
      var pending := seenSenders;
      while pending != {}
        invariant pending <= seenSenders
        invariant Distinct(list) && forall t :: t in list <==> t in seenSenders && t !in pending
        decreases |pending|
      {
        var t :| t in pending;
        pending := pending - {t};
        assert t !in list;
        list := list + [t];
      }
      TextOrder();
      SortOfEnumeration(TextLe, list, seenSenders);
      list := SortBy(TextLe, list);
    }
  }

  /** Loading a report: every prefix is masked to canonical form, a bad one refuses the report. */
  method LoadReport(env: Env, report: seq<ConsensusEntry>) returns (r: Option<Trie>)
    ensures r == FromReport(env, report)
  {
    var entries: seq<Entry> := [];
    var i := 0;
    while i < |report|
      invariant 0 <= i <= |report|
      invariant Assignments(env, report[..i]) == Some(entries)
    {
      assert report[..i + 1][..i] == report[..i];
      BadPrefixStays(env, report, i + 1);
      var n := CanonicalPrefix(env, report[i].prefix);
      if n.None? {
        return None;
      }
      entries := entries + [Entry(IpToBits(n.value), report[i].asn)];
      i := i + 1;
    }
    assert report[..i] == report;
    var state := new ASMap();
    state.UpdateMulti(entries);
    return Some(state.trie);
  }

  lemma {:induction false} BadPrefixStays(env: Env, report: seq<ConsensusEntry>, n: nat)
    requires n <= |report|
    ensures Assignments(env, report[..n]).None? ==> Assignments(env, report).None?
    decreases |report|
  {
    if n == |report| {
      assert report[..n] == report;
    } else {
      assert report[..|report| - 1][..n] == report[..n];
      BadPrefixStays(env, report[..|report| - 1], n);
    }
  }

  function Records(claims: seq<Claim>): (r: seq<Input>)
    ensures |r| == |claims|
  {
    seq(|claims|, i requires 0 <= i < |claims| => Replayed(claims[i]))
  }

  /** Replaying a claims file: refused when empty or when it starts past the absolute ceiling. */
  method Replay(env: Env, threshold: nat, asked: Option<U64>, claims: seq<Claim>, topic: Text, localPeer: Text)
    returns (r: Option<Artifact>)
    requires Sane(env)
    ensures r.Some? <==> |claims| > 0 && (if asked.Some? then asked.value else claims[0].epoch) <= EPOCH_ABSOLUTE_MAX
    ensures r.Some? ==>
      var epoch := if asked.Some? then asked.value else claims[0].epoch;
      var inputs := Records(claims);
      var s := Run(env, Initial(threshold, epoch, DEFAULT_LIMITS), inputs);
      && ValidVotes(env, s.votes)
      && r.value == Artifact(s.epoch, topic, localPeer, s.threshold, Participants(s.seen), s.accepted, s.rejected,
                             Report(s.votes, s.threshold), s.observations, ConsensusMap(env, s.votes, s.threshold))
  {
    if |claims| == 0 {
      return None;
    }
    var epoch := if asked.Some? then asked.value else claims[0].epoch;
    if epoch > DEFAULT_LIMITS.maxEpoch {
      return None;
    }
    var engine := new QuorumEngine.WithLimits(env, threshold, epoch, DEFAULT_LIMITS);
    ghost var start := engine.Contents();
    ghost var inputs := Records(claims);
    var i := 0;
    while i < |claims|
      invariant 0 <= i <= |claims|
      invariant engine.env == env && engine.Contents() == Run(env, start, inputs[..i])
    {
      assert inputs[..i + 1][..i] == inputs[..i] && inputs[..i + 1][i] == Replayed(claims[i]);
      var reached := engine.ProcessClaim(claims[i]);
      i := i + 1;
    }
    assert inputs[..i] == inputs;
    ReachableConsensus(env, threshold, epoch, DEFAULT_LIMITS, inputs);
    var a := engine.Finalize(topic, localPeer);
    return Some(a);
  }

  /** What was written verifies: rebuilding the map from the published entries gives the published map. */
  lemma ArtifactVerifies(env: Env, s: State, ledger: seq<Claim>)
    requires Sane(env) && Recorded(env, s, ledger)
    ensures ValidVotes(env, s.votes)
    ensures FromReport(env, Report(s.votes, s.threshold)) == Some(ConsensusMap(env, s.votes, s.threshold))
  {
    RecordedVotesValid(env, s, ledger);
    ReportLists(s.votes, s.threshold);
    AnyOrderSameMap(env, s.votes, s.threshold, Report(s.votes, s.threshold));
  }
}
