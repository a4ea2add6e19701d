/** Claims, their limits, and the gates that look at a claim alone. */
module Claims {
  import opened Wrappers
  import opened Powers
  import opened Bytes
  import opened BinNodes
  import opened Networks

  type U64 = x: int | 0 <= x <= 0xffff_ffff_ffff_ffff witness 0

  const U64_MAX: U64 := 0xffff_ffff_ffff_ffff

  function SatAdd(a: U64, b: U64): U64 {
    if a + b > U64_MAX then U64_MAX else a + b
  }

  function Lower(a: U64, b: U64): U64 {
    if a < b then a else b
  }

  function Higher(a: U64, b: U64): U64 {
    if a < b then b else a
  }

  const MAX_CLAIM_BYTES: nat := 65_536
  const MAX_CLAIM_ENTRIES: nat := 2_097_152
  const MIN_CLAIM_ENTRIES: nat := 1
  const MAX_SENDER_ID_LEN: nat := 64
  const CLAIM_HASH_LEN: nat := 64
  const MAX_PREFIX_LEN: nat := 49
  const ASN_MIN: nat := 1
  const EPOCH_ABSOLUTE_MAX: U64 := 4_102_444_800
  const MAX_EPOCH_SKEW: U64 := 86_400
  const MAX_SENDERS: nat := 1_024
  const MAX_REJECTION_OBSERVATIONS: nat := 1_024

  datatype ClaimEntry = ClaimEntry(prefix: Text, asn: nat)

  datatype Claim = Claim(epoch: U64, sender: Text, hash: Text, entries: seq<ClaimEntry>)

  datatype Reason =
    | InvalidSenderId | UnparsableSender | MalformedClaimHash | EmptyClaim | TooManyEntries | EpochOutOfRange
    | SourceMismatch | ClaimHashMismatch | StaleEpoch | EpochJumpTooLarge
    | UnassignedAsn | AsnOutOfRange | InvalidPrefix | DefaultRoutePrefix | Ipv4MappedPrefix | ConflictingEntry
    | SenderLimitExceeded | DuplicateSender | OversizeClaim | MalformedClaim

  datatype Limits = Limits(
    maxEntries: nat, minEntries: nat, maxSenderIdLen: nat, maxSenders: nat, maxRejectionObservations: nat,
    maxEpoch: U64, maxEpochSkew: U64)

  const DEFAULT_LIMITS := Limits(
    MAX_CLAIM_ENTRIES, MIN_CLAIM_ENTRIES, MAX_SENDER_ID_LEN, MAX_SENDERS, MAX_REJECTION_OBSERVATIONS,
    EPOCH_ABSOLUTE_MAX, MAX_EPOCH_SKEW)

  function AtUnixTime(now: U64): Limits {
    DEFAULT_LIMITS.(maxEpoch := Lower(SatAdd(now, DEFAULT_LIMITS.maxEpochSkew), EPOCH_ABSOLUTE_MAX))
  }

  /**
   * What the engine takes from libraries: reading and printing networks, reading
   * peer identities (as the text they print as), the claim digest, and decoding
   * a gossip payload.
   */
  datatype Env = Env(
    parse: Text -> Option<Network>,
    show: Network -> Text,
    peer: Text -> Option<Text>,
    digest: (U64, Text, seq<ClaimEntry>) -> Text,
    decode: seq<Byte> -> Option<Claim>)

  predicate LowerHex(b: Byte) {
    48 <= b <= 57 || 97 <= b <= 102
  }

  predicate HexDigest(hash: Text) {
    |hash| == CLAIM_HASH_LEN && forall i :: 0 <= i < |hash| ==> LowerHex(hash[i])
  }

  lemma LowerHexDigit(b: Byte)
    ensures LowerHex(b) <==> b as char in "0123456789abcdef"
  {
    var digits := "0123456789abcdef";
    if 48 <= b <= 57 {
      assert digits[b - 48] == b as char;
    } else if 97 <= b <= 102 {
      assert digits[b - 87] == b as char;
    }
  }

  /** A claim hash is 64 lower-case hexadecimal digits. */
  lemma HexDigestMeaning(hash: Text)
    ensures HexDigest(hash) <==> |hash| == 64 && forall b :: b in hash ==> b as char in "0123456789abcdef"
  {
    forall b | b in hash ensures LowerHex(b) <==> b as char in "0123456789abcdef" {
      LowerHexDigit(b);
    }
  }

  /** Printed networks read back as themselves and are short; digests are hexadecimal. */
  ghost predicate Sane(env: Env) {
    && (forall n: Network :: env.parse(env.show(n)) == Some(n))
    && (forall n: Network :: |env.show(n)| <= MAX_PREFIX_LEN)
    && (forall epoch, sender, entries :: HexDigest(env.digest(epoch, sender, entries)))
  }

  // ---------------------------------------------------------------- such an environment exists

  /** The `k` low base-256 digits of `x`, least first. */
  function Digits(x: nat, k: nat): (r: Text)
    ensures |r| == k
  {
    if k == 0 then [] else [x % 256] + Digits(x / 256, k - 1)
  }

  lemma DigitsTail(x: nat, y: nat, k: nat)
    requires k > 0 && Digits(x, k) == Digits(y, k)
    ensures x % 256 == y % 256 && Digits(x / 256, k - 1) == Digits(y / 256, k - 1)
  {
    assert Digits(x, k)[0] == x % 256 && Digits(x, k)[1..] == Digits(x / 256, k - 1);
    assert Digits(y, k)[0] == y % 256 && Digits(y, k)[1..] == Digits(y / 256, k - 1);
  }

  lemma ByteLess(x: nat, k: nat)
    requires k > 0 && x < Pow2(8 * k)
    ensures x / 256 < Pow2(8 * (k - 1))
  {
    assert Pow2(8) == 256;
    Pow2Add(8, 8 * (k - 1));
  }

  lemma {:induction false} DigitsInjective(x: nat, y: nat, k: nat)
    requires x < Pow2(8 * k) && y < Pow2(8 * k) && Digits(x, k) == Digits(y, k)
    ensures x == y
  {
    if k > 0 {
      DigitsTail(x, y, k);
      ByteLess(x, k);
      ByteLess(y, k);
      DigitsInjective(x / 256, y / 256, k - 1);
    }
  }

  /** A short injective text for networks: family, length, sixteen address bytes. */
  function Coded(n: Network): (r: Text)
    ensures |r| == 18
  {
    [if n.V4? then 4 else 6, n.len] + Digits(n.addr, 16)
  }

  lemma AddressBound(n: Network)
    ensures n.addr < Pow2(128)
  {
    Pow2Monotone(32, 128);
  }

  lemma CodedInjective(m: Network, n: Network)
    requires Coded(m) == Coded(n)
    ensures m == n
  {
    assert Coded(m)[0] == Coded(n)[0] && Coded(m)[1] == Coded(n)[1];
    assert Coded(m)[2..] == Digits(m.addr, 16) && Coded(n)[2..] == Digits(n.addr, 16);
    AddressBound(m);
    AddressBound(n);
    DigitsInjective(m.addr, n.addr, 16);
  }

  ghost function Uncoded(t: Text): Option<Network> {
    if exists n: Network :: Coded(n) == t then
      var n: Network :| Coded(n) == t;
      Some(n)
    else None
  }

  /** What is asked of the libraries can be met. */
  lemma SaneExists()
    ensures exists env :: Sane(env)
  {
    var hash: Text := seq(CLAIM_HASH_LEN, i => 48);
    var env := Env(t => Uncoded(t), n => Coded(n), t => None, (epoch, sender, entries) => hash, data => None);
    forall n: Network ensures env.parse(env.show(n)) == Some(n) {
      var m := Uncoded(Coded(n)).value;
      CodedInjective(m, n);
    }
    assert Sane(env);
  }

  // ---------------------------------------------------------------- gate 1: shape

  function ShapeViolation(limits: Limits, c: Claim): Option<Reason> {
    if |c.sender| > limits.maxSenderIdLen then Some(InvalidSenderId)
    else if !HexDigest(c.hash) then Some(MalformedClaimHash)
    else if |c.entries| < limits.minEntries then Some(EmptyClaim)
    else if |c.entries| > limits.maxEntries then Some(TooManyEntries)
    else if c.epoch > limits.maxEpoch then Some(EpochOutOfRange)
    else None
  }

  // ---------------------------------------------------------------- gate 6: entries

  /** A vote: a canonical prefix text and an ASN. */
  datatype Key = Key(prefix: Text, asn: nat)

  function CanonicalPrefix(env: Env, text: Text): Option<Network> {
    var n :- env.parse(text);
    Some(Canonicalized(n))
  }

  /** What one entry votes for, or why it is refused. */
  function EntryKey(env: Env, e: ClaimEntry): Result<Key, Reason> {
    if e.asn == 0 then Failure(UnassignedAsn)
    else if e.asn < ASN_MIN || e.asn > ASN_MAX then Failure(AsnOutOfRange)
    else if |e.prefix| > MAX_PREFIX_LEN then Failure(InvalidPrefix)
    else
      var parsed := CanonicalPrefix(env, e.prefix);
      if parsed.None? then Failure(InvalidPrefix)
      else if parsed.value.len == 0 then Failure(DefaultRoutePrefix)
      else if TouchesMapped(parsed.value) then Failure(Ipv4MappedPrefix)
      else Success(Key(env.show(parsed.value), e.asn))
  }

  /** One more vote of the same claim: repeats collapse, contradictions refuse the claim. */
  function AddKey(keys: seq<Key>, key: Key): Result<seq<Key>, Reason> {
    if key in keys then Success(keys)
    else if exists k <- keys :: k.prefix == key.prefix then Failure(ConflictingEntry)
    else Success(keys + [key])
  }

  /** The votes with those of one more entry. */
  function Extended(env: Env, keys: seq<Key>, e: ClaimEntry): Result<seq<Key>, Reason> {
    match EntryKey(env, e)
    case Failure(r) => Failure(r)
    case Success(key) => AddKey(keys, key)
  }

  /** The votes of a claim, entry by entry; the first bad entry decides the reason. */
  function VoteKeys(env: Env, es: seq<ClaimEntry>): Result<seq<Key>, Reason> {
    if es == [] then Success([])
    else
      match VoteKeys(env, es[..|es| - 1])
      case Failure(r) => Failure(r)
      case Success(keys) => Extended(env, keys, es[|es| - 1])
  }

  /** The record of prefixes holds exactly the votes collected. */
  ghost predicate Tracks(seen: map<Text, nat>, keys: seq<Key>) {
    && (forall k :: k in keys ==> k.prefix in seen && seen[k.prefix] == k.asn)
    && (forall p :: p in seen ==> Key(p, seen[p]) in keys)
  }

  /** Looking a prefix up in the record decides what adding the vote does. */
  lemma TrackedAdd(seen: map<Text, nat>, keys: seq<Key>, k: Key)
    requires Tracks(seen, keys)
    ensures k.prefix in seen && seen[k.prefix] == k.asn ==> AddKey(keys, k) == Success(keys)
    ensures k.prefix in seen && seen[k.prefix] != k.asn ==> AddKey(keys, k) == Failure(ConflictingEntry)
    ensures k.prefix !in seen ==> AddKey(keys, k) == Success(keys + [k]) && Tracks(seen[k.prefix := k.asn], keys + [k])
  {
    if k.prefix in seen {
      assert Key(k.prefix, seen[k.prefix]) in keys;
    }
  }

  lemma NextEntry(env: Env, es: seq<ClaimEntry>, i: nat, keys: seq<Key>)
    requires i < |es| && VoteKeys(env, es[..i]) == Success(keys)
    ensures VoteKeys(env, es[..i + 1]) == Extended(env, keys, es[i])
    ensures Extended(env, keys, es[i]).Failure? ==> VoteKeys(env, es) == Extended(env, keys, es[i])
  {
    assert es[..i + 1][..i] == es[..i];
    FailureStays(env, es, i + 1);
  }

  /** The gate's loop, with its record of the prefixes met so far. */
  method ValidatedVoteKeys(env: Env, es: seq<ClaimEntry>) returns (r: Result<seq<Key>, Reason>)
    ensures r == VoteKeys(env, es)
  {
    var keys: seq<Key> := [];
    var seen: map<Text, nat> := map[];
    var i := 0;
    while i < |es|
      invariant 0 <= i <= |es|
      invariant VoteKeys(env, es[..i]) == Success(keys)
      invariant Tracks(seen, keys)
    {
      NextEntry(env, es, i, keys);
      var key := EntryKey(env, es[i]);
      if key.Failure? {
        return Failure(key.error);
      }
      var k := key.value;
      TrackedAdd(seen, keys, k);
      if k.prefix in seen {
        if seen[k.prefix] != k.asn {
          return Failure(ConflictingEntry);
        }
      } else {
        keys := keys + [k];
      }
      seen := seen[k.prefix := k.asn];
      i := i + 1;
    }
    assert es[..i] == es;
    return Success(keys);
  }

  /** Once refused, always refused, and for the first reason. */
  lemma {:induction false} FailureStays(env: Env, es: seq<ClaimEntry>, n: nat)
    requires n <= |es|
    ensures VoteKeys(env, es[..n]).Failure? ==> VoteKeys(env, es) == VoteKeys(env, es[..n])
    decreases |es|
  {
    if n == |es| {
      assert es[..n] == es;
    } else {
      var front := es[..|es| - 1];
      assert front[..n] == es[..n];
      FailureStays(env, front, n);
    }
  }

  /** The claim has an entry for this very vote. */
  ghost predicate Asserts(env: Env, es: seq<ClaimEntry>, key: Key) {
    exists e :: e in es && EntryKey(env, e) == Success(key)
  }

  predicate SamePrefix(a: Result<Key, Reason>, b: Result<Key, Reason>) {
    a.Success? && b.Success? && a.value.prefix == b.value.prefix
  }

  /** Every entry is in its domain, and no network is given two ASNs. */
  ghost predicate Admissible(env: Env, es: seq<ClaimEntry>) {
    && (forall e :: e in es ==> EntryKey(env, e).Success?)
    && (forall e, f :: e in es && f in es && SamePrefix(EntryKey(env, e), EntryKey(env, f)) ==> e.asn == f.asn)
  }

  /** One vote per network. */
  ghost predicate OnePerPrefix(keys: seq<Key>) {
    forall i, j :: 0 <= i < j < |keys| ==> keys[i].prefix != keys[j].prefix
  }

  lemma KeyAsn(env: Env, e: ClaimEntry)
    ensures EntryKey(env, e).Success? ==> EntryKey(env, e).value.asn == e.asn
  {
  }

  /** The gate passes exactly the admissible claims, and yields each asserted vote once. */
  lemma {:induction false} VoteKeysMeaning(env: Env, es: seq<ClaimEntry>)
    ensures VoteKeys(env, es).Success? <==> Admissible(env, es)
    ensures VoteKeys(env, es).Success? ==> var keys := VoteKeys(env, es).value;
      OnePerPrefix(keys) && forall k :: k in keys <==> Asserts(env, es, k)
  {
    if es != [] {
      var front, last := es[..|es| - 1], es[|es| - 1];
      VoteKeysMeaning(env, front);
      assert es == front + [last];
      assert forall e :: e in es <==> e in front || e == last;
      if VoteKeys(env, front).Success? && EntryKey(env, last).Success? {
        AddKeyMeaning(env, front, last, VoteKeys(env, front).value);
      } else {
        assert !Admissible(env, es) by {
          if Admissible(env, es) {
            assert Admissible(env, front);
          }
        }
      }
    }
  }

  lemma AddKeyMeaning(env: Env, front: seq<ClaimEntry>, last: ClaimEntry, keys: seq<Key>)
    requires Admissible(env, front) && EntryKey(env, last).Success?
    requires OnePerPrefix(keys) && forall k :: k in keys <==> Asserts(env, front, k)
    ensures var r := AddKey(keys, EntryKey(env, last).value);
      && (r.Success? <==> Admissible(env, front + [last]))
      && (r.Success? ==> OnePerPrefix(r.value) && forall k :: k in r.value <==> Asserts(env, front + [last], k))
  {
    var key := EntryKey(env, last).value;
    var es := front + [last];
    var r := AddKey(keys, key);
    assert forall e :: e in es <==> e in front || e == last;
    if r.Failure? {
      var k :| k in keys && k.prefix == key.prefix;
      assert Asserts(env, front, k);
      var e :| e in front && EntryKey(env, e) == Success(k);
      KeyAsn(env, e);
      KeyAsn(env, last);
      assert e in es && last in es && e.asn != last.asn;
    } else {
      forall k ensures k in r.value <==> Asserts(env, es, k) {
        assert Asserts(env, es, k) <==> Asserts(env, front, k) || k == key;
      }
      forall e | e in front && EntryKey(env, e).value.prefix == key.prefix ensures e.asn == last.asn {
        KeyAsn(env, e);
        KeyAsn(env, last);
        assert Asserts(env, front, EntryKey(env, e).value);
      }
    }
  }

  // ---------------------------------------------------------------- what a vote key denotes

  /**
   * Every admitted vote names a canonical network outside the mapped text, reads back as
   * it, and gives the entry's own ASN to exactly the range the entry named.
   */
  lemma KeyNetwork(env: Env, e: ClaimEntry)
    requires Sane(env) && EntryKey(env, e).Success?
    ensures var key := EntryKey(env, e).value;
      && key.asn == e.asn && key.asn > 0 && key.asn <= ASN_MAX
      && VoteNetwork(env, key.prefix)
      && env.parse(e.prefix).Some? && SameRange(env.parse(key.prefix).value, env.parse(e.prefix).value)
  {
    var n := CanonicalPrefix(env, e.prefix).value;
    CanonicalMeaning(env.parse(e.prefix).value);
    CanonicalSamePath(env.parse(e.prefix).value);
    assert env.parse(env.show(n)) == Some(n);
    CanonicalizedTwice(env.parse(e.prefix).value);
  }

  /** Networks of one family that cover the same addresses. */
  predicate SameRange(m: Network, n: Network) {
    m.V4? == n.V4? && m.len == n.len && IpToBits(m) == IpToBits(n)
  }

  /** The text of a canonical network that shares no address with IPv4 unless it is IPv4. */
  ghost predicate VoteNetwork(env: Env, text: Text) {
    var n := env.parse(text);
    && n.Some? && IsCanonical(n.value) && env.show(n.value) == text
    && n.value.len > 0 && !TouchesMapped(n.value)
  }

  /** Different votes have different paths, so the order in which they are applied cannot matter. */
  lemma VotePathsSeparate(env: Env, a: Text, b: Text)
    requires VoteNetwork(env, a) && VoteNetwork(env, b)
    requires IpToBits(env.parse(a).value) == IpToBits(env.parse(b).value)
    ensures a == b
  {
    var m, n := env.parse(a).value, env.parse(b).value;
    NotMappedText(m);
    NotMappedText(n);
    PathsSeparateNetworks(m, n);
  }

  lemma NotMappedText(n: Network)
    requires n.len > 0 && !TouchesMapped(n)
    ensures !MappedText(n)
  {
    if n.V6? && n.len == 96 {
      assert MAPPED / 0x1_0000_0000 == 0xffff;
      Sizes();
    }
  }
}
