# ASMap codec and quorum engine: a Dafny model

This project models the two linked components of the repository and proves
what they promise.

The **codec** keeps a map from address prefixes to AS numbers as a canonical
binary trie. It compiles the trie to a small instruction program by dynamic
programming over *contexts* (the ASN a range is already known to map to),
writes the program in a variable-length integer code, packs it into bytes, and
reads it back. A second program over the same contexts yields the shortest list
of overlapping prefix assignments.

The **quorum engine** receives claims (lists of prefix assignments made by a
sender for an epoch), passes each through nine gates, tallies one vote per
sender and network, and finalizes the winners into a consensus map and report.

## Files

| file | contents |
|---|---|
| `Prelude.dfy` | options, powers of two, sorting and orders, byte texts, counting maps |
| `VarLenCoder.dfy` | the variable-length integer code (module `Coders`) |
| `Tries.dfy` | tries, canonical form, lookup, assignment, `extends` |
| `Entries.dfy` | lists of assignments, bulk update, longest-prefix match, order independence |
| `FlatEntries.dfy`, `MinimalEntries.dfy` | the two entry lists; optimality of the minimal one |
| `Contexts.dfy` | the dynamic program over contexts, shared by both compilers |
| `BinNodes.dfy`, `Compile.dfy` | instructions, smart constructors, meaning, the compiler |
| `Programs.dfy` | the shape of compiled programs: fused MATCHes, one path, one ASN |
| `Wire.dfy` | bits and bytes, encoder, decoder, the round-trip theorem |
| `Files.dfy` | exactly which byte strings are accepted, and the place of every bit |
| `Diffs.dfy`, `ASMap.dfy` | differences as patches; the map object |
| `Networks.dfy` | networks and bit paths as 128-bit arithmetic |
| `Claims.dfy`, `Engine.dfy` | gates on one claim; the engine as a state machine, over whole runs |
| `Histories.dfy`, `Verdicts.dfy` | votes as exact history; reasons and log bounds |
| `Consensus.dfy`, `Quorum.dfy` | election, report and map; the engine object and its loops |
| `Unanimity.dfy` | from a map to claims and back to the same map |
| `Sampling.dfy`, `Bottleneck.dfy` | unbiased draws and random maps; common AS-path tails |

## How the two parts are written

Code that computes a value is a function. Code that changes things step by step
is a method or a class (`ASMap`, `QuorumEngine`) whose postconditions tie it to
a function; the theorems are then lemmas about that function. Hash maps are
walked with an arbitrary choice of the next key, so a postcondition of such a
method holds for every iteration order.

One dynamic program serves both compilers: `Contexts` is written over an
algebra of descriptions (how to describe nothing, a leaf, two halves, a cover,
and how large a description is). `Compile` instantiates it with programs and
`MinimalEntries` with entry lists.

Library facts enter the engine as one value, `Claims.Env`: reading and printing
networks, reading peer identities, the claim digest and payload decoding. Where
a theorem needs them, `Claims.Sane` states what is relied on: a printed network
reads back as itself and is at most 49 bytes long, and a digest is 64 lower-case
hexadecimal characters. `Claims.SaneExists` shows that some environment does.

## Properties that hold under a condition

* **Binary round trip.** `to_binary` casts a program size to 32 bits before
  handing it to the jump coder, and asserts on every argument. `Wire.RoundTripIff`
  gives the exact condition: all ASNs at most 33,521,664 and every jump distance
  of the compiled program at most 2,147,483,632. `Wire.SmallMapsRoundTrip`
  discharges the second half for up to sixteen million leaves, and
  `Wire.AlternatingFails` gives canonical maps of ASNs 1 and 2 alone that fail it.
* **A rejected claim changes nothing.** This is what docs/CLAIM-VALIDATION.md
  section 4.3 promises of the gates. `Engine.RefusalMovesCoreIff` shows that it
  fails exactly when the sender cap is zero and a claim that passed gates 1 to 6
  names a later epoch; the constructor keeps the cap at one or more.
* **Network text round trip.** `Networks.NetworkRoundTripIff`: converting a
  network to bits and back is the identity exactly for canonical networks that
  are not IPv6 text at or below `::ffff:0:0/96`.
* **An honest claim is accepted.** `Unanimity.HonestClaimIff`: exactly when the
  map's ASNs are encodable and it does not answer for the whole IPv4 range at once.
* The comment on `process_claim` calls gate 2 a tautology on that path. The
  model keeps the comparison: it passes when the sender text is the one its
  peer identity prints as.

## Model

| member | source | states |
|---|---|---|
| Coders.VarLenCoder.New | crates/asmap-codec/src/coder.rs:40-52 | the largest encodable value is `minval` plus the number of integers in all classes minus one, for any class table that does not overflow |
| Coders.VarLenCoder.EncodeSize | crates/asmap-codec/src/coder.rs:58-73 | the counting loop reports the length specified by the class walk, including the wrapped difference below `minval` |
| Coders.VarLenCoder.Encode | crates/asmap-codec/src/coder.rs:75-94 | the emitting loops append exactly the codeword |
| Coders.VarLenCoder.Decode | crates/asmap-codec/src/coder.rs:96-117 | the reading loops compute the specified reading, or fail where the stream ends |
| Coders.ReadUndoesCodeword | crates/asmap-codec/src/coder.rs:75-117 | decoding undoes encoding at any offset of any stream, for every non-empty class table |
| Coders.CodewordUndoesRead | crates/asmap-codec/src/coder.rs:75-117 | a decoded value is one of the classes' integers and re-encodes to exactly the bits read |
| Coders.ReadIsTotal | crates/asmap-codec/src/coder.rs:96-117 | the code is complete: any sufficiently long bits decode |
| Coders.CodewordLength | crates/asmap-codec/src/coder.rs:58-94 | the reported size is the length of the emitted bits |
| BinNodes.CodersValid | crates/asmap-codec/src/coder.rs:220-230 | the four tables end at 3, 33,521,664, 511 and 2,147,483,632 |
| BinNodes.AsnCode | crates/asmap-codec/src/coder.rs:221-222 | the bits and the size of an ASN in closed form: with n the bit length of the ASN plus 32767, n - 16 ones, a zero below 25 bits, then the n - 1 bits below the leading one |
| BinNodes.MatchCode | crates/asmap-codec/src/coder.rs:223 | the same for a MATCH argument: n bits to compare take 2n bits, and eight take 15 |
| BinNodes.JumpCode | crates/asmap-codec/src/coder.rs:224-230 | the same for a jump distance, by the bit length of the distance plus 15 |
| BinNodes.SmallestProgram | crates/asmap-codec/src/coder.rs:143-207 | no program without End is smaller than 17 bits, where the jump coder starts |
| BinNodes.FusedPattern | crates/asmap-codec/src/coder.rs:154-169 | a MATCH that absorbs one more bit keeps its argument within 2..511 |
| BinNodes.BranchNodeMeaning | crates/asmap-codec/src/coder.rs:150-178 | the branch constructor, with its MATCH fusion, means the merged pair of its sides under every default |
| BinNodes.DefaultNodeMeaning | crates/asmap-codec/src/coder.rs:180-197 | the default constructor means its program under the new default |
| BinNodes.BranchNodeBuilt | crates/asmap-codec/src/coder.rs:150-178 | End survives a branch only when both sides are End, and arguments stay in range |
| Programs.CompiledFused | crates/asmap-codec/src/coder.rs:150-178 | in every compiled program a MATCH below a MATCH compares its full eight bits: no comparison is left that would have fitted the next one |
| Programs.OnePathProgram | crates/asmap-codec/src/coder.rs:150-178 | a map that assigns one prefix of n bits compiles to exactly ceil(n / 8) MATCHes, full ones at the bottom, over one RETURN |
| Programs.FilledSoleAsn | crates/asmap-codec/src/trie.rs:338-433 | with fill a map that knows one ASN compiles to that one RETURN, however its ranges lie |
| Programs.KeptContextsPay | crates/asmap-codec/src/trie.rs:416-424 | in every table of programs an explicit context is kept only where it is strictly smaller than the description for any |
| BinNodes.InterpretIsEval | crates/asmap-codec/src/trie.rs:534-558 | interpreting a program without End always succeeds and gives its meaning |
| BinNodes.RunInterpret | crates/asmap-codec/src/trie.rs:535-558 | the recursion with its loop over MATCH bits computes the interpretation |
| Tries.AssignCanonical | crates/asmap-codec/src/trie.rs:52-84 | an assignment keeps the trie canonical |
| Tries.LookupAfterAssign | crates/asmap-codec/src/trie.rs:52-107 | an assignment answers at and below its prefix and leaves every path alone that is not strictly above it |
| Tries.AddressesDetermineTrie | crates/asmap-codec/src/trie.rs:22-27 | canonical tries that agree on every full address are equal |
| Tries.ExtendsMeaning | crates/asmap-codec/src/trie.rs:110-128 | `extends` holds exactly when every assigned address of the required map has the same answer |
| ASMaps.ASMap.Rewrite | crates/asmap-codec/src/trie.rs:53-81 | the splitting and merging walk down one prefix is the specified assignment |
| ASMaps.ASMap.Update | crates/asmap-codec/src/trie.rs:52-84 | the object's trie becomes the assigned one and stays canonical |
| ASMaps.ASMap.UpdateMulti | crates/asmap-codec/src/trie.rs:87-92 | sorted one-by-one updates give the bulk update |
| ASMaps.ASMap.Find | crates/asmap-codec/src/trie.rs:95-107 | the walking loop computes the lookup |
| ASMaps.ASMap.DiffTo | crates/asmap-codec/src/trie.rs:131-168 | the changes between the two maps, with absolute prefixes |
| ASMaps.ASMap.ToEntries | crates/asmap-codec/src/trie.rs:185-191 | the flat or the minimal list |
| ASMaps.ASMap.ToBytes | crates/asmap-codec/src/trie.rs:436-479 | the binary form, or nothing where an assertion of the encoder aborts |
| ASMaps.ASMap.Load | crates/asmap-codec/src/trie.rs:482-565 | a loaded map is the decoded one and canonical; undecodable bytes change nothing |
| Entries.ByLengthIsStableSort | crates/asmap-codec/src/trie.rs:88 | the order of application ascends in length, is a permutation, and keeps the order of equal lengths |
| Entries.UpdateIsLongestPrefixMatch | crates/asmap-codec/src/trie.rs:87-107 | bulk update is longest-prefix match, the last entry winning among equal prefixes, over what the map held before |
| Entries.OrderIrrelevant | crates/asmap-codec/src/trie.rs:87-92 | lists with the same entries and one ASN per prefix give the same map, in any order and with repeats |
| Entries.RebuildUnfold | crates/asmap-codec/src/trie.rs:87-92 | the rebuilt trie is the join of its halves rebuilt under the root entry's ASN |
| FlatEntries.Collect | crates/asmap-codec/src/trie.rs:195-224 | the push-and-pop recursion yields the flat list under its prefix and restores the prefix |
| FlatEntries.FlatIsDisjoint | crates/asmap-codec/src/trie.rs:194-227 | no two flat entries share an address |
| FlatEntries.FlatIsAssignedLeaves | crates/asmap-codec/src/trie.rs:194-227 | without fill the entries are exactly the assigned leaves |
| FlatEntries.FlatRebuilds | crates/asmap-codec/src/trie.rs:194-227 | rebuilding from the flat list gives the map, or with fill one that extends it |
| FlatEntries.FillNeverLengthensFlat | crates/asmap-codec/src/trie.rs:210-220 | filling never lengthens the flat list |
| FlatEntries.FilledIsOutermost | crates/asmap-codec/src/trie.rs:194-227 | with fill the entries are exactly the widest ranges that know one ASN and know it in both halves |
| FlatEntries.FilledKeptApart | crates/asmap-codec/src/trie.rs:210-220 | with fill two entries of one ASN are kept apart only by an entry of another ASN under the range they share |
| FlatEntries.FilledSoleEntry | crates/asmap-codec/src/trie.rs:210-220 | with fill one entry is left exactly when one ASN is assigned |
| FlatEntries.FlatInOrder | crates/asmap-codec/src/trie.rs:194-227 | the flat list ascends through the address space, with and without fill |
| Contexts.TabulateShaped | crates/asmap-codec/src/trie.rs:339-426 | a subtree with a hole has exactly the context Some(0); any other has None and never Some(0) |
| Contexts.BestFound | crates/asmap-codec/src/trie.rs:428-432 | the top level always finds a description, in exactly one of its two contexts |
| Contexts.StepProvenance | crates/asmap-codec/src/trie.rs:352-424 | every description in a table is built from the halves' or is a cover of one that is |
| Contexts.StepBest | crates/asmap-codec/src/trie.rs:352-424 | some description usable in a context is at most as large as any join of usable halves |
| Contexts.FirstJoinWins | crates/asmap-codec/src/trie.rs:357-398 | of equally large joins the one of both halves in the context wins, then the left half for any context, then the right |
| Contexts.SmallestDefaultWins | crates/asmap-codec/src/trie.rs:400-415 | a default replaces the description for any context only when strictly smaller, and of equally small ones the smallest ASN wins |
| Contexts.JoinTables | crates/asmap-codec/src/trie.rs:357-398 | the candidate loop computes the joined table whatever the order of the contexts |
| Contexts.CoverTable | crates/asmap-codec/src/trie.rs:400-415 | the default loop computes the best cover |
| Contexts.Combine | crates/asmap-codec/src/trie.rs:352-424 | one step of the dynamic program, with pruning and the hole restriction |
| Compile.TableDenotes | crates/asmap-codec/src/trie.rs:339-426 | in every table the program for Some(k) means the subtree under default k, and the one for None under every default |
| Compile.CompiledMeaning | crates/asmap-codec/src/trie.rs:338-433 | the compiled program means the map, or with fill a map that extends it |
| Compile.DefaultsAreAssigned | crates/asmap-codec/src/trie.rs:400-415 | every explicit context of the joined table of a hole-free branch, which is what the default constructor is handed before pruning, is an assigned ASN, so the coder's subtraction cannot underflow |
| Compile.CompiledSize | crates/asmap-codec/src/trie.rs:338-433 | a program takes at most 134 bits per leaf |
| Compile.CompileTrie | crates/asmap-codec/src/trie.rs:338-433 | the recursion over local maps yields the specified program |
| MinimalEntries.MinimalRebuilds | crates/asmap-codec/src/trie.rs:236-336 | the minimal list rebuilds the map, or with fill one that extends it; its ASNs are positive and no prefix repeats |
| MinimalEntries.MinimalIsShortest | crates/asmap-codec/src/trie.rs:236-336 | no list of assigned entries that rebuilds the map (with fill, a map extending it) is shorter |
| MinimalEntries.MinimalNeverLonger | crates/asmap-codec/src/trie.rs:170-191 | overlapping never lengthens the list and filling never lengthens the minimal one |
| MinimalEntries.MinimalInPreorder | crates/asmap-codec/src/trie.rs:236-336 | the minimal list names a range before what lies inside it and otherwise ascends |
| MinimalEntries.CollectMinimal | crates/asmap-codec/src/trie.rs:262-336 | the recursion with its mutable prefix yields the minimal list |
| Wire.ExactSize | crates/asmap-codec/src/trie.rs:437-462 | with fitting jumps the recorded size is the encoding's length, bit for bit |
| Wire.RunEncode | crates/asmap-codec/src/trie.rs:437-456 | the encoder appends the specified bits, or stops where an assertion fails |
| Wire.RunPack | crates/asmap-codec/src/trie.rs:463-477 | the accumulator loop packs bits low bit first |
| Wire.RunUnpack | crates/asmap-codec/src/trie.rs:483-488 | the double loop unpacks bytes low bit first |
| Wire.UnpackUndoesPack | crates/asmap-codec/src/trie.rs:463-488 | unpacking undoes packing up to fewer than eight zero bits |
| Files.UnpackAt | crates/asmap-codec/src/trie.rs:483-488 | bit i of byte k is bit 8k + i of the stream |
| Files.OpcodeBits | crates/asmap-codec/src/coder.rs:220 | RETURN is 0, JUMP 10, MATCH 110 and DEFAULT 111 |
| Wire.RunDecode | crates/asmap-codec/src/trie.rs:490-519 | the recursive reader with its jump check computes the specified decoding |
| Wire.EncodingLaid | crates/asmap-codec/src/trie.rs:437-456 | wherever a program's bits stand in a stream its fields read back one after the other |
| Wire.DecodeLaid | crates/asmap-codec/src/trie.rs:490-519 | at any offset the decoder returns the program and stops at its end when every jump fits, and refuses otherwise |
| Wire.DecodedSound | crates/asmap-codec/src/trie.rs:490-519 | whatever bits are read, the program that comes out is well formed with encodable ASNs |
| Wire.BoundedEncodable | crates/asmap-codec/src/coder.rs:75-76 | of a well-formed program with fitting jumps only an ASN out of range can trip an assertion of the encoder |
| Wire.CompiledBounded | crates/asmap-codec/src/trie.rs:338-433 | a compiled program carries no ASN larger than the map's |
| Wire.RoundTripIff | crates/asmap-codec/src/trie.rs:435-565 | writing and reading gives the map back (with fill, an extension) exactly when ASNs are encodable and jumps fit |
| Wire.OversizeAsnFails | crates/asmap-codec/src/coder.rs:75-76 | the map of one leaf with the first ASN out of range cannot be written |
| Wire.WideMapFails | crates/asmap-codec/src/trie.rs:435-456 | a map branching on both sides whose left half has over twice as many leaves as the largest jump cannot be written, whatever its ASNs |
| Wire.AlternatingFails | crates/asmap-codec/src/trie.rs:435-456 | from 33 bits on the canonical map that alternates ASNs 1 and 2 is one such map |
| Wire.SmallMapsRoundTrip | crates/asmap-codec/src/trie.rs:435-565 | up to sixteen million leaves encodable ASNs are all that is needed |
| Wire.DecodedMapsReencode | crates/asmap-codec/src/trie.rs:481-565 | bytes that decode give a canonical map of encodable ASNs, which re-encodes exactly when its own jumps fit |
| Files.AcceptedFiles | crates/asmap-codec/src/trie.rs:482-565 | the bytes accepted for a map are exactly the empty file for the empty map and the packed bits, zeros up to the byte, of programs that mean it and whose jumps name the true length of what they skip |
| Files.NoFileContinuesAnother | crates/asmap-codec/src/trie.rs:521-532 | no accepted file but the empty one is a proper prefix of another |
| Files.ProgramDeterminesFile | crates/asmap-codec/src/trie.rs:521-532 | an accepted file that starts with the bits of a program is the file of that program |
| Files.ReadIsSpelled | crates/asmap-codec/src/trie.rs:490-519 | whatever the reader makes of a stream is spelled between the two positions: it reads all of the program and nothing past it |
| Wire.Serialize | crates/asmap-codec/src/trie.rs:436-479 | compiling, encoding and packing give the binary form |
| Wire.Deserialize | crates/asmap-codec/src/trie.rs:482-565 | unpacking, reading, the padding checks and interpretation give the decoded map |
| ASMaps.EntriesRoundTrip | crates/asmap-codec/src/trie.rs:170-191 | all four entry lists rebuild the map (with fill, an extension), with positive ASNs and distinct prefixes |
| ASMaps.FormsAgree | crates/asmap-codec/src/trie.rs:170-191 | the binary form and any reordering of either exact list rebuild the same map |
| Diffs.RunDiff | crates/asmap-codec/src/trie.rs:132-163 | the push-and-pop recursion appends the changes under its prefix and restores the prefix |
| Diffs.ChangeIsReal | crates/asmap-codec/src/trie.rs:131-168 | a change names a range where the maps answer with its old and new ASN, which differ |
| Diffs.EveryDifferenceListed | crates/asmap-codec/src/trie.rs:131-168 | every path on which the maps differ lies in a change |
| Diffs.ChangesDisjoint | crates/asmap-codec/src/trie.rs:131-168 | changes do not overlap |
| Diffs.DiffInOrder | crates/asmap-codec/src/trie.rs:131-168 | changes ascend through the address space |
| Diffs.DiffPatches | crates/asmap-codec/src/trie.rs:131-168 | applying the changes in any order turns the first map into the second |
| Diffs.DiffUpdates | crates/asmap-codec/src/trie.rs:87-168 | so does the bulk update |
| Diffs.DiffEmptyIffEqual | crates/asmap-codec/src/trie.rs:131-168 | there are no changes exactly between equal maps |
| Diffs.ExtendsIffUnassigns | crates/asmap-codec/src/trie.rs:109-168 | a map extends another exactly when every change to the other unassigns |
| Networks.TrailingZerosMeaning | crates/asmap-codec/src/net.rs:49-63 | counting trailing zeros decides divisibility, with zero and /0 no special case |
| Networks.CanonicalMeaning | crates/bitcoin-asmap-quorum/src/lib.rs:2290-2304 | a network is canonical exactly when masking leaves it alone, and masking always makes it so |
| Networks.PathRoundTrip | crates/asmap-codec/src/net.rs:72-104 | every path of at most 128 bits is the path of the network it is written as |
| Networks.NetworkRoundTripIff | crates/asmap-codec/src/net.rs:72-104 | converting to bits and back is the identity exactly for canonical networks outside the mapped IPv6 text |
| Networks.CanonicalSamePath | crates/asmap-codec/src/net.rs:64-87 | host bits never reach the path |
| Networks.PathsSeparateNetworks | crates/asmap-codec/src/net.rs:72-87 | canonical networks outside the mapped text with equal paths are equal |
| Networks.TouchesMappedMeaning | crates/bitcoin-asmap-quorum/src/lib.rs:1176-1202 | apart from ::/0 the shifted comparison finds exactly the IPv6 networks that share an address with ::ffff:0:0/96 |
| Networks.V4Inside | crates/asmap-codec/src/net.rs:77-83 | every IPv4 path is at or below the mapped range |
| Claims.HexDigestMeaning | crates/bitcoin-asmap-quorum/src/lib.rs:1113-1119 | a claim hash is exactly 64 lower-case hexadecimal digits |
| Claims.SaneExists | crates/bitcoin-asmap-quorum/src/lib.rs:384-395 | what is relied on of printing, reading and digests can be met together |
| Claims.ValidatedVoteKeys | crates/bitcoin-asmap-quorum/src/lib.rs:1140-1218 | the loop with its record of prefixes yields the votes, or the first reason to refuse |
| Claims.VoteKeysMeaning | crates/bitcoin-asmap-quorum/src/lib.rs:1132-1218 | the entry gate passes exactly claims of good entries that give no network two ASNs, and yields each vote once |
| Claims.KeyNetwork | crates/bitcoin-asmap-quorum/src/lib.rs:1140-1218 | an admitted vote is the text of a canonical network outside the mapped IPv6 text, and gives the encodable ASN of its entry to exactly the range the entry named |
| Claims.VotePathsSeparate | crates/bitcoin-asmap-quorum/src/lib.rs:1173-1216 | different admitted votes have different bit paths |
| Verdicts.RefusalIsTrue | crates/bitcoin-asmap-quorum/src/lib.rs:1109-1378 | the reason reported for a refused claim is one that holds of it |
| Verdicts.AcceptedIff | crates/bitcoin-asmap-quorum/src/lib.rs:1261-1378 | a claim is accepted exactly when no reason to refuse it holds, whatever the order of the gates |
| Verdicts.RefusalIsFirst | crates/bitcoin-asmap-quorum/src/lib.rs:1261-1378 | of all the reasons that hold of a claim the one reported is that of the earliest gate |
| Verdicts.FirstBadEntry | crates/bitcoin-asmap-quorum/src/lib.rs:1140-1218 | the first entry that makes the list inadmissible decides, by the first of its own checks |
| Verdicts.InputRefusal | crates/bitcoin-asmap-quorum/src/lib.rs:1220-1378 | whatever arrives (payload, claim or operator record), the reason it is refused for holds of it and no reason that holds is checked earlier |
| Verdicts.InputAcceptedIff | crates/bitcoin-asmap-quorum/src/lib.rs:1220-1378 | whatever arrives is accepted exactly when no reason to refuse it holds, among them more than 65,536 bytes, an unreadable payload and a sender that is no peer identity |
| Verdicts.UndeliveredWrites | crates/bitcoin-asmap-quorum/src/lib.rs:1220-1250 | what is refused before it is a claim raises one counter and touches nothing else |
| Verdicts.RefusalWrites | crates/bitcoin-asmap-quorum/src/lib.rs:1063-1104 | a refusal raises exactly its own counter by one, and logs what was received only for an authenticated sender and below the cap |
| Verdicts.LogStaysBounded | crates/bitcoin-asmap-quorum/src/lib.rs:1063-1104 | over any run the log stays within its caps and holds only authenticated senders and bounded texts |
| Engine.RefusalMovesCoreIff | crates/bitcoin-asmap-quorum/src/lib.rs:1252-1378 | a refused input changes anything but the record of refusals exactly when the sender cap is zero and a later epoch was adopted |
| Engine.NonInterference | crates/bitcoin-asmap-quorum/src/lib.rs:1252-1395 | deleting any refused inputs of any run leaves epoch, limits, senders, votes, acceptances and accepted log lines unchanged |
| Histories.LedgerSurvives | crates/bitcoin-asmap-quorum/src/lib.rs:1252-1395 | deleting refused inputs leaves the same claims accepted since the reset, in the same order |
| Engine.InitialAnchored | crates/bitcoin-asmap-quorum/src/lib.rs:985-1008 | setting up only widens: the sender cap to the threshold and at least one, the ceiling up to the absolute maximum |
| Engine.ClaimMovesEpoch | crates/bitcoin-asmap-quorum/src/lib.rs:1298-1348 | a claim never touches the limits and raises the epoch by at most the skew, only when accepted and only within the ceiling |
| Engine.LocalMovesEpoch | crates/bitcoin-asmap-quorum/src/lib.rs:1030-1054 | a local change takes exactly the epoch it is given, clears everything recorded, raises the ceiling at most to the absolute maximum and touches no other limit |
| Engine.InitialLeavesRoom | crates/bitcoin-asmap-quorum/src/lib.rs:998-1008 | the ceiling of a new engine leaves room for a claim one skew ahead up to the absolute maximum, and is raised no further than that |
| Engine.LocalLeavesRoom | crates/bitcoin-asmap-quorum/src/lib.rs:1047-1054 | so does every local change of epoch |
| Engine.ClockLimits | crates/bitcoin-asmap-quorum/src/lib.rs:928-941 | the clock sets the ceiling to one skew past now, or to the absolute maximum where that is lower, and no other limit |
| Engine.CeilingBounds | crates/bitcoin-asmap-quorum/src/lib.rs:998-1054 | over any run the ceiling never falls, never passes the higher of its start and the absolute maximum, and covers the epoch up to that maximum |
| Engine.ClockCeiling | crates/bitcoin-asmap-quorum/src/lib.rs:928-941 | an engine set up from the clock never accepts an epoch past the absolute maximum |
| Engine.EpochBounds | crates/bitcoin-asmap-quorum/src/lib.rs:1298-1348 | without operator jumps the epoch never falls and rises by at most one per tick and the skew per accepted claim |
| Engine.TicksAdvance | crates/bitcoin-asmap-quorum/src/lib.rs:1831-1835 | without operator jumps a run moves the epoch at least one per tick, up to the last 64-bit epoch |
| Engine.TicksAlone | crates/bitcoin-asmap-quorum/src/lib.rs:1831-1835 | n ticks alone move the epoch by exactly n, up to the last 64-bit epoch |
| Engine.RunReconciles | crates/bitcoin-asmap-quorum/src/lib.rs:1056-1104 | since the last reset accepted plus refused equals inputs handled, and the log has one line per acceptance plus refusals up to the cap |
| Histories.VotesAreHistory | crates/bitcoin-asmap-quorum/src/lib.rs:1324-1395 | in every reachable state each vote count is the number of claims accepted since the reset that assert it, from distinct senders, for the current epoch |
| Histories.SameClaimsSameTally | crates/bitcoin-asmap-quorum/src/lib.rs:1355-1395 | engines that accepted the same claims in different orders hold the same senders and votes |
| Histories.NetworkVotesBounded | crates/bitcoin-asmap-quorum/src/lib.rs:1203-1216 | the votes of all ASNs for one network sum to at most the accepted claims |
| Histories.MajorityIsUnique | crates/bitcoin-asmap-quorum/src/lib.rs:1397-1411 | with a threshold above half the senders no network has two winners |
| Consensus.LeaderUnique | crates/bitcoin-asmap-quorum/src/lib.rs:1397-1411 | a network has at most one winner |
| Consensus.LeadsMeaning | crates/bitcoin-asmap-quorum/src/lib.rs:1397-1411 | the winner of a network reaches the threshold, no ASN there has more votes, and of those with as many it is the smallest |
| Consensus.LeaderIff | crates/bitcoin-asmap-quorum/src/lib.rs:1397-1411 | a network has a winner exactly when some ASN reaches the threshold |
| Consensus.SortedLines | crates/bitcoin-asmap-quorum/src/lib.rs:1440-1445 | sorting the winners in whatever order they were met gives one report |
| Consensus.ReportLineMeaning | crates/bitcoin-asmap-quorum/src/lib.rs:1397-1446 | a line is in the report exactly when it names such a winner with its votes |
| Consensus.ReportAscends | crates/bitcoin-asmap-quorum/src/lib.rs:1440-1445 | the report lists most votes first and equal votes in lexicographic order of the prefix text, and no network twice |
| Consensus.ParticipantsAscend | crates/bitcoin-asmap-quorum/src/lib.rs:1446-1447 | the participants are the senders, once each, in lexicographic order |
| Consensus.AnyOrderSameMap | crates/bitcoin-asmap-quorum/src/lib.rs:1413-1440 | in whatever order the winners are met they make the map of the sorted report |
| Consensus.ConsensusIsLongestWinner | crates/bitcoin-asmap-quorum/src/lib.rs:1397-1440 | every full address gets the ASN that won its most specific network, or stays unassigned |
| Consensus.ReachableConsensus | crates/bitcoin-asmap-quorum/src/lib.rs:1417-1421 | in every reachable state all vote keys parse back to canonical networks, so finalizing drops none |
| Consensus.ArrivalOrderIrrelevant | crates/bitcoin-asmap-quorum/src/lib.rs:1397-1460 | with one threshold they publish the same participants, report and map |
| Consensus.ConsensusNonInterference | crates/bitcoin-asmap-quorum/src/lib.rs:1397-1460 | deleting refused inputs changes neither the report nor the map |
| Consensus.ConsensusEncodes | crates/bitcoin-asmap-quorum/src/lib.rs:1149-1158 | an ASN in an accepted claim can never make the encoder abort on the consensus map |
| Quorum.QuorumEngine.WithLimits | crates/bitcoin-asmap-quorum/src/lib.rs:998-1019 | the initial state, with cap and ceiling widened |
| Quorum.QuorumEngine.New | crates/bitcoin-asmap-quorum/src/lib.rs:977-983 | the initial state with the clock-derived ceiling |
| Quorum.QuorumEngine.AdvanceEpoch | crates/bitcoin-asmap-quorum/src/lib.rs:1047-1054 | the local advance step |
| Quorum.QuorumEngine.EpochTimer | crates/bitcoin-asmap-quorum/src/lib.rs:1831-1835 | the timer step: the next epoch, until there is none |
| Quorum.QuorumEngine.RecordRefusal | crates/bitcoin-asmap-quorum/src/lib.rs:1077-1104 | one counter rises and one line is logged below the cap |
| Quorum.QuorumEngine.ProcessClaimFromPeer | crates/bitcoin-asmap-quorum/src/lib.rs:1261-1395 | the nine gates, and whether an accepted claim reaches the threshold |
| Quorum.QuorumEngine.ProcessClaim | crates/bitcoin-asmap-quorum/src/lib.rs:1238-1250 | the operator-file entry point |
| Quorum.QuorumEngine.FromGossip | crates/bitcoin-asmap-quorum/src/lib.rs:1734-1760 | a payload is counted when too large or unreadable and processed otherwise |
| Quorum.QuorumEngine.Elect | crates/bitcoin-asmap-quorum/src/lib.rs:1398-1411 | one pass over the votes in any order finds the best ASN of every network |
| Quorum.QuorumEngine.Finalize | crates/bitcoin-asmap-quorum/src/lib.rs:1397-1460 | for every iteration order the artifact holds the sorted senders, the sorted report and its map |
| Quorum.LoadReport | crates/bitcoin-asmap-quorum/src/lib.rs:727-751 | the loop rebuilds the map of a report, or refuses at a bad prefix |
| Quorum.ArtifactVerifies | crates/bitcoin-asmap-quorum/src/lib.rs:397-415 | rebuilding the map from the published entries gives the published map |
| Quorum.Replay | crates/bitcoin-asmap-quorum/src/lib.rs:2762-2809 | a claims file yields the artifact of the run over its claims, and is refused exactly when empty or started past the ceiling |
| Unanimity.ClaimReportsLeaves | crates/bitcoin-asmap-quorum/src/lib.rs:1463-1479 | the claim made from a map names every assigned leaf, printed, and nothing else |
| Unanimity.EntryGateIff | crates/bitcoin-asmap-quorum/src/lib.rs:1140-1218 | the entry gate accepts the claim of a map of depth at most 128 exactly when its ASNs are encodable and it does not answer for all of IPv4 at once |
| Unanimity.HonestClaimIff | crates/bitcoin-asmap-quorum/src/lib.rs:1463-1479 | all gates accept a new sender's claim for the current epoch exactly then |
| Unanimity.QuorumConsensus | crates/bitcoin-asmap-quorum/src/lib.rs:1397-1479 | when at least the threshold of accepted claims were made from one map and the others, whatever they say, are fewer, the consensus is that map |
| Unanimity.UnanimousConsensus | crates/bitcoin-asmap-quorum/src/lib.rs:1397-1479 | when every accepted claim of the epoch was made from one map, the consensus is that map at the threshold and empty below it |
| Unanimity.UnanimousRound | crates/bitcoin-asmap-quorum/src/lib.rs:1397-1479 | enough distinct senders submitting the claim of one map make the engine finalize exactly that map |
| Sampling.Below | crates/asmap-codec/src/testgen.rs:51-64 | the loop returns the first draw that the threshold admits, below the bound |
| Sampling.BelowIsUniform | crates/asmap-codec/src/testgen.rs:51-64 | every result has exactly as many admitted draws, the quotient of the word count by the bound |
| Sampling.RandomMap | crates/asmap-codec/src/testgen.rs:120-158 | the ranges are those the picks split off in turn, they partition the address space, and every range answers with its drawn ASN |
| Bottleneck.FindCommonSuffix | crates/bitcoin-asmap-quorum/src/lib.rs:2514-2536 | the nested loops compute the specified tail |
| Bottleneck.FindAll | crates/bitcoin-asmap-quorum/src/lib.rs:2510-2539 | every network with paths gets its tail, in any order |
| Bottleneck.CommonSuffixMeaning | crates/bitcoin-asmap-quorum/src/lib.rs:2514-2536 | the result is the longest common tail of the first shortest path and all paths of its origin |
| Bottleneck.CommonSuffixOrder | crates/bitcoin-asmap-quorum/src/lib.rs:2514-2536 | when all paths share their origin the result does not depend on their order |

## Left out

- The libp2p swarm, gossipsub, relays, timers as threads, nostr publishing and HTTP: input and output only. The timer's effect on the engine and the handling of one payload are modelled.
- SHA-256, hexadecimal text, JSON, peer identity text and the parsing and printing of addresses: parameters in `Claims.Env`.
- Text and binary file detection, command-line arguments, files, logging and error messages.
- MRT reading and downloads; only the common tail of AS paths is modelled.
- Size-optimality of the compiled program: fusing a MATCH makes size non-monotone in its parts, so the dynamic program does not give it. Optimality is proved for entry lists.
- `serde` on tries can build a non-canonical map; the codec's own operations cannot, and the theorems about maps are for canonical ones.
- A node's stored size is the function `BinNodes.Size` of the node, which is what every constructor stores; the bit operations that pack, mask and shift are written as the arithmetic they amount to (a disjoint OR is a sum, clearing low bits is division and multiplication).
- `usize` counters are unbounded naturals; `u64` epochs saturate as in the source, and the 32-bit cast of a size and the 32-bit wrap in `encode_size` are written out. ASNs are naturals, of which `u32` is a part.
- The standard library's stable sorts are modelled by insertion sorts with the same result.
- Quorum.QuorumEngine.Finalize: asks of the tally what `Consensus.ReachableConsensus` proves of every reachable one; the branch that drops an unparsable prefix is kept but never taken there.
- Quorum.Replay: the non-zero exit after writing an empty consensus is an exit status and not modelled.
- Coders.VarLenCoder.New: class tables whose total overflows 32 bits are excluded; the source's constants are evaluated at compile time, where that is an error.
- Sampling.Below: draws come from a finite list, so it may run out; the SplitMix64 generator itself is not modelled.
- Sampling.RandomMap: the drawn picks and ASNs are parameters; the floating-point probability that leaves a range unassigned is not modelled.
- `contrib/asmap/asmap.py` implements the same algorithms and is not modelled a second time.
- The nostr bundle, the reassignment statistics of `diff_addrs` and the address counts of `diff`.
