# Verified models of the BIND zone tools

Dafny models of the loops at the heart of BIND's zone signer, zone verifier, DNS64 reverse mapping,
masters-list expansion, transfer completion, server shuffle and CNAME chasing, with proofs of what those
loops are for. `dafny verify dfyconfig.toml` checks everything.

A name is the sequence of its labels from the root down, already lower-cased. The canonical order of
section 6.1 of RFC 4034 is then the lexicographic order, and "at or below" is "has as a prefix". A zone is
the strictly sorted sequence of nodes an iterator yields, each with its set of RRsets. Hash functions,
signature checks, key files, clocks and random numbers are parameters of the models, so every result holds
for all of them.

| file | models |
|---|---|
| Names, Sequences, Serials | names and their order; sequences without duplicates; 32-bit serial arithmetic |
| Zone, ZoneDb | nodes, delegations, occlusion, the chain of a zone, `active_node` and the other clean-ups |
| NsecChain | `nsecify` |
| HashList | the packed, growable `hashlist` and its searches |
| Nsec3Names, Nsec3Chain | which names `nsec3ify` hashes; both its walks |
| VerifyWalk | the main walk of `verifyzone`, and its agreement with `nsecify` |
| VerifyNsec3, ChainCheck | how the verifier collects expected and found NSEC3 records and compares them |
| Agreement | `nsec3ify` against the verifier, end to end |
| SignerTasks | `assignwork` and the worker tasks, over every interleaving |
| SignSet | `signset` and `keythatsigned` |
| SharedKeys | one `signset` call while other workers load keys |
| VerifySigs | `goodsig`, `verifyset`, `verifynode` and the algorithm tables |
| SignAndVerify | `signset` against `verifyset` |
| SignedZone | `signname`, and the whole way from the chain builders through the workers to the verifier |
| Dns64 | `dns64_cname` and `dns64_rdata` |
| Masters, MastersTargets | `ns_config_getipandkeylist`; where each target comes from |
| Transfer, Shuffle | `check_for_more_data`; the server shuffle of `followup_lookup` |
| CnameChase | `chase_cnamechain` |

## Main results

- The NSEC chain: `nsecify` leaves exactly the chain of section 2.3 of RFC 4035, and the verifier's different
  walk accepts every link of it (`NsecChain.Nsecify`, `VerifyWalk.NsecAgreement`).
- The NSEC3 chain: the names hashed are the chain names and the empty non-terminals above them, each once; no
  lookup of the second walk misses; the records form one cycle; and the verifier accepts the chain if and only
  if no name left out by opt-out hashes to the hash of a linked name (`Nsec3Names.HashNamesAreClosure`,
  `Nsec3Chain.Nsec3ify`, `HashList.SingleCycle`, `Agreement.Nsec3Agreement`).
- The comparison of chains is exact: multiset equality and closed rings, with every block freed once
  (`ChainCheck.VerifyNsec3Chains`).
- Every run of the worker tasks is finite and ends in exactly one shutdown, with every node written once
  (`SignerTasks.RunIsSafe`, `SignerTasks.EveryRunEnds`).
- The signatures after `signset` are known exactly, and so is when they satisfy the verifier
  (`SignSet.SignaturesAfter`, `SignSet.CurrentIff`, `SignAndVerify.SignedThenVerified`,
  `VerifySigs.VerifySignatures`).
- For whole zones, every RRset the verifier must check lies at a node that every finished run has signed, and a
  zone signed with a suitable key of an algorithm is fully signed with it (`SignedZone.EveryRRsetIsReached`,
  `SignedZone.ZoneIsFullySigned`).
- DNS64 reverse mapping inverts the embedding of RFC 6052 (`Dns64.ReverseMapping`, `Dns64.Dns64Cname`).
- Masters expansion ends on cyclic configurations and refines a recursive definition
  (`Masters.GetIpAndKeyList`, `Masters.ExpansionSucceeds`, `MastersTargets.TargetsAreEntries`).
- A transfer ends on its final record however it is cut into messages (`Transfer.ReceiveAll`,
  `Transfer.IncrementalEnds`).

## Where the code falls short of a plain promise

Each of these has a theorem with the exact condition and a lemma with a concrete input.

- An NSEC record at an out-of-zone node ahead of the origin survives `nsecify` and `nsec3ify`, and the verifier
  then stops fatally: `VerifyWalk.NsecAgreement`, `Agreement.Nsec3Agreement`; input in `VerifyWalk.StrayIsRefused`.
- With opt-out, the signer's duplicate test does not see the names it leaves out; if one of them has the hash of
  a linked name, the verifier rejects the zone: `Agreement.Nsec3Agreement`; input in `Agreement.CollisionIsHidden`.
- An incremental transfer whose history passes through the new serial is cut short:
  `Transfer.IncrementalEnds`; input in `Transfer.ShortCut`.
- A signature dated ahead counts as signed, so its key may be left without a signature that is valid now, and
  the verifier then misses the algorithm: `SignSet.CurrentIff`, `SignAndVerify.BlockedIsRejected`; input in
  `SignSet.DatedAheadBlocks`.
- The flag arrays of `signset` are sized before other workers may load keys, so its indices stay inside exactly
  when those workers load few enough: `SharedKeys.BoundsIff`; input in `SharedKeys.OneLoadTooMany`.
- A CNAME chain that revisits a name is left in the middle: `CnameChase.ChaseCnameChain`; input in
  `CnameChase.OwnTarget`.

## Model

| member | source | states |
|---|---|---|
| `Names.Common` | lib/dns/name.c:589-694 | the count is the longest common prefix: the names agree up to it and differ, or one ends, right there |
| `Names.SubtreeIsInterval` | bin/dnssec/dnssec-signzone.c:1813-1823 | the names at or below a name are an interval of the canonical order |
| `Zone.TopmostCut` | bin/dnssec/dnssec-signzone.c:1792-1826 | above an occluded name there is a delegation that is itself not occluded |
| `Zone.MostRecentCutSuffices` | bin/dnssec/dnssec-signzone.c:1792-1826 | the test against the last zone cut only says "occluded" if and only if some proper ancestor in the zone is a delegation |
| `Zone.CutStateStep` | bin/dnssec/dnssec-signzone.c:1792-1798 | how the remembered cut moves past any node and stays the last unoccluded delegation |
| `Zone.ActiveNode` | bin/dnssec/dnssec-signzone.c:1109-1217 | active if and only if the node has data besides NSEC and NSEC3, and the two passes leave exactly the RRsets of `AfterActive` |
| `Zone.CleaningKeepsRole` | bin/dnssec/dnssec-signzone.c:1590-1711 | no clean-up changes whether a node is active or a delegation |
| `Zone.InactiveIsEmptied` | bin/dnssec/dnssec-signzone.c:1140-1156 | an inactive node from the origin on ends up with no RRset, which is what the verifier calls empty |
| `Zone.ShapeFixesChain` | bin/dnssec/dnssec-signzone.c:1772-1838 | zones of the same shape have the same occluded names and the same chain |
| `NsecChain.FindNextNode` | bin/dnssec/dnssec-signzone.c:1800-1832 | the inner loop stops at the next chain member, leaves every skipped node cleaned and keeps the cut right |
| `NsecChain.PrepareNode` | bin/dnssec/dnssec-signzone.c:1788-1798 | the apex and delegation steps leave the node as the finished zone has it, or report the other chain |
| `NsecChain.SkipStep` | bin/dnssec/dnssec-signzone.c:1803-1826 | the inner loop's tests decide membership of the chain, and what it leaves at a skipped node is its final value |
| `NsecChain.RemoveNsec3s` | bin/dnssec/dnssec-signzone.c:1737-1764 | every node of the NSEC3 tree is emptied |
| `NsecChain.Nsecify` | bin/dnssec/dnssec-signzone.c:1716-1841 | the NSEC3 tree is emptied; refuses exactly when another chain is present; otherwise every chain member points at the next, the last at the origin, and every RRset and signature left at any node is accounted for, case by case |
| `NsecChain.NsecDoneLeaves` | bin/dnssec/dnssec-signzone.c:1590-1711 | which RRset stays at which node, said record by record without the clean-up steps |
| `NsecChain.DelegationsAfter` | bin/dnssec/dnssec-signzone.c:1590-1627 | a delegation ends with a DS if and only if one was loaded for it, or it had one and none are generated; only signatures over DS, and NSEC in an NSEC zone, survive there, and none at an occluded or out-of-zone node |
| `NsecChain.ConflictIff` | bin/dnssec/dnssec-signzone.c:1628-1672 | the refusal: data or signatures of the other chain at the apex, without leave to update |
| `VerifyWalk.NextVisit` | bin/dnssec/dnssectool.c:1704-1732 | finds the next node to visit, or a forbidden NSEC record before it |
| `VerifyWalk.Walk` | bin/dnssec/dnssectool.c:1684-1751 | fatal if and only if a forbidden NSEC record exists; otherwise visits exactly the unoccluded non-empty nodes in order, each with its successor |
| `VerifyWalk.NsecNodeAccepted` | bin/dnssec/dnssectool.c:587-649 | each node of a built zone is visited if and only if it is in the chain, and its NSEC names the expected successor |
| `VerifyWalk.NsecAgreement` | bin/dnssec/dnssectool.c:1684-1740 | for every zone run through `nsecify` both walks compute the same successors and all links are good; fatal if and only if a stray NSEC stood ahead of the origin |
| `VerifyWalk.StrayIsRefused` | bin/dnssec/dnssectool.c:1690-1699 | a zone with an NSEC at an earlier out-of-zone name, built and signed in any way, meets the fatal test |
| `VerifyWalk.StrayZone` | bin/dnssec/dnssec-signzone.c:1778-1786 | that zone is an admissible input with a stray NSEC |
| `HashList.Table.constructor` | bin/dnssec/dnssec-signzone.c:711-726 | an empty list with room for the hashes and their flag byte |
| `HashList.Table.Grow` | bin/dnssec/dnssec-signzone.c:733-738 | the entries survive the move to a larger buffer |
| `HashList.Table.Add` | bin/dnssec/dnssec-signzone.c:728-743 | exactly one entry is appended to the packed contents |
| `HashList.Table.Sort` | bin/dnssec/dnssec-signzone.c:774-777 | the contents become a sorted permutation of themselves |
| `HashList.HasRepeat` | bin/dnssec/dnssec-signzone.c:779-803 | on a sorted list, true if and only if some hash is entered twice as real, whatever speculative entries lie between |
| `HashList.Table.HasDup` | bin/dnssec/dnssec-signzone.c:779-803 | the same for the packed buffer |
| `HashList.BinarySearch` | bin/dnssec/dnssec-signzone.c:810-811 | finds an index of the key in a sorted list if and only if the key is there |
| `HashList.NextReal` | bin/dnssec/dnssec-signzone.c:805-824 | for a real hash without duplicates, the next real hash round the cycle; neither INSIST fires and speculative entries change nothing |
| `HashList.Table.FindNext` | bin/dnssec/dnssec-signzone.c:805-824 | the same for the packed buffer |
| `HashList.Table.Exists` | bin/dnssec/dnssec-signzone.c:826-834 | true if and only if the hash is on the list as real |
| `HashList.RealIsPermuted` | bin/dnssec/dnssec-signzone.c:769-777 | sorting the whole list sorts and permutes its real hashes, speculative ones aside |
| `HashList.SingleCycle` | bin/dnssec/dnssec-signzone.c:805-824 | from any hash, following next reaches every hash exactly once in one lap and then returns |
| `HashList.Table.FindNextIsOneCycle` | bin/dnssec/dnssec-signzone.c:805-824 | following what `FindNext` returns, once per real hash of the table, lists all of them once and comes back |
| `Nsec3Names.HashNamesAreClosure` | bin/dnssec/dnssec-signzone.c:2282-2305 | the names hashed are exactly the names at or below the origin that are a chain name or an ancestor of one |
| `Nsec3Names.HashNamesDistinct` | bin/dnssec/dnssec-signzone.c:2282-2305 | no name is hashed twice |
| `Nsec3Names.PrefixSplits` | bin/dnssec/dnssec-signzone.c:2287-2305 | an ancestor of the next name is an ancestor of the current one, an empty node of the span, or the name itself |
| `Nsec3Chain.AddName` | bin/dnssec/dnssec-signzone.c:745-767 | one real hash, and one speculative wildcard hash unless the wildcard exists |
| `Nsec3Chain.AddEmptyNodes` | bin/dnssec/dnssec-signzone.c:2293-2305 | the label loop adds exactly the entries of the span's empty nodes |
| `Nsec3Chain.RealOfEntries` | bin/dnssec/dnssec-signzone.c:836-868 | speculative entries aside, the list is the hashes of the names in order |
| `Nsec3Chain.FindNextToHash` | bin/dnssec/dnssec-signzone.c:2238-2281 | stops at the next linked node, with or without opt-out, leaving what it skips cleaned |
| `Nsec3Chain.CollectHashes` | bin/dnssec/dnssec-signzone.c:2219-2307 | every node is cleaned and the list holds the entries of all names of the zone, once each |
| `Nsec3Chain.KeptRecords` | bin/dnssec/dnssec-signzone.c:1965-2062 | a record survives cleaning if and only if its hash is listed and its parameters are this chain's |
| `Nsec3Chain.CleanOldRecords` | bin/dnssec/dnssec-signzone.c:2335-2343 | every NSEC3 node keeps exactly the surviving records |
| `Nsec3Chain.SecondLookChangesNothing` | bin/dnssec/dnssec-signzone.c:2376-2381 | `active_node` deletes nothing when the second walk repeats it |
| `Nsec3Chain.FindNextToLink` | bin/dnssec/dnssec-signzone.c:2370-2409 | the second walk stops at the same next node as the first and leaves the zone unchanged |
| `Nsec3Chain.SpanHits` | bin/dnssec/dnssec-signzone.c:2414-2427 | every hash the second walk looks up was added by the first |
| `Nsec3Chain.AddNsec3` | bin/dnssec/dnssec-signzone.c:1900-1953 | the record written points at the next hash round the ring, and no other node changes |
| `Nsec3Chain.AddEmptyNsec3s` | bin/dnssec/dnssec-signzone.c:2420-2427 | records for exactly the empty nodes of the span |
| `Nsec3Chain.WriteRecords` | bin/dnssec/dnssec-signzone.c:2355-2428 | the records written are those of the zone's names, each linked to its successor on the ring |
| `Nsec3Chain.Nsec3ify` | bin/dnssec/dnssec-signzone.c:2186-2430 | refuses exactly when the other chain is present, reports a duplicate exactly when two names share a hash, else leaves the finished ring and nothing else; every RRset left at any node is accounted for |
| `Nsec3Chain.CleanedToLeaves` | bin/dnssec/dnssec-signzone.c:2219-2281 | which RRset the first walk leaves at which node, record by record |
| `Nsec3Chain.EntriesAre` | bin/dnssec/dnssec-signzone.c:836-868 | the list holds the hash of each name as real, and as speculative that of each wildcard that fits in a name and is not in the zone |
| `VerifyNsec3.VerifyOne` | bin/dnssec/dnssectool.c:982-1052 | a name's check succeeds, and records an element, by the first matching record, or, without any record, for an insecure or opted-out delegation only |
| `VerifyNsec3.CollectEmpty` | bin/dnssec/dnssectool.c:1402-1438 | the checks made between two visited names are those of the empty nodes of the span |
| `VerifyNsec3.CollectExpected` | bin/dnssec/dnssectool.c:1733-1749 | all checks of the walk in order, and the elements they expect |
| `VerifyNsec3.CollectFound` | bin/dnssec/dnssectool.c:873-927 | each record of this chain at each NSEC3 node is found once, in whatever order nodes come |
| `VerifyNsec3.FoundCountIs` | bin/dnssec/dnssectool.c:873-927 | an element is found once for each record at its owner with its parameters and next hash |
| `VerifyNsec3.HeapBlocks` | lib/isc/heap.c:146-230 | the order a heap yields: sorted, the same multiset, each element in its own block |
| `ChainCheck.ChainEqualIsEquality` | bin/dnssec/dnssectool.c:714-730 | the field-by-field comparison is equality of elements |
| `ChainCheck.ChainOrder` | bin/dnssec/dnssectool.c:684-712 | the heap comparison is a strict total order on elements |
| `ChainCheck.HeapOrderUnique` | bin/dnssec/dnssectool.c:684-712 | a multiset of elements has only one heap order |
| `ChainCheck.MatchOne` | bin/dnssec/dnssectool.c:1326-1359 | one round consumes an equal found element, or records failure and resynchronises |
| `ChainCheck.LinkStep` | bin/dnssec/dnssectool.c:1360-1384 | comparing with the remembered first and previous elements decides the link to the follower in the chain |
| `ChainCheck.Drain` | bin/dnssec/dnssectool.c:1386-1397 | anything left over in the found heap is a failure |
| `ChainCheck.VerifyNsec3Chains` | bin/dnssec/dnssectool.c:1318-1400 | success if and only if expected and found are the same multiset and every chain closes on itself; each expected block is freed exactly once |
| `ChainCheck.ClosedIff` | bin/dnssec/dnssectool.c:1277-1314 | closed chains, said by fields: each element names the owner after it within its hash, iterations, salt and length, and the last the first |
| `ChainCheck.GroupsStandTogether` | bin/dnssec/dnssectool.c:684-712 | in heap order the elements of such a group stand together |
| `Agreement.VerifyZone` | bin/dnssec/dnssectool.c:1684-1785 | the NSEC3 verdict: fatal over a forbidden NSEC, else accept exactly when all checks succeed, records match one for one and the chain closes; on acceptance every name is covered |
| `Agreement.AcceptedIff` | bin/dnssec/dnssectool.c:982-1052 | acceptance without the checks: every visited name, and every empty node above one, has its one record or is excused |
| `Agreement.MissingIsRejected` | bin/dnssec/dnssectool.c:1029-1036 | a name that is no insecure delegation and has no record is never accepted |
| `Agreement.MissingEmptyIsRejected` | bin/dnssec/dnssectool.c:1402-1438 | nor is an empty node without a record, unless above an opted-out delegation |
| `Agreement.VisitsAreChain` | bin/dnssec/dnssectool.c:1684-1740 | on a built zone the verifier visits exactly the chain without opt-out |
| `Agreement.ChecksAreHashNames` | bin/dnssec/dnssectool.c:1402-1438 | the verifier checks the same names as the signer's walk would hash, in another order |
| `Agreement.ZoneCheckNames` | bin/dnssec/dnssectool.c:1733-1749 | the checked names are the names of the zone without opt-out, once each |
| `Agreement.OptedOutCheck` | bin/dnssec/dnssectool.c:929-980 | a check without a record is for, or above, an opted-out delegation only, and the verifier allows it |
| `Agreement.RingIsClosed` | bin/dnssec/dnssectool.c:1277-1314 | `checknext` accepts every link of the ring, the wrap-around included |
| `Agreement.CollisionsDecide` | bin/dnssec/dnssec-signzone.c:2314-2319 | an element is expected twice if and only if an opted-out name collides with a linked one |
| `Agreement.Nsec3Agreement` | bin/dnssec/dnssectool.c:1684-1785 | the verifier accepts what `nsec3ify` built if and only if there is no hidden collision, always without opt-out; fatal only over a stray NSEC |
| `Agreement.BuildSignVerify` | bin/dnssec/dnssec-signzone.c:2186-2430 | building, signing in any way and verifying, one after the other: each outcome and each verdict has its exact condition |
| `Agreement.CollisionIsHidden` | bin/dnssec/dnssec-signzone.c:2314-2319 | an apex, one insecure delegation and a constant hash: no duplicate for the signer, a hidden collision for the verifier |
| `SignerTasks.FindWork` | bin/dnssec/dnssec-signzone.c:1455-1510 | the loop finds the next node to sign and dumps those before it, as `ScanFrom` says |
| `SignerTasks.Distributor.AssignWork` | bin/dnssec/dnssec-signzone.c:1422-1531 | one critical section takes the shared state to the state of `Assign` |
| `SignerTasks.DecideIsWanted` | bin/dnssec/dnssec-signzone.c:1473-1495 | a node is sent to a worker if and only if it is zone data: it has an NSEC, or it is in the zone, not occluded and not opted out |
| `SignerTasks.ScanAccounts` | bin/dnssec/dnssec-signzone.c:1455-1510 | a scan dumps or hands out every node it passes exactly once, the origin excepted |
| `SignerTasks.EventKeeps` | bin/dnssec/dnssec-signzone.c:1422-1585 | every event of every task keeps the accounting of nodes, workers and shutdowns |
| `SignerTasks.RunIsSafe` | bin/dnssec/dnssec-signzone.c:1394-1585 | in every state of every interleaving: at most one shutdown, no node written or sent twice, no sent node written unsigned |
| `SignerTasks.NoDeadlock` | bin/dnssec/dnssec-signzone.c:1533-1585 | until shutdown some event can happen |
| `SignerTasks.EventProgresses` | bin/dnssec/dnssec-signzone.c:1422-1585 | every event uses up part of a bounded amount of work |
| `SignerTasks.EveryRunEnds` | bin/dnssec/dnssec-signzone.c:1394-1585 | every run is bounded; it is stuck if and only if shutdown was triggered once; then every node is written exactly once and every sent node signed exactly once |
| `SignSet.KeyList.KeyThatSigned` | bin/dnssec/dnssec-signzone.c:354-426 | the first matching key, or one loaded from disk and appended; the list grows by at most one |
| `SignSet.LookupIsStable` | bin/dnssec/dnssec-signzone.c:373-426 | later additions to the key list never change the key found for an earlier signature |
| `SignSet.LoadedDoNotSign` | bin/dnssec/dnssec-signzone.c:414-422 | keys taken from disk are never signing keys |
| `SignSet.LoadedFlags` | bin/dnssec/dnssec-signzone.c:398-422 | a key from disk has the file's flags and is neither published nor signing |
| `SignSet.Weigh` | bin/dnssec/dnssec-signzone.c:541-607 | the branches reach the verdict of `Judge`, and never both keep and re-sign |
| `SignSet.VerdictIff` | bin/dnssec/dnssec-signzone.c:541-607 | when a signature is kept and when it is made again, field by field |
| `SignSet.ScanForKsk` | bin/dnssec/dnssec-signzone.c:676-687 | whether an unrevoked key-signing key of the algorithm exists |
| `SignSet.KeyList.JudgeOne` | bin/dnssec/dnssec-signzone.c:529-655 | one round: the differences it adds and the one flag it sets, always inside the array |
| `SignSet.KeyList.SignSet` | bin/dnssec/dnssec-signzone.c:480-702 | one call yields the differences of `Completed`; every array index is below key count plus signature count |
| `SignSet.SignaturesAfter` | bin/dnssec/dnssec-signzone.c:1095-1103 | deletes then adds leave exactly the kept and the new signatures, all with this run's TTL; every other old one is deleted |
| `SignSet.SigTtlIs` | bin/dnssec/dnssec-signzone.c:502-502 | the TTL is the lesser of the RRset's and the 32-bit validity period |
| `SignSet.WhoSigns` | bin/dnssec/dnssec-signzone.c:642-699 | a key signs if and only if it replaces one of its signatures or has none that stays; only signing keys do |
| `SignSet.EverySigningKeyOwns` | bin/dnssec/dnssec-signzone.c:661-699 | every signing key owns a signature on every RRset in its role |
| `SignSet.EveryZskOwns` | bin/dnssec/dnssec-signzone.c:661-699 | a signing key with the zone-signing role owns a signature on every ordinary RRset |
| `SignSet.SignsFirst` | bin/dnssec/dnssec-signzone.c:671-699 | which RRsets a signing key without a signature of its own signs: by kind, place, KSK flag, revocation and options |
| `SignSet.OwnsDnskey` | bin/dnssec/dnssec-signzone.c:671-691 | a signing KSK, or a key of an algorithm without an unrevoked one, owns a signature on the DNSKEY RRset at the origin |
| `SignSet.OwnsCds` | bin/dnssec/dnssec-signzone.c:692-698 | every signing key owns one on CDS and CDNSKEY |
| `SignSet.OutOfRoleOnlyReplaces` | bin/dnssec/dnssec-signzone.c:642-699 | a plain ZSK on the DNSKEY RRset with KSK-only signing, and a KSK on an ordinary RRset, only replace a signature of their own |
| `SignSet.CurrentIff` | bin/dnssec/dnssec-signzone.c:541-699 | the key ends with a signature usable now if and only if none of its signatures is dated ahead or another one was examined |
| `SignSet.DatedAheadBlocks` | bin/dnssec/dnssec-signzone.c:561-565 | a key whose only signature starts in the future does not sign |
| `SharedKeys.BoundsIff` | bin/dnssec/dnssec-signzone.c:519-521 | in every interleaving with other workers' loads, all indices stay below the array size if and only if others load at most as many keys as the call has signatures minus its own loads |
| `SharedKeys.AloneIsInside` | bin/dnssec/dnssec-signzone.c:661-665 | a call during which nobody else loads a key stays inside its arrays |
| `SharedKeys.OneLoadTooMany` | bin/dnssec/dnssec-signzone.c:661-665 | one key, no signatures and one load elsewhere: the last loop uses index 1 |
| `SignAndVerify.SignedThenVerified` | bin/dnssec/dnssectool.c:1078-1153 | what `signset` leaves satisfies `verifyset` for the key's algorithm, under the condition of `CurrentIff` |
| `SignAndVerify.BlockedIsRejected` | bin/dnssec/dnssectool.c:1078-1153 | without that condition, the only key of an algorithm leaves the RRset unsigned in the verifier's eyes |
| `SignedZone.SignName` | bin/dnssec/dnssec-signzone.c:1033-1085 | the types handed to `signset` are all data, or at a delegation DS and the denial record; fatal exactly over a DS without NS |
| `SignedZone.WantedIsChain` | bin/dnssec/dnssec-signzone.c:1465-1480 | after `nsecify` the nodes sent to workers are exactly the chain and the stray NSEC nodes ahead of the origin |
| `SignedZone.AuthoritativeIsHanded` | bin/dnssec/dnssec-signzone.c:1465-1495 | every RRset the verifier must check lies at a node to be sent, in NSEC and NSEC3 mode, and `signname` hands it over |
| `SignedZone.EveryRRsetIsReached` | bin/dnssec/dnssec-signzone.c:1394-1585 | once any run has shut down, every such RRset lies at the origin or at a node signed exactly once |
| `SignedZone.ZoneIsFullySigned` | bin/dnssec/dnssectool.c:1684-1774 | a built zone, signed by any finished run with suitable keys of an algorithm, passes the verifier's test for that algorithm everywhere |
| `VerifySigs.GoodSig` | bin/dnssec/dnssectool.c:549-585 | true if and only if a key of the signature's algorithm and id verifies it and every record up to it parses |
| `VerifySigs.OneKeyIsEnough` | bin/dnssec/dnssectool.c:549-585 | a matching key that verifies, with only records that parse ahead of it, supports the signature |
| `VerifySigs.UnparsableStops` | bin/dnssec/dnssectool.c:566-569 | a DNSKEY record that does not parse ends the search |
| `VerifySigs.EveryRRsetHasSignature` | bin/dnssec/dnssectool.c:549-585 | full signing gives each authoritative RRset a signature with its TTL that verifies under a key of the algorithm and its id |
| `VerifySigs.FindAlgorithms` | bin/dnssec/dnssectool.c:1113-1136 | the flag of an active algorithm is set if and only if some signature of it is good |
| `VerifySigs.VerifySet` | bin/dnssec/dnssectool.c:1078-1153 | marks exactly the active algorithms the RRset is not signed with |
| `VerifySigs.VerifyNode` | bin/dnssec/dnssectool.c:1155-1200 | marks exactly the active algorithms some RRset to be checked lacks |
| `VerifySigs.Count` | bin/dnssec/dnssectool.c:1593-1594 | the saturating counter never wraps back to zero |
| `VerifySigs.CountKeys` | bin/dnssec/dnssectool.c:1560-1617 | a counter is non-zero if and only if a key of that role and algorithm exists; fatal over a revoked key that does not sign itself |
| `VerifySigs.SetTables` | bin/dnssec/dnssectool.c:1625-1662 | the active and the initially bad algorithms, or refusal of the key set |
| `VerifySigs.AlgorithmsIff` | bin/dnssec/dnssectool.c:1628-1662 | which algorithms are active and which lack a partner, key by key |
| `VerifySigs.AcceptedIff` | bin/dnssec/dnssectool.c:1560-1626 | the key set is refused over a revoked KSK that does not sign itself, or without a self-signing key |
| `VerifySigs.VisitsCover` | bin/dnssec/dnssectool.c:1684-1774 | what the visits find missing is what authoritative data lacks |
| `VerifySigs.VerifySignatures` | bin/dnssec/dnssectool.c:1552-1803 | ends without fatal error if and only if the keys are acceptable, no NSEC is misplaced, and every authoritative RRset is signed with every active algorithm |
| `VerifySigs.FullySignedIff` | bin/dnssec/dnssectool.c:1175-1200 | full signing, set by set: all sets in the zone and not below a delegation but DNSKEY, and at a delegation DS and NSEC |
| `VerifySigs.SignedSetBySet` | bin/dnssec/dnssectool.c:1175-1188 | every DS and NSEC set of a delegation, and every other set away from one, is signed |
| `VerifySigs.ExemptSetsDoNotMatter` | bin/dnssec/dnssectool.c:1182-1194 | NS and glue at a delegation, and anything occluded or out of zone, signed or not, make no difference |
| `Dns64.LabelReadsBack` | bin/named/builtin.c:103-118 | the digits printed for an octet are its decimal form without leading zeros |
| `Dns64.LabelIsCounted` | bin/named/builtin.c:103-118 | a label is its length and that many digits, which read as the octet |
| `Dns64.HexDigits` | bin/named/builtin.c:77-94 | digits in either case have their value, every other octet is refused |
| `Dns64.SuffixSpells` | bin/named/builtin.c:120-120 | the suffix is the wire form of in-addr.arpa |
| `Dns64.Dns64Rdata` | bin/named/builtin.c:98-122 | four labels and the suffix, skipping the "u" octet, within 30 bytes |
| `Dns64.PackNibbles` | bin/named/builtin.c:163-178 | succeeds if and only if all labels are single hex digits; the packed bytes are the digits; the INSIST never fires |
| `Dns64.UOctetTest` | bin/named/builtin.c:187-278 | the byte each case tests is the "u" octet when the name reaches it |
| `Dns64.OctetsRead` | bin/named/builtin.c:187-278 | the four bytes read are the octets of the embedded IPv4 address, last first |
| `Dns64.Dns64Cname` | bin/named/builtin.c:124-281 | the answer is what the name means: absent, empty, or the CNAME of the embedded address |
| `Dns64.Dns64Lookup` | bin/named/builtin.c:300-314 | the same with the apex for the empty name |
| `Dns64.OnlySixPrefixes` | bin/named/builtin.c:186-278 | under any other zone length nothing is found |
| `Dns64.ReverseMapping` | bin/named/builtin.c:98-281 | for every prefix length, IPv4 address and suffix, the embedding's name maps to d.c.b.a.in-addr.arpa, in at most 30 bytes |
| `Dns64.AncestorsExist` | bin/named/builtin.c:142-278 | the parent of an existing name exists, for odd and even nibble counts |
| `Masters.GetMastersDef` | bin/named/config.c:540-566 | the first list of that name, without regard to case |
| `Masters.IsSeen` | bin/named/config.c:677-682 | whether a name is among those already expanded |
| `Masters.GetIpAndKeyList` | bin/named/config.c:568-798 | the explicit stack terminates on every configuration with the result, or the error, of the recursive pre-order expansion |
| `Masters.ExpansionSucceeds` | bin/named/config.c:611-798 | success if and only if no list reachable from the root is bad, and then exactly the reachable lists were expanded |
| `MastersTargets.TargetsAreEntries` | bin/named/config.c:611-798 | the targets are, one for one and in pre-order, the address entries of the root and of the reachable lists, each with its own port and dscp or those of the nearest list on the way, or the defaults, and its parsed key |
| `MastersTargets.ErrorIsRight` | bin/named/config.c:611-798 | an error names what is wrong: a port or dscp out of range, an unknown list or a bad key, in the entries or a reachable list |
| `MastersTargets.BadListIff` | bin/named/config.c:616-637 | what makes a list bad, with the limits 65535 and 63 |
| `MastersTargets.FindIsFirst` | bin/named/config.c:540-566 | the list found is the first of its name |
| `MastersTargets.SameName` | bin/named/config.c:677-682 | names are the same up to the case of letters |
| `Transfer.Query.OneRecord` | bin/dig/dighost.c:3346-3426 | one record takes the query's fields to the next state and verdict |
| `Transfer.Query.CheckForMoreData` | bin/dig/dighost.c:3302-3438 | one message takes them through its records; a message without answers breaks the transfer |
| `Transfer.RunConcat` | bin/dig/dighost.c:3302-3438 | a run over two stretches is the run over the second from where the first stopped |
| `Transfer.ReceiveAll` | bin/dig/dighost.c:3302-3438 | verdict, state and records consumed depend only on the record stream, not on how it is cut |
| `Transfer.MustOpenWithSoa` | bin/dig/dighost.c:3350-3359 | a reply that does not open with an SOA breaks the transfer |
| `Serials.SerialOrder` | lib/isc/serial.c:26-55 | greater means reached by adding less than half the circle; half a circle apart neither is greater |
| `Transfer.AxfrEnds` | bin/dig/dighost.c:3346-3426 | an AXFR reply ends exactly on its closing SOA |
| `Transfer.UpToDateEnds` | bin/dig/dighost.c:3382-3394 | a lone SOA ends an IXFR if and only if it is not newer |
| `Transfer.AxfrStyleEnds` | bin/dig/dighost.c:3346-3426 | a full zone in answer to an IXFR ends exactly on its closing SOA |
| `Transfer.IncrementalEnds` | bin/dig/dighost.c:3346-3426 | an incremental reply ends exactly on its final record if and only if no intermediate serial equals the new one |
| `Transfer.ShortCut` | bin/dig/dighost.c:3416-3425 | a history of legal serial increases from 1 back to the new serial 3 is cut short |
| `Shuffle.Lookup.GetAddresses` | bin/dig/dighost.c:4131-4159 | the addresses found are appended in order, none for a name that fails |
| `Shuffle.Lookup.Randomize` | bin/dig/dighost.c:2036-2061 | the list becomes the one the choices determine; the INSIST never fires |
| `Shuffle.FollowUp` | bin/dig/dighost.c:2009-2063 | the new lookup holds a permutation of all servers found |
| `Shuffle.ShuffledIsPermutation` | bin/dig/dighost.c:2036-2061 | no server is lost or invented |
| `Shuffle.ShuffledIsInjective` | bin/dig/dighost.c:2036-2061 | different choices give different orders |
| `Shuffle.ShuffledIsSurjective` | bin/dig/dighost.c:2036-2061 | every order comes from some choices |
| `CnameChase.AliasesAreFew` | bin/dig/host.c:392-416 | there are no more CNAME owners than answer records |
| `CnameChase.TargetIs` | bin/dig/host.c:400-412 | the target followed is the first of the last CNAME set of the last entry for the name |
| `CnameChase.EndsOrRevisits` | bin/dig/host.c:392-416 | after as many steps as there are records the chain has ended or revisits a name |
| `CnameChase.ChaseCnameChain` | bin/dig/host.c:392-416 | the name returned has no CNAME if and only if the chain does not revisit a name |
| `CnameChase.OwnTarget` | bin/dig/host.c:392-416 | a CNAME to its own owner: the chase ends on a name that still has a CNAME |

## Left out

- NSEC and NSEC3 type bit maps, DS digests, the name hash and all cryptography: parameters of the models.
- More than one NSEC3PARAM record at a time, and NSEC3 owner names that are not a hash of the expected length.
- `rrset_cleanup`, `loadds` and key loading.
- Memory-allocation failure, logging, printing and file output everywhere.
- The C library's `qsort` and `bsearch` and the `isc_heap`: stand-ins with the same promises.
- VerifyWalk.NsecNodeAccepted: the type bit map and the single-record test of `verifynsec` are not in it, because bit maps are not modelled.
- Nsec3Chain.CleanOldRecords: signatures over NSEC3 and owner labels that do not decode are not modelled.
- Nsec3Chain.Nsec3ify: the NSEC3PARAM record that `addnsec3param` puts at the apex is not modelled.
- VerifyNsec3.VerifyOne: does not compare type bit maps.
- VerifyNsec3.CollectFound: one NSEC3PARAM, and the owner hash is given decoded.
- Agreement.VerifyZone: the NSEC3 verdict only; signatures are the subject of VerifySigs.VerifySignatures, and bit maps are not modelled.
- Agreement.Nsec3Agreement: acceptance leaves out the type bit maps.
- VerifySigs.CountKeys: the stand-by and revoked counters, which are only printed, are not kept.
- Shuffle.Lookup.GetAddresses: the resolver call and its address limit are the caller's argument.
- HashList.BinarySearch: works on the entries read from the buffer as a sequence; probing the bytes in place is not modelled.
- VerifyNsec3.HeapBlocks: insertion into a sorted sequence; the tree layout of the heap is not modelled.
- SignerTasks: each event is one step; a worker's signing is atomic, and an abort by the user is not modelled.
- SignSet: one call at a time; SharedKeys has the interleaved list. A key's index is its place in the list, as the signer numbers its keys.
- VerifySigs.VerifySignatures: the presence checks on the apex RRsets are not modelled, nor is the chain verdict, which Agreement.VerifyZone models.
- SignedZone.ZoneIsFullySigned: takes one `signset` call per RRset as given, through SignAndVerify; it does not thread the key list through them.
- SignAndVerify.SignedThenVerified: assumes that signatures just made verify and that both tools use the same check.
- Dns64.Dns64Lookup: the apex SOA and NS records are not modelled.
- Masters.GetIpAndKeyList: the arrays that grow by sixteen are sequences; default port and dscp lookups outside the function are parameters.
- Transfer.Query.CheckForMoreData: the names and rdatasets of a message are one list of records; the TSIG check and the printing are left out.
- Shuffle.FollowUp: how name servers are found in the message is left out; the addresses found for each are a parameter, and the fatal error when there are none is left out.
- Sockets, timers and the event plumbing of dig, IDN, cookies and DIG_SIGCHASE code.
- bin/check, bin/confgen, bin/delv and the small dnssec-* tools: option handling and thin library calls.
