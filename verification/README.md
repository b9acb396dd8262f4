# Verification of the GHOST-STACK core

A Dafny model of the parts of GHOST-STACK that carry state and algorithms, and proofs about them. Each
module follows one component:

- `Prefixes`, `Allowlist`, `AllowlistManager`, `ThreatResponse`: the Layer 3 allowlist. The manager keeps
  a map from CIDR text to entry and a longest-prefix-match trie that the XDP program consults. Blocking
  an address replaces its most specific entry by the minimal set of blocks that cover everything else
  ("carving"), with rollback when a trie write fails.
- `AlertFraming`: the alert stream between agent beta and the orchestrator, `BETA:<len>:<json>`, with its
  incremental parser and reassembly loop.
- `Cbor`: the decoder for a subset of CBOR (section 3 of RFC 8949) and for COSE EC2 keys (section 7.1.1
  of RFC 9053).
- `Profiler`: the cache of attacker profiles, a map and a recency list changed together.
- `Hierarchy`: the department forest and its four-tier access rules.
- `AuditChain`: the hash-chained audit log across restarts and rename rotations.
- `LoginHistory`, `WebAuthn`, `Sessions`: WebAuthn ceremony, delivered code, session tokens and their
  rotation.
- `Nflog`: building and parsing NFLOG netlink messages.
- `Ipam`: the allocator of department subnets.
- `Bytes`, `Options`: bytes, decimal text and optional values, shared.

Objects whose methods update fields are classes here too, loops are loops, and each such method is proved
against a function or a relation on the old and the new state. The theorems about whole runs are lemmas
about those functions and relations.

## Assumptions

- Time is a parameter, read once per call except where a loop reads it again. Random draws are parameters; identifiers drawn for tokens are
  fresh.
- Cryptography is abstract. Decryption inverts encryption. Where a lemma says so, the audit hash is injective
  and never the empty string, and no genesis line names its own hash. Signatures, the RP hash and "on the
  curve" are arbitrary, and the keyed hash of tokens has no law at all.
- The kernel may refuse any trie write: write number n is refused when an arbitrary predicate says so.
  Deleting a key the trie does not hold is always refused.
- Reads from a socket are arbitrary chunks. JSON and base64 are outside the model; an audit line, a token
  payload and an alert are values or byte strings, and parsing client data is an arbitrary function.
- One process writes the audit log; a write ends with the line in the file, without it, or in the file
  although an error is reported.

## Where the code does not do what one would expect

Each of these is proved with a concrete input, as an exact condition, or in a method's contract.

- The map is keyed by CIDR text and the trie by masked address. Removing one of two spellings of a network
  takes it out of the trie that the other still needs (`Allowlist.RemovalKeepsAgreementIff`). All agreement
  results therefore ask for canonical text, which carving itself always produces.
- `RemoveIP`'s comment says the IP is now denied. Only the most specific entry is replaced: the IP is denied
  exactly when one entry covered it (`ThreatResponse.BlockDeniesIffSingleCover`), and the block is audited
  as a success in both cases. On the score path the recorded block then hides every later alert for the
  address (`ThreatResponse.RecordedBlockIsFinal`).
- Unblocking undoes a block exactly when the address was allowed before. An address that was never allowed is
  allowed afterwards, and the entry never expires (`ThreatResponse.BlockThenUnblockRestoresIff`,
  `ThreatResponse.UnblockAllowsTheNeverAllowed`, `ThreatResponse.UnblockNeverExpires`).
- A carve-out overwrites an entry with the same text and gives it the expiry of the carved entry
  (`Allowlist.CarveCoverageAt`, `Allowlist.OverwrittenCoverExpires`).
- With no trie loaded, a stale plan can allow an address that another handler has just blocked
  (`Allowlist.RunWithoutTrieCanUnblock`, `Allowlist.StaleCarveEnlargesIff`). With a trie it cannot.
- `RemoveIP` and the add and remove actions are not atomic; only carving is. A rollback restores text,
  label and expiry, but stamps every entry as added now.
- The flush action takes the manager's lock again for every entry and so never returns, unless the allowlist
  is empty (`AllowlistManager.Manager.ApplyUpdate`).
- Attaching brings an empty trie and does not replay the entries that are already in the map
  (`AllowlistManager.Manager.LoadAndAttach`).
- The count returned by `CleanupExpiredEntries` includes entries whose removal was refused.
- After garbage the reassembly loop resynchronises once and then waits for another read although a frame is
  complete in its buffer (`AlertFraming.ResyncWaitsForARead`). Every split of a stream is completely
  dispatched exactly when draining the stream once gets past every frame
  (`AlertFraming.EverySplitCatchesUpIff`).
- `GetOrCreate` keeps trying to evict while nothing can be evicted: it does not return while a new key meets
  a list at its limit in which every profile is protected, and never with a limit below one.
- `CanAccess` and `ListVisible` disagree about a tier below staff, and only there
  (`Hierarchy.AccessMatchesListingIff`). A failed key derivation leaves the child linked
  (`Hierarchy.LinkedIsForestIff`).
- A genesis line written for a missing log followed by a refused entry, or a line written although an error
  was reported, breaks the audit chain on the next append, and no other outcome of an
  append does (`AuditChain.AppendKeepsIff`). After a restart the chain continues exactly when the last line fits the
  64 KiB window or its two hashes agree.
- A rotation is linked to the old segment only by a process that remembers its tail
  (`AuditChain.AppendLinksIff`). A process started after the rename writes no genesis line
  (`AuditChain.RestartAfterRotationUnlinks`), although deploy/deploy.sh:284-286 says that the next append
  always links; one-shot commands append too.
- The rotation loop gives an expired session a new lifetime (`Sessions.ExpiredIsRenewedIff`). The one-time
  code is bound to the e-mail and not to the device whose assertion requested it
  (`Sessions.SessionManager.OnlyThatDeviceIff`).
- The attribute loop of the NFLOG parser slices past its end when the last attribute is not padded
  (`Nflog.PanicsIff`, `Nflog.DatagramPanicsIff`).
- With two accepted payloads in one message, the report mixes the second packet's addresses with the first
  one's ports when the second has none (`Nflog.FoldReportsIff`, `Nflog.SecondPayloadKeepsPorts`).
- The IPv4 parser accepts a header length below five words and then reports header bytes as ports
  (`Nflog.AcceptedIsIpv4Iff`, `Nflog.ShortHeaderPorts`).
- Loading the allocator from the database is consistent exactly when the rows are on distinct subnets other
  than 0 (`Ipam.LoadedIsConsistentIff`).

## Model

| member | source | states |
|---|---|---|
| `Prefixes.ExcludeIPFromCIDR` | firewall/layer3/allowlist_manager.go:307-329 | The result is the masked sibling of the address at every level from /32 up to the network's own length, in that order; nothing for an address outside the network |
| `Prefixes.ExclusionIsExactPartition` | firewall/layer3/allowlist_manager.go:303-329 | For every network and inner address the blocks are aligned to their masks, pairwise disjoint, and their union is the network minus that one address |
| `Prefixes.ExclusionIsMinimal` | firewall/layer3/allowlist_manager.go:303-306 | No set of CIDR blocks with the same union, in any shape, has fewer blocks |
| `Prefixes.OneFlipPerBlock` | firewall/layer3/allowlist_manager.go:320-326 | A block that avoids the address cannot hold two of the addresses that differ from it in one bit |
| `Prefixes.FlipsNeedBlocks` | firewall/layer3/allowlist_manager.go:320-327 | Covering n such addresses without covering the address itself takes n blocks |
| `Prefixes.SeparatingLevel` | firewall/layer3/allowlist_manager.go:320-327 | Every other address of the network lies in the sibling block of some level |
| `Prefixes.SiblingContains` | firewall/layer3/allowlist_manager.go:321-326 | The block built at a level is canonical and holds exactly the addresses whose prefix there is the flipped one |
| `Prefixes.ContainsIsRange` | firewall/layer3/allowlist_manager.go:236-238 | Mask comparison on a canonical network is membership in its address range |
| `Prefixes.SameLengthSameBlock` | firewall/layer3/allowlist_manager.go:344-346 | Two canonical networks of one length that share an address are one trie key |
| `Allowlist.Cidr.Network` | firewall/layer3/allowlist_manager.go:333-346 | Parsing CIDR text always yields a canonical network, the trie key |
| `Allowlist.AllowedIffCovering` | firewall/layer3/allowlist_manager.go:228-248 | An address is allowed iff its set of covering entries is not empty |
| `Allowlist.ExpiryIsFinal` | firewall/layer3/allowlist_manager.go:651 | An entry is unexpired up to and including its expiry second, expired from the next on and for ever; without a positive expiry it never is |
| `Allowlist.AllowedShrinks` | firewall/layer3/allowlist_manager.go:651 | What unexpired entries cover only shrinks as time goes on |
| `Allowlist.RemovalKeepsAgreementIff` | firewall/layer3/allowlist_manager.go:344-355 | Deleting an entry and its trie key keeps map and trie in agreement iff no other text names the same network |
| `Allowlist.UncanonicalTextBreaksAgreement` | firewall/layer3/allowlist_manager.go:344-355 | Two spellings of 10.0.0.0/31 for which agreement is lost |
| `Allowlist.LookupFindsLongest` | firewall/layer3/layer3_invisible.bpf.c:222-228 | The trie lookup returns the value of the longest stored prefix that contains the address, and fails iff none does |
| `Allowlist.VerdictIsCoverage` | firewall/layer3/layer3_invisible.bpf.c:203-243 | With map and trie in agreement the program passes an IPv4 source iff some entry of the map contains it |
| `Allowlist.OnlyArpAndListedPass` | firewall/layer3/layer3_invisible.bpf.c:176-272 | A disabled program passes everything; an enabled one passes ARP, covered IPv4 sources and listed IPv6 sources, and drops every other packet |
| `Allowlist.BestExists` | firewall/layer3/allowlist_manager.go:228-244 | An allowed address has a most specific covering entry |
| `Allowlist.CarvedKeys` | firewall/layer3/allowlist_manager.go:290-299 | A carve replaces one text by the canonical texts of the exclusion and touches no other |
| `Allowlist.CarveCoverage` | firewall/layer3/allowlist_manager.go:467-478 | What a carve does to the verdict of every address and to the covers of its own, even if the entry is gone |
| `Allowlist.PresentCarveIsSurgical` | firewall/layer3/allowlist_manager.go:277-301 | At that moment every other address keeps its verdict, and the number of entries covering the address drops by exactly one |
| `Allowlist.CarveCoverageAt` | firewall/layer3/allowlist_manager.go:253-259 | Coverage by unexpired entries at every later time: the carve-outs count with the entry's expiry, and entries they overwrite no longer count |
| `Allowlist.CarveKeepsLaterCovers` | firewall/layer3/allowlist_manager.go:253-259 | If no carve-out overwrites an entry, every other address has an unexpired cover at each time after the carve iff it had one before |
| `Allowlist.OverwrittenCoverExpires` | firewall/layer3/allowlist_manager.go:383-384 | Carving an expiring /31 beside a permanent /32 takes the permanent entry's address away when the /31 expires |
| `Allowlist.NonNestedCarve` | firewall/layer3/allowlist_manager.go:277-301 | On an allowlist in which no address lies in two entries one carve denies the address and keeps the allowlist so |
| `Allowlist.StepRemovesOneCover` | firewall/layer3/allowlist_manager.go:277-301 | Each such removal takes away exactly one cover and changes no other verdict |
| `Allowlist.WiderCoversSurvive` | firewall/layer3/allowlist_manager.go:228-244 | A removal leaves every cover that is less specific than another one untouched: the most specific is the one replaced |
| `Allowlist.RepeatedRemovalDenies` | firewall/layer3/allowlist_manager.go:277-301 | In any sequence of successful removals of one address, each of any most specific cover at any time, there are at most as many as covers, the address ends denied iff there were exactly as many, and no other verdict changes |
| `Allowlist.StepNeverEnlarges` | firewall/layer3/allowlist_manager.go:448-480 | A planned carve with a loaded trie never allows a denied address, whether it succeeds, is rolled back, or leaves entries lost or carve-outs behind because restoring writes were refused |
| `Allowlist.StepStaysNonNested` | firewall/layer3/allowlist_manager.go:448-480 | A step that succeeds, or leaves no carve-out behind, keeps a non-nested allowlist non-nested, and a successful one denies its address |
| `Allowlist.CarveRunNeverEnlarges` | cmd/ghost-ctl/threat_response.go:356-382 | In every interleaving of plan and apply steps with a loaded trie, refused rollback writes included, what is allowed later was allowed before |
| `Allowlist.CarveRunStaysNonNested` | cmd/ghost-ctl/threat_response.go:356-382 | Such a run keeps a non-nested allowlist non-nested as long as no failed update leaves a carve-out behind, which takes a refused restoring write |
| `Allowlist.BlockedStaysBlocked` | cmd/ghost-ctl/threat_response.go:356-382 | On a non-nested allowlist, if no failed update before the block left a carve-out behind, an address blocked once stays denied whatever is refused later |
| `Allowlist.StaleCarveEnlargesIff` | firewall/layer3/allowlist_manager.go:348-354 | Applying a plan whose entry has gone enlarges the allowlist iff the entry held another address that is now denied |
| `Allowlist.RunWithoutTrieCanUnblock` | cmd/ghost-ctl/threat_response.go:356-382 | Without a trie, two handlers and one entry suffice to allow a blocked address again |
| `AllowlistManager.Manager.constructor` | firewall/layer3/allowlist_manager.go:103-111 | A new manager is empty, in agreement and detached |
| `AllowlistManager.Manager.LoadAndAttach` | firewall/layer3/allowlist_manager.go:120-178 | Idempotent when attached; otherwise, per failure point, what is loaded and attached, and agreement holds afterwards iff no trie is there or no entry was |
| `AllowlistManager.Manager.Detach` | firewall/layer3/allowlist_manager.go:661-679 | No trie, not attached, agreement kept |
| `AllowlistManager.Manager.VerdictFollowsEntries` | firewall/layer3/layer3_invisible.bpf.c:203-243 | In every state the operations keep in agreement, an attached program passes an IPv4 source iff some entry of the manager contains it |
| `AllowlistManager.Manager.RemoveEntryLocked` | firewall/layer3/allowlist_manager.go:332-356 | Exactly when it fails and with which error; map and trie change together or not at all; agreement is kept |
| `AllowlistManager.Manager.AddEntryLocked` | firewall/layer3/allowlist_manager.go:359-387 | Exactly when it fails; the stamped entry and its trie key appear together or not at all; agreement is kept |
| `AllowlistManager.EntryIffInTrie` | firewall/layer3/allowlist_manager.go:344-355 | Under agreement the key of a canonical text is in the trie iff the text is an entry |
| `AllowlistManager.AgreementAfterAdd` | firewall/layer3/allowlist_manager.go:377-384 | Writing key and entry keeps agreement |
| `AllowlistManager.AgreementDeterminesTrie` | firewall/layer3/allowlist_manager.go:456-465 | Two tries that agree with maps over the same texts are equal |
| `AllowlistManager.Manager.PlanIPRemovalLocked` | firewall/layer3/allowlist_manager.go:211-261 | An error iff not IPv4, no plan iff no entry contains the address, otherwise the plan for a cover than which no cover is longer, in any map order |
| `AllowlistManager.Manager.RemoveEach` | firewall/layer3/allowlist_manager.go:467-472 | The texts before the first failing change are gone, nothing else changed, and which change fails first |
| `AllowlistManager.Manager.AddEach` | firewall/layer3/allowlist_manager.go:473-478 | The entries before the first failing change are in, stamped, and which change fails first |
| `AllowlistManager.Manager.ApplyInSteps` | firewall/layer3/allowlist_manager.go:290-299 | Removals then insertions up to the first failing change, which is the first that is not IPv4, is refused, or removes what is not there |
| `AllowlistManager.Manager.RemoveIP` | firewall/layer3/allowlist_manager.go:282-301 | On success the whole new map, every write made and a removal step of the run above; on a canonical allowlist in agreement it fails iff a write is refused, and the contract names that write and the exact partial state |
| `AllowlistManager.Manager.ClearAll` | firewall/layer3/allowlist_manager.go:459-461 | Agreement is kept and no entry appears; if no write is refused nothing is left |
| `AllowlistManager.Manager.Rollback` | firewall/layer3/allowlist_manager.go:456-465 | Agreement is kept and no entry appears from elsewhere; if no write is refused the map is the snapshot with every entry stamped now |
| `AllowlistManager.RestampedKeys` | firewall/layer3/allowlist_manager.go:456-465 | A complete rollback keeps every entry's text, label and expiry and changes only the time of addition |
| `AllowlistManager.Manager.CarveEntriesLocked` | firewall/layer3/allowlist_manager.go:445-480 | Succeeds iff no change fails, with exactly the listed changes; on failure what can be left over, and, if the restoring writes are accepted, the same entries stamped again and the same trie |
| `AllowlistManager.Manager.ApplyEntries` | firewall/layer3/allowlist_manager.go:414-425 | The add and remove loops: exactly the changes before the first failing one |
| `AllowlistManager.Manager.ApplyUpdate` | firewall/layer3/allowlist_manager.go:391-443 | Which of the checks rejects which update, that every verified nonce is spent, and per action the new map, the first failing change and the rollback |
| `AllowlistManager.FreshWindow` | firewall/layer3/allowlist_manager.go:407-410 | The freshness window is closed, without gaps, from 10 seconds before the time stamp to 60 seconds after it |
| `AllowlistManager.Manager.CleanupExpiredEntries` | firewall/layer3/allowlist_manager.go:643-658 | The count is the number of entries with 0 < expiry < now; no other entry goes; if no write is refused none of them stays, and what is allowed is what an unexpired entry covered |
| `ThreatResponse.Handler.ApplyPlan` | cmd/ghost-ctl/threat_response.go:368-382 | Whatever happened since planning and whatever is refused: succeeds iff the entry is still there and all writes are accepted, the outcome is a step of the concurrent run, and which nonce is spent |
| `ThreatResponse.PlannedStopIff` | cmd/ghost-ctl/threat_response.go:368-382 | A plan goes through iff there is no trie, or its entry is present and the kernel accepts every write |
| `ThreatResponse.FailedStep` | cmd/ghost-ctl/threat_response.go:377-380 | What a plan that stops at some change leaves is a step that cannot enlarge the allowlist |
| `ThreatResponse.Handler.BlockIP` | cmd/ghost-ctl/threat_response.go:356-425 | Recorded as a no-op iff already denied, as denied iff the carve went through, and not recorded otherwise; the new allowlist, a step of the concurrent run on failure, and the spent nonce |
| `ThreatResponse.Handler.ProcessAlert` | cmd/ghost-ctl/threat_response.go:267-349 | Every L4 violation is acted on, other events and scores at or below the threshold never are; with one cover, matching keys, a fresh nonce and no refused write the address is denied afterwards; the new allowlist and records otherwise |
| `ThreatResponse.ProfiledByScore` | cmd/ghost-ctl/threat_response.go:283-322 | For profiled actors acting is monotone in the score, never happens at or below the threshold, and requiring hits takes away exactly the alerts that lack them or report zero |
| `ThreatResponse.ViolationsAlwaysCount` | cmd/ghost-ctl/threat_response.go:272-277 | An L4 violation counts whatever the configuration and the records; other events never do |
| `ThreatResponse.Handler.constructor` | cmd/ghost-ctl/threat_response.go:85-104 | A threshold of zero becomes 80; nothing is blocked |
| `ThreatResponse.RecordedBlockIsFinal` | cmd/ghost-ctl/threat_response.go:316-322 | After a recorded block no profiled alert for the address is acted on, so on that path it stays allowed iff a second entry covered it |
| `ThreatResponse.Handler.UnblockIP` | cmd/ghost-ctl/threat_response.go:441-455 | The record goes in any case; the address is added iff the signed add is accepted, otherwise the allowlist is as before; the nonce is spent |
| `ThreatResponse.BlockDeniesIffSingleCover` | cmd/ghost-ctl/threat_response.go:396-407 | A block recorded as a success denies the address iff exactly one entry covered it |
| `ThreatResponse.NestedBlockLeavesAllowed` | cmd/ghost-ctl/threat_response.go:396-407 | A /31 inside a /30: blocking once leaves the address allowed |
| `ThreatResponse.UnblockAllowsOnlyTheAddress` | cmd/ghost-ctl/threat_response.go:446-449 | Unblocking allows that address and no other |
| `ThreatResponse.BlockThenUnblockRestoresIff` | cmd/ghost-ctl/threat_response.go:351-455 | Blocking an address and then unblocking it changes no address's verdict iff the address was allowed before |
| `ThreatResponse.UnblockAllowsTheNeverAllowed` | cmd/ghost-ctl/threat_response.go:384-404 | For every address that no entry covers the block changes nothing and the unblock allows it |
| `ThreatResponse.UnblockNeverExpires` | cmd/ghost-ctl/threat_response.go:446-449 | The unblock entry covers its address at every later time, whatever expiry the blocked entry had |
| `AlertFraming.FindMagic` | cmd/ghost-ctl/threat_response.go:229-231 | The first occurrence of the magic, or none |
| `AlertFraming.ExtractFrame` | cmd/ghost-ctl/threat_response.go:220-254 | Never grows the buffer, and makes no progress only when it waits |
| `AlertFraming.HandleConnection` | cmd/ghost-ctl/threat_response.go:174-215 | The loops compute the connection function for every list of reads, including empty reads and overflow |
| `AlertFraming.ClosedStaysClosed` | cmd/ghost-ctl/threat_response.go:209-213 | After an overflow no later read changes anything |
| `AlertFraming.ResyncThenMore` | cmd/ghost-ctl/threat_response.go:226-236 | Discarding unmatched bytes commutes with bytes that arrive later: a magic cut in two is not lost |
| `AlertFraming.HeaderThenMore` | cmd/ghost-ctl/threat_response.go:238-253 | A complete header or frame is read the same way whatever follows |
| `AlertFraming.StepThenMore` | cmd/ghost-ctl/threat_response.go:220-254 | Every extraction step commutes with later bytes |
| `AlertFraming.NothingIsLost` | cmd/ghost-ctl/threat_response.go:174-215 | For every split into reads and every continuation, frames dispatched plus frames still to come are the one-shot parse of the whole stream |
| `AlertFraming.ScanGrows` | cmd/ghost-ctl/threat_response.go:220-254 | More bytes only append frames to the one-shot parse |
| `AlertFraming.DrainEarly` | cmd/ghost-ctl/threat_response.go:182-190 | Draining early and again when more has arrived dispatches at least what one late drain would |
| `AlertFraming.OneReadIsWorst` | cmd/ghost-ctl/threat_response.go:182-213 | Any split that does not overflow has dispatched at least what one read of the whole stream would |
| `AlertFraming.ShortStreamStaysOpen` | cmd/ghost-ctl/threat_response.go:209-213 | A stream of at most 4 MiB never overflows, however it is split |
| `AlertFraming.OpenBufferIsBounded` | cmd/ghost-ctl/threat_response.go:209-213 | Whatever is received, the buffer of an open connection never exceeds 4 MiB |
| `AlertFraming.DispatchedIsPrefixOfScan` | cmd/ghost-ctl/threat_response.go:174-215 | At every moment, also after an overflow, the dispatched frames are a prefix of the one-shot parse |
| `AlertFraming.ScannedFramesWereSent` | cmd/ghost-ctl/threat_response.go:220-254 | On any byte stream every frame of the one-shot parse stands in it behind the magic and its own length, at most 1 MiB long, in order and without overlap |
| `AlertFraming.DispatchedFramesWereSent` | cmd/ghost-ctl/threat_response.go:174-215 | So whatever arrives in whatever reads, every dispatched frame was sent as a frame and no byte is used twice |
| `AlertFraming.EverySplitCatchesUpIff` | cmd/ghost-ctl/threat_response.go:174-215 | For a stream of at most 4 MiB: every split into reads dispatches the one-shot parse iff draining the whole stream once does |
| `AlertFraming.ResyncWaitsForARead` | cmd/ghost-ctl/threat_response.go:182-198 | One garbage byte before an empty frame: nothing is dispatched until the next read |
| `AlertFraming.ExtractOneFrame` | cmd/ghost-ctl/threat_response.go:220-254 | On any beginning of a written frame and what follows: the payload, or wait |
| `AlertFraming.WrongLengthIsSkipped` | cmd/ghost-ctl/threat_response.go:243-247 | A header with a negative number or one beyond 1 MiB is skipped up to its colon, signs included |
| `AlertFraming.NonNumberIsSkipped` | cmd/ghost-ctl/threat_response.go:243-247 | So is a header with a byte that is no digit after its first |
| `AlertFraming.EncodeLength` | agents/beta/beta.go:519-522 | A frame of at most 1 MiB has at most 13 bytes of header |
| `AlertFraming.AtoiDecimal` | agents/beta/beta.go:522 | The parser reads back the length the writer prints |
| `AlertFraming.DrainOfFrames` | cmd/ghost-ctl/threat_response.go:182-190 | Draining any beginning of a well-formed stream yields its complete payloads and a proper beginning of the next frame |
| `AlertFraming.ServeOfFrames` | cmd/ghost-ctl/threat_response.go:174-215 | The same at every moment of every split into reads of at most 64 KiB, with the connection open |
| `AlertFraming.WellFormedStreamIsDelivered` | cmd/ghost-ctl/threat_response.go:158-215 | A stream of frames, however split, is dispatched payload by payload in order, with nothing left over |
| `AlertFraming.BufferStaysBounded` | cmd/ghost-ctl/threat_response.go:165-213 | On such a stream the buffer stays below 1048576 + 13 + 65536 bytes, so the 4 MiB drop never fires |
| `Cbor.ReadArg` | auth/webauthn.go:240-267 | The cursor stays in bounds and does not move back |
| `Cbor.DecodeItem` | auth/webauthn.go:277-352 | Total on every byte string: the cursor stays in bounds, never moves back and passes every decoded item |
| `Cbor.Decoder.ReadBytes` | auth/webauthn.go:257-267 | The loop computes the big-endian number, or reports truncation without moving |
| `Cbor.Decoder.ReadArgument` | auth/webauthn.go:240-255 | The object's cursor and result are those of the function |
| `Cbor.Decoder.DecodeItemDepth` | auth/webauthn.go:277-352 | Same result and cursor as the function; depth never exceeds 32 and items decoded never exceed bytes consumed |
| `Cbor.Decoder.DecodeMap` | auth/webauthn.go:324-348 | The map loop for any declared count, with the same bounds |
| `Cbor.ReadHead` | auth/webauthn.go:281-286 | Reading a written head gives its major type and argument in every width |
| `Cbor.HeadWasRead` | auth/webauthn.go:281-286 | Every head that is read is one of the written forms |
| `Cbor.DecodeInvertsEncode` | auth/webauthn.go:277-352 | For every item within the depth limit, in any head widths and pair order, the value comes back, exactly its bytes are consumed and the rest is untouched |
| `Cbor.PairsInvertEncode` | auth/webauthn.go:325-347 | The same for the pairs of a map; a repeated key keeps its last value |
| `Cbor.DecodedWasEncoded` | auth/webauthn.go:277-352 | Whatever decodes is the encoding of an item with that value within the depth limit |
| `Cbor.DecodesIffEncoded` | auth/webauthn.go:273-352 | A byte string decodes to a value iff it begins with a well-formed encoding of it |
| `Cbor.CoseRecoversKey` | auth/webauthn.go:355-393 | Every encoding of an ES256 key on the curve, with any other entries and any suffix, gives back x and y |
| `Cbor.CoseAcceptsOnlyKeys` | auth/webauthn.go:355-393 | Every accepted byte string begins with the encoding of such a key |
| `Cbor.CoordinatesAreDetermined` | auth/webauthn.go:381-382 | The numbers determine the 32 coordinate bytes |
| `Profiler.IsVictim` | agents/beta/profiler.go:149-167 | The three clauses of the eviction test amount to "not protected"; the first never changes the outcome |
| `Profiler.RetentionLaws` | agents/beta/profiler.go:149-218 | Nothing that eviction under pressure must spare is past retention; older or lower-scored profiles go no later; nothing of at most a day goes and nothing older than a week stays |
| `Profiler.LastIsLeastRecent` | agents/beta/profiler.go:134-168 | The first unprotected profile from the back is the least recently used unprotected one |
| `Profiler.Profiler.constructor` | agents/beta/profiler.go:75-81 | An empty, consistent cache |
| `Profiler.Profiler.MoveToFront` | agents/beta/profiler.go:88-91 | The key moves to the front, the rest keeps its order, map and list stay consistent |
| `Profiler.Profiler.Get` | agents/beta/profiler.go:115-124 | The profile and a renewed recency iff it exists; otherwise nothing changes |
| `Profiler.Profiler.RemoveAt` | agents/beta/profiler.go:165-166 | List element and map entry go together |
| `Profiler.Profiler.FindVictim` | agents/beta/profiler.go:134-168 | With a clock reading per profile, the walk ends at the least recently used unprotected profile, or finds that all are protected |
| `Profiler.Profiler.EvictOne` | agents/beta/profiler.go:128-169 | Removes exactly that profile from both, or nothing iff all are protected; a removed profile has a score below 60 or was last seen seven days ago or more |
| `Profiler.Profiler.Insert` | agents/beta/profiler.go:107-109 | The new profile is in front and in the map, within the limit |
| `Profiler.Profiler.GetOrCreate` | agents/beta/profiler.go:84-112 | With clock readings per attempt and profile: it is still looping after the given attempts iff a new key meets a list at its limit in which all profiles are protected at every attempt, or a limit below one; otherwise the first successful attempt, its victim, and the whole new map, list and recency |
| `Profiler.Profiler.EvictExpired` | agents/beta/profiler.go:187-228 | Exactly the profiles last seen at most one day ago (score below 20), three days (below 60) or seven days (from 60) remain, in order, in list and map |
| `Profiler.WalkStep` | agents/beta/profiler.go:193-227 | One step of the backward walk that deletes while walking: front untouched, back filtered |
| `Hierarchy.RegisteredIsForest` | hierarchy/rbac.go:162-203 | Registration keeps child lists, parents and strictly decreasing tiers a forest |
| `Hierarchy.RegistrableIff` | hierarchy/rbac.go:166-184 | Registration of a new department is refused iff adding it would not leave a forest |
| `Hierarchy.LinkedIsForestIff` | hierarchy/rbac.go:183-189 | When key derivation fails after linking, the structure is still a forest iff the department is a root |
| `Hierarchy.DescendsByChild` | hierarchy/rbac.go:258-272 | The recursion through children is the transitive closure of the child relation |
| `Hierarchy.DescendantIsLower` | hierarchy/rbac.go:178-182 | Every descendant exists and has a strictly lower tier, so there is no cycle |
| `Hierarchy.DescendsByParent` | hierarchy/rbac.go:183 | Seen from below, a descendant's parent is the ancestor or its descendant |
| `Hierarchy.DescendsTrans` | hierarchy/rbac.go:258-272 | Descent is transitive |
| `Hierarchy.SubtreesAreDisjoint` | hierarchy/rbac.go:162-203 | No department lies under two siblings |
| `Hierarchy.CollectMembers` | hierarchy/rbac.go:329-338 | The listing contains exactly the descendants |
| `Hierarchy.CollectIsDistinct` | hierarchy/rbac.go:329-338 | The listing names no department twice |
| `Hierarchy.AccessMatchesListingIff` | hierarchy/rbac.go:212-326 | Access decisions and listing agree for a requester iff its tier is one of the four |
| `Hierarchy.AccessByTier` | hierarchy/rbac.go:205-254 | Beyond itself a root reaches everything, a director exactly its descendants, a manager exactly its children, staff nothing; only a root reaches anything that is not below it |
| `Hierarchy.UnknownTierSeesNothing` | hierarchy/rbac.go:225-227 | A department below the staff tier may access itself but does not list itself |
| `Hierarchy.AccessIsTransitive` | hierarchy/rbac.go:212-254 | Access is reflexive and transitive although each tier has its own rule |
| `Hierarchy.HierarchyTree.constructor` | hierarchy/rbac.go:133-142 | The empty hierarchy is a forest |
| `Hierarchy.HierarchyTree.RegisterDepartment` | hierarchy/rbac.go:162-203 | The new links in every case, and the forest is kept iff the call is rejected, succeeds or concerns a root |
| `Hierarchy.HierarchyTree.IsSubordinateOf` | hierarchy/rbac.go:258-272 | Terminates and equals the transitive closure |
| `Hierarchy.HierarchyTree.CanAccess` | hierarchy/rbac.go:212-254 | The decision or the error, per tier, in terms of that closure |
| `Hierarchy.HierarchyTree.CollectSubordinates` | hierarchy/rbac.go:329-338 | Appends exactly the preorder listing |
| `Hierarchy.HierarchyTree.ListVisible` | hierarchy/rbac.go:292-326 | Lists exactly the visible departments, each once |
| `AuditChain.VerifyAuditChain` | cmd/ghost-ctl/main.go:1238-1271 | Accepts iff every link is intact and no line exceeds the scanner's buffer; otherwise counts the lines before the first failure |
| `AuditChain.TailDeterminesSegment` | cmd/ghost-ctl/main.go:1247-1266 | Two verified segments with the same tail hash are the same segment |
| `AuditChain.AuditLog.constructor` | cmd/ghost-ctl/main.go:1092-1109 | A new process remembers nothing |
| `AuditChain.AuditLog.WriteAuditLine` | cmd/ghost-ctl/main.go:1156-1185 | The file gets the line unless refused; the remembered hash advances only on reported success |
| `AuditChain.AuditLog.AppendAudit` | cmd/ghost-ctl/main.go:1117-1152 | File and remembered identity after every combination of outcomes are those of the append function |
| `AuditChain.AppendKeeps` | cmd/ghost-ctl/main.go:1117-1152 | A clean append of lines within the tail window keeps every segment verified and the memory fitting the file |
| `AuditChain.AppendKeepsIff` | cmd/ghost-ctl/main.go:1117-1152 | After an append with any outcomes a later written append leaves a verified log iff the first was clean: no error reported for a written line, and no entry refused right after the genesis line of a missing file |
| `AuditChain.RotateKeeps` | cmd/ghost-ctl/main.go:1131-1145 | So does a rename rotation, with or without a new empty file |
| `AuditChain.RunStaysVerified` | cmd/ghost-ctl/main.go:1111-1271 | In every orderly run of appends, rotations and restarts every segment passes verification |
| `AuditChain.RefusalAfterGenesisBreaks` | cmd/ghost-ctl/main.go:1141-1150 | A genesis line for a missing file followed by a refused entry breaks the segment on the next append |
| `AuditChain.UnreportedWriteBreaks` | cmd/ghost-ctl/main.go:1169-1184 | A genesis line or an entry written although an error was reported breaks the segment on the next append, in every state |
| `AuditChain.UncleanMemory` | cmd/ghost-ctl/main.go:1131-1151 | After an append that is not clean the remembered identity or hash no longer fits the file |
| `AuditChain.NoLineCarriesItself` | cmd/ghost-ctl/main.go:1147 | In a verified segment no line carries the hash it has itself |
| `AuditChain.RestartContinuesIff` | cmd/ghost-ctl/main.go:1203-1233 | With lines in the file, the chain continues after a restart iff the last line fits the 64 KiB window or its two hashes agree |
| `AuditChain.GenesisLinks` | cmd/ghost-ctl/main.go:1132-1144 | After a rotation the genesis line names the tail of the previous segment |
| `AuditChain.AppendLinks` | cmd/ghost-ctl/main.go:1117-1152 | A clean append to a linked log keeps all segments linked into one history |
| `AuditChain.AppendLinksIff` | cmd/ghost-ctl/main.go:1131-1151 | A completely written append continues the history iff the file has lines, or the process remembers the tail of the segment renamed away, or nothing was ever written and none seems missing |
| `AuditChain.RotateLinksIff` | cmd/ghost-ctl/main.go:1131-1145 | A rename rotation keeps the link iff the running process has read or written the log, or the log was empty |
| `AuditChain.RestartLinksIff` | cmd/ghost-ctl/main.go:1125-1129 | A restart keeps the link iff the file has lines or nothing was ever renamed away |
| `AuditChain.RestartAfterRotationUnlinks` | cmd/ghost-ctl/main.go:1125-1147 | A restart between a rotation and the next append starts an unlinked segment, whatever was logged before |
| `AuditChain.RunStaysLinked` | cmd/ghost-ctl/main.go:1117-1152 | In every orderly run, restarts included, in which no restart comes between a rotation and the next append and no rotation between a restart and the next append, the history stays linked |
| `AuditChain.FirstEntry` | cmd/ghost-ctl/main.go:1117-1152 | The first entry of a new log is such a run, with that line as its history |
| `AuditChain.TailDeterminesHistory` | cmd/ghost-ctl/main.go:1131-1147 | The last hash determines the whole linked history, across rotations |
| `AuditChain.EqualTailsEqualHistories` | cmd/ghost-ctl/main.go:1092-1152 | Two such runs from an empty log that end with the same hash have written the same history |
| `LoginHistory.LoginTracesBack` | auth/session.go:169-216 | Every completed login presented the very code delivered to its e-mail, at most 300 seconds after; the code was sent for one verified assertion of a device registered for that e-mail, which answers one challenge drawn for that device at most 120 seconds before; in that order |
| `LoginHistory.AssertionAnswersItsChallenge` | auth/webauthn.go:129-192 | Every accepted assertion in a history is of type webauthn.get, names the text of the challenge it consumed, has the expected origin, RP hash and credential and the user-present bit, and comes within 120 seconds |
| `LoginHistory.NoChallengeTwice` | auth/webauthn.go:125-129 | With distinct draws no challenge text is accepted twice |
| `Sessions.SessionManager.NoReplay` | auth/webauthn.go:125-177 | In every run with distinct draws, no client data are accepted for two challenges |
| `LoginHistory.LoginsShareNothing` | auth/otp.go:48-77 | Two logins share neither code nor assertion nor challenge |
| `LoginHistory.LiveCount` | auth/session.go:214 | Sessions that stand for different logins are as many as the logins |
| `LoginHistory.SameLiveSameBindings` | auth/session.go:271-285 | Sessions that stand for the same logins have every e-mail, device, department and tier equally often |
| `Sessions.BindingsConserved` | auth/session.go:271-285 | So a rotation conserves, for every binding, the number of active sessions with it |
| `LoginHistory.LiveRunComposes` | auth/session.go:169-311 | Over any stretch of a run only later logins become live |
| `LoginHistory.RevokedNeedsNewLogin` | auth/session.go:299-311 | After a device's sessions are revoked, any later session of it comes from a login completed after that |
| `Sessions.CreatedTokenIsAuthentic` | auth/session.go:346-402 | A created token passes both integrity checks and expires 28800 seconds after its rotation time |
| `Sessions.PayloadPinsEnvelope` | auth/session.go:481-504 | The sealed payload determines every envelope field but the rotation time |
| `Sessions.MacAloneIsAmbiguous` | auth/session.go:452-458 | The keyed hash alone accepts a shifted e-mail and device boundary; the payload check rejects it |
| `Sessions.SwappedFieldIsCaught` | auth/session.go:447-474 | With a hash that separates its inputs, a token in which tier, department, sealed payload or one of the times was swapped no longer verifies |
| `Sessions.SessionManager.AcceptedCountersGrow` | auth/webauthn.go:194-215 | Of any two counters accepted for one registration of a device the later is larger, unless both are zero |
| `Sessions.SessionManager.constructor` | auth/session.go:120-139 | A new manager has an empty history |
| `Sessions.SessionManager.RegisterDevice` | auth/session.go:143-159 | Registered iff the e-mail is of the company and the fingerprint is not empty |
| `Sessions.CompanyEmailIff` | auth/session.go:507-513 | An e-mail is of the company iff it is a user without '@', an '@' and the domain |
| `Sessions.SessionManager.ConfigureWebAuthn` | auth/webauthn.go:66-71 | Only the relying party changes |
| `Sessions.SessionManager.BeginWebAuthnAuth` | auth/webauthn.go:90-112 | A fresh challenge, recorded with its text and time, replaces the device's pending one iff the device is registered |
| `Sessions.SessionManager.VerifyAssertion` | auth/webauthn.go:129-217 | The challenge is consumed whatever the outcome; acceptance is exactly the listed checks and stores and records the new counter |
| `WebAuthn.CheckAssertion` | auth/webauthn.go:130-212 | The checks in their order accept exactly the assertions of the acceptance predicate, whose meaning the next two rows give in both directions |
| `WebAuthn.AcceptedIsSincere` | auth/webauthn.go:130-200 | What every accepted assertion says: the pending challenge, the effective origin and RP hash, the registered credential, user present, in time, counter advanced |
| `WebAuthn.HonestAnswerIff` | auth/webauthn.go:154-217 | An answer laid out by the registered authenticator for this challenge is accepted iff it is in time, has the user-present bit, and its counter is larger than the stored one or both are zero; the defaults of RP and origin in plain text |
| `WebAuthn.AcceptedUnderRegisteredKey` | auth/webauthn.go:202-212 | An accepted assertion verifies under the coordinates of an ES256 key whose encoding begins the registered key bytes |
| `Sessions.SessionManager.ConsumeVerified` | auth/webauthn.go:129-216 | A verified assertion consumes its challenge and advances the counter |
| `Sessions.SessionManager.IssueOtp` | auth/otp.go:48-77 | A code is pending iff it was delivered; a failed delivery leaves none for that e-mail |
| `Sessions.SessionManager.CompleteWebAuthnAuth` | auth/webauthn.go:116-150 | Exactly when the assertion is accepted and when a code is sent, and the whole new state |
| `Sessions.SessionManager.CompleteAuthentication` | auth/session.go:169-216 | Exactly when a session opens, what it is bound to, and that the history records the presented text, which must be the delivered code; an expired code is dropped; when the code is lost without a session |
| `Sessions.SessionManager.OpenLogin` | auth/session.go:204-215 | Consumes the code and adds one live login |
| `Sessions.SessionManager.ValidateSession` | auth/session.go:220-253 | For the manager's own sessions the integrity checks never fail: only absence, expiry and device decide |
| `Sessions.SessionManager.Replace` | auth/session.go:271-285 | One session's token is replaced for the same login |
| `Sessions.SessionManager.RotateToken` | auth/session.go:257-288 | An expired session is dropped; any other moves to a new identifier with the same binding and a new lifetime, and the number of sessions per binding is conserved |
| `Sessions.SessionManager.RevokeSession` | auth/session.go:291-295 | Exactly that session goes |
| `Sessions.SessionManager.RevokeAllForDevice` | auth/session.go:299-311 | Exactly the device's sessions go, and no live login of it remains |
| `Sessions.SessionManager.CleanupExpiredSessions` | auth/session.go:575-590 | Exactly the sessions past their expiry go, counted |
| `Sessions.SessionManager.CollectDue` | auth/session.go:549-554 | Exactly the sessions due, each once |
| `Sessions.SessionManager.RotateExpiringSessions` | auth/session.go:542-572 | The whole new session map and the login of every session; the live logins and the number of sessions per binding are unchanged; when every draw succeeds nothing is expired or due afterwards |
| `Sessions.RotationReplaces` | auth/session.go:556-571 | A due session that gets a draw is gone, and a token for the same binding is there instead |
| `Sessions.RotationSpares` | auth/session.go:556-571 | A session that is not due is untouched |
| `Sessions.RotationKeeps` | auth/session.go:565-567 | A due session without a draw is untouched |
| `Sessions.RotatedComesFrom` | auth/session.go:556-571 | Every session afterwards is an old one that got no draw, or the replacement of a due one |
| `Sessions.SessionManager.ExpiredIsDue` | auth/session.go:549-553 | Every expired session is due for rotation |
| `Sessions.ExpiredIsRenewedIff` | auth/session.go:549-570 | After a round of the rotation loop the login of an expired session is in an unexpired session iff its draw succeeded |
| `Sessions.MoveSession` | auth/session.go:282-285 | A rotation keeps the set of live logins |
| `Sessions.ConsumeChallenge` | auth/webauthn.go:125-129 | A verified assertion consumes a challenge that nothing has consumed |
| `Sessions.ConsumeOtp` | auth/session.go:204-206 | A login consumes a code that nothing has consumed |
| `Sessions.AssertOneDeviceLoginAnother` | auth/session.go:169-216 | A whole login in plain numbers: with any two devices of one e-mail, after the assertion of the first, a login on the second succeeds iff it presents the code that was sent at most 300 seconds before, and the session lasts 28800 seconds |
| `Sessions.SessionManager.OnlyThatDeviceIff` | auth/session.go:194-202 | A pending code opens sessions on one given device only iff no other device is registered for the e-mail |
| `Nflog.NlaPut` | agents/beta/sources.go:139-147 | The attribute is padded to a multiple of four |
| `Nflog.ParseNFLOGPacket` | agents/beta/sources.go:194-219 | The loop computes the packet function, a panic included |
| `Nflog.ParseNFLOGDatagram` | agents/beta/sources.go:170-192 | The loop computes the datagram function and always advances within the buffer |
| `Nflog.ParseInvertsEncodeAttrs` | agents/beta/sources.go:200-214 | Parsing attributes built with nlaPut applies them in order, whatever follows |
| `Nflog.ParseOneMessage` | agents/beta/sources.go:172-189 | A built message in front of anything contributes exactly its packet |
| `Nflog.ParseInvertsEncode` | agents/beta/sources.go:170-192 | A datagram of built messages gives exactly the packets with an IPv4 payload, in order |
| `Nflog.DatagramReportsItsPackets` | agents/beta/sources.go:170-237 | A datagram of any built messages yields one report per packet message with an accepted payload, in order, and the report of a message that carries an IPv4 packet has its addresses, protocol and, for TCP and UDP, its transport ports, whatever the other messages and attributes are |
| `Nflog.FoldReportsIff` | agents/beta/sources.go:200-237 | With any attributes the report has addresses and protocol of the last accepted payload; the 5-tuple is right iff that payload has ports or no earlier one left any |
| `Nflog.PacketsIff` | agents/beta/sources.go:179-183 | A message is reported iff its type is 256 and some attribute of type 9 passes the header check |
| `Nflog.SecondPayloadKeepsPorts` | agents/beta/sources.go:207-214 | A TCP payload followed by an ICMP payload is reported as the second packet with the ports of the first |
| `Nflog.ParseInvertsEncodeIpv4` | agents/beta/sources.go:222-237 | The 5-tuple of every well-formed IPv4 packet; ports for TCP and UDP only |
| `Nflog.LastPrefixIsReported` | agents/beta/sources.go:208-209 | The report carries the text of the last prefix attribute, up to its first zero byte, whatever other attributes there are |
| `Nflog.AcceptedIsIpv4Iff` | agents/beta/sources.go:222-229 | Bytes that the header check accepts are those of an IPv4 packet iff the length field is at least five words |
| `Nflog.ShortHeaderPorts` | agents/beta/sources.go:226-236 | With a length field of zero the ports reported are the first bytes of the header |
| `Nflog.AlignedAttrsAreSafe` | agents/beta/sources.go:213 | On attributes of a length divisible by four the slice never leaves them, whatever they contain |
| `Nflog.PanicsIff` | agents/beta/sources.go:200-214 | On every byte string the loop slices past its end iff following the declared lengths reaches an attribute that fits while its padding does not |
| `Nflog.UnpaddedTailPanicsIff` | agents/beta/sources.go:213 | With an unpadded last attribute the slice leaves them iff padding was needed |
| `Nflog.FiveByteAttributePanics` | agents/beta/sources.go:194-213 | The smallest message body for which it does |
| `Nflog.DatagramPanicsIff` | agents/beta/sources.go:170-214 | On every datagram the reader panics iff following the message lengths reaches a complete packet message with such attributes |
| `Nflog.ShortDatagramPanics` | agents/beta/sources.go:170-214 | A datagram of 25 bytes for which it does |
| `Ipam.Allocator.constructor` | cmd/ghost-ctl/ipam.go:58-116 | The loaded allocator is consistent iff the rows are on distinct subnets other than 0 |
| `Ipam.LoadedIsConsistentIff` | cmd/ghost-ctl/ipam.go:77-116 | The same about any bitmap built from the rows |
| `Ipam.OwnersAreRows` | cmd/ghost-ctl/ipam.go:91-113 | The owners are exactly the rows that are not skipped |
| `Ipam.Allocator.Allocate` | cmd/ghost-ctl/ipam.go:120-157 | A known department keeps its subnet, a new one gets the lowest free one, and none is given iff all 255 are taken |
| `Ipam.Allocator.Release` | cmd/ghost-ctl/ipam.go:160-178 | Exactly that department's subnet is free again |
| `Ipam.Allocator.AvailableSubnets` | cmd/ghost-ctl/ipam.go:217-228 | Free and allocated subnets make up 255 |
| `Ipam.Allocator.ValidateNoConflict` | cmd/ghost-ctl/ipam.go:232-252 | Accepted iff inside the pool, not in subnet 0 and not in a taken subnet |
| `Ipam.UsedCount` | cmd/ghost-ctl/ipam.go:221-227 | As many subnets are taken as there are departments |
| `Ipam.SubnetIsRange` | cmd/ghost-ctl/ipam.go:193-202 | A subnet is exactly its 256 addresses |
| `Ipam.RowLiesInItsSubnet` | cmd/ghost-ctl/ipam.go:98-109 | A row belongs to a subnet iff its container address lies in it, and to none outside the pool |
| `Ipam.ReloadRestores` | cmd/ghost-ctl/ipam.go:77-116 | Loading the rows with the container addresses of the allocations gives back the allocations |
| `Ipam.DepartmentsAreDisjoint` | cmd/ghost-ctl/ipam.go:118-157 | Distinct departments have disjoint subnets |

## Left out

- AllowlistManager.Manager.ApplyUpdate: flush is modelled by its outcome (it never returns unless the allowlist is empty); what it would remove without the second lock is `ClearAll`.
- AllowlistManager.Manager.RemoveIP: the refused write is identified for canonical allowlists in agreement with the trie; otherwise a missing key can be the cause as well.
- AllowlistManager.Manager.CarveEntriesLocked: with a loaded trie, what a failed carve restores is stated for canonical text and a map in agreement with the trie, because removal of a missing key fails otherwise.
- Profiler.Profiler.GetOrCreate: scores and last accesses do not change while the call loops, although their own locks would allow it.
- Sessions.SessionManager.IssueOtp: a failing random source, which rejects the call before any change, is not an outcome here; the same holds for `BeginWebAuthnAuth` and for the nonce of a signed update.
- Sessions.SessionManager.AcceptedCountersGrow: speaks of one registration; registering a device again replaces its counter.
- Ed25519, ECDSA, AES-GCM, HMAC and SHA-256, curve arithmetic, JSON, base64 and hex: replaced by abstract functions or by values.
- Sockets, netlink configuration, perf and audit readers, BPF loading and the XDP program's counters: system interfaces.
- The IPv6 trie and IPv4 addresses written as IPv6 text, including prefix lengths above 96 in such text: the manager never writes the IPv6 trie.
- The second return of `PlanIPRemoval` for callers other than blocking, `ListAllowlist`, `HasEntry` and other read-only accessors: they only copy state.
- Locks: every method runs alone; only the gap between planning a block and applying it is interleaved.
- Aliasing of entries: the map holds values, while the program stores pointers into the update and into rollback copies.
- The TTP and tool details of an alert, which the handler collects and drops, and an empty source address as distinct from other text that is not an IP.
- Sub-second parts of time stamps, monotonic clock readings, and a second that passes between two entries of one update.
- Partial and interleaved audit writes, an audit file created by a write that then fails, truncation in place, blank lines in the log, and several writing processes.
- `AuditEntry` fields other than the previous hash, the action and its details.
- Profile fields other than score and last access, scoring, and the profile's own lock.
- Department names, isolation keys, UID ranges, container PIDs and `GetDepartment`'s copy.
- SQL persistence of allocations, whose errors the allocator ignores, and the address strings built from a subnet index.
- `StartTokenRotationLoop`'s ticker, the attestation fields other than credential and counter, and the SMTP sender.
- Namespaces, mounts, cgroups, LUKS, Layer 2, agent alpha, TTP tables, dashboards and deployment scripts: system commands or data tables.
