# Verified models of cifsd

cifsd is an SMB server that runs inside the Linux kernel. This project models the stateful and
algorithmic parts of it in Dafny and proves what they keep, over every run or every input. Kernel calls
(the file system, POSIX locks, waiting, crypto) are parameters or nondeterministic steps.

* **Oplocks and leases.** `Oplock` is one `oplock_info` as a value: granting, breaking, acknowledging,
  timing out. `OpInfos` is the same object, and the inode that lists such objects, updated in place.
  `OplockRuns` is one inode as a state machine: opens, any number of concurrent breaks, acknowledgements,
  timeouts and closes in any order. `OplockSteps` spells out what each of its steps grants, offers and leaves.
  `LeaseRuns` proves level/state agreement and shrinking over its runs.
  `LeaseTable` is the index of leases by client GUID and key; `Refcount` the references to opinfos under
  every interleaving.
* **Wildcards.** `Glob` relates the greedy backtracking matcher to a declarative relation, exactly.
* **QUERY_DIRECTORY.** `Paging` relates paging, rewinding and buffer accounting to a plain filter.
* **Byte-range locks.** `Locks` is `smb2_lock` over the global and the rollback list, with deferral,
  retry, cancel and close, while other requests use the global list and may unlock this one's granted locks.
* **ASN.1 and SPNEGO.** `Ber` is the decoder, `Oid` object identifiers, `Der` definite lengths, `NegToken`
  the `negTokenInit` decoder, `Spnego` the response builder; `Octets` spells out what they read and write.
* **DACLs.** `Dacl` parses a DACL into mode bits, `DaclBuild` builds one from a mode; both work on bytes;
  `DaclRights` says what an access mask means as a number.
* **Per-connection SMB2 bookkeeping.** `Preauth` is the 3.1.1 hash chain, `Credits` the credit account,
  `Compound` the layout of compound responses.

`Basics`, `Buffers` and `Arith` hold shared definitions and lemmas about bytes, writing in place and
remainders.

Code that changes an object is a class whose methods are proved equal to functions on values; the
theorems over runs are about those functions. Where a property does not hold of the code on all inputs,
a lemma shows inputs on which it fails and another states exactly when it holds:

* Single writer is lost through attribute-only opens that find a writer, and through a holder that answers
  the offer made for an open that is to be granted with HANDLE caching alone. `OplockRuns.ScopeIsExact` shows
  that each such event leads to a second holder and that nothing else does.
* Level/state agreement survives every lease acknowledgement; it is lost exactly through plain
  acknowledgements that are sent to a lease and do not fit its offer (`LeaseRuns.AgreementNext`). Of the
  accepted lease acknowledgements only HANDLE alone does not shrink the lease (`LeaseRuns.ShrinkNext`).
* A refused lease acknowledgement leaves the reference that its lookup took (`OpInfos.OpInfo.LeaseBreak`,
  `Refcount.LeaseBreakBalance`); the opinfo is then never freed (`Refcount.RefusalKeeps`).
* `match_pattern` fails on some string for every pattern that ends in two stars, and on no string for any
  other (`Glob.ExactPatterns`); `Glob.AnswerIsExact` gives the pattern it really matches.
* QUERY_DIRECTORY reports the end of a directory too early exactly when the request leaves no byte of room
  for entries and no reserved entry is due (`Paging.EndIsExact`).
* A lock request that waits can lose locks it was granted: another request on the same file may unlock them.
  Its entries on the global list equal its rollback list exactly when no answer it used lets another request
  unlock a lock that an earlier answer granted (`Locks.AllOrNothingExact`).
* An authenticate request finds a hash exactly when its session has negotiated and neither authenticated nor
  failed a setup since (`Preauth.KeyHash`).
* A reserved directory entry is sent again exactly when it filled the room to the last byte
  (`Paging.DotsRepeatExact`).
* Object identifier arcs below 2^64 are not enough for a round trip: the first two arcs share one 64-bit
  number (`Oid.DecodeEncode`).
* The SPNEGO builder writes the outer length in a field as wide as the inner one needs; for lengths just
  below a change of width the response cannot be decoded (`Spnego.NegBlobExact`).
* A mode survives the DACL round trip, with what other has spread to everybody, exactly when the owner
  and group SIDs match neither each other nor a well-known SID (`DaclBuild.RoundTripExact`).
* A credit charge above the total is not refused and takes the total below zero (`Credits.StepExact`).

## Model

| member | source | states |
|---|---|---|
| `Oplock.GrantsAgree` | oplock.c:570-642 | every grant, full, none or stacked on another holder, gives a lease whose state agrees with its level; a stacked grant never has a write level |
| `Oplock.BreaksAgree` | oplock.c:730-908 | offering, downgrading without an acknowledgement, timing out and closing each keep agreement |
| `Oplock.LeaseAckExact` | smb2pdu.c:6681-6802 | every lease acknowledgement keeps agreement; an accepted one leaves exactly the acknowledged state, strictly below the old one and within the offer, unless it is HANDLE alone; HANDLE alone and any that is not accepted change neither state nor level |
| `Oplock.PlainAckExact` | smb2pdu.c:6565-6679 | a plain acknowledgement addressed to a lease keeps agreement iff it fits the offer; every accepted one ends the write level |
| `OpInfos.OpInfo.constructor` | oplock.c:37-62 | a new opinfo has no level, is idle, and holds the requested lease state |
| `OpInfos.OpInfo.SetOplockLevel` | oplock.c:1033-1051 | the object becomes what the grant function says |
| `OpInfos.OpInfo.WriteToRead` | oplock.c:196-222 | the change is made iff the level is a write level, and takes the lease to the offered state |
| `OpInfos.OpInfo.ReadHandleToRead` | oplock.c:230-237 | the change is made whatever the level |
| `OpInfos.OpInfo.WriteToNone` | oplock.c:245-271 | the change is made iff the level is a write level |
| `OpInfos.OpInfo.ReadToNone` | oplock.c:279-302 | the change is made iff the level is LEVEL_II |
| `OpInfos.OpInfo.OplockBreak` | smb2pdu.c:6565-6679 | the object changes as the plain acknowledgement function says; success is reported iff the acknowledgement was awaited, and which of the two refusals it is otherwise |
| `OpInfos.OpInfo.CheckLeaseState` | smb2pdu.c:6681-6694 | accepts the offered state, or any state without WRITE when RH was offered, and then takes it as the new offer |
| `OpInfos.OpInfo.LookupLease` | oplock.c:1695-1716 | the opinfo is held iff it is live, awaits an acknowledgement and has the key; otherwise its count is unchanged |
| `OpInfos.OpInfo.TakeLeaseAck` | smb2pdu.c:6744-6801 | the change an acknowledgement that passed the checks leads to, and whether it succeeds |
| `OpInfos.OpInfo.LeaseBreak` | smb2pdu.c:6702-6802 | the object changes as the lease acknowledgement function says; under agreement success is reported iff the acknowledgement is taken; the gets and puts made, and one more reference held iff the acknowledgement of a lease that was found is not taken |
| `OpInfos.OpInfo.BreakEnter` | oplock.c:826-838 | counts the break, and says whether an earlier one is unanswered |
| `OpInfos.OpInfo.BreakOffer` | oplock.c:840-892 | the offer made, whether an acknowledgement is needed, and the downgrade made at once when it is not |
| `OpInfos.OpInfo.WaitExpired` | oplock.c:730-746 | an expired wait takes level and lease to nothing |
| `OpInfos.OpInfo.MarkClosed` | oplock.c:381-389 | a close during a break marks the opinfo as closing and clears its break count |
| `OpInfos.CifsdInode.AddGranted` | oplock.c:1164-1173 | the granted opinfo goes to the head of the list and is counted |
| `OpInfos.CifsdInode.GrantBegin` | oplock.c:1064-1134 | which opens are granted at once and with what, which are refused, and which must break the head first: the decision the runs are built on |
| `OpInfos.CifsdInode.GrantShared` | oplock.c:1145-1165 | an opener that shares the file gets the stacked grant |
| `OpInfos.CifsdInode.GrantEnd` | oplock.c:1136-1173 | after the break: the full grant if the holder closed, the stacked one otherwise, as in the runs |
| `OpInfos.CifsdInode.CloseOpinfo` | oplock.c:368-393 | the opinfo leaves the list, the others keep their order, the count stays the length |
| `OplockRuns.NextKeeps` | oplock.c:817-1179 | a step keeps the invariant behind single writer iff it is in scope: no attribute-only open onto a writer, no HANDLE-only answer to the offer made for an open that is to be granted |
| `OplockRuns.ScopeIsExact` | oplock.c:817-1179 | the scope is exact for single writer itself: an event in scope keeps it, and after one out of scope at most three steps of the server lose it |
| `OplockRuns.SingleWriterAlways` | oplock.c:1064-1179 | over every run in scope, a holder of EXCLUSIVE or BATCH is alone on the list |
| `OplockRuns.PlainScope` | oplock.c:1097-1100 | runs without attribute-only opens and HANDLE-only acknowledgements are in scope from any state |
| `OplockRuns.SingleWriterFromStart` | oplock.c:1064-1179 | the same from an unopened inode, in terms of what clients send only |
| `OplockRuns.CloseDuringBreak` | oplock.c:902-905 | when the holder closes instead of answering, the waiting open is alone on the list with the full level and lease state it asked for |
| `OplockRuns.HandleOnlyBreaks` | smb2pdu.c:6681-6694 | after every HANDLE-only answer out of scope, whatever the break count, three steps grant the waiting open beside a holder that still caches writes |
| `OplockRuns.HandleOnlyReachable` | oplock.c:1064-1179 | two opens of an unopened inode lead to a state with such an answer |
| `OplockRuns.AttributeOpenHides` | oplock.c:1097-1100 | an attribute-only open onto a writer lets the next open in without a break |
| `OplockSteps.OpenAlone` | oplock.c:1064-1095 | the first open of an inode gets the level and lease state it asked for, spelled out for each request |
| `OplockSteps.OpenBeside` | oplock.c:1097-1165 | an open of a listed inode: nothing for attribute-only opens; when it is refused; beside a head that is no writer, LEVEL_II and R for a lease beside a plain holder, LEVEL_II and R plus the requested H for one that asks for something and is not a plain open beside a lease with HANDLE, and otherwise nothing; behind a writer it waits |
| `OplockSteps.OpenResumes` | oplock.c:1136-1173 | after the break: what was asked for if the holder closed, refusal on a sharing violation, and otherwise the shared grant as above |
| `OplockSteps.BreakOffers` | oplock.c:840-892 | a broken lease is offered one caching right less, or nothing for a truncating open; what it keeps until it answers, and when it is waited for |
| `OplockSteps.BreakAsks` | oplock.c:513-559 | a broken plain writer keeps its level and is waited for, LEVEL_II is lost at once |
| `OplockSteps.BreakQueues` | oplock.c:826-838 | a break of a lease that has not answered an earlier one only waits for that answer |
| `OplockSteps.SecondOffer` | oplock.c:840-892 | once the earlier break is answered, the later one makes the offer a first break would make |
| `OplockSteps.BreakApplies` | oplock.c:1187-1272 | which opinfos a break applies to |
| `OplockSteps.BreakProceeds` | oplock.c:730-746 | what a break waits for at each stage |
| `OplockSteps.PlainAnswer` | smb2pdu.c:6565-6679 | LEVEL_II named by a plain writer leaves LEVEL_II, any other awaited answer nothing |
| `OplockSteps.LeaseAnswer` | smb2pdu.c:6681-6802 | which answers to a lease break are taken, and the state and level each leaves |
| `OplockSteps.UnawaitedAnswer` | smb2pdu.c:6725-6730 | an answer nobody awaits changes nothing |
| `OplockSteps.WaitExpires` | oplock.c:730-746 | an expired wait leaves no level and no caching rights |
| `OplockSteps.Closes` | oplock.c:368-393 | a close takes the opinfo off the list and marks one whose break is awaited |
| `LeaseRuns.AgreementNext` | oplock.c:570-642 | a step keeps level/state agreement of every lease iff it is not a plain acknowledgement that is taken by a lease and does not fit its offer |
| `LeaseRuns.AgreementAlways` | oplock.c:730-908 | over every run of such steps, whatever leases are acknowledged with: W and H iff BATCH, W without H iff EXCLUSIVE, R without W iff LEVEL_II, nothing iff NONE |
| `LeaseRuns.AgreementFromStart` | oplock.c:1441-1453 | the same from an unopened inode, for every run in which plain acknowledgements go to plain oplocks |
| `LeaseRuns.PlainAckDisagrees` | smb2pdu.c:6565-6679 | a run from an unopened inode after which a lease has no level but caches reads and handles |
| `LeaseRuns.ShrinkNext` | oplock.c:840-866 | no step widens a lease, and a completed break strictly shrinks it iff it was not answered with HANDLE alone |
| `LeaseRuns.ThreeBreaksSuffice` | oplock.c:840-866 | over every run, breaks completed other than by HANDLE alone and remaining caching bits together never exceed the initial bits, so three such breaks take any lease to nothing |
| `LeaseTable.AddedExact` | oplock.c:1007-1031 | indexing a lease keeps the index invariant iff its key is not in use for another inode |
| `LeaseTable.RemovedKeeps` | oplock.c:179-188 | a close removes exactly its own entry and keeps the invariant |
| `LeaseTable.DroppedKeeps` | oplock.c:910-938 | destroying tables removes exactly the entries of the client and keeps the invariant |
| `LeaseTable.AlwaysIndexed` | oplock.c:910-1031 | over every run of opens, closes and destructions: distinct GUIDs, every entry in its own client's table, same GUID and key only on the same inode |
| `LeaseTable.ClashIsLocal` | oplock.c:940-992 | under the invariant the client's own table decides whether a key is in use anywhere |
| `LeaseTable.Index.FindTable` | oplock.c:956-960 | finds the first table of the client |
| `LeaseTable.Index.FindSameLeaseKey` | oplock.c:940-992 | reports exactly when the key is in use for another inode anywhere in the index |
| `LeaseTable.Index.AddLeaseGlobalList` | oplock.c:1007-1031 | the entry goes into its client's table, or into a new one |
| `LeaseTable.Index.CheckThenGrant` | smb2pdu.c:2651-2665 | check and grant keep the invariant, and refuse exactly on a clash |
| `LeaseTable.Index.LeaseDelList` | oplock.c:73-80 | the lease of an open goes from the one table it is in, which is all a close has to do |
| `LeaseTable.Index.DestroyLeaseTable` | oplock.c:910-938 | exactly the tables of the client go |
| `Refcount.Opinfo.TryGet` | oplock.c:132-143 | a reference is taken iff the count is not zero |
| `Refcount.Opinfo.Release` | oplock.c:162-168 | a put schedules the release iff the count reaches zero |
| `Refcount.AlwaysSound` | oplock.c:132-188 | the reference and list invariant holds after every interleaving |
| `Refcount.ReferenceSafety` | oplock.c:132-188 | the count is the undropped list reference plus the references held; an opinfo is freed at most once, and then off the list and unheld |
| `Refcount.OpCount` | oplock.c:1168-1171 | op_count is the length of the list plus the opens and closes between their two steps |
| `Refcount.HeldIsBalance` | oplock.c:132-168 | the references held are those taken less those put, over every run |
| `Refcount.ReleasedExact` | oplock.c:162-168 | a closed opinfo is released iff every reference taken was put; otherwise it is never freed |
| `Refcount.LeaseBreakBalance` | smb2pdu.c:6702-6802 | the gets and puts of the lease break handler leave one more reference held iff the acknowledgement of a lease that was found is refused, and otherwise as many as before |
| `Refcount.RefusalKeeps` | smb2pdu.c:6725-6745 | after a refusal the opinfo is never freed, if from then on threads put no more references than they take and held |
| `Glob.MatchPattern` | misc.c:75-112 | the loop ends on every string and pattern and returns the answer of its recursive specification |
| `Glob.ForgetOlderStar` | misc.c:87-93 | once a new star is reached, earlier stars can be forgotten |
| `Glob.AnswerIsSound` | misc.c:75-112 | an answer of true means the string matches the pattern declaratively |
| `Glob.AnswerIsExact` | misc.c:75-112 | for every pattern, the answer is true iff the string matches the effective pattern, which differs from the pattern only in two or more final stars |
| `Glob.TwoFinalStarsFail` | misc.c:109-111 | for every pattern that ends in two stars, its shortest match is answered false |
| `Glob.ExactPatterns` | misc.c:75-112 | a pattern is answered as declared for all strings iff it does not end in two stars |
| `Glob.PlainMatch` | misc.c:75-112 | a pattern without stars matches the strings of its length that equal it up to case where it has no question mark |
| `Glob.StarMatch` | misc.c:87-93 | a star matches every string |
| `Glob.MatchConcat` | misc.c:75-112 | a pattern of two parts matches exactly the strings made of a match of each, so the declared relation is determined |
| `Paging.Populate` | misc.c:326-356 | an entry is appended with its offset iff it fits, otherwise the room is marked as used up; in the finished buffer `Linked` fixes its size |
| `Paging.ChainedLinks` | smb2pdu.c:3019-3025 | entries laid out one after the other are linked once the last link is cleared: each but the last is followed at the first multiple of 8 past its fixed part and its UTF-16 name, and the last ends within the room |
| `Paging.DirFile.Refill` | smb2pdu.c:3201-3219 | the page is refilled with any batch of records that fits; nothing is lost |
| `Paging.DirFile.TakeRecord` | smb2pdu.c:3221-3231 | steps over exactly one record |
| `Paging.RecordsApart` | smb2pdu.c:3229-3231 | records in the page do not overlap: each starts at the first multiple of 8 past the 24 bytes and the name of the one before |
| `Paging.DirFile.NextRecord` | smb2pdu.c:3201-3231 | hands out the next pending name, or reports the end exactly when none is pending |
| `Paging.DirFile.Rewind` | smb2pdu.c:3271-3272 | puts the last record back |
| `Paging.PopulateDot` | smb_common.c:329-350 | a reserved entry is written iff it was not sent, matches and fits; the room left; it then counts as sent, and the next is looked at, iff room is left |
| `Paging.DirFile.PopulateDots` | smb_common.c:313-354 | the reserved entries that match and were not sent are written as far as they fit; the room left, and which count as sent |
| `Paging.Consider` | smb2pdu.c:3233-3266 | a name is skipped iff it is not listed; a listed one is written if it fits, and otherwise the room is marked as used up |
| `Paging.DirFile.Treat` | smb2pdu.c:3233-3272 | what a turn does with the record it fetched, with the rewind |
| `Paging.DirFile.Step` | smb2pdu.c:3197-3272 | one turn with its rewind is one step of writing the listed names as far as they fit |
| `Paging.DirFile.Scan` | smb2pdu.c:3197-3272 | exactly the listed names that fit are written, in order, one of them if a single entry was asked for; the names left and the room left are what remains |
| `Paging.Finish` | smb2pdu.c:3274-3298 | the end is reported iff nothing was written and no name lacked room, and which of the two end statuses it is; the last entry's link becomes zero |
| `Paging.DirFile.QueryDir` | smb2pdu.c:3165-3298 | whatever the page holds and the file system reads, the status, the names returned and where the listing then stands are those of a listing without pages; the entries are linked as above and end within the room |
| `Paging.Session` | smb2pdu.c:3165-3298 | over any sequence of calls, sizes, flags and readdir batches each response is that of the listing without pages, and the names in the responses, the reserved ones aside, followed by those not yet returned are the readable, unvetoed, matching names in order, none lost or repeated |
| `Paging.SelectExact` | smb2pdu.c:3233-3256 | the plain filter keeps exactly the names that can be read, are not `.` or `..`, are not vetoed and match the pattern declaratively, as the matcher applies it |
| `Paging.ReservedExact` | smb_common.c:325-340 | which of the two reserved entries are due, and in what order |
| `Paging.SentExact` | smb_common.c:341-348 | which reserved entries count as sent after a request |
| `Paging.WhichEnd` | smb2pdu.c:3274-3284 | which of the two end statuses is returned |
| `Paging.ServesConserves` | smb2pdu.c:3165-3298 | the listing without pages loses and repeats no name over any sequence of requests |
| `Paging.Progress` | smb2pdu.c:3197-3268 | with room left after the reserved entries a request returns a listed name iff the first one left fits |
| `Paging.EndIsExact` | smb2pdu.c:3274-3286 | the end is reported iff no reserved entry is due and either there is room and no name is left, or there is exactly no room |
| `Paging.EndTooEarly` | smb2pdu.c:3274-3286 | an end reported with a name left |
| `Paging.DotsRepeatExact` | smb_common.c:341-348 | a reserved entry is written and yet not counted as sent iff it fills the room exactly; it is then due again |
| `Paging.EndMeansAll` | smb2pdu.c:3274-3286 | a client told the end by a request that has room was given every listed name |
| `Paging.EnoughCalls` | smb2pdu.c:3165-3298 | as many requests with enough room as there are names return them all |
| `Locks.OverlapsExcept` | smb2pdu.c:5917-5921 | the overlap test is exact but for ranges that reach beyond the held one on both sides |
| `Locks.LockTable.Conflicts` | smb2pdu.c:5872-5927 | reports exactly when an entry of the global list stands in the way |
| `Locks.BlocksExact` | smb2pdu.c:5872-5927 | an entry stands in the way iff it is on the same inode, meets the range, and is of the same open while the new lock is exclusive, or is an exclusive lock of another open |
| `Locks.FailNowExact` | smb2pdu.c:5863-5927 | a fail-immediately lock is refused iff such an entry is on the list, without asking the kernel; otherwise it succeeds when the kernel grants it |
| `Locks.OneLockExact` | smb2pdu.c:5943-6029 | how a request for one lock ends for each answer of the kernel and each way of waking, and whether its lock stays on the lists |
| `Locks.MeanwhileOne` | smb2pdu.c:5877-5889 | what other requests make of the list during one wait |
| `Locks.LockTable.Answered` | smb2pdu.c:5943-6029 | for each answer of the kernel: the status, the rollback list, and the request's entries of the global list, which are its rollback list without the locks others unlocked |
| `Locks.LockTable.Take` | smb2pdu.c:5943-6029 | the same through any number of deferrals and retries, as the answers decide |
| `Locks.LockTable.TakeNext` | smb2pdu.c:5849-6030 | one element of the request, with its flags and its conflicts |
| `Locks.LockTable.Rollback` | smb2pdu.c:6043-6066 | undoes every entry of the request and no other |
| `Locks.LockTable.SmbLock` | smb2pdu.c:5849-6066 | the status is the one that flags, conflicts and answers decide; on success the request's entries are its locks in order, without those that others unlocked; on failure other than a closed file there are none and the list is what other requests made of it |
| `Locks.AnswerMirrors` | smb2pdu.c:5877-5889 | one answer keeps the request's entries of the global list equal to its rollback list iff no granted lock of it is unlocked meanwhile |
| `Locks.AllOrNothingExact` | smb2pdu.c:5849-6066 | over a whole request the locks put on the list are all there iff no answer used lets another request unlock a lock granted by an earlier answer |
| `Locks.LostExact` | smb2pdu.c:5877-5889 | which locks a request loses, in terms of the answers alone |
| `Locks.UntouchedLosesNone` | smb2pdu.c:5877-5889 | none is lost when no other request unlocks a lock of this one |
| `Locks.GrantedLockLost` | smb2pdu.c:5877-5889 | a request that succeeds with only its second lock on the list |
| `Locks.SuccessExact` | smb2pdu.c:5849-6030 | a request succeeds iff each of its locks has good flags, is not in conflict with the list as it then stands if it fails immediately, and has a grant as its final answer |
| `Ber.HeaderAt` | asn1.c:193-216 | whatever the octets, a decoded header takes two or more and its contents end inside the buffer; a primitive header is definite |
| `Octets.HeaderRead` | asn1.c:193-216 | how the first two octets of a header with a low tag are read, the indefinite form included |
| `Octets.LongLengthRead` | asn1.c:157-191 | lengths of one and two octets in the long form |
| `Octets.HighTagRead` | asn1.c:121-135 | tags above 30 of one and two octets |
| `Ber.Ctx.constructor` | asn1.c:101-108 | the context starts at the first octet |
| `Ber.Ctx.OctetDecode` | asn1.c:110-119 | an octet is read iff there is one |
| `Ber.Ctx.TagDecode` | asn1.c:121-135 | a tag ends at the first octet without its high bit and is its base-128 value in 32 bits |
| `Ber.Ctx.IdDecode` | asn1.c:137-155 | class, method and tag of an identifier |
| `Ber.Ctx.LengthDecode` | asn1.c:157-191 | short, long and indefinite lengths, refused when longer than what is left |
| `Ber.Ctx.HeaderDecode` | asn1.c:193-216 | decodes the header at the pointer and leaves the pointer inside the buffer |
| `Ber.Ctx.EocDecode` | asn1.c:218-246 | the end of contents is found iff it is there; octets read for the indefinite form stay read |
| `Ber.Ctx.SubidDecode` | asn1.c:248-263 | a sub-identifier is its base-128 value in 64 bits |
| `Oid.OidDecode` | asn1.c:265-320 | decodes exactly the arcs of the contents into an array of one cell more than there are octets |
| `Oid.MoreArcs` | asn1.c:305-318 | every arc is stored inside the array: the test for too many arcs never holds |
| `Oid.DecodeEncode` | asn1.c:265-320 | decoding the X.690 section 8.19 encoding gives the arcs back iff every sub-identifier is below 2^64 |
| `Oid.SecondArcWraps` | asn1.c:291-300 | 2.(2^64-80) reads back as 0.0 |
| `Octets.StandardExample` | asn1.c:265-320 | the encoding used in the round trip gives the octets of the example in X.690 section 8.19.5 |
| `NegToken.CompareOid` | asn1.c:322-336 | equality of arc lists |
| `NegToken.NoteMech` | asn1.c:439-451 | notes exactly the mechanism the arcs name |
| `NegToken.DecodeList` | asn1.c:430-458 | the loop over the mechanism list ends on every buffer, past its end or with the indefinite form included, with the pointer inside the buffer |
| `NegToken.DecodeNegTokenInit` | asn1.c:340-493 | ends on every byte string and decodes what the specification function says |
| `NegToken.MessageDecodes` | asn1.c:340-493 | for every list of mechanisms and every token, decoding the well-formed message notes exactly the listed mechanisms and keeps exactly the token |
| `Der.HdrLenBytes` | asn1.c:563-575 | the number of octets that hold the length, and no fewer would |
| `Der.LengthBack` | asn1.c:157-191 | a length field reads back iff it is wide enough |
| `Spnego.EncodeAsnTag` | asn1.c:577-612 | writes the two headers and nothing else, and advances the offset past them |
| `Spnego.BuildNegBlob` | asn1.c:614-653 | for every blob the final offset is the computed total, and the buffer is exactly the wrapped items |
| `Spnego.UnwrapExact` | asn1.c:577-612 | two headers decode back to both tags, both lengths and the payload iff the outer length needs no wider field |
| `Spnego.ResponseExact` | asn1.c:614-653 | the same for any list of items under a main header |
| `Spnego.NegBlobExact` | asn1.c:614-653 | the built response decodes back iff neither the blob's nor the body's length outgrows its field |
| `Spnego.SameWidthMeans` | asn1.c:563-575 | the lengths that do |
| `Octets.LengthSpelled` | asn1.c:577-612 | the octets of every length below 2^24 |
| `Octets.NtlmsspOctets` | asn1.c:75-81 | the mechanism octets the builder writes encode the arcs the decoder looks for |
| `Octets.KerberosOctets` | asn1.c:72-81 | the encoding of the Kerberos identifier |
| `Octets.KerberosU2uOctets` | asn1.c:72-81 | the encoding of the Kerberos user-to-user identifier |
| `Octets.MsKerberosOctets` | asn1.c:72-81 | the encoding of the Microsoft Kerberos identifier |
| `Octets.ResponseSpelled` | asn1.c:614-653 | the whole response octet by octet for tokens of up to 102 octets: accept-incomplete, the mechanism, the token |
| `Dacl.CompareSids` | cifsacl.c:168-212 | zero iff the SIDs agree up to the shorter list of sub-authorities |
| `Dacl.AccessFlagsToMode` | cifsacl.c:692-742 | a grant sets the named bits still in the mask, a denial takes them out of it |
| `Dacl.ApplyAce` | cifsacl.c:799-818 | one ACE changes mode and masks as its rule says |
| `Dacl.FoldDacl` | cifsacl.c:796-828 | the loop reads each ACE where the size of the one before leads and folds it in |
| `Dacl.ParseDacl` | cifsacl.c:744-832 | without a DACL every permission bit is set; otherwise the mode becomes the fold of the ACEs read, or stays when the DACL is said to reach past the end |
| `Dacl.FirstMatch` | cifsacl.c:692-828 | for every ACE list, which user, group and other bits end up set, in terms of the first ACE that matches |
| `DaclRights.SaysMeans` | cifsacl.c:713-742 | which access masks, as 32-bit numbers, name read, write and execute, by generic or file rights |
| `DaclRights.SingleAce` | cifsacl.c:724-742 | one ACE for everybody sets exactly the bits its mask means iff it is of type 0 |
| `DaclRights.DenialFirst` | cifsacl.c:706-720 | a type 1 ACE for everybody takes exactly the bits its mask means from a grant of all that follows it |
| `DaclRights.SingleOwnAce` | cifsacl.c:799-808 | an ACE for the owner or the group alone sets only the bits of that class |
| `DaclRights.AceLayout` | cifsacl.c:796-828 | where the fields of an ACE are read |
| `DaclBuild.ModeToAccessFlags` | cifsacl.c:290-312 | the mask has the rights of exactly the permissions the selected bits give |
| `DaclBuild.FillAceForSid` | cifsacl.c:314-339 | the ACE is written just after what was written before, and nothing else changes |
| `DaclRights.BuiltMasks` | cifsacl.c:290-327 | the mask written for each of the eight permission triples, as a number |
| `DaclBuild.SetChmodDacl` | cifsacl.c:341-360 | the size, the count and the three ACEs stand in the buffer, the rest of which is unchanged |
| `DaclBuild.ReadBack` | cifsacl.c:744-832 | the mode read back from the built ACEs, for any two SIDs |
| `DaclBuild.RoundTripExact` | cifsacl.c:290-360 | reading a built mode back gives user = u or o, group = g or o, other = o for every mode iff the SIDs are apart |
| `DaclBuild.BuiltParses` | cifsacl.c:744-832 | the parser visits exactly the three places the builder wrote at and reads what was meant |
| `DaclBuild.RoundTrip` | cifsacl.c:290-360 | the round trip through the bytes |
| `DaclBuild.SpreadTwice` | cifsacl.c:290-360 | a second round trip changes nothing |
| `Preauth.Connection.GenHash` | auth.c:1136-1186 | the hash over the running value and the message, when SHA-512 was agreed |
| `Preauth.Connection.HandleNegotiate` | smb2pdu.c:875-899 | the connection's hash restarts from zero with the accepted request |
| `Preauth.Connection.SessSetup` | smb2pdu.c:1161-1185 | the session's hash restarts from the connection's at an NTLM negotiate token, takes in the request, and is what key derivation sees; without a hash the request fails |
| `Preauth.Connection.HashNegotiateRsp` | smb2pdu.c:7150-7152 | the negotiate response is folded into the connection's hash |
| `Preauth.Connection.HashSetupRsp` | smb2pdu.c:7154-7172 | a response that asks for more is folded into the session's hash iff there is one |
| `Preauth.HashesAreChains` | smb2pdu.c:1161-1185 | in every run of interleaved steps each hash is the left fold over a transcript defined from the history alone |
| `Preauth.KeyHash` | smb2pdu.c:1161-1185 | at key derivation there is a hash iff the session has a transcript, and then it is the fold over that transcript, ending with the authenticate request |
| `Preauth.ReachedExact` | smb2pdu.c:1161-1185 | the runs in which every message finds the hash it is folded into are described by the history alone |
| `Preauth.NoNegotiateNoHash` | smb2pdu.c:1161-1185 | a session that has not negotiated has no hash for an authenticate request |
| `Preauth.OthersDoNotDisturb` | smb2pdu.c:1161-1185 | a session's transcript is the same with all steps of other sessions left out |
| `Preauth.WaitingClient` | server.c:255-269 | for a client that waits for each response the transcript is the negotiate request and response and the first setup request and response |
| `Credits.Account.InitRspHdr` | smb2pdu.c:439-445 | the charge taken |
| `Credits.Account.SetRspCredits` | smb2pdu.c:502-553 | the credits granted, as a 16-bit number, and the new total |
| `Credits.GrantExact` | smb2pdu.c:521-543 | a request for credits gets the least of what it asks for, 33 and what is left to 512, or of 1 and what is left for a negotiate and a failed session setup |
| `Credits.NoGrantExact` | smb2pdu.c:518-546 | asynchronous responses and requests for none get nothing, but for the one credit of a client that holds none |
| `Credits.ChargeExact` | smb2pdu.c:439-445 | what a request takes |
| `Credits.EagerClient` | smb2pdu.c:518-546 | a client that asks for 33 each time and is charged nothing holds 33 for each response up to 512, which it reaches with the sixteenth |
| `Credits.StepExact` | smb2pdu.c:439-445 | a step keeps the total between 0 and a sixteenth of the maximum iff its charge is covered |
| `Credits.AlwaysInRange` | smb2pdu.c:439-553 | so does every run whose charges are covered |
| `Credits.NeverBug` | smb2pdu.c:513 | over every run, whatever the charges, the BUG_ON does not fire |
| `Credits.NeverStarves` | smb2pdu.c:518-546 | after every synchronous response of a covered run the client holds a credit; no response grants more than 33 |
| `Credits.Ledger` | smb2pdu.c:439-553 | over every run the total is what was granted less what was used up |
| `Credits.OverchargeStays` | smb2pdu.c:439-445 | a charge above the total leaves the client without credits, and requests that ask for none do not help |
| `Compound.Work.constructor` | smb2pdu.c:419-434 | the first response header |
| `Compound.Work.InitChained` | smb2pdu.c:288-364 | a chain step starts the next header at the next multiple of 8, links it, and leaves the length just past it |
| `Compound.Work.IsChained` | smb2pdu.c:372-401 | goes on iff the request does, and pads the last response of a chain |
| `Compound.VisitsUnique` | smb2pdu.c:288-364 | the NextCommand fields determine one walk |
| `Compound.OffsetsExact` | smb2pdu.c:288-364 | each response header is at the first multiple of 8 past the 64 bytes and the body of the response before it |
| `Compound.Handle` | server.c:255-259 | for any number of commands and any body sizes, walking the response visits exactly its headers, each at a multiple of 8, the last with NextCommand 0, and a chained response's length is a multiple of 8 |

## Left out

- Opens that reuse a lease key of the same client (`same_client_has_lease`), whose upgrades follow rules of their own.
- SMB1 oplocks, lease bits above WRITE, directory leases, and waits that a signal interrupts.
- Durable handles and create contexts in `smb2_open`.
- OplockRuns.NextKeeps: grants on one inode are serialised, one open being between its start and its grant at a time.
- LeaseTable.Index.CheckThenGrant: check and grant of one open are one step.
- Refcount.ReferenceSafety: a get is one step on memory not yet freed; RCU sections are not modelled beyond that.
- Paging.DirFile.QueryDir: without the reopen, restart and index flags, readdir errors, unknown information classes and allocation failures; names are strings, not UTF-16.
- Locks.LockTable.SmbLock: for requests of non-empty lock elements only, after the parsing of the request; whether the kernel grants a lock is an oracle. When a granted lock was unlocked by another request, its freed entry stays on the rollback list; a rollback is modelled as taking out the entries that are still on the list, and what it does to freed memory is not modelled. A lock that is waited for is not unlocked by others until it is off the list; in the code it is open to that between the wake-up and the removal.
- Unlock requests, zero-length lock elements and mixed requests in `smb2_lock`.
- Oid.OidDecode: the branch for too many arcs is an assertion that it is not taken.
- Spnego.BuildNegBlob: lengths are not bounded by an `int`.
- `build_spnego_ntlmssp_auth_blob` and `cifsd_decode_negTokenTarg`, which repeat the same steps on fewer headers.
- Dacl.ParseDacl: for a DACL whose ACEs lie inside the buffer.
- `build_sec_desc` and `parse_sec_desc`, and the mapping between SIDs and user ids.
- Preauth.KeyHash: without multichannel binding; a message for which there is no hash ends the run, since the code then follows a null pointer.
- Crypto, NTLM, key derivation, signing and encryption; the hash is an arbitrary function.
- Credits.Ledger: the total is not bounded below by the width of an `int`.
- Compound.Handle: requests whose NextCommand fields lie inside the request; the handlers only add to the response.
- File system calls, extended attributes, the transport, work queues and the SMB1 handlers.
