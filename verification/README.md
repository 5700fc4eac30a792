# Tangle-accelerator: models and proofs

Dafny models of the parts of tangle-accelerator that carry protocol logic, chaining, key
allocation and codecs, with proofs of what they keep over every input and every run.
`dafny verify dfyconfig.toml` checks all files.

| files | component |
|---|---|
| `Mam`, `MamWriter`, `MamRuns` | the one-time-key allocator behind MAM messages |
| `MamBuffer`, `RequestRuns` | buffered MAM requests: the order in which they take keys, and what every run keeps |
| `Pow`, `Bundle`, `BundleLookup` | attaching a bundle, reading it back, looking bundles up by address |
| `RequestLists` | the two lists and the fetch that both buffers have in common |
| `Redis`, `Buffer`, `BufferRuns`, `BufferQueue`, `BufferSend` | the buffered-transaction protocol over Redis lists |
| `Cipher`, `TextFrame`, `Decimal` | AES-CBC with HMAC on the endpoint, and the text frame around it |
| `UrlDecode`, `SocksUrl`, `SocksProxy` | the SOCKS proxy URL of the MQTT client |
| `CanMonitor` | reassembly of multi-frame OBD-II responses |
| `TryteByte` | the nibble codec between bytes and trytes |
| `Permanode` | the transaction table of the permanode |

Where the source updates state step by step, the model does too: objects are classes, loops are
loops, and each method is tied by its postcondition to a function on values about which the
theorems are proved. Foreign code appears as parameters: the digest, the proof of work and the
clock of `Pow`, the network of `Buffer`, the block cipher, hash and HMAC of `Cipher`.

## What the source does that one might not expect

Each of these is stated exactly, with the condition under which the expected property does hold.

- MAM: a tag at a channel address that is not one of the channel's message ids makes a full
  channel look unfull. The last id is then published again (`ReuseExactlyWhenFull`), and its packet
  is signed one key past the last one (`SignedPastTheLastExactly`). Without foreign tags no message ever repeats
  an id (`MessagesNeverReuseAKey`), and an announcement repeats one exactly when an earlier
  announcement of the same channel landed without its message (`RunRepeatsExactly`,
  `LostMessageReusesAKey`).
- Buffered requests: fetching a completed request pops the head of the complete list instead
  of the request (`FetchKeepsStockExactlyInTurn`), and out of turn leaks storage for good, in both
  buffers (`OutOfTurnFetchLeaks`).
- Buffered transactions: a submission between peek and pop is declared sent unsent
  (`SubmissionBetweenPeekAndPop`); every broadcast that sends but fails to take the lock reverses the
  stored bundle once more (`BundleOrderRestoredExactly`); a request whose stored transactions are
  gone blocks itself and everything below it for good (`BuriedForGood`), which an empty answer
  before a lock failure or a submission without transactions brings about
  (`EmptyAnswerThenLockoutBlocks`, `EmptySubmissionBlocks`), and a drain gets through
  exactly when `DrainGetsThroughExactly` says; while storage follows the lists, eviction frees
  nothing exactly when nothing is complete (`EvictionStallsExactlyWithoutCompleted`), and in general
  when `EvictionFreesNothingExactly` says; a buffered bundle is first attached in reversed order, and
  a forward attachment is read back whole exactly when the transaction that sorts first is of one
  (`BufferedBundleReadBackExactly`).
- Buffered MAM messages are published newest first (`NewestRequestSentFirst`,
  `BufferedKeysRunBackwards`).
- The nonce of the endpoint's cipher has room for 36 bytes: with a device id of 16 bytes the last
  digit of a 20-digit timestamp is cut off, so messages can share their vector and HMAC key
  (`NonceSeparatesExactly`).
- The percent decoder turns `%40` into `:` although its comment says `@`; the model follows the
  code (`ParseUndoesPrintExactly`).
- The CAN reassembly counter is static and never reset: a process receives at most one multi-frame
  message correctly (`AtMostOneWhole`), and only of a length 6 + 7k (`ReceiveExactly`). A later one
  overruns its buffer or, at some lengths, completes with zeros in its middle
  (`SecondMessageNeverCorrect`, `SecondMessageCompletesCorrupted`).
- The tryte decoder counts in 16 bits and does not return for more than 65534 trytes
  (`DecoderEndsExactly`).
- The permanode reports a hash as included when it was merely referenced
  (`InclusionIsInsertionExactly`). Its tag column holds the obsolete tag (`ColumnsAreFields`).

## Assumptions

- MAM library: the channels of a seed and depth are determined by their ordinal and have distinct
  ids; a header written while a channel stands at key k carries the message id of key k; advancing
  the key and signing a packet each move the channel one key on. Past the last key of a channel the
  model only counts: nothing is said of what the library signs with there. Each bundle on the Tangle
  is one entry, its address and tag.
- Theorems that speak of broadcasts landing say so: `ta_send_bundle` returns success either way
  (accelerator/core/core.c:466).
- Each buffer operation is one step; `SubmissionBetweenPeekAndPop` says what happens otherwise.
- A transaction written as trytes and parsed back is the same transaction.
- Digests are injective on the transactions at hand; random uuids are new; a node answers
  transactions in the order asked; a streaming hash or HMAC hashes the concatenation of its updates.
- The results on what a sealed message opens under require that hash and HMAC give different values
  for the inputs they compare; nothing is assumed for other inputs.
- `atoi` and `atol` have no result outside their type, as section 7.22.1 of ISO/IEC 9899:2011 leaves
  it undefined.

## Model

| member | source | states |
|---|---|---|
| MamLedger.InspectOwnTags | accelerator/core/mam_core.c:450-484 | With only the channel's own ids at its address, the two counters pass a channel over exactly when it is full, and otherwise the key taken is unpublished and all smaller keys are published |
| MamLedger.ReuseExactlyWhenFull | accelerator/core/mam_core.c:473-484 | For any tags at all, a published id is published again if and only if all keys are published and a foreign tag is present, and then it is the last; any other key taken is the least unpublished one, and a key that triggers an announcement is always fresh |
| MamLedger.WrongSkipExactly | accelerator/core/mam_core.c:478-480 | A channel that still has a free key is passed over if and only if only its last key is free and exactly one foreign tag is present |
| MamLedger.LeavesArePowers | accelerator/core/mam_core.c:451-451 | The number of keys of a channel is the power of two of its depth |
| MamWriter.MsgIdExist | accelerator/core/mam_core.c:93-110 | The scan finds a message id exactly when it is in the array |
| MamWriter.CollectTags | accelerator/core/mam_core.c:318-324 | The array ends up with each tag of the address exactly once, for any answer with repeats |
| MamWriter.TryKeys | accelerator/core/mam_core.c:451-471 | The do-while loop stops at the first unused key, and its two counters are the keys and tags left after it |
| MamWriter.InspectChannel | accelerator/core/mam_core.c:432-484 | Fetch, deduplication, key loop and counter tests together give the verdict on the set of tags at the address; the channel is left standing at the key of the id, or one past it if that id was published already |
| MamWriter.SkipShrinks | accelerator/core/mam_core.c:431-485 | Every channel passed over has traffic, so the finitely many channels with traffic bound the endless loop |
| MamWriter.FindChannel | accelerator/core/mam_core.c:431-485 | The loop ends, at the first channel from its start on that is not passed over, and leaves it standing as above |
| MamWriter.SearchPassesOverSkipped | accelerator/core/mam_core.c:431-485 | Every channel before that one is passed over |
| MamWriter.FindStart | accelerator/core/mam_core.c:401-424 | Once the first channel has traffic, a requested channel is reached exactly when it is among the first 102; without traffic the request is ignored |
| MamWriter.WriteMessage | accelerator/core/mam_core.c:385-499 | The whole write computes the first usable channel, the id, the announcement flag and the two error results; the packet is signed one key past the id if that id was published already |
| MamWriter.WriteFailsExactly | accelerator/core/mam_core.c:385-424 | On any Tangle a write fails exactly for depth 0, and, with the first channel in use, for a requested channel that is none of the first 102; each with its own status |
| MamWriter.StartIgnoredUntilInUse | accelerator/core/mam_core.c:401-410 | While the first channel has no traffic the requested channel changes nothing |
| MamWriter.StartHonouredOnceInUse | accelerator/core/mam_core.c:410-424 | Once it has, the write lands on the requested channel unless that one is passed over, never before it, and passes over every channel in between |
| MamWriter.SignedPastTheLastExactly | accelerator/core/mam_core.c:451-499 | On any Tangle the packet of a write is signed with the key of its id or, exactly if that id is published already, one past the last key of the channel |
| MamRuns.RequestedStartTaken | accelerator/core/mam_core.c:401-485 | On a Tangle without foreign tags every key of every channel between the requested one and the one written to is published, and the key taken is not |
| MamRuns.SendMamMessage | accelerator/core/mam_core.c:582-667 | A send publishes one message and, at the second-last key, an announcement of the next channel on the last key |
| MamRuns.SendFailsExactly | accelerator/core/mam_core.c:582-667 | A send fails exactly when its write does, with the same status, and then publishes nothing |
| MamRuns.WriteTakesLeastUnusedKey | accelerator/core/mam_core.c:385-499 | On any Tangle without foreign tags, gaps and losses allowed: the id is unpublished, the key is the least unused, every skipped channel is full |
| MamRuns.SendPublishes | accelerator/core/mam_core.c:582-667 | On any Tangle without foreign tags a send publishes a new message id with all smaller keys used, and, exactly after the last key but one, the last id of the same channel |
| MamRuns.MessagesNeverReuseAKey | accelerator/core/mam_core.c:582-667 | Over every run, whatever is lost, the id of a message is not on the Tangle when the message is sent |
| MamRuns.RunRepeatsOnlyLastKeys | accelerator/core/mam_core.c:582-667 | Over every run, whatever is lost, the only ids ever published twice are the last ids of channels, those of announcements |
| MamRuns.RunRepeatsExactly | accelerator/core/mam_core.c:582-667 | Over every run, any seeds, depths, starting channels and losses, an id is published twice if and only if some send publishes the announcement of a channel whose announcement an earlier send published without its message |
| MamRuns.RunNeverReusesAKey | accelerator/core/mam_core.c:582-667 | So over every run in which no announcement outlives its message no id is published twice |
| MamRuns.LostMessageReusesAKey | accelerator/core/mam_core.c:629-658 | A two-send run in which a lost message leads to a repeated announcement key |
| MamRuns.SendAdvances | accelerator/core/mam_core.c:431-485 | Send number n gives the closed-form result and leaves the Tangle at number n + 1 |
| MamRuns.RunClosedForm | accelerator/core/mam_core.c:582-667 | Whatever lands elsewhere in between, every send has a result, and send n uses channel n div (2^d-1) and key n mod (2^d-1) and announces exactly at key 2^d-2 |
| MamRuns.AnnouncementNamesNextChannel | accelerator/core/mam_core.c:517-532 | The announced channel is the one of the next send, at its first key; without announcement the channel stays |
| MamRuns.EmptyIsStart | accelerator/core/mam_core.c:431-485 | A Tangle without traffic of this seed and depth is at send number 0 |
| RequestBuffer.DrainGetsThroughExactly | accelerator/core/periodical_task.c:218-328 | A drain of any pending requests gets through if and only if each, sent in its turn from the top, succeeds and the lock is free each time |
| RequestBuffer.IterateStatus | accelerator/core/periodical_task.c:225-317 | An iteration fails with the reason met: no value under the uuid, a result instead of a request, the send, or the lock; only the last two change anything, and only the world |
| RequestBuffer.DrainStopsAtFirstRefusal | accelerator/core/periodical_task.c:218-328 | A drain that does not get through stops at the first request not taken with its reason; those above it are complete in reverse, the others unsent, and the world is that after the sends made |
| RequestBuffer.DrainSendsFromTheTop | accelerator/core/periodical_task.c:218-328 | It then empties the list in reverse onto the complete list and leaves the world that sending the requests from the top down leaves |
| RequestBuffer.DrainAnswersInTurn | accelerator/core/periodical_task.c:218-328 | The request j from the top is sent as the j-th, and its uuid holds the result of that send of its own request |
| RequestBuffer.NewestRequestSentFirst | accelerator/core/periodical_task.c:218-328 | Any requests submitted before one drain are sent newest first and end on the complete list in submission order |
| RequestBuffer.FirstSubmittedFirstFetched | accelerator/core/core.c:700-767 | Fetching in submission order answers every submitter with the result of its own request, sent after all later ones, and a second fetch finds nothing |
| RequestBuffer.SentOnceMorePerLockout | accelerator/core/periodical_task.c:267-283 | k iterations that fail to take the lock send the request k times more than needed, and only the last send is reported |
| RequestRuns.RunConserves | accelerator/core/periodical_task.c:218-328 | Over every run of MAM submissions, iterations and fetches in or out of turn: each accepted uuid is in exactly one place and moves only forward, an unsent request is stored as submitted, nothing else stored is a request |
| RequestRuns.RunHandsOutResults | accelerator/core/core.c:700-767 | What a fetch returns at any point of any run is a result, never a request |
| RequestRuns.RunStocks | accelerator/core/core.c:700-767 | Over every run with fetches in turn exactly the listed requests have a value |
| RequestRuns.LeakedForGood | accelerator/core/core.c:734-758 | A value stored under a uuid that has left both lists survives every run unchanged |
| RequestRuns.OutOfTurnFetchLeaks | accelerator/core/core.c:734-758 | One fetch out of turn leaks the result of the request at the head for good, and no fetch in any run returns it |
| RequestRuns.HandedOutOnce | accelerator/core/core.c:700-767 | After a fetch that returned a result no fetch in any run returns anything for that uuid |
| RequestRuns.RunTellsRank | accelerator/core/core.c:700-767 | At every point of every run a query answers unsent, sent or unknown exactly as the request has been submitted, completed, or never accepted or removed |
| RequestRuns.RunWithoutLock | accelerator/core/periodical_task.c:218-328 | Over every run in which nobody gets the lock the submissions pile up, newest first, and nothing is completed, handed out or changed in storage |
| RequestRuns.RunOfDrain | accelerator/core/periodical_task.c:218-328 | A drain that gets through is a run of as many iterations as there are requests, so what every run keeps it keeps |
| MamBuffer.Service.SendMam | accelerator/core/apis.c:239-251 | The request is stored under its uuid unless that key exists, and the uuid becomes the head of the list |
| RequestBuffer.FirstRequestStays | accelerator/core/apis.c:239-251 | A second submission under a uuid lists it again but leaves the first request stored |
| MamBuffer.Service.BroadcastOne | accelerator/core/periodical_task.c:225-317 | One iteration sends the head request, and only with the lock replaces it by its result and moves it |
| MamBuffer.Service.BroadcastBuffered | accelerator/core/periodical_task.c:218-328 | The loop sends until the list is empty or an iteration fails, the lock free or not in each iteration |
| MamBuffer.Service.FetchMam | accelerator/core/core.c:700-767 | Locked out, unsent, unknown, complete without a value, or the value of the uuid, which is deleted while the head of the complete list is popped |
| MamBuffer.BufferedKeysRunBackwards | accelerator/core/periodical_task.c:218-328 | Of any requests submitted before one drain, one whose seed and depth lose no broadcast is fetched with the channel and key of send n plus the number of requests of that seed and depth submitted after it |
| MamBuffer.SendOutcomeIsMamSender | accelerator/core/mam_core.c:582-667 | The send of the MAM model is the sender these results speak of |
| MamBuffer.OneSenderRunsBackwards | accelerator/core/periodical_task.c:218-328 | For one sender, request i of m gets the channel and key of send n+m-1-i |
| MamRuns.OtherSendKeepsProgress | accelerator/core/mam_core.c:582-667 | A send of another seed or depth, from any starting channel and with any losses, leaves the position of a sender alone |
| Pow.TaPow | accelerator/core/pow.c:55-107 | The last min(n, lastIndex+1) transactions are chained backwards over the final form of their successors, the others untouched; exact state on a missing nonce; error on an empty bundle |
| Pow.WorkedTransaction | accelerator/core/pow.c:76-95 | Every transaction reached carries the nonce that the proof of work found for it as it stands, the digest of its final successor as trunk, the requested branch, the clock of its round and the two attachment bounds |
| Pow.ReachedExactly | accelerator/core/pow.c:63-102 | The transactions reached are exactly the last lastIndex + 1 of the array; the others are as they were |
| Pow.StoppedState | accelerator/core/pow.c:89-95 | Without a nonce at some transaction nothing before it is touched, everything after it is worked, and it keeps its old nonce |
| Pow.AttachToTangle | accelerator/core/core.c:23-60 | A copy is chained and returned only on success |
| Pow.ChainedKeepsEssences | accelerator/core/pow.c:55-107 | Attaching any array of transactions, reached by the loop or not, changes no essence and no position |
| Pow.AttachmentOfOrderedBundle | accelerator/core/pow.c:63-102 | For an index-ordered bundle each trunk is the digest of the next final transaction, the last is the given trunk, all branches are the given one, and no essence field changes |
| Bundle.SortTxnsSorts | accelerator/core/core.c:382-397 | Sorting by the comparator gives an index-sorted permutation |
| Bundle.WalkSorted | accelerator/core/core.c:398-408 | The loop collects the trunk chain from the first transaction |
| Bundle.GetFirstBundle | accelerator/core/core.c:391-409 | Sort and walk together; no result exactly on an empty answer, whose first element the source reads |
| Bundle.WalkFollowsChain | accelerator/core/core.c:401-408 | From any member of an attachment the walk over a sorted remainder yields exactly the rest of that attachment |
| Bundle.RecoversOneAttachment | accelerator/core/core.c:391-409 | From any sorted arrangement, with repeats, of a union of reattachments, exactly one of them comes back whole |
| Bundle.RecoveredIsTheBundle | accelerator/core/core.c:391-409 | Attaching an index-ordered bundle any number of times and reading any mixture back gives one attachment with the bundle's essences in order |
| Bundle.BackwardOfReversed | accelerator/core/periodical_task.c:123-132 | Attaching the reversed array leaves descending indices and the requested trunk on the tail |
| Bundle.MixedReadBack | accelerator/core/core.c:391-409 | From any sorted arrangement, with repeats, of a union of forward and reversed attachments a forward one comes back whole if and only if the transaction that sorts first belongs to one, and that transaction comes back alone if and only if nothing follows it; of a reversed one that is so unless an attachment was given another one as trunk |
| Bundle.ReadBackIsPrefix | accelerator/core/core.c:391-409 | Whatever comes back from any mixture of one bundle's transactions is linked by trunks and has the essences of the bundle's beginning, in order |
| Bundle.BufferedBundleReadBackExactly | accelerator/core/periodical_task.c:123-186 | All of this for the attachments of one index-ordered bundle in both orders; a single transaction always comes back as a whole attachment |
| Bundle.ReversedAttachmentsMix | accelerator/core/core.c:398-408 | If a reversed attachment of a bundle of two was given the tip of another as trunk and its tail sorts first, the reader gets one transaction of each |
| BundleLookup.FindTransactionObjects | accelerator/core/core.c:285-380 | The answer is the cached objects, then the fetched ones with the first repeated after each; not found exactly when the node lacks an uncached hash |
| BundleLookup.RepeatsAreInvisible | accelerator/core/core.c:350-350 | Repeating the first fetched value neither adds nor reorders distinct values |
| BundleLookup.RepeatsAt | accelerator/core/core.c:350-350 | Each fetched value is followed by the first one |
| BundleLookup.DistinctElements | accelerator/core/core.c:512-529 | The hashes answered for are duplicate-free and are exactly those seen |
| BundleLookup.DistinctPrefix | accelerator/core/core.c:512-529 | They are in order of first occurrence |
| BundleLookup.LookupReturnsRequested | accelerator/core/core.c:285-380 | Whatever part of the requested transactions is cached, exactly the requested transactions come back |
| BundleLookup.ReadDistinctBundles | accelerator/core/core.c:509-530 | One bundle is read for each distinct bundle hash, in order of first occurrence |
| BundleLookup.GetBundlesByAddr | accelerator/core/core.c:469-537 | Not found exactly for an address without transactions, otherwise one bundle per distinct bundle hash of the objects at the address |
| BundleLookup.OrderCoversAddress | accelerator/core/core.c:469-537 | The bundle hashes answered for are those of the transactions at the address, once each |
| BundleLookup.EachBundleIsWhole | accelerator/core/core.c:411-440 | If the node's transactions of a bundle hash are complete reattachments, the bundle answered is one of them |
| Redis.Store.ListPush | utils/cache/backend_redis.c:98-115 | The value becomes the head of the list |
| Redis.Store.ListAt | utils/cache/backend_redis.c:117-135 | The element at an index, or an error outside the list |
| Redis.Store.ListPeek | utils/cache/backend_redis.c:137-155 | The head, or an error on no list |
| Redis.Store.ListExist | utils/cache/backend_redis.c:177-205 | The flag is set exactly when the value is in the list |
| Redis.Store.ListPop | utils/cache/backend_redis.c:207-225 | The head is removed and returned, an emptied list disappears, a missing list is an error that leaves the buffer alone |
| Redis.Store.Del | utils/cache/backend_redis.c:38-53 | The key is gone, and deleting nothing is an error |
| BufferService.Service.PushTxn | accelerator/core/core.c:578-614 | The transactions are stored in reverse under the uuid, which becomes the head of the unsent list |
| BufferService.Service.PrepareHead | accelerator/core/periodical_task.c:108-180 | The head request is sent in stored order and its stored transactions are replaced by the node's answer in reverse; nothing changes if sending, reading back or deleting fails |
| BufferService.Service.MoveHead | accelerator/core/periodical_task.c:188-201 | Whatever is at the head of the unsent list is moved to the head of the complete list |
| BufferService.Service.BroadcastOne | accelerator/core/periodical_task.c:93-206 | One iteration, with a failed lock after the rewrite |
| BufferService.Service.BroadcastBuffered | accelerator/core/periodical_task.c:63-216 | The loop iterates until the list is empty or an iteration fails, with its own network answer and lock outcome in each iteration |
| BufferService.Service.FetchTxn | accelerator/core/core.c:616-698 | Unsent, sent with the stored bundle, unknown, locked out, or sent without storage, with the exact new state |
| BufferService.Service.EvictOne | accelerator/core/periodical_task.c:361-379 | The head of the complete list and its transactions go; with an empty list the last evicted uuid is deleted again |
| BufferRuns.StepConserves | accelerator/core/periodical_task.c:93-209 | Every step keeps both lists duplicate-free, disjoint and together with the removed uuids equal to the accepted ones, and moves each request only forward |
| BufferRuns.RunConserves | accelerator/core/core.c:578-698 | The same over every run of submissions, iterations, queries, fetches in or out of turn, and evictions |
| RequestLists.FetchTellsRank | accelerator/core/core.c:616-698 | For both buffers: a fetch answers unsent, sent or unknown exactly as far as the request has come, hands out its stored value exactly for a completed request that has one, and changes something exactly then |
| BufferRuns.RunTellsRank | accelerator/core/core.c:616-698 | So at every point of every run of the transaction buffer |
| BufferRuns.RunWithoutLock | accelerator/core/periodical_task.c:93-209 | Over every run in which nobody gets the lock the submissions pile up, newest first, and nothing else moves |
| BufferRuns.RunOfDrain | accelerator/core/periodical_task.c:63-216 | A drain that gets through is a run of as many iterations as there are requests, so what every run keeps it keeps |
| BufferRuns.EvictionsInOrder | accelerator/core/periodical_task.c:361-379 | Any number of rounds evicts that many requests from the head on, each with its transactions, and nothing else |
| BufferRuns.RunOfEvictions | accelerator/core/periodical_task.c:361-379 | A run of eviction rounds is those evictions, the uuid buffer carried over from round to round |
| BufferRuns.EvictionSparesUnsent | accelerator/core/periodical_task.c:361-379 | Eviction leaves every unsent request and its stored transactions alone |
| BufferRuns.RunStocks | accelerator/core/core.c:578-698 | Over every run with fetches in turn, exactly the listed requests have stored transactions |
| RequestLists.FetchKeepsStockExactlyInTurn | accelerator/core/core.c:678-689 | For both buffers: fetching a completed request keeps storage and lists in step if and only if it is at the head; otherwise it stays listed without storage and the head is forgotten with its storage |
| BufferRuns.LeakedForGood | accelerator/core/core.c:678-689 | Transactions stored under a uuid that has left both lists and is not the last evicted one survive every run unchanged |
| BufferRuns.OutOfTurnFetchLeaks | accelerator/core/core.c:678-689 | So one fetch out of turn leaks the transactions of the request at the head for good |
| BufferRuns.HandedOutOnce | accelerator/core/core.c:616-698 | After a fetch that returned a bundle no fetch in any run returns anything for that uuid |
| BufferRuns.BuriedForGood | accelerator/core/periodical_task.c:166-171 | A request without stored transactions is never sent, and in every run it and every request below it stay unsent |
| BufferRuns.EmptyAnswerThenLockoutBlocks | accelerator/core/periodical_task.c:164-186 | An empty answer of the node followed by a lock failure brings that about, and leaves the whole list unsent in every run |
| BufferRuns.EmptySubmissionBlocks | accelerator/core/core.c:578-614 | So does a submission without transactions, for itself and every request below it |
| BufferRuns.EvictionFreesNothingExactly | accelerator/core/periodical_task.c:361-379 | Any number of eviction rounds frees nothing if and only if nothing is complete and nothing is stored under the last evicted uuid |
| BufferRuns.EvictionStallsExactlyWithoutCompleted | accelerator/core/periodical_task.c:361-379 | While storage follows the lists, exactly when nothing is complete |
| BufferRuns.SubmissionBetweenPeekAndPop | accelerator/core/periodical_task.c:108-201 | The request declared complete is the one that was sent if and only if no submission lands between peek and pop; otherwise it is the newest submission, and the sent one stays |
| BufferRuns.NewestSubmissionUnsent | accelerator/core/periodical_task.c:182-201 | That newest submission still has its transactions as submitted |
| BufferQueue.DrainGetsThroughExactly | accelerator/core/periodical_task.c:93-209 | A drain succeeds if and only if every request is stored and each iteration, with the network and lock it meets, takes the request whose turn it is |
| BufferQueue.DrainStopsAtFirstRefusal | accelerator/core/periodical_task.c:93-209 | Everything above the first request not taken is moved to the complete list in reverse, everything from it downwards stays unsent |
| BufferQueue.BroadcastRefusal | accelerator/core/periodical_task.c:93-209 | An iteration that does not take its request reports why, and changes nothing unless the lock was the reason, when the stored transactions are rewritten |
| BufferQueue.DrainStatusExactly | accelerator/core/periodical_task.c:63-216 | The status of a drain is the reason at the first request not taken |
| BufferQueue.DrainLeavesTheRest | accelerator/core/periodical_task.c:63-216 | Nothing stored below that request changes |
| BufferQueue.DrainStoresAnswers | accelerator/core/periodical_task.c:93-209 | The request at depth j ends stored as the reversed answer that iteration j got |
| RequestLists.FetchInTurn | accelerator/core/core.c:616-698 | Fetched from the head on, each request is answered as sent with its own value |
| BufferQueue.FirstSubmittedFirstFetched | accelerator/core/core.c:578-698 | After any submissions and one drain, whatever the network answers in each iteration, fetching in submission order gives every submitter its own result as sent, and a second fetch finds nothing |
| BufferQueue.OrderRestoredExactlyAfterEvenRewrites | accelerator/core/periodical_task.c:123-186 | A bundle of any length, sent after any number of iterations that failed to send it or to take the lock, comes back in submitted order if and only if an even number of them rewrote it, or the order is a palindrome |
| BufferSend.AttachesIsPositional | accelerator/core/core.c:62-107 | Whatever ta_send_trytes attaches is answered in the order sent; it may refuse, and refuses the empty array |
| BufferSend.BundleOrderRestoredExactly | accelerator/core/periodical_task.c:123-186 | For that sender and a prepared bundle: the order is restored if and only if an even number of earlier iterations rewrote it or the bundle has one transaction |
| Cipher.CipherLenIsLeast | endpoint/cipher.c:161-168 | The ciphertext length is the least multiple of 16 above the plaintext length |
| Cipher.BaseHashes | endpoint/cipher.c:90-96 | The base is the hash of exactly 32 zeros, the device id, a hyphen and the decimal timestamp filled with zeros to 36 bytes, and the key |
| Cipher.VectorOfHalves | endpoint/cipher.c:174-184 | The initial vector is the exclusive or of the two halves of the base, byte by byte |
| Cipher.NonceInjective | endpoint/cipher.c:90-96 | As long as the text fits its buffer it tells devices and timestamps apart |
| Cipher.NonceSeparatesExactly | endpoint/cipher.c:90-96 | It tells all 64-bit timestamps of a device apart if and only if the device id has at most 15 bytes |
| Cipher.EncryptsByChaining | endpoint/cipher.c:200-214 | Every ciphertext block is the encryption of the plaintext block combined with the ciphertext block before it, the first with the vector |
| Cipher.DecryptsByChaining | endpoint/cipher.c:100-118 | Every block of the decryption of any ciphertext is the decrypted block combined with the ciphertext block before it |
| Cipher.DecryptInvertsEncrypt | endpoint/cipher.c:104-118 | Chained decryption inverts chained encryption for every whole number of blocks |
| Cipher.ReadBlock | endpoint/cipher.c:105-107 | The block buffer holds the input's bytes at i, zero-filled, and the length difference does not wrap |
| Cipher.EncryptBlocks | endpoint/cipher.c:200-214 | The loop writes the chained encryption of the zero-filled plaintext and feeds the same bytes to the HMAC |
| Cipher.AesEncrypt | endpoint/cipher.c:133-223 | The in-place encryption equals the value-level one; too small a buffer is an error that changes nothing |
| Cipher.DecryptBlocks | endpoint/cipher.c:100-118 | The loop writes the chained decryption and leaves the last block as vector |
| Cipher.AesDecrypt | endpoint/cipher.c:55-131 | Succeeds exactly when the HMAC of the zero-filled ciphertext matches; the plaintext is written either way, and the vector ends as the last block |
| Cipher.CipherRoundTrip | endpoint/cipher.c:55-223 | For every length the check passes and the plaintext comes back followed only by zeros |
| Cipher.OpensExactlyUnderItsOwn | endpoint/cipher.c:55-131 | A sealed message passes the check under another key, device or timestamp if and only if all three are its own, where hash and HMAC tell the inputs at hand apart |
| Cipher.OpensExactlyItsOwn | endpoint/cipher.c:100-131 | With another ciphertext in its place it passes if and only if that one, filled with zeros, is the sealed one |
| TextFrame.SerializeMsg | endpoint/text_serializer.c:34-67 | The buffer holds iv, timestamp, hmac, length and ciphertext at their widths, and nothing after changes |
| TextFrame.DeserializeMsg | endpoint/text_serializer.c:69-104 | The fields are read at the same places, undefined numbers excepted |
| Decimal.StrtolReads | endpoint/text_serializer.c:78-95 | The numbers are read as spaces, a sign or none, and digits up to the first other character |
| TextFrame.NegativeFieldsWrap | endpoint/text_serializer.c:78-95 | A negative number in a field is read with the wrap-around of its unsigned type |
| TextFrame.FrameRoundTripExactly | endpoint/text_serializer.c:49-100 | A frame is parsed back to all its fields if and only if the timestamp is below 2^63 and the ciphertext shorter than 2^31 |
| TextFrame.EndpointRoundTrip | endpoint/text_serializer.c:34-104 | Encrypt, serialize, deserialize and decrypt give back the plaintext with its padding |
| UrlDecode.UrlDecode | connectivity/mqtt/mqtt_common.c:393-433 | The in-place loop computes the left-to-right decoder and fails exactly where it does |
| UrlDecode.ShiftDown | connectivity/mqtt/mqtt_common.c:406-410 | The inner loop moves the rest down by two and ends the string there |
| UrlDecode.Collapse | connectivity/mqtt/mqtt_common.c:403-410 | An escape is overwritten by the character it stands for |
| UrlDecode.DecodesExactlyTokens | connectivity/mqtt/mqtt_common.c:402-431 | Decoding yields d exactly when the string is a concatenation of plain characters and known escapes meaning d |
| UrlDecode.EscapesExactly | connectivity/mqtt/mqtt_common.c:402-431 | Between any decodable texts %25 means percent, %3A, %3a and %40 mean colon, and any other or truncated escape makes the whole undecodable |
| UrlDecode.DecodeInvertsEncodeExactly | connectivity/mqtt/mqtt_common.c:392-433 | Decoding undoes encoding for exactly the strings without '@' |
| SocksUrl.SplitLoop | connectivity/mqtt/mqtt_common.c:460-573 | The loop and the treatment of the remainder compute the single-pass split |
| SocksUrl.SplitIsGrammar | connectivity/mqtt/mqtt_common.c:452-573 | For every text the single pass accepts exactly [username[:password]@]host[:port] with its components |
| SocksProxy.ParseSocksUrl | connectivity/mqtt/mqtt_common.c:435-606 | Scheme, split, decoding and port range together |
| SocksProxy.ParsesExactly | connectivity/mqtt/mqtt_common.c:435-606 | A URL is rejected exactly without the scheme, outside the grammar, with an undecodable credential, or with a port out of range; otherwise its decoded parts come back |
| SocksProxy.PortRangeExactly | connectivity/mqtt/mqtt_common.c:576-591 | A decimal port is accepted exactly from 1 to 65535, and without one it is 1080 |
| SocksProxy.ParseOfPrint | connectivity/mqtt/mqtt_common.c:452-598 | Every printed proxy, in all six forms, is parsed back with only '@' in credentials changed to ':' |
| SocksProxy.ParseUndoesPrintExactly | connectivity/mqtt/mqtt_common.c:452-598 | Parsing undoes printing if and only if no credential contains '@' |
| CanMonitor.Monitor.ObdMessage | endpoint/OBDComp/monitor/monitor.c:167-218 | The recursion takes frames until the counter meets the declared length, blocks without frames, or copies outside the buffer |
| CanMonitor.SingleFrameReceived | endpoint/OBDComp/monitor/monitor.c:175-182 | A single frame is received at once whatever the counter is: the data are its length byte and its bytes, and the counter stays |
| CanMonitor.OthersDropped | endpoint/OBDComp/monitor/monitor.c:167-218 | Frames of other kinds are dropped while a message is incomplete |
| CanMonitor.OtherFrameFirst | endpoint/OBDComp/monitor/monitor.c:167-218 | As first frame of a query they are dropped too, except with counter 0, when the query completes without data |
| CanMonitor.StrayFramesOverrun | endpoint/OBDComp/monitor/monitor.c:183-215 | A consecutive frame without a first one, or a first frame declaring less than it carries, is copied outside the buffer |
| CanMonitor.WaitsForTheRest | endpoint/OBDComp/monitor/monitor.c:167-218 | With too few consecutive frames the process waits, the bytes so far in place |
| CanMonitor.Monitor.Clear | endpoint/OBDComp/monitor/monitor.c:244-248 | A query starts with an empty data object and leaves the counter alone |
| CanMonitor.Monitor.GetDatasets | endpoint/OBDComp/monitor/monitor.c:235-252 | The loop over the identifiers makes one query after another on what is left of the bus and what arrives, up to one that does not complete |
| CanMonitor.FillsExactly | endpoint/OBDComp/monitor/monitor.c:197-217 | If the bytes missing are a multiple of seven, exactly that many frames are taken and stored in order |
| CanMonitor.NeverFills | endpoint/OBDComp/monitor/monitor.c:212-215 | Otherwise the equality test is never met and a frame overruns the buffer |
| CanMonitor.ReceiveMeets | endpoint/OBDComp/monitor/monitor.c:141-218 | If the counter can meet the declared length, the message completes with a gap of zeros as long as the counter was, its last bytes missing and the frames carrying them unread |
| CanMonitor.ReceiveExactly | endpoint/OBDComp/monitor/monitor.c:141-218 | For every counter value c and every length L from 7 to 4095 the message completes if and only if c + 6 <= L and (L - 6 - c) mod 7 = 0 and overruns otherwise; it is received whole from exactly its own frames if and only if c is 0 and L is 6 + 7k |
| CanMonitor.SecondMessageNeverCorrect | endpoint/OBDComp/monitor/monitor.c:168-215 | After one completed multi-frame message no further one is received correctly; it completes, with the gap, exactly when its length is 5 modulo 7 and at least six more than the first, and overruns otherwise |
| CanMonitor.SecondMessageCompletesCorrupted | endpoint/OBDComp/monitor/monitor.c:168-215 | After 13 bytes a message of 26 bytes completes with 13 zeros in its middle |
| CanMonitor.NoneWholeAfterAFirstFrame | endpoint/OBDComp/monitor/monitor.c:167-218 | Over every run of queries with any traffic: once a query has read a first frame no later one receives a multi-frame message whole |
| CanMonitor.AtMostOneWhole | endpoint/OBDComp/monitor/monitor.c:167-218 | So over every run at most one multi-frame message is received whole |
| TryteByte.BytesToTrytes | utils/tryte_byte_conv.c:13-24 | The output is the two nibble trytes of each byte, in order |
| TryteByte.TrytesToBytes | utils/tryte_byte_conv.c:26-44 | Each pair of trytes is packed into a byte, for every length up to 65534; an odd one takes in the character after the last |
| TryteByte.DecodeInvertsEncode | utils/tryte_byte_conv.c:13-44 | Decoding inverts encoding for every byte string |
| TryteByte.EncodedAlphabet | utils/tryte_byte_conv.c:14-22 | Every output character is '9' or 'A' to 'O' |
| TryteByte.TryteInAlphabet | utils/tryte_byte_conv.c:14-22 | The tryte of a nibble is its entry in the tryte alphabet |
| TryteByte.PackedBits | utils/tryte_byte_conv.c:26-44 | Bit by bit, for any two bytes, the packed byte is the first shifted left by four, or the second |
| TryteByte.NibbleWraps | utils/tryte_byte_conv.c:26-44 | Any character but the digit 9 stands for its distance from 64 modulo 256 |
| TryteByte.DecoderEndsExactly | utils/tryte_byte_conv.c:29-29 | The wrapping counter reaches the limit exactly for at most 65534 trytes |
| TryteByte.RoundTripBound | utils/tryte_byte_conv.c:13-44 | The decoder finishes reading an encoded string exactly for at most 32767 bytes |
| PermanodeTable.TableAgreesWithScan | storage/scylladb_permanode.c:462-483 | After any inserts: a row exists exactly for inserted or referenced hashes, approvees are exactly the inserted transactions with that trunk or branch, columns are the latest |
| PermanodeTable.ColumnsAreFields | storage/scylladb_permanode.c:13-21 | For any transaction laid out field by field each column and reference is the field of its name, the tag column the obsolete tag |
| PermanodeTable.SameItemsSameTable | storage/scylladb_permanode.c:462-483 | With one trytes value per hash, insert order and repetition do not change the table |
| PermanodeTable.ReinsertChangesNothing | storage/scylladb_permanode.c:462-483 | Inserting a transaction again changes nothing |
| Permanode.Store.PermanodeInsert | storage/scylladb_permanode.c:462-483 | Columns first, then the hash is added to the approvees of its trunk and of its branch |
| Permanode.Store.SelectByColumn | storage/scylladb_permanode.c:408-435 | Only true matches, without duplicates, all of them if there are at most 100 and otherwise exactly 100; not found exactly when there is none |
| Permanode.WithinHundred | storage/scylladb_permanode.c:415-415 | A query is within the limit exactly with at most 100 answers |
| Permanode.Store.SelectApprovees | storage/scylladb_permanode.c:382-406 | All approvees once each; not found exactly when there is none |
| Permanode.Store.FindTransactions | storage/scylladb_permanode.c:527-558 | Succeeds exactly when every query has an answer; finds only true answers, and on success all answers of every query within the limit |
| Permanode.Store.GetTrytes | storage/scylladb_permanode.c:437-460 | The latest trytes, not found without a row, a query failure for a row that was only referenced |
| Permanode.Store.InclusionState | storage/scylladb_permanode.c:356-380 | Whether any row has the hash |
| Permanode.AnswersAreScans | storage/scylladb_permanode.c:485-517 | What each query should find is what a scan of the inserted transactions finds |
| Permanode.InclusionIsInsertionExactly | storage/scylladb_permanode.c:356-380 | The inclusion state equals insertion if and only if the hash was inserted or is referenced by none |

## Left out

- HTTP and MQTT transport, TLS, JSON serializers, request and response allocators, configuration, CLI, shell, logging: plumbing without a law of its own.
- ECDH, Brotli, FlatBuffers, and the internals of the IOTA, MAM, dcurl, mbedtls, hiredis and Cassandra libraries: foreign calls.
- Proxy APIs, node failover, timer, reattacher and identity table: easy members.
- Receiving MAM messages (`ta_recv_mam_message`): decryption is the library's; the bundle lookup under it is modelled.
- The MAM file of a sender without a seed: the model starts each send with a fresh API object, as the seeded path does.
- Failures of the MAM library and of the node inside a send, allocation failures and null arguments: they end an operation early.
- MamLedger.Leaves: is unbounded; the source's `1 << depth` is defined below depth 31 only.
- Expiry of MAM requests and results in Redis, and Redis command failures.
- The capacity test around eviction: the model has the rounds, not the space they are meant to free.
- Bundle.GetFirstBundle: an empty answer has no result here; the source copies from a null pointer, which C leaves undefined.
- Interleavings other than submissions between peek and pop.
- Bundle.SortTxnsSorts: the C library's sort is modelled by insertion on a sequence; `Bundle.RecoversOneAttachment` holds for every sorted permutation, so the choice does not matter.
- CanMonitor.Monitor.ObdMessage: does not model the flow-control frame it sends, and stops at the first copy outside the buffer, which C leaves undefined.
- Cipher.AesDecrypt: says nothing about the plaintext buffer beyond the whole blocks written.
- Cipher.AesEncrypt: lengths are unbounded, so a plaintext length near 2^64 is not modelled; error codes of the crypto library are left out.
