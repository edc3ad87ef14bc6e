# BlackTeaSpeak server: a verified model

This project models the parts of the BlackTeaSpeak voice server that keep shared structures consistent, and proves
what they promise. The code is in the Rust crate `BlackTeaSpeak-Server`; `dafny verify dfyconfig.toml` checks the
model.

* **The channel tree.** Channels are stored flat: `parent` makes a forest, `order` names the previous sibling.
  `ChannelOrder` rebuilds and rewrites sibling lists, `ChannelForest` walks up and down, `ChannelPreorder` and
  `ChannelRows` list the part of the tree one viewer may see, `FamilyCounts` counts clients per subtree,
  `ChannelMove` moves a channel, `Housekeeping`, `HousekeepingSafety` and `HousekeepingSurvivors` delete unused
  temporary channels. The representation invariant (`Forest`: unique non-zero ids, existing parents, every channel
  reaches 0) is kept by moves and by housekeeping; the listing itself needs unique non-zero ids only.
* **Anti-flood.** `AntiFlood` is the leaky bucket with its saturating 32- and 64-bit steps, `FloodBlock` says when
  it blocks an address, `EagerTicker` is the simple bucket that leaks at every full second and that the lazy one
  refines, `SharedAntiFlood` the buckets that web sessions and query connections behind one address share.
* **File transfers.** `Base64` and `TransferKeys` make the one-shot keys and prove them prefix-free; `RawTransfer`
  redeems them from a byte stream, `RawUpload` stores what follows; `HttpRequest`, `PercentCoding`, `VirtualPath`,
  `FileAreas` and `GlobalFiles` are the request framing, multipart extraction, name coding and paths.
  `Bytes.ByteStream` hands its data out in the pieces of an arbitrary cutting, so each contract covers every
  chunking.
* **Presence and history.** `Presence` replicates the presence table to sessions that each see only some channels.
  `History` and `HistoryPaging` issue timestamps, record, page through and delete messages.
* **Loading.** `Normalization`, `NormalizationSafety` and `NormalizedStore` are the clean-up passes that run on
  load.

`Collections`, `Numbers` and `Records` hold shared definitions. Where the source mutates state in place, the model
has a class, an array or a loop, proved against a specification function; the promises are proved about that
function.

## Where the code does less than one might expect

Each of these comes with a lemma that says exactly when the code meets the property and one at a concrete input on
which it does not.

* Deleting a channel, or moving it to another parent, breaks one link, and the siblings after it come out
  ascending by id. Survivors keep their order exactly when they were ascending (`RemovalKeepsLinks`,
  `LeavingSortsTheRest`; `DeletionLosesOrder`, `MoveLosesOrder`).
* A history request with an upper bound of 0 or 1 is taken as unbounded, so paging backwards starts again at the
  newest page exactly when the oldest timestamp received is at most 2 (`NextPageIsOlder`; `RestartExample`).
* No frame is derived when a client disappears or changes server, and a step that changes channel and attributes
  together, or drops an attribute, does not carry the attributes. `StepIsExact` says exactly which steps leave a
  replica correct; `GoneButShown` and `StaleAttributes` are steps that do not.
* A raw upload drops a leading line break only if more than the announced size has arrived together with the key.
  The stored bytes are independent of how the stream is cut exactly when no such break can be dropped (not more
  than announced follows, no line break leads, or the announced size is 4095 or more), or when what is stored is
  nothing but that break repeated (`CuttingMattersForBreaks`; `DroppedBreakExample`). `PossibleUploadsOccur` lists
  what can be stored.
* Whether a request is refused as too large is independent of how the stream is cut exactly when its header does
  not end within one read of the 1 MiB limit, or no more than the limit follows (`CuttingMattersInBand`;
  `BandExample`).
* A bucket's first call starts its clock exactly when the reading is not 0 (`StartsUnlessZero`;
  `ZeroClockExample`).
* A directory of the global file space is in the area its first segment names, except that `/music` itself counts
  as one of the avatars (`ListAreaBySegments`; `MusicRootExample`).
* Timestamps strictly increase exactly as long as the 64-bit counter has room (`IssuedIncrease`, `SeedIsAbove`;
  `SaturatedCounter`).

Two notes on what the code uses: `PeerLeft` broadcasts are consumed but never built, so the `Left` event of the
model stands for a caller that would send one; and `derive_peer_frames` and `broadcast_frames_for_presence_change`
themselves have no caller at present.

## Model

| member | source | states |
|---|---|---|
| ChannelOrder.WalkListsAll | BlackTeaSpeak-Server/src/runtime/catalog_and_utils.rs:573-606 | following the previous-sibling links, broken or not, lists every remaining sibling exactly once |
| ChannelOrder.SiblingOrder | BlackTeaSpeak-Server/src/runtime/catalog_and_utils.rs:573-606 | the rebuilt order is a duplicate-free listing of exactly the children of the parent, less the excluded one, for any stored links |
| ChannelOrder.OrderedSiblingIds | BlackTeaSpeak-Server/src/runtime/catalog_and_utils.rs:573-606 | the loop that shrinks the remaining set computes the specified order |
| ChannelOrder.LinkedOrder | BlackTeaSpeak-Server/src/runtime/catalog_and_utils.rs:573-606 | if the links describe a list, the rebuilt order is that list |
| ChannelOrder.RelinkSiblingOrders | BlackTeaSpeak-Server/src/runtime/catalog_and_utils.rs:656-668 | writing the links in place, channel by channel, gives the specified list |
| ChannelOrder.RelinkInvertsOrdering | BlackTeaSpeak-Server/src/runtime/catalog_and_utils.rs:656-668 | relinking with any permutation of the siblings makes the rebuilt order that permutation |
| ChannelOrder.RelinkPassesOver | BlackTeaSpeak-Server/src/runtime/catalog_and_utils.rs:656-668 | ids that name no child of the parent are passed over, links included |
| ChannelOrder.RelinkFrame | BlackTeaSpeak-Server/src/runtime/catalog_and_utils.rs:656-668 | relinking one parent leaves the order under every other parent as it was |
| ChannelOrder.OrderAfterRemoval | BlackTeaSpeak-Server/src/runtime/normalization_and_helpers.rs:692-697 | a list that loses one channel reads as the channels before it followed by the later ones ascending by id |
| ChannelOrder.RemovalKeepsLinks | BlackTeaSpeak-Server/src/runtime/normalization_and_helpers.rs:687-698 | deletion leaves a well-linked list; the survivors keep their order exactly when the channels after the deleted one were ascending by id |
| ChannelOrder.DeletionLosesOrder | BlackTeaSpeak-Server/src/runtime/normalization_and_helpers.rs:687-698 | channels linked 1, 3, 2 that lose 1 come out as 2, 3 |
| ChannelOrder.RemovalFrame | BlackTeaSpeak-Server/src/runtime/normalization_and_helpers.rs:687-698 | deleting a channel leaves the order under every other parent as it was |
| ChannelForest.ChannelIsDescendant | BlackTeaSpeak-Server/src/runtime/catalog_and_utils.rs:681-697 | the upward walk is true exactly when the target is an ancestor or the start itself; it ends for every start that reaches the root or the target |
| ChannelForest.NoCycle | BlackTeaSpeak-Server/src/runtime/catalog_and_utils.rs:681-697 | a channel that reaches the root is never its own proper ancestor |
| ChannelForest.TipDown | BlackTeaSpeak-Server/src/runtime/catalog_and_utils.rs:608-631 | unique non-zero ids alone make the downward recursion terminate: a child is never already on the way down |
| ChannelForest.PassesBelowByChild | BlackTeaSpeak-Server/src/runtime/catalog_and_utils.rs:608-631 | being visible below a channel means being visible below one of its children that passes the view test |
| ChannelForest.CollectVisible | BlackTeaSpeak-Server/src/runtime/catalog_and_utils.rs:608-631 | the recursion adds exactly the channels that pass the view test together with every ancestor below the start |
| ChannelForest.VisibleChannelIds | BlackTeaSpeak-Server/src/runtime/web.rs:823-857 | a channel is visible exactly when it and all its ancestors pass, or it is the client's own channel or an ancestor of that; the set is ancestor-closed |
| ChannelForest.VisibleIsClosed | BlackTeaSpeak-Server/src/runtime/web.rs:823-857 | with every visible channel its parent is visible too |
| ChannelPreorder.OrderedVisibleChannelIds | BlackTeaSpeak-Server/src/runtime/catalog_and_utils.rs:633-654 | the recursive listing computes the preorder of the visible tree |
| ChannelPreorder.PreorderLists | BlackTeaSpeak-Server/src/runtime/catalog_and_utils.rs:633-654 | the preorder holds exactly the channels reached over visible channels, each once |
| ChannelPreorder.PreorderRestricts | BlackTeaSpeak-Server/src/runtime/catalog_and_utils.rs:633-654 | restricted to the children of any shown parent, the preorder is the visible part of their order |
| ChannelPreorder.PreorderParentsFirst | BlackTeaSpeak-Server/src/runtime/catalog_and_utils.rs:633-654 | every channel comes after its parent |
| ChannelPreorder.UnderOneChild | BlackTeaSpeak-Server/src/runtime/catalog_and_utils.rs:633-654 | the parts listed under two siblings are disjoint |
| ChannelRows.ChannelRowForVisibility | BlackTeaSpeak-Server/src/runtime/web.rs:880-908 | a row exists exactly for an existing visible channel, and its order names the previous visible sibling |
| ChannelRows.ChannelRowsForVisibility | BlackTeaSpeak-Server/src/runtime/web.rs:859-878 | one row per preorder entry: the filter drops none |
| ChannelRows.ClosedIsShown | BlackTeaSpeak-Server/src/runtime/web.rs:859-878 | on a forest an ancestor-closed set is shown completely |
| ChannelRows.RowsArePreorder | BlackTeaSpeak-Server/src/runtime/web.rs:859-908 | every visible channel gets exactly one row, and each row's parent and previous sibling are 0 or an earlier row |
| ChannelRows.RowRefersBack | BlackTeaSpeak-Server/src/runtime/web.rs:880-908 | the back references hold for any visible set and any stored links |
| ChannelRows.FilteredTreeRoundTrip | BlackTeaSpeak-Server/src/runtime/web.rs:859-908 | rebuilding the order from the emitted rows gives, for 0 and every emitted parent, the visible subsequence of the full order, whatever the stored links and the visible set are |
| FamilyCounts.FamilyClientCount | BlackTeaSpeak-Server/src/runtime/session_and_identity.rs:608-621 | the loop counts the clients in the channel or in a descendant |
| FamilyCounts.SiblingFamiliesDisjoint | BlackTeaSpeak-Server/src/runtime/catalog_and_utils.rs:681-697 | no channel is a descendant of two siblings |
| FamilyCounts.ChildFamiliesCover | BlackTeaSpeak-Server/src/runtime/session_and_identity.rs:608-621 | the children's family counts add up to the clients strictly below |
| FamilyCounts.FamilyCountConserved | BlackTeaSpeak-Server/src/runtime/session_and_identity.rs:600-621 | a family count is the channel's own client count plus its children's family counts |
| FamilyCounts.RootFamiliesCoverAll | BlackTeaSpeak-Server/src/runtime/session_and_identity.rs:600-621 | the root families add up to all clients placed in the tree |
| ChannelMove.ResolveInsertIndex | BlackTeaSpeak-Server/src/runtime/catalog_and_utils.rs:670-679 | order 0 is the front, no order the back, an id the place after that sibling; an unknown anchor is refused |
| ChannelMove.MoveChannel | BlackTeaSpeak-Server/src/runtime/handlers/channel.rs:891-924 | which error is reported when, nothing changes on an error, and on success the list is the moved one |
| ChannelMove.GuardIsExact | BlackTeaSpeak-Server/src/runtime/handlers/channel.rs:905-907 | changing the parent keeps the forest exactly when the new parent is neither the channel nor a descendant of it |
| ChannelMove.MoveKeepsForest | BlackTeaSpeak-Server/src/runtime/handlers/channel.rs:905-924 | a move that passes the guard keeps the forest |
| ChannelMove.MoveOrders | BlackTeaSpeak-Server/src/runtime/handlers/channel.rs:909-924 | the new parent lists its other children with the channel inserted; every other parent lists its children without it |
| ChannelMove.MoveStoresLinks | BlackTeaSpeak-Server/src/runtime/handlers/channel.rs:914-924 | a move writes the links of the new parent's and the old parent's list anew; well-linked lists of other parents stay |
| ChannelMove.LeavingSortsTheRest | BlackTeaSpeak-Server/src/runtime/handlers/channel.rs:920-924 | the parent left behind keeps the channels before the moved one and sorts the later ones by id; their order is kept exactly when they were ascending |
| ChannelMove.MoveLosesOrder | BlackTeaSpeak-Server/src/runtime/handlers/channel.rs:920-924 | channels linked 1, 3, 2 that see 1 move away come out as 2, 3 |
| ChannelMove.ExcludedIsWithout | BlackTeaSpeak-Server/src/runtime/catalog_and_utils.rs:573-606 | excluding a channel is the same as ordering the list without it |
| Housekeeping.RemoveAndRelink | BlackTeaSpeak-Server/src/runtime/normalization_and_helpers.rs:692-698 | removal followed by relinking in place |
| Housekeeping.Store.RemoveChannel | BlackTeaSpeak-Server/src/runtime/normalization_and_helpers.rs:687-709 | removes the channel with its assignments, permissions and messages, and reports whether there was one |
| Housekeeping.Store.CleanupTemporaryChannel | BlackTeaSpeak-Server/src/runtime/normalization_and_helpers.rs:625-685 | evicts the bots of a bot-only temporary channel, removes it when empty and childless, and reports exactly what it removed |
| Housekeeping.CollectCandidates | BlackTeaSpeak-Server/src/runtime/client_and_ban_state.rs:609-616 | the candidates are the temporary channels of the given servers, in the order of the servers and of their channel lists |
| Housekeeping.Store.RunTemporaryPass | BlackTeaSpeak-Server/src/runtime/client_and_ban_state.rs:608-651 | the pass collects the temporary channels, servers ascending, and then cleans them one after the other |
| HousekeepingSafety.LeafRemovalKeepsForest | BlackTeaSpeak-Server/src/runtime/normalization_and_helpers.rs:687-698 | removing and relinking a childless channel keeps the forest |
| HousekeepingSafety.CleanupStep | BlackTeaSpeak-Server/src/runtime/normalization_and_helpers.rs:625-709 | a cleanup keeps every client's channel, every parent and every other reference existing, loses only bots and temporary channels, and shrinks the store whenever it changes it |
| HousekeepingSafety.CleanupChanges | BlackTeaSpeak-Server/src/runtime/normalization_and_helpers.rs:625-685 | a cleanup changes nothing exactly when the channel is not temporary, holds a client that is no bot, or is empty with a child |
| HousekeepingSafety.PassIsSafe | BlackTeaSpeak-Server/src/runtime/client_and_ban_state.rs:608-651 | the same for a whole pass; a pass that changes anything strictly shrinks channels plus clients |
| HousekeepingSafety.Housekept | BlackTeaSpeak-Server/src/runtime/client_and_ban_state.rs:571-651 | repeating the pass terminates in a state that a further pass leaves alone, with nothing lost but bots and temporary channels |
| HousekeepingSafety.FixpointIsLeftAlone | BlackTeaSpeak-Server/src/runtime/client_and_ban_state.rs:608-651 | a pass changes nothing exactly when it leaves every temporary channel alone |
| HousekeepingSurvivors.CleanupSurvivors | BlackTeaSpeak-Server/src/runtime/normalization_and_helpers.rs:687-709 | a cleanup loses exactly the messages of the channel it removes and the assignments and targets with that channel id; the others keep their order |
| HousekeepingSurvivors.PassSurvivors | BlackTeaSpeak-Server/src/runtime/client_and_ban_state.rs:608-651 | the same over a whole pass |
| HousekeepingSurvivors.HousekeptSurvivors | BlackTeaSpeak-Server/src/runtime/client_and_ban_state.rs:571-651 | the same until nothing changes any more |
| HousekeepingSurvivors.OnlyTheirsAreLost | BlackTeaSpeak-Server/src/runtime/normalization_and_helpers.rs:699-707 | housekeeping loses a message exactly when its channel was temporary and is gone from its server, an assignment or target exactly when that holds on some server |
| HousekeepingSafety.FixpointSubtreesInUse | BlackTeaSpeak-Server/src/runtime/client_and_ban_state.rs:608-651 | at the fixpoint every temporary channel has a client that is no bot, or a non-temporary channel, in its subtree |
| AntiFlood.AntiFloodState.Leak | BlackTeaSpeak-Server/src/runtime/catalog_and_utils.rs:485-499 | the leak of whole seconds, with saturation, in place |
| AntiFlood.AntiFloodState.CommandRejected | BlackTeaSpeak-Server/src/runtime/catalog_and_utils.rs:472-516 | one call: points, clock, block and verdict |
| AntiFlood.RateBound | BlackTeaSpeak-Server/src/runtime/catalog_and_utils.rs:472-516 | over any window of calls, from any bucket, the accepted cost is below the command threshold plus the leak of the seconds begun |
| AntiFlood.VerdictIsExact | BlackTeaSpeak-Server/src/runtime/catalog_and_utils.rs:498-516 | outside a block a call is rejected exactly when the unbounded sum of points and cost reaches a threshold, and starts a block exactly at the address threshold |
| AntiFlood.BlockHolds | BlackTeaSpeak-Server/src/runtime/catalog_and_utils.rs:498-508 | while a block lasts every call with a cost is rejected, over any run, and the block neither grows nor shrinks |
| AntiFlood.ModerateUseAccepted | BlackTeaSpeak-Server/src/runtime/catalog_and_utils.rs:472-516 | outside a block, calls whose whole cost stays below the thresholds are all accepted, at whatever times |
| AntiFlood.StartsUnlessZero | BlackTeaSpeak-Server/src/runtime/catalog_and_utils.rs:481-483 | the first call starts a bucket exactly when its clock is not 0 |
| AntiFlood.ZeroClockExample | BlackTeaSpeak-Server/src/runtime/catalog_and_utils.rs:481-496 | calls at 0 and 1000 leak nothing, calls at 1 and 1001 one second |
| AntiFlood.AcceptedIsExact | BlackTeaSpeak-Server/src/runtime/catalog_and_utils.rs:498-513 | an accepted call never meets the saturation of the point counter |
| FloodBlock.ChargeIsKept | BlackTeaSpeak-Server/src/runtime/catalog_and_utils.rs:498-513 | outside a block every call with a cost is charged, accepted or refused; during a block none is |
| FloodBlock.FloodStartsBlock | BlackTeaSpeak-Server/src/runtime/catalog_and_utils.rs:472-516 | commands that outrun the leak by the address threshold start a block within the run, whatever the command threshold refuses |
| FloodBlock.BurstStartsBlock | BlackTeaSpeak-Server/src/runtime/catalog_and_utils.rs:472-516 | commands of one instant start a block when their cost and what has not leaked reach the address threshold |
| EagerTicker.TickIsBulkLeak | BlackTeaSpeak-Server/src/runtime/catalog_and_utils.rs:485-499 | subtracting once per full second equals one saturating bulk subtraction |
| EagerTicker.DecayedTimes | BlackTeaSpeak-Server/src/runtime/catalog_and_utils.rs:485-499 | with a positive leak no fraction of a second is lost and saturation agrees with exact arithmetic |
| EagerTicker.StepRefines | BlackTeaSpeak-Server/src/runtime/catalog_and_utils.rs:472-516 | one lazy step matches one step of the ticking bucket |
| EagerTicker.LazyRefinesEager | BlackTeaSpeak-Server/src/runtime/catalog_and_utils.rs:472-516 | for every run with a clock that does not go back, verdicts, points and blocks equal those of a bucket that leaks at every full second and charges on its own, with exact sums |
| EagerTicker.FreshBucketRefines | BlackTeaSpeak-Server/src/runtime/catalog_and_utils.rs:472-516 | the same from an unused bucket, whose clock 0 means not started |
| SharedAntiFlood.Runtime.AddAddress | BlackTeaSpeak-Server/src/runtime/client_and_ban_state.rs:543-548 | a missing bucket is created empty, no other bucket changes |
| SharedAntiFlood.Runtime.SharedIpRejected | BlackTeaSpeak-Server/src/runtime/client_and_ban_state.rs:525-551 | one address's bucket takes one step, blank and loopback addresses are not limited |
| SharedAntiFlood.Runtime.EnforceWebAntiflood | BlackTeaSpeak-Server/src/runtime/web.rs:5-62 | the session's bucket is asked first, the shared one only when that accepts |
| SharedAntiFlood.Runtime.EnforceQueryAntiflood | BlackTeaSpeak-Server/src/runtime/dispatch.rs:12-45 | a command at the common dispatcher is charged to the shared bucket of its trimmed address, local addresses included |
| SharedAntiFlood.UncheckedPass | BlackTeaSpeak-Server/src/runtime/web.rs:14-35 | without a limited server, with the exemption, or over the web at no cost, a command passes and moves no bucket |
| SharedAntiFlood.SessionBucketMoves | BlackTeaSpeak-Server/src/runtime/web.rs:38-43 | a checked web command moves its session's own bucket by one step, is refused whenever that refuses it, and moves no other session's |
| SharedAntiFlood.SessionRateBound | BlackTeaSpeak-Server/src/runtime/web.rs:5-62 | the cost accepted from one session stays within the rate bound of the servers it uses, over every mixed run |
| SharedAntiFlood.SharedBucketMoves | BlackTeaSpeak-Server/src/runtime/client_and_ban_state.rs:525-551 | one command from either front end moves an address's bucket exactly when it reaches it, and is refused as that bucket says |
| SharedAntiFlood.ReachingCarriesCost | BlackTeaSpeak-Server/src/runtime/client_and_ban_state.rs:525-551 | the cost accepted from an address is what its shared bucket accepts, over every run that mixes web sessions and query connections |
| SharedAntiFlood.SharedRateBound | BlackTeaSpeak-Server/src/runtime/client_and_ban_state.rs:525-551 | the rate bound holds for one address, however its web sessions and query connections interleave with each other and with other addresses |
| Base64.SextetsReflectPrefix | BlackTeaSpeak-Server/src/file_transfer/registry.rs:267-271 | a prefix of the sextets, full groups only, means a prefix of the bytes |
| Base64.EncodeReflectsPrefix | BlackTeaSpeak-Server/src/file_transfer/registry.rs:267-271 | if one standard base64 encoding (section 4 of RFC 4648) is a prefix of another, so are the encoded texts |
| Base64.EncodeRoundTrip | BlackTeaSpeak-Server/src/file_transfer/registry.rs:267-271 | a decoder written from section 4 of RFC 4648 gives back the encoded bytes |
| TransferKeys.DigitsRoundTrip | BlackTeaSpeak-Server/src/file_transfer/registry.rs:267-271 | decimal numerals determine their number |
| TransferKeys.KeysPrefixFree | BlackTeaSpeak-Server/src/file_transfer/registry.rs:266-292 | a key that is a prefix of another key belongs to the same transfer id |
| TransferKeys.KeyStart | BlackTeaSpeak-Server/src/file_transfer/registry.rs:379-397 | a key never starts like the `ftkey=` form |
| TransferKeys.KeyLength | BlackTeaSpeak-Server/src/file_transfer/registry.rs:266-271 | a key is at most 80 bytes, so it fits the 1024 bytes read |
| RawTransfer.OneTransferMatches | BlackTeaSpeak-Server/src/file_transfer/registry.rs:379-397 | the start of a stream matches the keys of one transfer id at most, in one form only, whatever is pending at which moment |
| RawTransfer.OneMatch | BlackTeaSpeak-Server/src/file_transfer/registry.rs:379-397 | at most one pending key matches the start of a buffer, in one form only, so the scan order of the map does not matter |
| RawTransfer.MatchIsStable | BlackTeaSpeak-Server/src/file_transfer/registry.rs:379-397 | a match in the bytes received is the match in the whole stream, and conversely once enough bytes are there |
| RawTransfer.KeyInPrefix | BlackTeaSpeak-Server/src/file_transfer/registry.rs:379-397 | a key recognised in what has arrived is the key of the whole stream; if none is, the stream's key is still incomplete |
| RawTransfer.Registry.PrepareTransfer | BlackTeaSpeak-Server/src/file_transfer/registry.rs:266-292 | registration keeps the registry valid and never displaces a pending transfer |
| RawTransfer.Registry.TakeTransfer | BlackTeaSpeak-Server/src/file_transfer/registry.rs:372-377 | a known key is taken out once, an unknown one changes nothing |
| RawTransfer.Registry.TakeTransferMatchingPrefix | BlackTeaSpeak-Server/src/file_transfer/registry.rs:379-397 | scanning in any order takes out the one matching transfer, or nothing when there is none |
| RawTransfer.ReceiveKey | BlackTeaSpeak-Server/src/file_transfer/server.rs:161-180 | for every way of cutting the stream, the same transfer is redeemed and the same bytes follow; how many of them are already there is a function of the cutting; a stream without a key is given up soon after 1024 bytes |
| RawUpload.ReceiveUpload | BlackTeaSpeak-Server/src/file_transfer/server.rs:207-252 | the bytes written equal the count, never exceed the size, and are the stream after the dropped line break; no more of the stream is read than is missing |
| RawTransfer.ReceiveRawUpload | BlackTeaSpeak-Server/src/file_transfer/server.rs:157-252 | the outcome of a raw upload as a function of the whole stream and its cutting; without a key nothing changes |
| RawUpload.PossibleUploadsOccur | BlackTeaSpeak-Server/src/file_transfer/server.rs:161-216 | what is stored is the payload from its start or without its leading line break, and each possible result occurs for some cutting |
| RawUpload.CuttingMattersForBreaks | BlackTeaSpeak-Server/src/file_transfer/server.rs:208-216 | the stored bytes are the same for every cutting exactly when no line break can be dropped, or the stored part is nothing but that line break repeated |
| RawUpload.DroppedBreakExample | BlackTeaSpeak-Server/src/file_transfer/server.rs:208-216 | an input on which two cuttings store different bytes |
| RawTransfer.RawUploadIsExact | BlackTeaSpeak-Server/src/file_transfer/server.rs:157-252 | a key, plain or after `ftkey=`, followed by exactly the announced bytes stores exactly those bytes and spends the key |
| RawTransfer.RedeemedAtMostOnce | BlackTeaSpeak-Server/src/file_transfer/registry.rs:266-397 | over any run of registrations and redemptions no transfer is redeemed twice |
| HttpRequest.FindsFirst | BlackTeaSpeak-Server/src/file_transfer/utils.rs:158-165 | the position found is the first occurrence; nothing is found exactly when there is none |
| HttpRequest.FindIsStable | BlackTeaSpeak-Server/src/file_transfer/utils.rs:158-165 | the first occurrence in a received prefix is the first in the whole stream |
| HttpRequest.ReceiveHeader | BlackTeaSpeak-Server/src/file_transfer/http.rs:129-143 | the header loop computes its outcome as a function of the stream and its cutting |
| HttpRequest.ReceiveBody | BlackTeaSpeak-Server/src/file_transfer/http.rs:171-177 | reads on until the announced body is there, fails exactly when the stream is too short |
| HttpRequest.HeaderLoopSound | BlackTeaSpeak-Server/src/file_transfer/http.rs:129-143 | where the header block ends, or why there is none, for every cutting |
| HttpRequest.ReadHttpRequest | BlackTeaSpeak-Server/src/file_transfer/http.rs:129-185 | the request is a function of the stream, but for the refusal as too large, which also depends on the cutting |
| HttpRequest.FramingRoundTrip | BlackTeaSpeak-Server/src/file_transfer/http.rs:146-184 | the header block and the body that were sent come back, whatever follows them; a cut-off request, a missing header end and an unusable header are recognised |
| HttpRequest.BandGoesBothWays | BlackTeaSpeak-Server/src/file_transfer/http.rs:132-143 | a header that ends within one read of the limit is accepted for one cutting and refused for another |
| HttpRequest.CuttingMattersInBand | BlackTeaSpeak-Server/src/file_transfer/http.rs:129-185 | the request is the same for every cutting exactly when the header does not end in that band or no more than the limit follows |
| HttpRequest.BandExample | BlackTeaSpeak-Server/src/file_transfer/http.rs:132-143 | an input in the band |
| HttpRequest.FirstOccurrence | BlackTeaSpeak-Server/src/file_transfer/http.rs:322-326 | a needle whose first byte occurs once in it cannot overlap itself |
| HttpRequest.TerminatorAfter | BlackTeaSpeak-Server/src/file_transfer/http.rs:319-321 | the blank line after the part's headers is the first one |
| HttpRequest.MultipartRoundTrip | BlackTeaSpeak-Server/src/file_transfer/http.rs:310-328 | from a single-part body (section 5.1.1 of RFC 2046) the payload comes back exactly when it does not contain CRLF and the delimiter |
| PercentCoding.PercentEncode | BlackTeaSpeak-Server/src/file_transfer/http.rs:277-302 | the loop encodes byte by byte |
| PercentCoding.PercentDecode | BlackTeaSpeak-Server/src/file_transfer/utils.rs:12-40 | the loop decodes well-formed triples and keeps everything else |
| PercentCoding.AttrCharIsStandard | BlackTeaSpeak-Server/src/file_transfer/http.rs:281-295 | the bytes that stand for themselves are the attr-char of section 3.2.1 of RFC 5987 |
| PercentCoding.HexDigitsOnly | BlackTeaSpeak-Server/src/file_transfer/utils.rs:33-40 | the hexadecimal digits are those sixteen, in either case |
| PercentCoding.EitherCaseDecodes | BlackTeaSpeak-Server/src/file_transfer/utils.rs:12-32 | a triple decodes alike whatever the case of its digits |
| PercentCoding.OtherBytesStay | BlackTeaSpeak-Server/src/file_transfer/utils.rs:12-32 | any other byte, a percent sign without two digits included, stands for itself |
| PercentCoding.PercentRoundTrip | BlackTeaSpeak-Server/src/file_transfer/utils.rs:12-40 | decoding gives back every encoded byte string |
| PercentCoding.EncodedIsExtValue | BlackTeaSpeak-Server/src/file_transfer/http.rs:277-302 | the encoding holds only attr-char bytes and upper-case %XX triples (section 3.2.1 of RFC 5987) |
| VirtualPath.AppendSegments | BlackTeaSpeak-Server/src/file_transfer/utils.rs:77-84 | appends the non-empty segments, stops at the first forbidden one |
| VirtualPath.NormalizeAbsolutePath | BlackTeaSpeak-Server/src/file_transfer/utils.rs:87-110 | the loop computes the normal form or refuses |
| VirtualPath.JoinVirtualPath | BlackTeaSpeak-Server/src/file_transfer/utils.rs:71-86 | the loop computes the join or refuses |
| VirtualPath.SegmentsRoundTrip | BlackTeaSpeak-Server/src/file_transfer/utils.rs:111-123 | splitting a built path gives back its non-empty slash-free segments |
| VirtualPath.NormalizedIsNormal | BlackTeaSpeak-Server/src/file_transfer/utils.rs:87-110 | the result is a normal form, and a normal form is left as it is |
| VirtualPath.NormalizeIsIdempotent | BlackTeaSpeak-Server/src/file_transfer/utils.rs:87-110 | normalising twice is normalising once |
| VirtualPath.RelativeJoin | BlackTeaSpeak-Server/src/file_transfer/utils.rs:71-86 | a relative join keeps the base's segments as a prefix and appends the leaf's |
| VirtualPath.JoinedIsNormal | BlackTeaSpeak-Server/src/file_transfer/utils.rs:71-86 | a join is a normal form |
| FileAreas.Layout | BlackTeaSpeak-Server/src/file_transfer/registry.rs:345-370 | where the files of each area lie below the repository root |
| FileAreas.LocationInjective | BlackTeaSpeak-Server/src/file_transfer/registry.rs:345-370 | the location determines the area and the normalised path |
| FileAreas.ResolvedIsNormal | BlackTeaSpeak-Server/src/file_transfer/registry.rs:294-330 | a resolved path is a normal form, for any path and name |
| FileAreas.ResolvedStaysInside | BlackTeaSpeak-Server/src/file_transfer/registry.rs:294-370 | the location extends its area's root by plain file names, for any path and name |
| GlobalFiles.ListAreaBySegments | BlackTeaSpeak-Server/src/file_transfer/utils.rs:41-70 | the area of a directory of the global file space is decided by the first segment of its path, which is dropped for icons and music |
| GlobalFiles.NameBySegments | BlackTeaSpeak-Server/src/file_transfer/registry.rs:294-330 | the area and path of a named file of the global file space, for every form of name and directory |
| GlobalFiles.MusicRootExample | BlackTeaSpeak-Server/src/file_transfer/utils.rs:41-62 | the directory /music itself is listed among the avatars |
| Presence.CollectRecipients | BlackTeaSpeak-Server/src/web/broadcast.rs:711-862 | a broadcast adds to each session's frames exactly the one meant for it, in any visiting order |
| Presence.PushAll | BlackTeaSpeak-Server/src/web/broadcast.rs:866-873 | pushing keeps each queue's order |
| Presence.BroadcastPresenceChange | BlackTeaSpeak-Server/src/web/broadcast.rs:711-873 | each queue grows by exactly the frames meant for its session, in order |
| Presence.UpdateMerges | BlackTeaSpeak-Server/src/web/frames.rs:966-981 | applying the changed attributes gives the new ones exactly when none was dropped |
| Presence.StepIsExact | BlackTeaSpeak-Server/src/web/broadcast.rs:671-709 | the derived frames leave a view correct for the client exactly under a stated condition on the step, for locations and for attributes, and touch no other client |
| Presence.FramesTellTheStep | BlackTeaSpeak-Server/src/web/broadcast.rs:671-862 | every frame for a step names the client, where it came from, where it went and its attributes, and goes to other clients of the server only |
| Presence.LeavingFrame | BlackTeaSpeak-Server/src/web/broadcast.rs:832-858 | the frame for a client that leaves names the channel it was in |
| Presence.NextKeepsInvariant | BlackTeaSpeak-Server/src/web/broadcast.rs:671-873 | every event keeps all replicas in sync with the table, up to their queues |
| Presence.ReplicaConsistency | BlackTeaSpeak-Server/src/web/broadcast.rs:671-873 | over every run a drained session locates the other clients as the table does within its visible channels; when the steps keep attributes in reach of the frames, its whole view is that part of the table |
| Presence.SnapshotInSync | BlackTeaSpeak-Server/src/runtime/web.rs:1013-1027 | a session that starts from the clients of its server in its visible channels, without its own, is in sync |
| Presence.GoneButShown | BlackTeaSpeak-Server/src/web/broadcast.rs:671-709 | a client that disappears or changes server stays in a view |
| Presence.StaleAttributes | BlackTeaSpeak-Server/src/web/broadcast.rs:671-709 | inputs on which a view keeps an old or dropped attribute |
| History.IssuedIncrease | BlackTeaSpeak-Server/src/runtime/normalization_and_helpers.rs:340-344 | timestamps strictly increase, even when the clock goes back, exactly as long as the counter has room |
| History.SaturatedCounter | BlackTeaSpeak-Server/src/runtime/normalization_and_helpers.rs:340-344 | at the largest number the same timestamp is issued twice |
| History.SelectIsExact | BlackTeaSpeak-Server/src/runtime/session_and_identity.rs:207-219 | a selection holds exactly the matching messages |
| History.SelectedByFields | BlackTeaSpeak-Server/src/runtime/web.rs:420-429 | which messages a page is taken from and which a deletion is about, over the messages' fields |
| History.ConversationStore.NextTimestamp | BlackTeaSpeak-Server/src/runtime/normalization_and_helpers.rs:340-344 | the timestamp is the larger of clock and counter |
| History.ConversationStore.RecordTextMessage | BlackTeaSpeak-Server/src/runtime/events.rs:15-44 | the message is appended with the timestamp issued; the lists stay ordered below the counter exactly until it saturates |
| History.ConversationStore.RecordPrivateMessage | BlackTeaSpeak-Server/src/runtime/events.rs:46-69 | the same for private messages |
| History.ConversationStore.DeleteConversationMessages | BlackTeaSpeak-Server/src/runtime/client_and_ban_state.rs:773-807 | the number deleted and the list left, for every combination of bounds |
| History.RetainUnmatched | BlackTeaSpeak-Server/src/runtime/client_and_ban_state.rs:788-804 | the filtering pass with its counter |
| History.DeletesFirstMatches | BlackTeaSpeak-Server/src/runtime/client_and_ban_state.rs:773-807 | bounded deletion removes exactly the first matches, in order, and nothing else |
| HistoryPaging.SortIsIdentity | BlackTeaSpeak-Server/src/runtime/web.rs:430 | the stored lists are already sorted |
| HistoryPaging.PageSplits | BlackTeaSpeak-Server/src/runtime/web.rs:408-436 | a page is the end of the selection, and asking below its oldest message selects exactly the rest |
| HistoryPaging.PagingIsPartition | BlackTeaSpeak-Server/src/runtime/web.rs:408-436 | paging backwards visits every message of the conversation exactly once, in order |
| HistoryPaging.NextPageIsOlder | BlackTeaSpeak-Server/src/runtime/web.rs:420-421 | the following page is older exactly when the oldest timestamp received is above 2 |
| HistoryPaging.RestartsAtNewest | BlackTeaSpeak-Server/src/runtime/web.rs:420-421 | otherwise the newest page comes again |
| HistoryPaging.RestartExample | BlackTeaSpeak-Server/src/runtime/web.rs:420-421 | a message recorded by a new store at clock 0 comes again on every page |
| HistoryPaging.SeedIsAbove | BlackTeaSpeak-Server/src/runtime/catalog_and_utils.rs:56-71 | after loading, the next timestamp is above every stored one exactly when none is the largest number; the seed is one above the highest, 1 without any |
| Normalization.Store.NormalizeClientPermissions | BlackTeaSpeak-Server/src/runtime/normalization_and_helpers.rs:115-145 | merges the targets of each client in key order |
| Normalization.Store.NormalizeChannelGroupAssignments | BlackTeaSpeak-Server/src/runtime/normalization_and_helpers.rs:74-113 | keeps valid assignments, one per channel and client, in key order |
| Normalization.Store.NormalizeChannelClientPermissions | BlackTeaSpeak-Server/src/runtime/normalization_and_helpers.rs:147-181 | merges the valid channel permissions, one target per channel and client, in key order |
| Normalization.Store.NormalizeOnLoad | BlackTeaSpeak-Server/src/runtime/persistence.rs:524-526 | the three passes in the order used on load |
| NormalizationSafety.KeptAssignments | BlackTeaSpeak-Server/src/runtime/normalization_and_helpers.rs:74-113 | an assignment is kept exactly when it is the last valid one of its channel and client |
| NormalizationSafety.KeptPermissions | BlackTeaSpeak-Server/src/runtime/normalization_and_helpers.rs:147-181 | a channel and client keep exactly the last valid value of each permission |
| NormalizationSafety.KeptClients | BlackTeaSpeak-Server/src/runtime/normalization_and_helpers.rs:115-145 | a client is kept exactly when it has permissions, once, with the last value of each and its first non-empty name and nickname |
| NormalizedStore.NormalizedRefers | BlackTeaSpeak-Server/src/runtime/normalization_and_helpers.rs:74-181 | every remaining entry names a group and channel of the store and a client that something else or a permission of its own mentions, with one entry per key |
| NormalizedStore.AssignmentStays | BlackTeaSpeak-Server/src/runtime/normalization_and_helpers.rs:74-113 | an assignment is in the loaded store exactly when it is the last of its channel and client that names an existing group, channel and client |
| NormalizedStore.PermissionStays | BlackTeaSpeak-Server/src/runtime/normalization_and_helpers.rs:147-181 | a channel and client have a permission value exactly when the last valid target that mentions the permission gives it |
| NormalizationSafety.NormalizeIsFixpoint | BlackTeaSpeak-Server/src/runtime/persistence.rs:524-526 | running the three passes again changes nothing |

## Left out

- RawTransfer.Registry.PrepareTransfer: requires the transfer counter to be below 2^64; the atomic counter of the source wraps around there.
- RawTransfer.RedeemedAtMostOnce: bounded by the same counter, for the same reason.
- RawTransfer.ReceiveKey: the registry does not change between two reads. In the source every read is followed by a locked section of its own, so other connections may register and redeem in between; `RawTransfer.OneTransferMatches` holds whatever they do.
- RawTransfer.ReceiveRawUpload: the same.
- SharedAntiFlood.SharedRateBound: the anti-flood configuration of a server is fixed during a run. A web command that is passed on to the common dispatcher is two commands of the run, one at each gate, as it is charged twice.
- FileAreas.ResolvedStaysInside: takes the caller's own avatar id to be a plain file name; the source builds it from the client's identity, outside this code.
- FileAreas.ResolvedIsNormal: the same.
- HttpRequest.ReadHttpRequest: the parsing of the header lines is a parameter that yields the content length, and the sum of header end and content length is taken not to overflow.
- HttpRequest.MultipartRoundTrip: the boundary is given; finding and unquoting it in the Content-Type header is left out.
- Presence.ReplicaConsistency: visible sets are fixed; visibility changes and permission refreshes send their own frames, which are not modelled. Attribute names that collide with the row keys clid, cfid, ctid and reasonid are not distinguished.
- Housekeeping.Store.RunTemporaryPass: the removal of timed-out clients that precedes the pass, the music-bot table, notifications and database writes are left out.
- Channel, client and group ids are unbounded numbers: the code does no arithmetic on them, apart from the numerals in transfer keys. Client counts are not truncated to 32 bits.
- The permission test for viewing a channel is an arbitrary predicate; the exemption from anti-flood, the trimming of addresses, the loopback test and every clock reading are inputs.
- Path components are lists of segments; symbolic links and the file system itself are not modelled. Invalid UTF-8, which percent decoding replaces, is left as bytes.
- HTTP and raw downloads, sockets, TLS, I/O errors and threads: each locked section is one atomic step.
- The rows' fixed keys, private-history paging, the existence check of a conversation, and the normalisation of query-account and online-client groups would only add easy members.
- Channel creation and editing, forced recursive deletion, permission evaluation, the music-bot queue, the query parser, cryptography and the web client are left out.
