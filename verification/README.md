# A model of a self-hosted messaging backend

This project models the small state machines inside the backend of an office messaging system and proves
properties of every run of them. SQL tables are maps and sets with their primary keys, a Go channel is a
bounded queue that remembers what was ever put in it, the clock is an integer, and each thing that Go
changes step by step is a class whose methods are proved against a function of the old state.

- **Messaging router** (`Store`, `Registry`, `Router`, `Delivery`, `DeliveryInvariant`, `DeliveryTheorems`,
  `DeliveryHistory`).
  `Router` has the sequential code: the registry of connections, the three pieces of code that decide who
  may use a channel, the opening of direct-message channels, and the send sequence. `Delivery` is the same
  service under interference: any number of requests, each advancing one statement or one channel operation
  at a time, any statement of which may fail, interleaved with connects, disconnects, reads, and rows added
  by the admin service. An inductive invariant carries delivery safety, close-once, and the shape of
  direct-message channels through every run. `SoloMatchesRouter` ties the steps back to the methods, and
  `DeliveryHistory` traces each message, row and connection of a state to the steps that made it.
- **Admin event hub** (`Channels`, `HubModel`, `Hub`). The select loop as a step system, with the class
  proved to take exactly those steps: no gaps in what a client gets, and where the loop can block on itself.
- **Endpoint metrics** (`Percentile`, `Metrics`). The bounded counters and the last 512 samples refine a
  description of the whole call history, and the percentile is the nearest-rank percentile.
- **Rate limiter** (`RateLimiter`). One body, copied in several services, with two disciplines for reading
  the clock. Under the lock, the window bound holds in every interleaving; before the lock, how late a
  thread gets the lock decides exactly how much of the window the bound still holds for.
- **Presence and monitoring** (`Presence`, `Monitoring`). Cleanup against nanosecond and second rounding,
  a cache with separate check and store, and counts taken while rows arrive.
- **Password hash string** (`Base64`, `PasswordHash`) and **audit chain** (`AuditChain`).

Where the code does less than its intent suggests, the model keeps the code and states exactly when the
intent is met:

- A public channel with a NULL name may be used by everyone and appears in nobody's list, since scanning the
  row fails and the row is skipped (`ListedIffAuthorised`, `UnnamedChannelIsNotListed`). The router's schema
  allows such a row, but the router never writes one: it can only come from outside.
- Member rows from outside can spoil the rule that a direct-message channel exists exactly when its members
  are exactly its pair; `DmRowsAreThePair` says which rows do.
- The limiter copies that read the clock before they take the lock keep the bound for intervals of a given
  length, over all schedules whose readings are at most `skew` out of order within one address, if and only
  if length and skew together do not exceed the window (`SkewBoundIff`, for limits from two on). The longest
  wait for the lock decides in the same way (`WaitBoundIff`). For the full window that means no skew at
  all, or a limit of at most one (`FullWindowIff`). The failing schedule exists for every such limit and
  window: a burst of `limit` requests, and two more of which the later reading gets the lock first
  (`OutsideCopyCanExceed`).
- Cleanup never changes a status answer, but it changes the overview's online count on some table exactly
  when its clock reading lies in a later second than the overview's (`CleanupHidesIffLaterSecond`).
- A failed audit write moves the hash without moving the file: the file passes the check if and only if no
  write succeeds after a failed one (`PassesIffFailuresLast`). A restart starts a new chain, so a file of
  any number of processes passes as one chain if and only if at most one of them logged anything
  (`RestartBreaksChain`; `RestartsAndFailures` has restarts and failed writes together).
- The id of a direct-message channel is injective on ids without a colon; with colons two pairs can share
  one (`DmIdCollides` says exactly when).
- The hub's goroutine sends to the buffer that only it empties. It is stuck at some point of a run if and
  only if a registration or unregistration was taken before with the buffer full, or an emission took the
  last place while an event of the hub's own was waiting (`BlockedIffTookBlocking`, `HubMovesUnlessBlocked`);
  and then it is stuck for the rest of the run (`BlockedForever`). 257 registrations with no broadcast between
  them lead there (`BlockingIsReachable`).
- A history page shows the hundred oldest messages, so a channel with more never shows its newer ones
  (`ShownIffAmongOldest`).

## Model

| member | source | states |
|---|---|---|
| DeliveryTheorems.DeliverySafety | backend/services/messaging/main.go:404-439 | in every state of every run, whatever was ever put in a client's queue is a stored message, its sender may use its channel, the channel is public or the client's user belongs to it, and no message was put in twice |
| DeliveryTheorems.ReceiversAreServed | backend/services/messaging/main.go:404-439 | each client that is a receiver when the broadcast takes the lock gets the message unless its queue was full at its turn, and nobody is left over when the request is done |
| DeliveryTheorems.NoSendOnClosed | backend/services/messaging/main.go:199-232 | in every run a broadcast under way only has clients with open queues before it, and a client's queue is open exactly while it is listed |
| DeliveryTheorems.DmRowsAreThePair | backend/services/messaging/main.go:442-480 | in every state the members of a pair's DM channel are the pair once the channel exists, plus whoever was added from outside, and nobody else; the channel exists exactly when its members are exactly the pair, if and only if the rows from outside only repeat the pair (with the channel) or are not the pair (without it) |
| DeliveryTheorems.SameDmForBoth | backend/services/messaging/main.go:442-480 | all callers that succeed in opening the DM of one pair, in either argument order, hold the same id, and both users may use it |
| DeliveryTheorems.OneInsertWins | backend/services/messaging/main.go:457-477 | in every run, once one caller's insert for a pair has succeeded, every later insert for that pair, in either order and whatever ran in between, ends in an error with unchanged tables |
| DeliveryTheorems.InsertFails | backend/services/messaging/main.go:457-477 | with the pair's channel in the tables the insert always fails and changes nothing |
| DeliveryTheorems.FailedStatementLeavesNoRows | backend/services/messaging/main.go:457-477 | a statement that ends its request with an error has changed no table |
| DeliveryTheorems.NamedUserIsNeverRefused | backend/services/messaging/main.go:363-385 | after resolving a user as the target, the access check never refuses the sender, whatever ran in between |
| DeliveryTheorems.AudienceIsAccess | backend/services/messaging/main.go:236-260 | the receivers that a broadcast collects are exactly the listed connections whose user passes the access check |
| DeliveryTheorems.TablesGrow | backend/services/messaging/main.go:170-196 | along a run channels keep their rows, and users, memberships and messages stay |
| DeliveryTheorems.RunKeepsInv | backend/services/messaging/main.go:505-526 | the invariant of registry, queues, requests and tables holds in every reachable state |
| DeliveryTheorems.SoloMatchesRouter | backend/services/messaging/main.go:505-526 | the steps of a send that runs alone leave the tables, and reach the broadcast or the error, just as the sequential send does |
| DeliveryTheorems.SoloReadMatchesRouter | backend/services/messaging/main.go:562-583 | a history request that runs alone is let in to the channel that it names, or ends with the same error as the sequential handler |
| DeliveryTheorems.SoloOpens | backend/services/messaging/main.go:656-696 | a request to open a direct-message channel that runs alone ends with the pair's channel and the tables of find-or-create, or with the error |
| DeliveryHistory.MessagesAreRequests | backend/services/messaging/main.go:538-560 | in every state of every run each stored or queued message was asked for by a send request of its sender, and has that request's type, content, nonce and signature, its channel or the pair's, and the id and clock reading of one of its statements |
| DeliveryHistory.LocalStores | backend/services/messaging/main.go:538-560 | the only new message row that a statement makes is the insert's, field by field that of the request, sender, channel, id and clock |
| DeliveryHistory.StoresOnce | backend/services/messaging/main.go:505-526 | a request that has come to its insert never comes to one again, so it stores at most one message |
| DeliveryHistory.FailureEndsRequest | backend/services/messaging/main.go:505-526 | a statement that the database fails ends its request with an error at every later point of the run, and changes no table |
| DeliveryHistory.ListedIffConnected | backend/services/messaging/main.go:199-232 | in every state of every run a connection is listed, with its queue open, if and only if it was registered and has not been unregistered since |
| DeliveryHistory.ConnectionKeepsUser | backend/services/messaging/main.go:203-208 | a connection stays with the user that it was registered for and is in no other user's list |
| DeliveryHistory.OneMessageARead | backend/services/messaging/main.go:530-535 | what a client has received is the beginning of what was put in its queue, one message for each read |
| DeliveryHistory.RowsHaveOrigin | backend/services/messaging/main.go:442-480 | every channel and member row was added from outside or belongs to a direct-message channel that this service opened for a pair, with the pair as members |
| DeliveryHistory.OutsideRowsArrive | backend/services/messaging/main.go:170-196 | channels and members that other services add are in the tables from then on |
| DeliveryInvariant.StepKeepsInv | backend/services/messaging/main.go:404-562 | every single step of the interleaved service keeps the invariant |
| DeliveryInvariant.LocalKeepsThread | backend/services/messaging/main.go:363-385 | what a request has established by its statements so far still holds after its next statement |
| DeliveryInvariant.LocalKeepsDm | backend/services/messaging/main.go:442-480 | no statement of any request leaves a DM channel with other members than its pair |
| DeliveryInvariant.LocalGrows | backend/services/messaging/main.go:538-560 | a statement of a request only adds rows |
| DeliveryInvariant.LockKeepsInv | backend/services/messaging/main.go:410-411 | taking the read lock and fixing the receivers keeps the invariant |
| DeliveryInvariant.ReceiversOk | backend/services/messaging/main.go:415-437 | the receivers of a broadcast are distinct, open, and belong to users who may use the channel, although the audience was read before the lock |
| DeliveryInvariant.DeliverKeepsInv | backend/services/messaging/main.go:417-424 | offering the message to the next receiver keeps the invariant: legitimate, authorised and new to that client |
| DeliveryInvariant.StoredIdIsNew | backend/services/messaging/main.go:550-554 | a message that the primary key lets in is known to no other request and in no queue |
| DeliveryInvariant.ConnectKeepsInv | backend/services/messaging/main.go:199-212 | registering a connection keeps the invariant |
| DeliveryInvariant.DisconnectKeepsInv | backend/services/messaging/main.go:215-232 | unregistering a connection, once or again, keeps the invariant |
| DeliveryInvariant.ReadKeepsInv | backend/services/messaging/main.go:530-535 | a client taking a message from its queue keeps the invariant |
| DeliveryInvariant.OutsideKeepsInv | backend/services/messaging/main.go:170-196 | rows added by other services keep the invariant |
| Router.MessageRouter.constructor | backend/services/messaging/main.go:154-168 | a new router has no client and well-formed lists |
| Router.Client.constructor | backend/services/messaging/main.go:203-207 | a new connection has an open, empty queue |
| Router.Client.Offer | backend/services/messaging/main.go:419-422 | an open queue takes the message at its end exactly when it holds fewer than 256, and is otherwise unchanged |
| Router.MessageRouter.Register | backend/services/messaging/main.go:199-212 | a fresh client with an open, empty queue is added at the end of its user's list, and everything stays well formed |
| Router.MessageRouter.Unregister | backend/services/messaging/main.go:215-232 | only the target leaves, an emptied list goes, and the queue is closed exactly when the client was still listed |
| Router.MessageRouter.AuthorizeChannelAccess | backend/services/messaging/main.go:301-317 | the method answers as the access relation does, with its errors |
| Router.MessageRouter.ListAccessibleChannels | backend/services/messaging/main.go:319-339 | the answer is the query's rows in order without those that do not scan |
| Router.MessageRouter.GetChannelMembers | backend/services/messaging/main.go:236-260 | the type, and for a channel that is not public its members without repetition |
| Router.MessageRouter.OfferAll | backend/services/messaging/main.go:417-424 | every connection of the list is offered the message once |
| Router.MessageRouter.OfferEveryone | backend/services/messaging/main.go:415-424 | every listed connection is offered the message once |
| Router.MessageRouter.OfferUsers | backend/services/messaging/main.go:425-436 | the listed connections of the given users, and no others, are offered the message once |
| Router.MessageRouter.Broadcast | backend/services/messaging/main.go:404-439 | exactly the connections whose user passes the access check are offered the message, once |
| Router.MessageRouter.FindOrCreateDMChannel | backend/services/messaging/main.go:442-480 | result and tables are those of the atomic find-or-create |
| Router.MessageRouter.ResolveRequestedChannel | backend/services/messaging/main.go:363-385 | result and tables are those of the resolution rule, with each of its errors |
| Router.MessageRouter.SaveMessage | backend/services/messaging/main.go:538-560 | on a new id one row appears whose eight fields are the id, channel, sender, clock reading and the request's type, content, nonce and signature; otherwise an error and no change |
| Router.MessageRouter.HandleSend | backend/services/messaging/main.go:505-526 | a send stores and hands out one message, with the request's own fields, exactly when the target resolves, the sender may use it and the id is new; otherwise the first error, and no queue changes and no message is stored |
| Router.MessageRouter.HandleHistory | backend/services/messaging/main.go:562-605 | history is given exactly to those who may use the channel, and only of that channel |
| Router.ListedIffAuthorised | backend/services/messaging/main.go:319-339 | for every database a channel is listed for a user if and only if the access check passes and its name is not NULL |
| Router.ViewsMembers | backend/services/messaging/main.go:333-336 | a channel is shown with a name and a type exactly when the query has the row with just these, neither being NULL |
| Router.UnnamedChannelIsNotListed | backend/services/messaging/main.go:333-336 | a public channel without a name is open to a user whose list is empty |
| Router.ListingSorted | backend/services/messaging/main.go:320-325 | the list is sorted by name and shows no channel twice |
| Router.UserTargetResolves | backend/services/messaging/main.go:363-385 | naming another user resolves to the pair's channel, which both may then use |
| Router.ShownIffAmongOldest | backend/services/messaging/main.go:585-587 | a stored message is on the history page only if fewer than 100 messages of its channel are earlier, and always if fewer than 100 others are not later; with distinct timestamps that is one exact condition |
| Router.FullHistoryIsFrozen | backend/services/messaging/main.go:585-587 | so a new message that is later than everything on a full page does not appear on the page |
| Registry.WithoutSplices | backend/services/messaging/main.go:221-226 | splicing at the first hit is removal of the target that keeps the order of the rest |
| Registry.AddKeeps | backend/services/messaging/main.go:208 | adding a new client keeps every list non-empty, duplicate-free and its user's own, and adds exactly that client |
| Registry.RemoveKeeps | backend/services/messaging/main.go:219-230 | removing a client keeps the same and removes exactly that client |
| Registry.RegistryIsExact | backend/services/messaging/main.go:199-232 | after any history of registrations and unregistrations the lists are well formed and hold exactly the registered clients minus the unregistered ones |
| Registry.ListIsArrivalOrder | backend/services/messaging/main.go:199-232 | after any history each user's list is exactly the user's registered clients, oldest first, without the unregistered ones |
| Registry.OneListChanges | backend/services/messaging/main.go:208-230 | registering appends to, and unregistering removes from, the one user's list and no other |
| Registry.ListedUnderOwner | backend/services/messaging/main.go:219-224 | a client is listed at all exactly when it is in its own user's list |
| Registry.ClientsOfMembers | backend/services/messaging/main.go:427-435 | the connections that a member list leads to are exactly those listed for its users |
| Registry.ClientsOfDistinct | backend/services/messaging/main.go:427-435 | no connection is met twice in one broadcast |
| Store.InsertDmOutcome | backend/services/messaging/main.go:457-477 | the transaction succeeds exactly when no primary key is violated, and then adds the channel and its two member rows |
| Store.AccessGrows | backend/services/messaging/main.go:301-317 | access once granted is never lost while rows are only added |
| Store.AccessMeaning | backend/services/messaging/main.go:301-317 | access is given for public channels and to members, and each of the three errors has its exact occasion |
| Store.ResolveMeaning | backend/services/messaging/main.go:363-385 | an existing channel stands for itself and a user for the pair's channel; each error has its exact occasion; and the tables change by the three rows of a new pair or not at all |
| Store.SelectedMeaning | backend/services/messaging/main.go:320-325 | the outer join with its null-rejecting filter selects public channels and those with a member row of the user, and no others |
| Store.ListingExists | backend/services/messaging/main.go:320-325 | for every database the list query has an answer that is distinct, ordered and exact |
| Store.DmIdSymmetric | backend/services/messaging/main.go:442-448 | the id does not depend on the order of the two users |
| Store.DmIdShape | backend/services/messaging/main.go:442-448 | the id spelled out, with the smaller user id first |
| Store.DmIdInjective | backend/services/messaging/main.go:442-448 | equal ids of colon-free users come from the same unordered pair |
| Store.DmIdCollides | backend/services/messaging/main.go:442-448 | for arbitrary ids, two ordered pairs share a channel id if and only if they are equal or one reads as the other with the separator moved to another colon |
| Store.DmIdCollisionExample | backend/services/messaging/main.go:442-448 | two different pairs with a colon in an id that share a channel |
| Strings.StringLeTotal | backend/services/messaging/main.go:445 | string comparison is total, so the pair can always be put in order |
| Strings.StringLeAntisymmetric | backend/services/messaging/main.go:445 | and two strings that are each not above the other are equal |
| Strings.StringLeIsLexicographic | backend/services/messaging/main.go:445 | a string is not above another if and only if it is a prefix of it or has the smaller character where they first differ |
| Strings.JoinCollides | backend/services/messaging/main.go:448 | two joined pairs are equal if and only if the pairs are or overlap across a separator |
| HubModel.NoGapWhileListed | backend/admin-api/internal/websocket/hub.go:43-74 | at every later point of every run, what a listed client received plus what is queued is the slice of drained broadcasts since its registration |
| HubModel.NoGapAfterLeaving | backend/admin-api/internal/websocket/hub.go:52-71 | after the client has left, for good, it is the slice from its registration to the point where it left, and its queue stays closed |
| HubModel.OnlyTwoWaysOut | backend/admin-api/internal/websocket/hub.go:52-71 | a step takes a listed client off the list if and only if it is the client's own unregistration or a broadcast that finds 256 messages in its queue |
| HubModel.ListedIffStayed | backend/admin-api/internal/websocket/hub.go:46-71 | in every state of every run exactly those clients are listed that were registered and have since neither unregistered nor been found with a full queue |
| HubModel.UnregisterIsFinal | backend/admin-api/internal/websocket/hub.go:52-58 | after its unregistration a client is unlisted and its queue closed at every later point of the run |
| HubModel.EverySentEventIsBroadcast | backend/admin-api/internal/websocket/hub.go:43-86 | in every state of every run the drained broadcasts, followed by the buffer, are all events in the order in which they were sent: those of others, and one for each registration and unregistration when there was room; and one is drained for each broadcast step |
| HubModel.OneMessageARead | backend/admin-api/internal/websocket/handler.go:55-60 | what a client has received is the beginning of what was put in its queue, one message for each read |
| HubModel.OpenIffListed | backend/admin-api/internal/websocket/hub.go:46-71 | in every reachable state a registered client's queue is open exactly while it is listed |
| HubModel.OnlyOpenQueuesChange | backend/admin-api/internal/websocket/hub.go:56-69 | apart from its own reads no queue changes once closed, so none is sent to or closed again |
| HubModel.StepKeepsInv | backend/admin-api/internal/websocket/hub.go:43-82 | every arm, emission and read keeps listing, openness and slices in agreement |
| HubModel.RunKeepsInv | backend/admin-api/internal/websocket/hub.go:43-82 | that holds in every reachable state |
| HubModel.RunExtends | backend/admin-api/internal/websocket/hub.go:61-71 | drained broadcasts, and when a client joined and left, never change afterwards |
| HubModel.HubMovesUnlessBlocked | backend/admin-api/internal/websocket/hub.go:43-82 | at every point of every run the hub's goroutine can go on if and only if no registration or unregistration was taken with the buffer full, and no emission took the last place while the hub's own event waited |
| HubModel.BlocksIffBlocking | backend/admin-api/internal/websocket/hub.go:43-82 | those are exactly the steps that lead from a state where it can go on to one where it cannot |
| HubModel.BlockedIffTookBlocking | backend/admin-api/internal/websocket/hub.go:43-82 | a state of a run is blocked if and only if one of them was taken before |
| HubModel.BlockedForever | backend/admin-api/internal/websocket/hub.go:76-82 | once blocked, it is blocked at every later point of every run, no broadcast is drained again, and all that happens is that clients read |
| HubModel.BlockingIsReachable | backend/admin-api/internal/websocket/hub.go:43-50 | a run leads there |
| Hub.Client.constructor | backend/admin-api/internal/websocket/handler.go:43-47 | a new client has an open, empty queue |
| Hub.Client.TrySend | backend/admin-api/internal/websocket/hub.go:64-66 | the message is queued exactly when there is room |
| Hub.Client.Close | backend/admin-api/internal/websocket/hub.go:67 | an open queue is closed and keeps what is in it |
| Hub.Hub.constructor | backend/admin-api/internal/websocket/hub.go:34-41 | a new hub is the initial state of the model |
| Hub.Hub.OnRegister | backend/admin-api/internal/websocket/hub.go:46-50 | exactly the client joins, and its connection event is last in the buffer, or pending when the buffer is full |
| Hub.Hub.AddClient | backend/admin-api/internal/websocket/hub.go:47-49 | exactly the new client joins |
| Hub.Hub.OnUnregister | backend/admin-api/internal/websocket/hub.go:52-59 | the client is unlisted and, if it was listed, its queue closed; every other client is as before; and its event is last in the buffer, or pending when that is full |
| Hub.Hub.RemoveClient | backend/admin-api/internal/websocket/hub.go:53-58 | the client is not listed afterwards, and its queue is closed, with its contents, if it was |
| Hub.Hub.OnBroadcast | backend/admin-api/internal/websocket/hub.go:61-71 | the arm is the model's broadcast step and keeps the hub valid |
| Hub.Hub.DrainOne | backend/admin-api/internal/websocket/hub.go:61-71 | the oldest buffered message goes to every listed client |
| Hub.Hub.DeliverAll | backend/admin-api/internal/websocket/hub.go:63-70 | in any order of the loop, clients with room get the message, full ones are closed and dropped, and others are untouched |
| Hub.Hub.MeetClient | backend/admin-api/internal/websocket/hub.go:64-69 | one client of the loop gets the message, or is closed and dropped when its queue is full |
| Hub.Hub.BroadcastEvent | backend/admin-api/internal/websocket/hub.go:76-82 | the event is last in the buffer when that holds fewer than 256, and otherwise pending |
| Hub.Hub.Resume | backend/admin-api/internal/websocket/hub.go:81 | a pending event goes in as soon as there is room |
| Hub.Hub.Emit | backend/admin-api/internal/websocket/hub.go:84-86 | another goroutine's event is the model's emission |
| Hub.Hub.ReadClient | backend/admin-api/internal/websocket/handler.go:55-60 | a client reads its oldest message, also after its queue was closed |
| Hub.Hub.ClientCount | backend/admin-api/internal/websocket/hub.go:96-101 | the number of listed clients |
| Metrics.SnapshotDescribesHistory | backend/admin-api/internal/middleware/observability.go:162-217 | for every call history an endpoint is reported if and only if it was called, and its report has the counts, mean, maximum, last values and percentiles of its own calls |
| Metrics.ReplayCounts | backend/admin-api/internal/middleware/observability.go:162-188 | the bounded counter is what the endpoint's whole history makes it, with the samples the last 512 latencies |
| Metrics.BumpCounts | backend/admin-api/internal/middleware/observability.go:169-187 | one more call keeps the counter true to the longer history |
| Metrics.KeysInjective | backend/admin-api/internal/middleware/observability.go:163 | with methods that are tokens (section 9.1 of RFC 9110) two endpoints never share a key |
| Metrics.KeysCollideIff | backend/admin-api/internal/middleware/observability.go:163 | for arbitrary methods two endpoints share a key if and only if they are equal or one reads as the other cut at another space |
| Metrics.PercentilesOrdered | backend/admin-api/internal/middleware/observability.go:176-186 | in every report p95 <= p99 <= maximum |
| Metrics.MeanIsTrueMean | backend/admin-api/internal/middleware/observability.go:196-199 | in the report of every called endpoint the mean is its total latency over its number of calls if and only if there were fewer than 2^64 calls or the total is zero |
| Metrics.MeanTimesCount | backend/admin-api/internal/middleware/observability.go:196-199 | the mean, taken as often as there are calls, is the total |
| Metrics.MetricsStore.constructor | backend/admin-api/internal/middleware/observability.go:50-57 | the store begins without endpoints |
| Metrics.MetricsStore.Record | backend/admin-api/internal/middleware/observability.go:162-188 | the store after the call is that of the history step |
| Metrics.MetricsStore.Snapshot | backend/admin-api/internal/middleware/observability.go:190-217 | the loop over the endpoints reports every one, and leaves the store as it is |
| Percentile.Percentile | backend/admin-api/internal/middleware/observability.go:219-239 | sorting a copy and reading at the adjusted index gives the specified value; the samples are not changed |
| Percentile.ValueIsNearestRank | backend/admin-api/internal/middleware/observability.go:219-239 | the value is the smallest sample with at least max(1, ceil(p*n)) samples not above it |
| Percentile.NearestRankUnique | backend/admin-api/internal/middleware/observability.go:219-239 | and it is the only one |
| Percentile.ValueIsSmallestCovering | backend/admin-api/internal/middleware/observability.go:219-239 | for p between 0 and 1 a number is the percentile if and only if it is the smallest sample such that the samples not above it are at least the fraction p of all |
| Percentile.UpperClampNeverFires | backend/admin-api/internal/middleware/observability.go:235-237 | for p between 0 and 1 the upper adjustment of the index never applies |
| Percentile.ValueClamps | backend/admin-api/internal/middleware/observability.go:220-228 | a p outside the unit interval reads as its nearer end, and no samples give zero |
| Percentile.OrderIndependent | backend/admin-api/internal/middleware/observability.go:229-230 | the value depends on the multiset of samples only |
| Percentile.MonotoneInP | backend/admin-api/internal/middleware/observability.go:231-238 | a larger p never gives a smaller value |
| Percentile.ValueIsSample | backend/admin-api/internal/middleware/observability.go:238 | the value is one of the samples |
| Percentile.SortCorrect | backend/admin-api/internal/middleware/observability.go:230 | sorting is ascending and keeps every sample as often as it occurs |
| Percentile.SortFloats | backend/admin-api/internal/middleware/observability.go:230 | the array ends up sorted in place |
| Percentile.CountLePermutation | backend/admin-api/internal/middleware/observability.go:229-230 | how many samples are not above a value does not depend on their order |
| RateLimiter.InsideCopyBounded | backend/services/filetransfer/main.go:58-79 | in every schedule of threads, for each address every closed window holds at most limit admitted requests |
| RateLimiter.InsideCopyExact | backend/services/filetransfer/main.go:58-79 | after every schedule the next request is refused if and only if its window already holds limit admitted ones |
| RateLimiter.OutsideCopyBoundedInOrder | backend/services/auth/main.go:68-90 | the copy that reads the clock first keeps the bound for an address when the address's own calls get the lock in clock order |
| RateLimiter.SkewBoundIff | backend/services/auth/main.go:68-90 | for every limit from two on: over all schedules with at most this skew within the address, intervals of this length hold at most limit admissions if and only if length and skew do not exceed the window |
| RateLimiter.WaitBoundIff | backend/services/auth/main.go:68-90 | the same over all schedules in which no thread waits longer than this for the lock |
| RateLimiter.FullWindowIff | backend/services/auth/main.go:68-90 | the full window keeps its bound if and only if there is no skew or the limit is at most one |
| RateLimiter.SkewedWindowBound | backend/services/audit/main.go:64-86 | for any sequence of calls with bounded skew within the address, the bound holds for intervals shorter than the window by the skew |
| RateLimiter.WaitBoundsSkew | backend/services/auth/main.go:69-73 | the longest wait between reading the clock and having the lock bounds the skew |
| RateLimiter.PromptCopyBounded | backend/services/auth/main.go:68-90 | with waits of at most delay, every interval of window less delay holds at most limit admissions |
| RateLimiter.BelowTwoBounded | backend/services/auth/main.go:68-90 | with a limit of at most one the bound holds in every order of readings |
| RateLimiter.OutsideCopyCanExceed | backend/services/auth/main.go:68-90 | for every limit from two on, every window and every wait up to one past it, a schedule with no longer wait admits more than limit requests within an interval one longer than the window less the wait |
| RateLimiter.OvertakenCalls | backend/services/auth/main.go:69-73 | what that schedule makes the calls read, in lock order, and that no thread waits longer than said |
| RateLimiter.WindowBound | backend/services/audit/main.go:64-86 | the bound of the full window for any calls of any copy that are in clock order within the address |
| RateLimiter.CountInCounts | backend/services/filetransfer/main.go:72 | the counts in these statements are numbers of admitted readings in the closed interval |
| RateLimiter.RefusedIffWindowFull | backend/services/audit/main.go:64-86 | refusal exactly at a full window, for any calls in clock order within the address |
| RateLimiter.StepTracks | backend/services/filetransfer/main.go:62-78 | one call keeps the stored list a tail of all admissions, with the rest out of reach of any reading that may follow, and keeps admissions that are limit apart in the list further apart in time than the length |
| RateLimiter.RunTracks | backend/services/filetransfer/main.go:62-78 | so it is after any run with bounded skew, for each address on its own |
| RateLimiter.HeadPruningExactIffSorted | backend/services/filetransfer/main.go:64-71 | pruning at the head drops exactly the stale hits for every cutoff if and only if the list is sorted |
| RateLimiter.SortedPrunesAlike | backend/services/filetransfer/main.go:64-71 | on a sorted list what is left are exactly the hits from the cutoff on |
| RateLimiter.IpRateLimiter.constructor | backend/services/filetransfer/main.go:50-56 | a new limiter has no hits |
| RateLimiter.IpRateLimiter.Allow | backend/services/filetransfer/main.go:58-79 | answer and new lists are those of the specified step, for a clock reading taken where the copy takes it |
| Presence.CleanupInvisibleToStatus | backend/services/presence/main.go:188-197 | deleting every cleanup from a run changes no status answer |
| Presence.StatusFollowsHeartbeat | backend/services/presence/main.go:150-186 | in every run a status query answers the status of the user's last heartbeat until a minute after its whole second, and offline after that, with that second as last seen, whatever heartbeats of others and cleanups came in between |
| Presence.NoHeartbeatIsOffline | backend/services/presence/main.go:163-171 | a user who sent none is offline, last seen at zero |
| Presence.RowIsLastHeartbeat | backend/services/presence/main.go:131-140 | after any run a user's row is that of the last heartbeat, in whole seconds, made offline exactly if a later cleanup found it stale |
| Presence.NoHeartbeatNoRow | backend/services/presence/main.go:131-140 | there is no row without a heartbeat |
| Presence.CountFollowsHeartbeat | backend/admin-api/internal/monitoring/handler.go:192-194 | in every run the overview counts a user until sixty-one seconds after the whole second of the last heartbeat, if that said online, when no later cleanup reads a later second |
| Presence.CleanupInvisibleToOverview | backend/admin-api/internal/monitoring/handler.go:192-194 | nor the set of users counted online, unless a cleanup's reading is in a later second |
| Presence.CleanupHidesIffLaterSecond | backend/admin-api/internal/monitoring/handler.go:192-194 | and that condition is exact |
| Presence.CleanupsLeaveTablesAlike | backend/services/presence/main.go:191-195 | with and without cleanups the tables differ only in the status of rows that are already stale |
| Presence.StaleIsOffline | backend/services/presence/main.go:173-177 | a row that cleanup would touch is reported offline anyway |
| Presence.PresenceSandwich | backend/services/presence/main.go:173-177 | whoever is reported online is counted online, and the rest of those counted were seen between sixty and sixty-one seconds ago |
| Presence.OnlineByAge | backend/services/presence/main.go:173-177 | both notions of being online in terms of the age of the heartbeat |
| Presence.PresenceService.constructor | backend/services/presence/main.go:131-140 | the table begins empty |
| Presence.PresenceService.Heartbeat | backend/services/presence/main.go:115-147 | a named user's row holds the status and the whole second, every other row is as before, and without a user id nothing changes |
| Presence.PresenceService.Status | backend/services/presence/main.go:150-186 | the answer by the stored row, its absence, and the one-minute rule |
| Presence.PresenceService.Cleanup | backend/services/presence/main.go:188-197 | rows more than a minute old, in whole seconds, go offline and keep their times; the others stay |
| Monitoring.CachedIsRecent | backend/admin-api/internal/monitoring/handler.go:266-284 | in every run a cached response is never the blank one and its build started after the reading minus lifetime minus slack, although a slow build may store over a newer one |
| Monitoring.AnswersWereBuilt | backend/admin-api/internal/monitoring/handler.go:266-284 | in every run a fresh answer was built by its own request after it arrived, and a cached one by some request that stored it |
| Monitoring.StalenessIsTight | backend/admin-api/internal/monitoring/handler.go:266-284 | for every lifetime and slack a run serves a response of just that age |
| Monitoring.StepKeepsInv | backend/admin-api/internal/monitoring/handler.go:266-284 | no request's step breaks the age bound of the stored response |
| Monitoring.RunKeepsInv | backend/admin-api/internal/monitoring/handler.go:266-284 | the bound holds in every reachable state |
| Monitoring.OverviewCache.constructor | backend/admin-api/internal/monitoring/handler.go:55-62 | the cache begins blank and expired |
| Monitoring.OverviewCache.Check | backend/admin-api/internal/monitoring/handler.go:266-275 | a hit exactly before the expiry |
| Monitoring.OverviewCache.Store | backend/admin-api/internal/monitoring/handler.go:276-284 | the response is kept for the lifetime from the moment of the store |
| Monitoring.MessageTable.BuildMessageStats | backend/admin-api/internal/monitoring/handler.go:211-217 | each count is the number of rows not before its cutoff, one hour and one day back in whole milliseconds, in the table of its own moment, with any inserts before and between; and last hour <= today <= total when the clock readings are at most 23 hours apart |
| Monitoring.MessageTable.constructor | backend/admin-api/internal/monitoring/handler.go:211 | the table begins empty |
| Monitoring.MessageTable.Interference | backend/services/messaging/main.go:550-554 | other connections only add rows |
| Monitoring.HourWithinDayIff | backend/admin-api/internal/monitoring/handler.go:213-216 | the hourly count stays within the daily one on every growing table if and only if the daily cutoff is not after the hourly one |
| Monitoring.CountSinceCounts | backend/admin-api/internal/monitoring/handler.go:215-216 | a count is the number of rows whose timestamp is not before the cutoff |
| Monitoring.CountGrows | backend/admin-api/internal/monitoring/handler.go:215-217 | a later count with an earlier cutoff is never smaller |
| PasswordHash.HashVerifies | backend/services/auth/crypto.go:28-92 | for every salt, configuration and two passwords, verifying one against the hash string of the other parses, and holds if and only if both derive the same key |
| PasswordHash.DefaultHashVerifies | backend/services/auth/crypto.go:20-42 | so it is for the service's own parameters |
| PasswordHash.VerifyPassword | backend/services/auth/crypto.go:45-92 | the method, with its bytewise loop, answers as parsing and comparing whole keys would, with its errors |
| PasswordHash.BcryptDecidesIff | backend/services/auth/crypto.go:47-53 | a string with one of the three prefixes is answered by bcrypt alone, and bcrypt has no say in any other |
| PasswordHash.WrongFormatIff | backend/services/auth/crypto.go:55-58 | any other string has an invalid format if and only if it has not exactly five dollar signs |
| PasswordHash.SixFieldsAnswer | backend/services/auth/crypto.go:60-91 | with six fields the answer is an error for parameters that do not scan, else for text that does not decode, and else whether the key derived with those parameters is the one in the string |
| PasswordHash.ScanParametersIff | backend/services/auth/crypto.go:60-65 | the parameter field scans if and only if it reads m=, t= and p= with numbers that fit in 32, 32 and 8 bits, and gives these |
| PasswordHash.ScanNumberIff | backend/services/auth/crypto.go:62 | a number scans if and only if a numeral that fits stands there, after blanks, and it is read whole |
| PasswordHash.HashIsPrinted | backend/services/auth/crypto.go:34-41 | the hash string spelled out, which with the service's parameters begins with $argon2id$v=19$m=65536,t=1,p=4$ |
| PasswordHash.ParsePrinted | backend/services/auth/crypto.go:55-75 | every printed hash string parses back to its parameters, salt and key |
| PasswordHash.ParametersRoundTrip | backend/services/auth/crypto.go:62 | scanning the printed parameters gives them back |
| PasswordHash.ScanPrinted | backend/services/auth/crypto.go:62 | scanning a printed number stops right behind it and gives it back |
| PasswordHash.PrintIsDecimal | backend/services/auth/crypto.go:39 | a printed number is a non-empty run of digits with that value |
| PasswordHash.SplitJoined | backend/services/auth/crypto.go:55 | splitting at the separator undoes joining, for fields without it |
| PasswordHash.HashIsNotBcrypt | backend/services/auth/crypto.go:47 | no printed hash string is taken for a bcrypt one |
| Base64.RoundTrip | backend/services/auth/crypto.go:36-37 | unpadded base64 (sections 3.2 and 4 of RFC 4648) decodes what it encodes, for every length |
| Base64.NoDollar | backend/services/auth/crypto.go:36-37 | encoded bytes never hold the field separator |
| Base64.SextetsRoundTrip | backend/services/auth/crypto.go:67-75 | regrouping bytes in sixes and back loses nothing, for every length |
| Base64.CharsRoundTrip | backend/services/auth/crypto.go:67-75 | the alphabet is read back, with no line break in what is written |
| Base64.AlphabetInOrder | backend/services/auth/crypto.go:36-37 | the alphabet is that of table 1 of RFC 4648, in its order |
| Base64.SextetsAreBits | backend/services/auth/crypto.go:36-37 | sextet k is bits 6k to 6k+5 of the bytes, and there are as many as it takes |
| Base64.DecodesIff | backend/services/auth/crypto.go:67-75 | a text decodes if and only if, line breaks aside, it is of the alphabet and not one longer than a multiple of four |
| Base64.DecodedBits | backend/services/auth/crypto.go:67-75 | what decodes gives the bytes whose encoding it is, but for unused low bits |
| AuditChain.FilePassesCheck | backend/services/audit/main.go:191-212 | with no failed write, for any order of requests the file holds one line for each and passes the recompute-and-compare check from genesis |
| AuditChain.FileRecordsRequests | backend/services/audit/main.go:191-212 | whatever writes fail, the file has one line for each written request, in order, with that request's actor, action, target, details and clock reading; it names genesis when the request is the first, and the hash of the line before when the request before was written |
| AuditChain.WrittenFileRecordsRequests | backend/services/audit/main.go:191-212 | with no failed write, line i decodes to the event of request i with its clock reading, and names genesis or the hash of the line before |
| AuditChain.FileReadsBack | backend/services/audit/main.go:197-212 | the file parses back, line by line, to the logged events, which the two statements above spell out |
| AuditChain.WrittenRunsPass | backend/services/audit/main.go:191-212 | from any start the logged events form one chain and the service holds its last hash |
| AuditChain.ChainDeterminesFile | backend/services/audit/main.go:204-206 | under an injective hash two passing files of equal length and final hash are identical |
| AuditChain.TamperingIsDetected | backend/services/audit/main.go:204-206 | replacing any line of a passing file breaks the check or changes the final hash |
| AuditChain.EndHashDeterminesFile | backend/services/audit/main.go:204-206 | two files of any lengths that pass from genesis have the same final hash if and only if they are identical, so insertion and deletion are detected too |
| AuditChain.EntriesDiffer | backend/services/audit/main.go:194-206 | no two requests of one process make the same entry, even with the same event and clock reading |
| AuditChain.PassesIffFailuresLast | backend/services/audit/main.go:204-212 | with writes that may fail, the file passes if and only if no write succeeds after a failed one |
| AuditChain.InStepIffLastWritten | backend/services/audit/main.go:204-212 | the held hash is that of the last line if and only if the last request was written |
| AuditChain.RestartsConcatenateChains | backend/services/audit/main.go:146-158 | a file of several processes is the chains of each, every one passing from genesis |
| AuditChain.RestartBreaksChain | backend/services/audit/main.go:152-157 | the file of any number of processes without failed writes passes as one chain if and only if at most one of them logged anything |
| AuditChain.RestartsAndFailures | backend/services/audit/main.go:152-157 | with failed writes as well, it passes if and only if at most one process wrote and none wrote after a failure of its own |
| AuditChain.OneChainIff | backend/services/audit/main.go:152-157 | for processes that do not start from an earlier line's hash, the joined file passes if and only if each part does and at most one has lines |
| AuditChain.AuditService.constructor | backend/services/audit/main.go:146-158 | the file is kept and the chain starts at genesis |
| AuditChain.AuditService.LogEvent | backend/services/audit/main.go:191-215 | the line added is the request's event with the clock reading and the held hash, the new held hash is that of the line, and a failed write leaves the file alone |

## Left out

- HTTP, JSON and WebSocket input and output, access-log files, request ids, the upgrade and the read and write loops.
- SQLite itself: a statement or a transaction is one atomic step on maps and sets; NULL primary keys are not modelled, and rows that a query does not order may come in any order.
- Tokens and the lookup of a username: the sender of a request is assumed to be an existing user.
- User ids are assumed to hold no colon in the theorems on direct messages, and other services to create no channel under an id of the form the router gives to direct messages; `DmIdCollides` says what colons do.
- A message id drawn a second time is refused by the primary key; that ids are random is not used.
- Argon2, bcrypt, SHA-256 and JSON are function parameters: the key derivation gives the requested length, JSON is one line and reads back, and the hash is injective only in the theorems that say so. The panic of Argon2 on zero time or threads is not modelled.
- RestartsAndFailures: assumes that a failed request has another clock reading than any request that an earlier process logged; `RestartBreaksChain`, where no write fails, does not.
- Floating-point rounding, NaN and signed zero: latencies and percentiles are exact rationals.
- The scan of the hash parameters treats spaces and tabs as white space; other Unicode spaces are not modelled.
- Trimming and validation of audit events, and partial writes on a failed audit write.
- The choice of the client address from headers, and negative limits or windows in the bounds of the limiter.
- Delivery order equal to storage order: saving and broadcasting are separate steps and a full queue drops the message, so the code does not give it.
- General freedom from deadlock of the hub: it is false of the code; `HubMovesUnlessBlocked` has the exact condition.
- Payload bytes of hub events: an event is a value. Rescheduling of a blocked send is the pending event of the state.
- In-place splicing of the backing arrays of Go slices: lists are values, so aliasing between slices is not captured.
- Deletion of channels, members and users by the admin service, and the admin schema of `channels`.
- The overview's other counts (users, files, network, system, the audit-log fallbacks). In particular transfers of today within all files holds only on a table that does not change, since the total is counted first.
- The time from build to store of an overview is a hypothesis (`slack`); the code does not bound it.
- The member list of a channel with names, file transfer beyond its limiter, the other administration handlers, the cluster stub, discovery, certificates, the clients and the deployment files.
