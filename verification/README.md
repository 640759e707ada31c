# SAMA server: a model of its consistency core

SAMA is a clustered chat server. Most of it moves records in and out of a database; a few components keep
several tables consistent by hand. This project models those in Dafny and proves what they keep:

| file | component |
|---|---|
| `SessionRegistry.dfy` | the three Redis structures of `SessionService` and what each call does to them |
| `LocalSessions.dfy` | a node's own tables, SESSIONS and DEVICES |
| `ClusterSessions.dfy`, `ClusterAgreement.dfy`, `ClusterIncidents.dfy` | runs of a cluster: every node's tables and the shared registry, when they agree, and runs after which they do not |
| `SessionService.dfy` | the service itself: loops, order of Redis commands, results |
| `Delivery.dfy` | `PacketManager`: routing and sending |
| `ClusterPeers.dfy`, `NodeLiveness.dfy`, `RetryQueue.dfy` | `ClusterManager`, expiry of node entries, the retry queue |
| `Presence.dfy`, `GhostObservers.dfy` | the activity managers, alone and together with sessions |
| `Conversations.dfy`, `ParticipantIterator.dfy` | conversation membership and the participant iterator |
| `PeriodCounter.dfy`, `ServiceLocator.dfy`, `ScanPager.dfy`, `Reactions.dfy` | four smaller algorithms |
| `Text.dfy` | `split` and `join`, and lists without repetition |

`dafny verify dfyconfig.toml` checks everything.

The pattern is the same throughout. A specification function says what one call does to a value (the
registry, the peer tables, the collections). The class methods, with the source's loops and order of writes,
are proved to do exactly that. The lemmas then prove what holds over every run of those functions.

One service call is one step; a login is three of them, with steps of others in between. Redis and Mongo are
sets, maps and sequences; where the database leaves an order open (members of a set, documents between two
pipeline stages), the claims hold for every order. Times, connection outcomes and how an attempt ends are
parameters. Comments cite source files by the end of their path.

## Where the code does less than one would expect

Each of these is a lemma with the exact condition under which the code keeps the promise, and an instance that
can be reached.

- A node's cleanup parses member strings by splitting at colons. It keeps the registry consistent if and only
  if none of the node's devices has a colon in its id (`SessionRegistry.ClearNodeConsistentIff`, over runs
  `ClusterSessions.RegistryRunIff`; `ClusterIncidents.ColonLeftBehind`). What it takes otherwise, possibly from
  other nodes, is `SessionRegistry.ClearNodeTakes`.
- Between the store and the drop of a login, the previous device of the socket is registered and not held
  (`ClusterIncidents.RegisteredNotHeld`); outside of that, and with parsable cleanups, a registered device is held
  as long as every store is of a device its node holds (`ClusterSessions.RunInvIff`,
  `ClusterIncidents.StoredWithoutGround`).
- Registry and tables drift apart exactly when a device is stored, dropped or closed on one node while another
  live node owns it; when a device is dropped that its socket still holds, as in a second login of the same device
  on the same socket; when a user with devices on other nodes is deleted; when a cleanup takes the entry of a live
  node; and when a restart leaves one behind (`ClusterAgreement.AgreeIff`, over runs
  `ClusterAgreement.RunAgreesIff`; `ClusterIncidents.MovedDeviceLost`, `ClusterIncidents.SecondLoginLost`,
  `ClusterIncidents.DeletedElsewhereLost`, `ClusterIncidents.LiveNodeCleaned`, `ClusterIncidents.ForeignEntryTaken`,
  `ClusterIncidents.LeftBehindAtBoot`). No live node is cleaned as long as nodes refresh punctually
  (`NodeLiveness.SyncsAreHarmless`).
- When a device has moved to a second node and its first socket closes, the second node's entry is removed
  (`ClusterAgreement.CloseKeepsForeignEntryIff`).
- A socket that switches users can leave the first user observing without a session, at once or when the user's
  last other socket leaves (`GhostObservers.RunGhostIff`, `GhostObservers.SwitchingSocketLeavesGhost`,
  `GhostObservers.StaleListingLeavesGhost`).
- The comma-joined observers string stands for the in-memory set over a run if and only if observers' ids are
  non-empty and comma-free and targets non-empty (`Presence.RunSimulatesIff`, `Presence.StoredObserverIff`,
  `Presence.EmptyIdLost`). User ids are database ids, so no caller supplies any other.
- Participants added while the iterator runs can push out one who stays (`ParticipantIterator.InsertionsHideIff`,
  `ParticipantIterator.InsertionCanHide`).
- A conversation created over the participant limit is stored before the limit is checked, and stays without
  its owner (`Conversations.RunOwnersIff`, `Conversations.CreatedOwnerIff`, `Conversations.OverLimitOwnerless`).
- A page limit below one still returns one key (`ScanPager.LimitKeptIff`).

## Model

| member | source | states |
|---|---|---|
| `SessionRegistry.ParseMember` | app/providers/services/session/index.js:45-70 | A member string reads back as the (organization, user, device) it was written from if and only if the device id has no colon. |
| `SessionRegistry.MemberInjective` | app/providers/services/session/index.js:45-57 | Different triples never share a member string, whatever the device ids hold, so removing one device from a node's set never removes another. |
| `SessionRegistry.OneOwner` | app/providers/services/session/index.js:267-287 | In a consistent registry a device is in at most one node's set, and in some node's set exactly when it is listed for its user. |
| `SessionRegistry.PruneInv` | app/providers/services/session/index.js:104-144 | Dropping the devices that are not actual keeps: in node n's set exactly when listed and the hash names n; every hash with an owner is listed. |
| `SessionRegistry.PruneExact` | app/providers/services/session/index.js:121-144 | After pruning on a node exactly those of the user's listed devices are still listed, with the owners they had, that another node owns, or that this node owns and is connected to; a device without an owner, or owned here and not connected, loses its entry; nobody else's change. |
| `SessionRegistry.RemoveAllExact` | app/providers/services/session/index.js:226-240 | After a removal exactly the user's other devices of that kind are listed, with the owners they had. |
| `SessionRegistry.MarksKept` | app/providers/services/session/index.js:207-240 | Storing a device neither marks it inactive nor unmarks any other; a prune or removal unmarks exactly the devices it drops. |
| `SessionRegistry.MarkExact` | app/providers/services/session/index.js:352-362 | Marking changes the mark of that device and no other, and no owner or listing. |
| `SessionRegistry.RemoveAllInv` | app/providers/services/session/index.js:207-240 | Removing a device, then pruning, keeps the registry invariant, on whichever node the device is. |
| `SessionRegistry.StoreInv` | app/providers/services/session/index.js:267-306 | Storing a device on a node keeps the invariant, also when another node owned the device before: removal comes first. |
| `SessionRegistry.RemoveUserInv` | app/providers/services/session/index.js:389-414 | Removing all of a user's devices on all nodes keeps the invariant. |
| `SessionRegistry.ClearNodeExact` | app/providers/services/session/index.js:308-323 | With colon-free ids, clearing node n removes exactly the devices n owns, leaves every other owner as it was, and keeps the invariant. |
| `SessionRegistry.ClearNodeTakes` | app/providers/services/session/index.js:308-323 | Whatever the device ids, clearing node n takes exactly the entries of users with a device on n whose id, cut at its first colon, is the entry's device, whoever owns them. |
| `SessionRegistry.ClearNodeConsistentIff` | app/providers/services/session/index.js:59-75 | Clearing node n keeps the invariant if and only if no device of n has a colon in its id. |
| `SessionRegistry.ReportedOnce` | app/providers/services/session/index.js:311-322 | In any order of the members, a user is reported once if the cleanup takes the user's last device, and never otherwise. |
| `LocalSessions.AddContents` | app/providers/services/session/index.js:22-39 | Adding a connection keeps sockets and device ids distinct; the list then holds the new connection and exactly the old ones of other sockets and other devices; other users' lists stay. |
| `LocalSessions.AddSession` | app/providers/services/session/index.js:325-337 | The socket's session after an add is a fresh, active one of the user; nobody else's changes. |
| `LocalSessions.RemoveTables` | app/providers/services/session/index.js:434-443 | A removal keeps lists distinct and non-empty and takes exactly the connections of the named device. |
| `LocalSessions.RemoveOwnOnly` | app/providers/services/session/index.js:416-443 | Closing a socket takes its own connection and no other; closing a superseded socket leaves the connection that replaced it. |
| `LocalSessions.AddBackedIff` | app/providers/services/session/index.js:325-337 | Adding a connection leaves every listed socket with a session of its user if and only if the socket is not still listed under somebody else. |
| `LocalSessions.RemoveBacked` | app/providers/services/session/index.js:416-443 | Removing a socket under its own user and device keeps every listed socket backed by a session. |
| `ClusterSessions.StepInvIff` | app/providers/services/session/index.js:22-469 | The three calls of a login, closes, deletions, inactivity marks, actual-device listings, node cleanups, crashes and restarts, on any node and with any non-empty device ids, each as a step of its own: a step keeps the registry invariant, distinct local lists and "an entry that names a live node is held there or about to be dropped by a login" if and only if it is neither a store of a device the node neither holds nor is about to drop, nor the cleanup of a node that owns a device with a colon in its id. |
| `ClusterSessions.RunInvIff` | app/providers/services/session/index.js:22-469 | All of this holds in every state of a run, logins of many sockets interleaved call by call, if and only if every store is of a device its node then holds or is about to drop and every cleanup meets only colon-free device ids. |
| `ClusterSessions.RegistryStepIff` | app/providers/services/session/index.js:121-414 | Whatever the device ids, and for add, store and remove-all as separate calls with any user and device: a step keeps the registry invariant if and only if it is not the cleanup of a node that owns a device with a colon in its id. |
| `ClusterSessions.RegistryRunIff` | app/providers/services/session/index.js:121-414 | Over every run of such calls in any order, the registry invariant holds in all states if and only if every cleanup meets only colon-free device ids. |
| `ClusterSessions.ListingRepairs` | app/providers/services/session/index.js:104-144 | Whatever went before, after a listing of a user's actual devices on a node every entry of the user that names the node is of a connected device, and entries that name other nodes stay. |
| `ClusterSessions.StepMarks` | app/providers/services/session/index.js:207-414 | Over every step only marking marks a device; a device that keeps its entry keeps its mark unless it is stored anew, and one that loses its entry is unmarked. |
| `ClusterSessions.InactiveMarks` | app/providers/services/session/index.js:348-365 | Marking a socket inactive or active sets the mark of its own device and of no other. |
| `ClusterSessions.LoginAsSteps` | app/providers/operations/user/auth/index.js:26-35 | Taken without interruption, the three steps of a login give the tables and the registry of the operation as a whole. |
| `ClusterSessions.LoginOwner` | app/providers/operations/user/auth/index.js:26-35 | An uninterrupted login names this node as the owner of the device, unless the same socket already held that very device, whose entry is then dropped; the socket's previous device loses its owner; other devices keep theirs or were stale. |
| `ClusterAgreement.AgreeIff` | app/providers/services/session/index.js:22-469 | When registry and live nodes' tables agree on every device no login is in the middle of, a single call, with any device ids, keeps that agreement if and only if it is one of the harmless ones, a condition on the state before it. |
| `ClusterAgreement.RunAgreesIff` | app/providers/services/session/index.js:22-469 | In runs of interleaved calls, crashes and restarts whose cleanups meet only colon-free device ids, registry and tables agree in all states if and only if every call is harmless when taken. |
| `ClusterAgreement.LoginHarmlessIff` | app/providers/operations/user/connect/index.js:24-33 | An uninterrupted login, with any device id, is harmless in all its calls if and only if no other live node owns the device and the same socket did not hold it already, or the id is the one reserved for HTTP. |
| `ClusterAgreement.CloseKeepsForeignEntryIff` | app/providers/services/session/index.js:416-469 | A close leaves another node's entry in place if and only if it is not the entry of the closing socket's own user and device. |
| `ClusterIncidents.MovedDeviceLost` | app/providers/services/session/index.js:226-240 | From an empty cluster: a device logs in on one node, then on another, and the first socket closes; it is then connected and not registered, so registry and tables disagree. |
| `ClusterIncidents.SecondLoginLost` | app/providers/operations/user/auth/index.js:26-35 | From an empty cluster: a second login of the same device on the same socket leaves it connected and not registered, so registry and tables disagree. |
| `ClusterIncidents.DeletedElsewhereLost` | app/providers/services/session/index.js:389-414 | From an empty cluster: deleting a user on one node leaves the user's device on another connected and not registered. |
| `ClusterIncidents.LiveNodeCleaned` | app/providers/services/session/index.js:308-323 | From an empty cluster: the cleanup of a live node leaves its devices connected and not registered. |
| `ClusterIncidents.ForeignEntryTaken` | app/providers/services/session/index.js:308-323 | From an empty cluster: the cleanup of a dead node that had a device with a colon in its id takes the entry of a live node's device named by the part before the colon. |
| `ClusterIncidents.LeftBehindAtBoot` | app/cluster/cluster_manager.js:67-81 | From an empty cluster: a node that had a device with a colon in its id and restarts is still named as its owner. |
| `ClusterIncidents.StoredWithoutGround` | app/providers/services/session/index.js:289-306 | From an empty cluster: a device whose socket closes between the first two calls of its login is registered on a node that does not hold it. |
| `ClusterIncidents.RegisteredNotHeld` | app/providers/operations/user/auth/index.js:32-34 | From an empty cluster: between the store and the drop of a login with another device, the previous device is registered on a node that does not hold it. |
| `ClusterIncidents.ColonLeftBehind` | app/providers/services/session/index.js:59-75 | From an empty cluster: any device with a colon in its id, after login and cleanup of its node, stays listed and owned by a node whose set is empty. |
| `SessionServices.SessionService.AddUserDeviceConnection` | app/providers/services/session/index.js:22-39 | Changes the tables as specified and returns the superseded connections. |
| `SessionServices.SessionService.FilterActualDeviceIds` | app/providers/services/session/index.js:121-144 | The loop that deletes while it looks returns exactly the given devices that had an owner and, if that is this node, a connection here; the others lose entry and hash, these keep their owner. |
| `SessionServices.SessionService.ListUserDevice` | app/providers/services/session/index.js:104-119 | With the filter exactly the listed devices that another node owns, or this node owns and is connected to, and the registry is pruned to them; a stand-alone node lists its own non-HTTP connections. |
| `SessionServices.SessionService.RemoveAllUserDeviceData` | app/providers/services/session/index.js:226-240 | The separate commands amount to the specified removal and prune; the verdict says exactly whether the user has no device left. |
| `SessionServices.SessionService.StoreUserNodeData` | app/providers/services/session/index.js:289-306 | Marks the session and stores the device as specified; a stand-alone node leaves the registry alone. |
| `SessionServices.SessionService.Login` | app/providers/operations/user/connect/index.js:24-33 | The calls in their order give the tables and registry of a login, on a cluster node and on a stand-alone node, which stores nothing but still drops the previous device. |
| `SessionServices.SessionService.ListUserData` | app/providers/services/session/index.js:242-265 | For each listed device, and no other, the owning node and whether it is marked inactive; on a stand-alone node from the local sessions. |
| `SessionServices.SessionService.ClearNodeUsersSession` | app/providers/services/session/index.js:308-323 | Clears the node as specified and returns the reports for the order in which the members were listed; nothing on a stand-alone node. |
| `SessionServices.SessionService.RemoveUserData` | app/providers/services/session/index.js:189-195 | One device and its hash go; the verdict says whether the user has nothing listed any more. |
| `SessionServices.SessionService.SetSessionInactiveState` | app/providers/services/session/index.js:348-365 | No owner, listing or connection changes; the session, and the hash of the socket's device on a cluster node, say the new state. |
| `SessionServices.SessionService.RemoveAllUserSessions` | app/providers/services/session/index.js:389-414 | The two loops remove all of the user's devices from every node's set, and all hashes; without a session nothing happens. |
| `SessionServices.SessionService.RemoveUserSession` | app/providers/services/session/index.js:416-469 | Tables and registry for every combination of missing user, device and session; the verdict is local or global as the branch taken. |
| `SessionServices.CleanupReports` | app/providers/services/session/index.js:308-323 | On a consistent registry, with colon-free ids on the node, in any order: a user is reported once if the node owned a device of the user and none is left anywhere, otherwise never. |
| `SessionServices.CleanupTwice` | app/providers/services/session/index.js:308-323 | A second cleanup of a node finds nothing, changes nothing and reports nobody. |
| `Delivery.DeliverToUserOnThisNode` | app/networking/packet_manager.js:14-54 | One copy per non-HTTP connection without the excepted device, no copy twice. |
| `Delivery.ReduceUserNodeConnections` | app/networking/packet_manager.js:126-144 | The user is added to this node's recipients, and to those of another node, exactly when one of the devices is routed there. |
| `Delivery.DeliverToUserOrUsers` | app/networking/packet_manager.js:57-124 | Makes every wanted copy and no other, once, whatever duplicates the destinations hold, leaving out on this node the device the sending socket is listed with; lists exactly the offline and inactive users for push, and the offline ones for storage. |
| `Delivery.AtMostOnce` | app/networking/packet_manager.js:14-54 | A user's device on a node gets at most one copy. |
| `Delivery.ReachedIff` | app/networking/packet_manager.js:14-144 | In any state: a device on a node is reached if and only if its user is a destination routed there, the node is up and holds it, and it is neither an HTTP request nor the ignored device. |
| `Delivery.RegisteredReached` | app/networking/packet_manager.js:57-144 | In every state that keeps the invariant, also in the middle of logins and with any device ids, a destination user's registered device on a live node, not the ignored one and not about to be dropped, gets the packet if and only if its id is not the one reserved for HTTP. |
| `Delivery.ExactlyOnce` | app/networking/packet_manager.js:57-144 | When registry and tables agree, whatever the device ids, a device that is not in the middle of a login is reached on a node if and only if its user is a destination, the node is up and owns it, and it is neither the ignored one nor an HTTP request. |
| `Delivery.NoSecondCopy` | app/networking/packet_manager.js:57-144 | Nor does it get a second copy on any node. |
| `Delivery.ExactlyOnceInRuns` | app/networking/packet_manager.js:57-154 | After every run of harmless calls from an empty cluster, logins interleaved call by call, crashes included, cleanups meeting only colon-free ids and device ids otherwise arbitrary, every destination user's device registered on a live node and not in the middle of a login gets exactly one copy across all nodes, except the ignored one and HTTP requests. |
| `Delivery.NobodyForgotten` | app/networking/packet_manager.js:82-100 | On any consistent registry, a destination user is treated as offline if and only if no device has an owner, and otherwise is routed somewhere. |
| `Delivery.SenderLeftOut` | app/networking/packet_manager.js:72-76 | With `ignoreSelf`, nothing goes to the device the sending socket's session is connected with, for any user, on its node. |
| `Delivery.SenderHearsNothing` | app/networking/packet_manager.js:102-106 | Nor does the sending socket get a copy at all, when listed sockets have sessions of their users. |
| `Delivery.SelfReached` | app/networking/packet_manager.js:102-106 | Without `ignoreSelf`, or without a sending socket, exactly the non-HTTP connections of destination users on this node are reached. |
| `Delivery.PushedIff` | app/networking/packet_manager.js:82-93 | In a cluster a destination user is notified by push if and only if no device of the user has an owner, or one that has is marked inactive. |
| `Delivery.PushedAlone` | app/networking/packet_manager.js:82-93 | On a stand-alone node, if and only if the user has no connection but HTTP requests, or one whose session is inactive; the packet is stored exactly in the first case. |
| `Delivery.StandAloneReached` | app/providers/services/session/index.js:242-255 | On a stand-alone node exactly the non-HTTP connections of destination users are reached, without the ignored device. |
| `ClusterPeers.SyncTracked` | app/cluster/cluster_manager.js:112-172 | After an uninterrupted sync the tracked endpoints are exactly the active ones other than this node (and itself only if it was tracked). |
| `ClusterPeers.EventKeepsTracking` | app/cluster/cluster_manager.js:187-213 | No handshake, close or retry loses track of an endpoint, and none adds another one than its own. |
| `ClusterPeers.TrackedUntilInactive` | app/cluster/cluster_manager.js:112-172 | Over every run an endpoint with a connection or reconnect entry keeps one until a sync finds it inactive. |
| `ClusterPeers.SelfUntracked` | app/cluster/cluster_manager.js:148-152 | A node that never hears its own endpoint from a peer never tracks itself; a run that ends with a sync leaves exactly the other active nodes tracked. |
| `ClusterPeers.RunExclusive` | app/cluster/cluster_manager.js:187-296 | Over every run no endpoint is connected and reconnecting at once, and no two endpoints share a reconnect manager. |
| `ClusterPeers.SyncPeers` | app/cluster/cluster_manager.js:112-172 | How every peer comes out of a sync: a connected one keeps its websocket, a running retry its manager; one with neither gets the websocket of the attempt, or a running manager if it fails; after a finished manager comes another; an inactive one is unknown. |
| `ClusterPeers.SyncConnectsIff` | app/cluster/cluster_manager.js:148-167 | After a sync another node is connected if and only if it is active and was connected, or was neither connected nor being retried and can be reached, with that websocket; every other active one has a running manager. |
| `ClusterPeers.CreatePeer` | app/cluster/cluster_manager.js:187-213 | A connection is returned if and only if there was one, or the attempt succeeds and was not refused for a retry under way; it is the one there was, or the attempt's; no other peer changes. |
| `ClusterPeers.RunNoOrphans` | app/cluster/cluster_manager.js:260-296 | Over every run a manager that still runs is the current one of an endpoint that is reconnecting: no retries go on for a peer that is connected, cleaned or retried by another manager. |
| `ClusterPeers.ClearAllExact` | app/cluster/cluster_manager.js:169-171 | Cleaning several nodes with colon-free ids removes the entries they own and only those, in any order. |
| `ClusterPeers.SyncOwners` | app/cluster/cluster_manager.js:112-172 | After a sync that cleans nodes with colon-free ids, every entry in the registry is owned by an active node, and the entries of active nodes are as before. |
| `ClusterPeers.SyncTakes` | app/cluster/cluster_manager.js:169-171 | Whatever the device ids, a sync takes an entry if and only if a node it cleans has a device of the same user whose id, cut at its first colon, is the entry's. |
| `ClusterPeers.SyncReportsOnce` | app/cluster/cluster_manager.js:169-171 | Over one whole sync, in whatever order it cleans nodes: a user whose devices were on one or several nodes it cleans, and who has none left, is reported exactly once in all; nobody else is. |
| `ClusterPeers.ClusterManager.CreateOrRetrieveConnectionWithNode` | app/cluster/cluster_manager.js:187-213 | A connection is returned exactly if there was one or the attempt succeeds and is not refused, and which one; an error changes nothing; no endpoint is lost track of and only this one can be added; connected and reconnecting stay exclusive. |
| `ClusterPeers.ClusterManager.StartNodeReconnecting` | app/cluster/cluster_manager.js:260-273 | The endpoint is reconnecting, tracking grows by exactly it; unless an active one was kept, its manager runs and the one before does not. |
| `ClusterPeers.ClusterManager.CancelNodeReconnecting` | app/cluster/cluster_manager.js:289-296 | The endpoint is not reconnecting, its manager runs no more unless it succeeded, and no other endpoint's tracking changes. |
| `ClusterPeers.ClusterManager.FinishNodeReconnecting` | app/cluster/cluster_manager.js:270-286 | The endpoint stays tracked: connected and no longer reconnecting if it was connected or the retry connected, otherwise still reconnecting under a finished manager. |
| `ClusterPeers.ClusterManager.OnCloseNode` | app/cluster/cluster_manager.js:364-377 | A close as a duplicate changes nothing; any other leaves the endpoint reconnecting and not connected, under the manager it had or a new running one, with tracking grown by at most it. |
| `ClusterPeers.ClusterManager.CleanDestroyedNodeData` | app/cluster/cluster_manager.js:379-391 | Both tables forget the node, the registry is cleared of it, and the users to announce as offline are those the cleanup reports. |
| `ClusterPeers.ClusterManager.CleanDestroyedNodes` | app/cluster/cluster_manager.js:169-171 | The cleaning loop: tables and registry after all cleanups, and the reports of all of them together. |
| `ClusterPeers.ClusterManager.ConnectToExistingClusterNodes` | app/cluster/cluster_manager.js:112-172 | The nodes cleaned are exactly those stored or tracked and not active; tables and registry end as specified; the users announced as offline are the reports of all cleanups. |
| `NodeLiveness.Margin` | app/providers/services/cluster_node/index.js:39-50 | The time to live exceeds every sync interval by more than 4.5 and at most 5.5 seconds. |
| `NodeLiveness.RefreshedActive` | app/providers/services/cluster_node/index.js:14-50 | A node whose last refresh is at most the interval plus 4.5 seconds old is in the active set. |
| `NodeLiveness.StaysActive` | app/providers/services/cluster_node/index.js:14-50 | A node whose refreshes are at most 4.5 seconds late is in the active set at all times from its first refresh until the next is overdue. |
| `NodeLiveness.NeverDestroyed` | app/cluster/cluster_manager.js:121-146 | No sync that reads the active set counts such a node as destroyed. |
| `NodeLiveness.DevicesKept` | app/cluster/cluster_manager.js:121-171 | With colon-free ids on the nodes it cleans, no sync of any node takes a device of such a node out of the registry. |
| `NodeLiveness.DevicesKeptIff` | app/cluster/cluster_manager.js:169-171 | With any ids, a device survives a sync if and only if no node the sync cleans has a device of the same user that is cut to its id. |
| `NodeLiveness.SyncsAreHarmless` | app/cluster/cluster_manager.js:88-94 | In runs in which a node that is up has refreshed within the interval plus 4.5 seconds, a node that is down need not, and cleanups come from syncs and meet only colon-free ids: no live node is cleaned, so the run is harmless if and only if its other steps are. |
| `NodeLiveness.ExactlyOnceWithSyncs` | app/cluster/cluster_manager.js:88-172 | Exactly-once delivery in such runs, with any number of syncs, crashes and restarts. |
| `NodeLiveness.ComebackIsPunctual` | app/cluster/cluster_manager.js:67-81 | For every interval, a node that goes down, is cleaned by a sync when its entry has expired, and comes back later, is such a run. |
| `RetryQueue.Start` | app/utils/promise-queue-with-jittering.js:9-65 | For every outcome and cancel pattern exactly the due attempts are made, at their times, at most tryCount; the result is the first success, else the last error, else the cancel error. |
| `RetryQueue.BeginBound` | app/utils/promise-queue-with-jittering.js:20-24 | The k-th attempt starts no earlier than delay times k(k+1)(2k+1)/6 after the start. |
| `RetryQueue.BeginExact` | app/utils/promise-queue-with-jittering.js:20-24 | With exact timers and attempts that fail at once, it starts exactly then. |
| `RetryQueue.SettledMeans` | app/utils/promise-queue-with-jittering.js:30-62 | The queue resolves with a value exactly when an attempt that is made succeeds with it, rejects with an error exactly when all attempts are made and fail and the last one does so with it, and resolves without a value exactly when there is nothing to attempt. |
| `RetryQueue.CancelStops` | app/utils/promise-queue-with-jittering.js:34-42 | Once cancelled by the time an attempt would start, that attempt and all later ones are not made, and those before it were. |
| `Presence.SubscribeInverse` | app/providers/services/activity_manager/activity_manager_standalone/index.js:49-54 | Subscribing keeps the two tables inverse; the observer moves from whomever it observed to the target and nobody else moves. |
| `Presence.UnsubscribeInverse` | app/providers/services/activity_manager/activity_manager_standalone/index.js:56-61 | Unsubscribing keeps the two tables inverse and takes the observer out of every list. |
| `Presence.ActivityExact` | app/providers/services/activity_manager/activity_manager_standalone/index.js:63-72 | In both forms, coming online moves no observer and no target, and going offline ends the user's own observing and nobody else's. |
| `Presence.RunSimulates` | app/providers/services/activity_manager/activity_manager_cluster/index.js:27-122 | In every sequential run the tables are inverse, and the comma-joined Redis form has the same targets and the same observers to notify as the in-memory form. |
| `Presence.RunSimulatesIff` | app/providers/services/activity_manager/activity_manager_cluster/index.js:27-122 | With any ids, the Redis form stands for the in-memory form in all states of a run if and only if every subscription has a non-empty comma-free observer and a non-empty target. |
| `Presence.StoredObserverIff` | app/providers/services/activity_manager/activity_manager_cluster/index.js:46-90 | From any state in which it does, the observers are still the same after a subscription if and only if the observer's id has no comma and is non-empty, or is empty and the target has another observer. |
| `Presence.SubscribeSimulatesIff` | app/providers/services/activity_manager/activity_manager_cluster/index.js:85-90 | And it goes on standing for it if and only if the id is comma-free and non-empty and the target non-empty. |
| `Presence.EmptyIdLost` | app/providers/services/activity_manager/activity_manager_cluster/index.js:64-79 | An empty id that got in beside another observer is lost when that one leaves. |
| `Presence.ActivityManagerStandalone.SubscribeObserverToTarget` | app/providers/services/activity_manager/activity_manager_standalone/index.js:49-54 | The tables stay inverse; the observer is listed for the target and for nobody else; no other observer moves. |
| `Presence.ActivityManagerStandalone.UnsubscribeObserver` | app/providers/services/activity_manager/activity_manager_standalone/index.js:56-61 | The tables stay inverse; the observer has no target and is in no list; no other observer moves. |
| `Presence.ActivityManagerStandalone.UpdateUserActivity` | app/providers/services/activity_manager/activity_manager_standalone/index.js:63-83 | Going offline ends the user's own observing; the user's observers are returned if there are any. |
| `Presence.ActivityManagerCluster.SubscribeObserverToTarget` | app/providers/services/activity_manager/activity_manager_cluster/index.js:85-90 | Whichever in-memory index the hashes stood for, they stand for that index after its subscription exactly when the id is comma-free and non-empty and the target non-empty. |
| `Presence.ActivityManagerCluster.UnsubscribeObserver` | app/providers/services/activity_manager/activity_manager_cluster/index.js:92-100 | Whichever in-memory index the hashes stood for, they stand for that index after the observer's leaving. |
| `Presence.ActivityManagerCluster.UpdateUserActivity` | app/providers/services/activity_manager/activity_manager_cluster/index.js:102-122 | As in memory, with the observers in their stored order. |
| `GhostObservers.StepObserves` | app/networking/protocol_processors/base.js:221-237 | Whom a user observes after a step: whom the user subscribes to; nobody after unsubscribing, deletion, or the leaving of the user's last listed socket; otherwise whom the user observed. |
| `GhostObservers.StepTables` | app/providers/services/session/index.js:22-39 | Which connections and sessions a stand-alone node has after each connect, leave and deletion, and that no other socket's session changes. |
| `GhostObservers.RunInv` | app/networking/protocol_processors/base.js:209-237 | In every stand-alone run with one user per socket, every observer has a live session, every listed socket a session of its user that carries the node, and the two indexes stay inverse. |
| `GhostObservers.ExactlyOnceAlone` | app/networking/packet_manager.js:57-144 | After every such run a delivery gives exactly one copy to every non-HTTP connection of every destination user, except the ignored device. |
| `GhostObservers.StepGhostIff` | app/providers/services/session/index.js:22-39 | From any state without ghosts, sockets used for any users: a step leaves no ghost if and only if it neither connects a socket that takes the only session from another user who observes somebody, nor takes the only session of an observing user whose list still holds another socket. |
| `GhostObservers.RunGhostIff` | app/networking/protocol_processors/base.js:209-237 | Over every stand-alone run, sockets used for any users, there is no ghost in any state if and only if every step is careful in this sense when taken. |
| `GhostObservers.OneUserIsCareful` | app/networking/protocol_processors/base.js:221-237 | One user per socket is enough. |
| `GhostObservers.SwitchingSocketLeavesGhost` | app/providers/services/session/index.js:325-337 | The instance: connect, subscribe, connect as somebody else. |
| `GhostObservers.StaleListingLeavesGhost` | app/providers/services/session/index.js:434-443 | The other instance: of a user's two sockets one connects as somebody else, then the other leaves; the stale listing keeps the user observing without a session. |
| `ParticipantIterator.ConversationParticipantIds` | app/providers/services/conversation/index.js:80-101 | Yields as many batches as the count at the start asks for; each holds the users, in order, of the query's answer on the table as it is then, after the last row of the batch before. |
| `ParticipantIterator.BelowIsRest` | app/providers/repositories/conversation_participants/index.js:12-26 | The rows the query finds below the k-th row of the answer are exactly the rest of the answer, in order. |
| `ParticipantIterator.NextBatch` | app/providers/services/conversation/index.js:87-100 | On any tables, a batch is the newest participants not excepted, as many as asked for, below the last row of the batch before; after an empty batch the iterator starts again from the top. |
| `ParticipantIterator.FixedTable` | app/providers/services/conversation/index.js:80-101 | On a fixed table the batches concatenate to all participants not excepted, in descending id order, each once; no batch is empty or too long. |
| `ParticipantIterator.StayersYielded` | app/providers/services/conversation/index.js:80-101 | If rows are only removed meanwhile, everyone who stays is yielded at least once. |
| `ParticipantIterator.YieldedIfFits` | app/providers/services/conversation/index.js:80-101 | With removals and insertions of higher ids between the batches, whoever stays is yielded if fewer participants are listed before at the first batch than the counted batches hold. |
| `ParticipantIterator.InsertionsHideIff` | app/providers/services/conversation/index.js:80-101 | With insertions only, a participant is yielded if and only if fewer are listed before it at the first batch than the counted batches hold. |
| `ParticipantIterator.InsertionCanHide` | app/providers/services/conversation/index.js:83-100 | For every batch size, that many newcomers after the count hide a participant who stays. |
| `Conversations.AddRowsSpec` | app/providers/repositories/conversation_participants/index.js:134-151 | With duplicate or already present ids too: one row per user, the added ids are exactly the new ones, other conversations keep their rows. |
| `Conversations.RemoveRowsSpec` | app/providers/repositories/conversation_participants/index.js:153-168 | Exactly the named rows go; the removed ids account for the difference in number. |
| `Conversations.StepInv` | app/providers/services/conversation/index.js:213-285 | Every create, edit, subscribe, unsubscribe, leave and restore keeps: one row per conversation and user, rows within the limit, a channel's count equal to its rows, private rows within the two users, the owner of a group or channel a participant unless it was created with more participants than the limit. |
| `Conversations.RunInv` | app/providers/services/conversation/index.js:213-285 | The same over every sequential run from empty collections. |
| `Conversations.StepRows` | app/providers/operations/conversation/edit/index.js:122-139 | Every operation changes the participants of all conversations by exactly those it names, with the owner of a new conversation, if it is for such a conversation and they fit the limit; an edit that fails to add does not remove. |
| `Conversations.AddSucceedsIff` | app/providers/services/conversation/index.js:221-255 | For every kind of conversation, participants can be added if and only if the ids named and the participants there are do not exceed the limit together; the ids returned are exactly the named ones that did not take part. |
| `Conversations.RemovalOwner` | app/providers/services/conversation/index.js:262-276 | The owner changes exactly if the owner took part, was named, and the conversation is not private; then to the first participant left. |
| `Conversations.CreatedOwnerIff` | app/providers/operations/conversation/create/index.js:124-150 | After a group or channel creation that is not rejected, the owner is a participant if and only if the participants, with the owner, fit the limit. |
| `Conversations.RunOwnersIff` | app/providers/operations/conversation/create/index.js:67-150 | The owner of every group and channel is a participant in all states of a run if and only if every creation in it fits the limit. |
| `Conversations.RemovalDeletesIff` | app/providers/services/conversation/index.js:257-268 | A removal deletes the conversation if and only if it names all its participants; otherwise exactly the others stay. |
| `Conversations.RestoreIff` | app/providers/services/conversation/index.js:60-66 | Restoring succeeds if and only if two more participants would fit; then both users are in, and exactly the missing ones are reported. |
| `Conversations.OverLimitOwnerless` | app/providers/services/conversation/index.js:12-23 | A channel created over the limit can get a subscriber while its owner is no participant. |
| `Conversations.ConversationService.AddNoExistedParticipants` | app/providers/repositories/conversation_participants/index.js:134-151 | The upsert loop gives the specified rows and added ids. |
| `Conversations.ConversationService.RemoveExistedParticipants` | app/providers/repositories/conversation_participants/index.js:153-168 | The deletion loop gives the specified rows and removed ids. |
| `Conversations.ConversationService.AddParticipantsTo` | app/providers/services/conversation/index.js:221-255 | It succeeds exactly if the ids named and the participants there are fit the limit, and otherwise changes nothing; then the named ones take part, other conversations keep theirs, and exactly the ids that were new are returned. |
| `Conversations.ConversationService.RemoveParticipantsFrom` | app/providers/services/conversation/index.js:257-285 | Rows and count as specified; the result names the new owner, the first participant left, exactly if the owner of a group or channel that stays was removed, and whether the conversation is gone. |
| `Conversations.ConversationService.UpdateParticipantsOf` | app/providers/services/conversation/index.js:213-219 | It succeeds exactly within the limit, and otherwise changes nothing; then the participants are the old and the added ones less the removed ones, other conversations keep theirs, and the conversation is gone exactly if nobody is left. |
| `Conversations.ConversationService.CreateConversation` | app/providers/services/conversation/index.js:12-23 | The record exists either way; its participants are stored, all of them, exactly if they fit the limit, and no other conversation's rows change. |
| `PeriodCounter.RetrieveIsPreviousPeriod` | app/providers/services/stats/index.js:36-73 | For any history in time order, reading at t gives the sum of all increments of the period just before t's, across gaps of any length, once a period has passed. |
| `PeriodCounter.CastedIsAnother` | app/providers/services/stats/index.js:55-59 | Whatever the times, in order or not, the casted period is never the current one, so a read always returns the casted value. |
| `PeriodCounter.CriticalIff` | app/providers/services/stats/index.js:75-82 | The truncating difference is critical exactly when a whole period lies between the key's period and the later time's. |
| `PeriodCounter.IncPairDateVal.Increment` | app/providers/services/stats/index.js:36-46 | Returns the sum of all increments made in the period of t, if times have not gone back; the slots stand for the whole history of calls. |
| `PeriodCounter.IncPairDateVal.RetrieveAt` | app/providers/services/stats/index.js:48-60 | Returns the sum of all increments made in the period before, or the initial value in the first period, if times have not gone back. |
| `PeriodCounter.IncPairDateVal.Reset` | app/providers/services/stats/index.js:84-90 | The history starts anew at t: nothing counted before is ever returned again. |
| `ServiceLocator.UseSpec` | app/common/ServiceLocatorContainer.js:16-32 | Recursive construction never loses, replaces or repeats a singleton, returns the recorded instance, and succeeds on a closed graph. |
| `ServiceLocator.UseNeeds` | app/common/ServiceLocatorContainer.js:16-32 | Whenever a constructor runs, everything it needs has been constructed; using a transient constructs a new instance. |
| `ServiceLocator.SingletonsOnce` | app/common/ServiceLocatorContainer.js:16-42 | For any acyclic, closed provider graph and any order, creating all singletons runs each singleton's constructor exactly once, and every later use returns that instance and constructs nothing. |
| `ServiceLocator.ServiceLocatorContainer.CreateProviderInstance` | app/common/ServiceLocatorContainer.js:16-32 | The mutually recursive construction terminates on an acyclic graph and does what the specification says, missing providers included. |
| `ServiceLocator.ServiceLocatorContainer.CreateAllSingletonInstances` | app/common/ServiceLocatorContainer.js:34-42 | The loop does the same for all singletons, stopping at the first missing provider. |
| `ScanPager.ScanWithPagination` | app/lib/redis.js:34-57 | However the scan batches the keys, the result is the window at the offset of all of them. |
| `ScanPager.CountWithMatch` | app/lib/redis.js:59-71 | The number of all keys. |
| `ScanPager.PagesPartition` | app/lib/redis.js:34-57 | Consecutive windows give the keys in order, each once, and all of them once the pages make up the count. |
| `ScanPager.LimitKeptIff` | app/lib/redis.js:45-53 | The limit is kept if and only if it is positive, or zero with nothing at the offset. |
| `Reactions.UpdateExact` | app/providers/services/message/index.js:199-212 | An update is set addition, then set difference; each flag says exactly whether its half changed the set; the flags account for the number of rows. |
| `Reactions.RunExact` | app/providers/repositories/message_reaction/index.js:15-41 | After every run the rows are a set: those whose last mention added them, as many as the flags of the run add up to, and never one with an empty reaction. |
| `Reactions.AggregationDirect` | app/providers/repositories/message_reaction/index.js:43-87 | In whatever order the database lists groups and sets, the two-stage aggregation covers exactly the asked-for messages with reactions, with the direct count of every reaction and the user's own reactions, ascending, each once. |
| `Reactions.AtMostIff` | app/providers/repositories/message_reaction/index.js:81-82 | The order of the own reactions is that of the first code unit in which two differ, prefixes first. |
| `Reactions.DirectUnique` | app/providers/repositories/message_reaction/index.js:70-86 | There is only one such summary, so the answer does not depend on the database's orders. |
| `Reactions.CountsUsers` | app/providers/repositories/message_reaction/index.js:53-56 | On the rows a run leaves, a count is the number of users who reacted so. |
| `Reactions.MessageReactionRepository.Upsert` | app/providers/repositories/message_reaction/index.js:26-41 | The row is in the set, no row is stored twice, and the flag says exactly whether the set changed. |
| `Reactions.MessageReactionRepository.Remove` | app/providers/repositories/message_reaction/index.js:15-24 | The row is not in the set, the others are, and the flag says exactly whether the set changed. |
| `Reactions.MessageReactionRepository.UpdateReactions` | app/providers/services/message/index.js:199-212 | Set addition, then set difference; each flag says whether its half changed the set; together they account for the number of rows. |

## Left out

- Interleavings inside one service call. Calls interleave freely; the Redis commands of a store or removal, the read-modify-write of the observers string and of `subscribers_count`, and the awaits inside a sync are one step each; finer interleavings do not keep the invariants.
- How HTTP pseudo-sessions end, and the socket watchdog, in runs: they pass device ids explicitly and outlive sessions. The service methods are specified for explicit ids as well.
- Sockets, TCP, TLS and HTTP servers, tokens, passwords, mail, storage, push queue, handlers: foreign calls.
- XMPP packet mapping: packets are delivered as they are, and a send on a socket or to a connected node does not fail.
- `onlineUsersList` and `onlineUsersCount`, beyond the scan they page through.
- Redis keys as strings: keys are structured values; only member strings and observer strings, which the code takes apart again, are modelled as text. Node endpoints are non-empty, and `buildWsEndpoint` gives a node's configured endpoint.
- Roles, admins and access checks of conversations: they decide whether a step happens, not what it does. Which private conversation the lookup finds, and a private creation whose opponent cannot be determined (the code builds the error there but does not throw it), are not modelled.
- The order in which Mongo returns a first participant: it is storage order here.
- Periods of unequal length and time zones in the period counter, and an initial count other than zero, which no caller passes.
- Rejections with a falsy error in the retry queue, and constructors that return a falsy instance in the service locator; booting of providers.
- `aggregateMessageReactions`, read status, unread counts, encrypted delivery, contacts, files, user search and block lists: they would only add easy members, or depend on database order.
