# Qrystal in Dafny

Qrystal keeps WireGuard devices in agreement with a specification. A coordination server holds a
spec of networks and devices. Each device fetches its own censored view of it, patches its public
key and the list of devices it reaches, chooses endpoints and forwarders, compiles the view to a
machine, applies that machine to the kernel, and reports the view it applied. The server keeps an
index, `latest`, of devices known to run the present spec. This project models that protocol, the
compiler, the applier, the address allocator and the DNS resolver, and proves what they are for.

`dafny verify dfyconfig.toml` checks everything.

## Reading guide

| file | content |
|---|---|
| Protocol.dfy, Forwarding.dfy | the whole system as a step machine: one server, any number of devices in any phase, lost requests and replies, restarts, changes of the spec; safety over every run |
| Late.dfy, Tables.dfy | the same with requests that arrive at any time, and with every device's kernel |
| Coord.dfy, Responses.dfy, CoordIndex.dfy | the server class and its request handlers; each answer field by field; the index over every run of requests |
| Locks.dfy | the two read-write locks at the granularity of lock operations: serializability, no deadlock |
| DeviceClient.dfy, Choosing.dfy, Resolve.dfy, Choices.dfy | the client's phases down to DNS server, applier and kernel; endpoint and forwarder choice, and what it comes to in terms of the pings |
| Convergence.dfy, Everybody.dfy | convergence of one device alone, and of all devices together |
| Compile.dfy, Machines.dfy, Routing.dfy, OneHop.dfy, Respelling.dfy | spec to machine; conservation of routes, in general and in runs of the protocol; Equal specs compile alike |
| Kernel.dfy, Apply.dfy, Applier.dfy, SetOps.dfy | the goal-state applier over an abstract kernel, and its sorted-merge set algebra |
| Assign.dfy, Blocks.dfy | the address allocator; CIDR blocks bit by bit |
| Dns.dfy, Rcodes.dfy | names to devices and back; the code of every reply |
| Specs.dfy, Cloning.dfy, NetAddr.dfy, Orders.dfy, Prelude.dfy | specs, views, `Equal`, `Clone` (as values, and with PATCH on the heap), addresses, orders |

Code that assigns to fields is a class whose methods are proved against a function on values
(`Coord.Server` against `Serve`, `DeviceClient.Client` against `Reify`, the compiler against
`CompileSpec`, and so on); the theorems are about those functions and about runs of them.

## Where the code and its documentation differ

The model follows the code. Each difference below is the subject of a theorem.

- `sliceUnion` is documented as a union of slices with unique values (coord/update.go:52-54). It
  computes the multiset intersection, for slices with or without duplicates: `SetOps.SliceUnion`.
  For a type with incomparable values, such as floating-point NaN, its loop would not end; the model
  takes a total order, and the server only uses strings.
- `NetworkDeviceCensored.Clone` copies neither `Accessible` nor `UsesForwarder`
  (spec/spec.go:253-278). Every PATCH thus empties the `Accessible` lists of all other devices. A
  clone is Equal to its source only if there is nothing to forget (`Specs.CloneEqualIff`), a PATCH
  drops devices that cannot see what was patched exactly when they see such a list
  (`CoordIndex.UnseenPatchKeeps`), and two devices that forward are never both up to date
  (`Forwarding.TwoForwardersNeverBothLatest`). Safety and convergence of one device survive.
- Applying a machine sorts the device's own addresses in place, through a slice shared with the view
  that is reported afterwards, while `Equal` is sensitive to order. And an IPv4-mapped address such
  as `::ffff:10.0.0.1/128` is written to JSON as `10.0.0.1/32` and read back with a 4-byte mask
  (goal/util.go:16-33), while `Equal` compares masks as bytes. A device converges if and only if its
  own addresses are in order and no device it sees has such an address:
  `Convergence.TwoCallsSuffice`.
- `AssignAddress` promises the next free address, or an overflow. It panics exactly when everything
  up to and including the all-ones address is in the network and used (`Assign.PanicIff`). In an
  IPv6 block of at most 79 leading ones, searched from below `::ffff:0:0`, it may report an overflow
  although free addresses remain, because `net.IPNet.Contains` takes `::ffff:0:0/96` for IPv4. For
  all other CIDR blocks it is right for all used blocks: `Assign.AssignCorrectIff`. It is right and
  never panics if and only if, in addition, the block does not hold the last address:
  `Assign.AssignAnswersIff`.
- `ApplyMachine` looks up every managed interface in the machine. One that the machine lacks makes
  it panic, in the deletion loop or in the update loop. Exactly when it succeeds is part of the
  contract of `Appliers.Applier.ApplyMachine`.
- `ChooseEndpoint` has an "unreachable" panic that is reached if all error-free scores are negative
  (`Resolve.ChoiceMeans`); with the ping scorer it is not (`Choosing.PingNeverPanics`).
- Two networks of one name make `updateSpecNoLock` drop unchanged devices
  (`CoordIndex.RepeatedNameDrops`). The update is exact if and only if no repeated network drops a
  member whose view is unchanged: `CoordIndex.ExactUpdateIff`. Safety needs no such assumption.
- Forwarders may themselves be reached through forwarders. The chains that `chooseEndpoints` builds
  are acyclic and end at a direct device, but the compiler only folds addresses one hop:
  `OneHop.ChainLosesRoutes` gives a view from which `chooseEndpoints` builds such a chain, and
  `Routing.RoutingConservedIff` says when nothing is lost. It takes two announcing devices; once
  anything has been patched there is at most one, and only its key matters:
  `OneHop.PatchedRunsRouteIff`.

## Assumptions

- Every HTTP request is one atomic step, as Locks.dfy justifies for the server. A request may never
  arrive, or its reply may be lost. In Protocol.dfy no report is handled after its sender has given up
  on it. Late.dfy drops that: `Late.LateReportBreaks` is a run in which a late report makes the index
  wrong, `Late.LateReportSafeIff` says that one does so if and only if it matches the present view
  although the device runs something else by now, and `Late.LatestIsAppliedLate` is safety over runs
  with late reports and late patches, by anybody and of any content, in which no late report matches
  of a device that has moved on to run or to work on something else. Late patches do no harm.
- One client per identity; callers have the identity they state.
- A JSON round trip clears the endpoint and forwarder choices and reads addresses back from their
  text (`Wire`); it keeps everything else. Addresses have been read from text before, so that address
  and mask fit together and there are no host bits below the mask.
- Public-key derivation is an arbitrary function; nothing about it is used but that it is one.
- "Running" stands for the machine a device last applied completely. An application that fails half
  way leaves a mixture in the kernel. Tables.dfy has the kernels as well, and says which addresses and
  routes survive it.
- Of WireGuard the model keeps the configuration it was last given; that WireGuard merges peers of
  one key, and moves an address that two peers are allowed to the later one, is its own affair. Names
  resolve, and WireGuard takes configurations, as arbitrary functions say.
- The kernel rejects adding what is present and deleting what is absent, lists every address and
  route once and in the spelling it was given, and adds no routes of its own.
- Strings compare by code point, which is the order of their UTF-8 bytes.

## Model

| member | source | states |
|---|---|---|
| Protocol.LatestIsApplied | coord/server.go:27-29 | In every reachable state, with any number of devices in any phases, lost messages, failed applications, restarts and changes of the spec: a device in `latest` runs a machine compiled from a view Equal to the one it would get now, and the public key the spec has for it belongs to the private key it runs with. |
| Protocol.LatestIsFaithful | goal/util.go:16-33 | In every reachable state, a device in `latest` sees no address that does not read back Equal from its text. |
| Protocol.RunOk | device/client.go:99-161 | The inductive invariant, which also covers devices between fetch, patch, apply and report, holds after every run from an empty index. |
| Protocol.NextOk | device/client.go:99-161 | Every single event of server or device keeps that invariant. |
| Protocol.KeyOk | device/client.go:195-227 | Setting the own public key, delivered, lost or unanswered, keeps it, also for a device that is already in the index. |
| Protocol.AnnounceOk | device/client.go:277-306 | So does announcing the reachable devices. |
| Protocol.ApplyOk | goal/apply_linux.go:219-229 | So does applying, with the device's own addresses sorted through the shared slice. |
| Protocol.AcceptOk | coord/server.go:271-291 | So does a report, accepted or not, of the view that runs. |
| Protocol.OwnPatchSeen | coord/update.go:34-47 | A patch that changes the sender's own key or list, in its own view, makes the sender's old and new views differ, so that it cannot stay in the index by mistake. |
| Protocol.SortedMachine | spec/compile.go:103-108 | Sorting the own addresses of the view changes the compiled network in nothing but the order of the interface's addresses; it makes no difference whether one compiles before or after. |
| Late.LateReportSafeIff | coord/server.go:271-291 | With a right index, a report handled late leaves it right, every device in it running a view Equal to its present one, if and only if the report does not match the device's present view or the device still runs something Equal to the report. |
| Late.LateReportKeepsIff | coord/server.go:271-291 | It also leaves the index right for the steps to come, that is, keeps the invariant of the protocol, if and only if, in addition, the device is not working on anything else. |
| Late.LateRunsOkIff | coord/server.go:242-299 | In runs with requests by anybody, of any content and at any time among the steps of the protocol, the invariant holds throughout if and only if no late report is stale: matching although the device runs or works on something else. |
| Late.LatestIsAppliedLate | coord/server.go:27-29 | Safety and the correspondence of keys over all such runs without a stale report. |
| Late.SafeRunsNeed | coord/server.go:271-291 | Conversely, the index stays right throughout only if no late report ever matches of a device that runs something else. |
| Late.LateReportBreaks | coord/server.go:271-291 | A run after which a report that was held up matches, and makes the index wrong. |
| Late.LateReportBreaksLater | coord/server.go:271-291 | A run after which one leaves the index right, and four ordinary steps of the device make it wrong. |
| Late.StoryReports | device/client.go:147-155 | In that run the device has indeed applied, and is about to report, the view in question. |
| Late.LatePatchSafe | coord/server.go:197-224 | A PATCH handled late, by whomever, keeps the invariant. |
| Tables.LatestHasTables | goal/apply_linux.go:219-310 | With a kernel for every device, any number of failed applications and any links to begin with: a device in the index whose last application is not torn has exactly the addresses and routes, in its kernel, of a machine compiled from a view Equal to its present one. |
| Tables.AttemptSparesIff | goal/apply_linux.go:54-56 | A device in the index that applies again wants the addresses it has; it finds all its tables as wanted if and only if it wants the routes it has. |
| Tables.FailureHarmlessIff | goal/apply_linux.go:54-56 | A failed application of such a device is harmless, whatever it leaves within what the applier guarantees, if and only if it finds its tables as wanted. |
| Tables.ConservedAttempt | spec/compile.go:35-102 | It does find them so if both its machines route the addresses of all other keyed devices; then no failure, of the DNS server, of name resolution or of WireGuard, tears them; only the panic over IPv6 forwarding is counted as torn. |
| Forwarding.PatchLeavesOne | coord/server.go:197-221 | After any PATCH at most one device of the whole spec announces anything. |
| Forwarding.TwoForwardersNeverBothLatest | spec/spec.go:253-278 | In every run in which a PATCH was carried out since the spec was last replaced, even one without effect, of two devices in the index at least one announces nothing. |
| Forwarding.StepLeavesOne | coord/server.go:197-224 | A step of the protocol either carries out no PATCH and keeps the spec, or leaves at most one announcer. |
| Forwarding.ReifyIsRun | device/client.go:99-161 | The function Reify, about which convergence is proved, agrees with six steps of the protocol without interference: same server state, same key, and the planned machine left running. |
| CoordIndex.UpdateKeepsIff | coord/update.go:23-50 | Whatever the names, an update keeps precisely the old members whose view is unchanged and that every new network of the name keeps; the entries are precisely those of networks in both specs. |
| CoordIndex.ExactUpdateIff | coord/update.go:29-48 | The update is exact, keeping precisely the old members with unchanged views, if and only if the networks that repeat a name drop none of these. |
| CoordIndex.UpdateExact | coord/update.go:23-50 | With distinct network names it is exact. |
| CoordIndex.UpdateKeepsOnlySame | coord/update.go:23-50 | Whatever the names, an update adds nobody and keeps nobody whose view changed. |
| CoordIndex.RepeatedNameDrops | coord/update.go:29-48 | A spec with two networks of one name for which it is not. |
| CoordIndex.PatchViews | coord/server.go:197-224 | A PATCH changes every view of every device in exactly one way: all lists of accessible devices are emptied, and the patched device, where visible, gets its flagged fields. |
| CoordIndex.ClonedViewEqualIff | spec/spec.go:253-278 | A view and the same view after cloning are Equal if and only if no device in it announces anything. |
| CoordIndex.UnseenPatchKeeps | coord/server.go:197-224 | A PATCH by a device that another cannot see leaves the other in the index if and only if the other sees no announcement. |
| CoordIndex.UnseenChangeKeeps | coord/update.go:23-50 | With distinct names, a new spec leaves a device in the index if and only if the devices it may access correspond, in order and Equal, in the old and the new network. |
| CoordIndex.StepKeepsOnlySame | coord/server.go:242-299 | No request puts a device into the index but its own accepted report, and none leaves it there with a changed view. |
| CoordIndex.StepExact | coord/server.go:242-299 | With distinct network names these two are precisely the ways to be in the index after a request. |
| CoordIndex.IndexExact | coord/update.go:20-50 | Over any run of requests, a device is in the index if and only if it had a report accepted and its view stayed Equal at every update since. |
| CoordIndex.MembersAreCurrent | coord/server.go:27-29 | Over any run of requests, whatever the names, every member's last accepted view is Equal to the view it would get now. |
| Coord.Server.UpdateSpecNoLock | coord/update.go:23-50 | The two loops and the assignment compute the specified new index, and the new spec replaces the old one only afterwards. |
| Coord.Server.DropRemoved | coord/update.go:24-28 | The first loop deletes exactly the entries of networks that the new spec lacks. |
| Coord.Server.Reindex | coord/update.go:29-48 | One round of the second loop intersects the entry of a network with the devices whose view is unchanged. |
| Coord.Server.KeepUnchanged | coord/update.go:34-46 | The inner loop lists the devices in both networks with Equal views, in the order of the new network. |
| Coord.Server.Common | coord/update.go:47 | The union of the source, on lists of names: the multiset intersection. |
| Coord.Server.GetReifyLatest | coord/server.go:91-121 | Answers membership in the index, or not found, and changes nothing. |
| Coord.Server.GetReifySpec | coord/server.go:123-150 | Answers the caller's censored view, or not found, and changes nothing. |
| Coord.Server.PatchReifySpec | coord/server.go:167-232 | Clones, sets the flagged fields of the caller's device, rejects unknown accessible names without any change, and reindexes. |
| Coord.Server.AssignFields | coord/server.go:200-221 | Exactly the flagged fields change. |
| Coord.Server.CheckAccessible | coord/server.go:212-218 | A list is acceptable if and only if every name in it is a device of the network. |
| Coord.Server.PostReifyStatus | coord/server.go:242-299 | Appends the caller, possibly again, exactly when the reported view is Equal to the present one; a mismatch removes nobody. |
| Responses.NotFoundIff | coord/server.go:91-299 | A request of any of the four kinds is not found if and only if no network has its name or the first such network has no device of its name; then nothing changes. |
| Responses.LatestMeans | coord/server.go:91-165 | The two GETs change nothing; a device is the latest if and only if the list of its network has it, and is sent its view of that network. |
| Responses.ReportMeans | coord/server.go:271-291 | A report is accepted if and only if it is Equal to the present view; then the list of its network has the device once more; no other list and nothing of the spec changes. |
| Responses.PatchRefusedIff | coord/server.go:212-218 | A PATCH for a known device is refused, and then changes nothing, if and only if its list names something that no device of the network is called. |
| Responses.PatchMeans | coord/server.go:197-224 | Otherwise each flagged field of the one device has the requested value and each other field its old one, but for the list and the flag that Clone forgets; every other device of every network is copied field by field, with those two forgotten. |
| Locks.Serializable | coord/server.go:97-111 | Under every interleaving of lock operations and index assignments: the commits are those of the handlers that have an answer, one each, with their own request and response; these responses are exactly those of serving the requests one by one in commit order; no handler changes its request; and outside an update the memory is that of the serial execution. |
| Locks.AnsweredComesFirst | coord/server.go:173-224 | A request that was answered before another took effect comes before it in the serial order. |
| Locks.StepTraced | coord/server.go:248-291 | A step commits at most the request of the handler that takes it, and none twice. |
| Locks.NoDeadlock | coord/update.go:12-18 | Under every schedule, while a request is pending some handler can move, and moving changes the state. |
| Locks.SomebodyCanMove | coord/server.go:173-224 | The order specLock before latestLock leaves no cycle, even if waiting writers keep readers out. |
| Locks.StepOk | coord/server.go:248-291 | Every step of a handler keeps the mutual exclusion of writers, what each handler found out under specLock, and the agreement of memory with the serial execution. |
| DeviceClient.Client.ReifySpec | device/client.go:99-161 | One call, down to DNS server, applier and kernel, has exactly the effect on server and client, and the result, of Reify with the verdict that the DNS server's answer and the kernel's links give. Without an error the DNS server holds the planned view, and the link of the network has exactly its addresses, routes and peers and the client's private key; whatever happens, no other link is touched and no table that was as planned. |
| DeviceClient.RunsMean | goal/apply_linux.go:219-310 | A link that runs a view has exactly the local device's addresses, and exactly one route for each network that is an AllowedIPs entry of some peer. |
| DeviceClient.Client.UpdateMyKeys | device/client.go:195-227 | Generates a key only if there is none, patches only if the spec's public key is another one, and changes the view only if the patch was accepted. |
| DeviceClient.Client.PatchAccessible | device/client.go:277-306 | Announces the chosen devices if forwarding is configured, patches only if the list differs, and sets it in the view before the patch is answered. |
| DeviceClient.Client.ListAccessible | device/client.go:284-294 | The announced names are those of the devices with a chosen way, or none. |
| DeviceClient.Client.ApplyInterface | device/client.go:143-151 | A client whose applier has only managed its own network never looks up a missing interface: it fails exactly if the machine is not accepted, panics exactly if it is accepted and IPv6 forwarding is wanted; if it is accepted, the shared slice is sorted and only the one link changed, to its goal; and even if not, other links and tables at their goals stay. |
| DeviceClient.Client.UpdateDNS | device/client.go:81-93 | The DNS server, if there is one, gets the view, or the update fails and leaves it as it was. |
| DeviceClient.Client.Conclude | device/client.go:131-160 | The view goes to the DNS server first; if that fails, the call ends there, with the kernel and the coordination server untouched. |
| DeviceClient.Client.CompileApplyReport | device/client.go:138-160 | Compiles, applies with the private key filled in, and reports the view with the addresses as applying has left them in the slice it shares with the machine. |
| DeviceClient.Client.ApplyReport | device/client.go:143-160 | The same from the compiled machine on: fails, panics or reports as the kernel accepts and IPv6 forwarding is wanted. |
| DeviceClient.Client.Prepare | device/client.go:105-118 | Keys, choices and the list of reachable devices: sends the patches of the plan, and goes on with its view exactly if they are carried out. |
| DeviceClient.Client.Pursue | device/client.go:105-160 | Everything after the fetch: patches, choices, DNS, application and report of the plan made from the fetched view. |
| DeviceClient.PlanKeepsNames | device/client.go:229-275 | No phase moves the local device or renames the network. |
| DeviceClient.ContinuousClient.Step | device/continuous.go:18-35 | Asks the server if the flag is set and reifies otherwise; an error leaves the flag alone. |
| Convergence.PlanShape | device/client.go:195-306 | The view that is compiled differs from the fetched one in choices, the own key and the own list only; each patch is sent exactly if it would change something. |
| Convergence.AfterPatchesShape | coord/server.go:197-224 | The view after a call's own patches: the own key is set, nobody else announces anything if any patch was sent, and without patches nothing changed. |
| Convergence.RoundEffect | device/client.go:99-161 | A call without errors leaves the device with that view, and is told it is the latest exactly if what it reports is Equal to it. |
| Convergence.QuietReport | coord/server.go:271-291 | Once the key is right and nobody else announces, the report is accepted if and only if the view is reportable: the own addresses are in order and every address in the view reads back Equal. |
| Convergence.InOrderIffSorted | goal/util.go:107-109 | Addresses are in order if and only if they are sorted by lessIPNet in their short spelling. |
| Convergence.UnreportableNeverLatest | spec/spec.go:245-251 | A device whose view is not reportable is never told that it is the latest. |
| Convergence.MappedExample | goal/util.go:16-33 | ::ffff:10.0.0.1 with a full 16-byte mask is an address that does not read back. |
| Convergence.OutOfOrderExample | goal/util.go:98-102 | 10.0.0.2/32 before 10.0.0.1/32 is such a case. |
| Convergence.TwoCallsSuffice | device/client.go:99-161 | With nobody else acting, one of two error-free calls returns latest if and only if the view is reportable, and each that does leaves the device in the index. |
| Convergence.CallEnds | device/client.go:105-161 | A call of a device that sees itself fails to publish exactly if the DNS server does not take the view, fails to apply exactly if it does and the kernel does not accept the machine, crashes exactly if both accept and an announced device has an address that is neither 4 bytes long nor IPv4-mapped, and otherwise ends without an error; no request fails. |
| Convergence.UnseenEnds | device/client.go:99-108 | A call of a device that the server does not know fails, one of a device that does not see itself panics; neither changes server or client. |
| Convergence.CallOnKernel | goal/apply_linux.go:57-133 | The kernel accepts exactly if the network's name is at most 15 characters long or already a link, every endpoint of the planned interface resolves, WireGuard takes the configuration, and no missing address or route is asked for twice; the four ends of a call follow from this, from the DNS server's answer and from announced addresses that are neither 4 bytes long nor IPv4-mapped. |
| Convergence.PlanCompiles | spec/compile.go:19-68 | For a device that sees itself the compiler never fails an index and never meets a malformed spec or a forwarder without a choice; there is exactly one interface. |
| Convergence.PlanAcceptable | coord/server.go:212-218 | The server accepts every list that a client announces. |
| Convergence.ThreeStepsSuffice | device/continuous.go:18-35 | From any value of the flag, three error-free steps of a device with a reportable view leave it in the index with its flag set, and every further step changes nothing. |
| Convergence.StepStable | device/continuous.go:18-35 | With the flag set a step only asks, and the flag becomes membership in the index. |
| Convergence.PlannedIsAnswered | dns/dns.go:117-202 | A DNS server that has taken a planned view answers, for every device that the caller may see and under the first parent that matches its name, with the addresses that the spec gives that device. |
| Everybody.ThreeRoundsSuffice | device/client.go:99-161 | Any number of devices that see themselves and of which at most one can forward, three rounds in which each calls once without an error, and the same pings for the forwarder: in the third round each is told that it is up to date if and only if its view is reportable, and at its end all of these are in the index at once, from whatever state server and clients were in. |
| Everybody.ChosenByPing | device/client.go:236-273 | Which devices get a choice depends on names, endpoints, pings and the lists of the others, but on no random number. |
| Everybody.CallOverlooked | coord/server.go:197-224 | What the call of one device does to the view that another has: nothing, or it empties the other's own list and leaves its key, all names and all addresses; and if the caller cannot forward, nobody in that view announces anything afterwards. |
| Everybody.OwnCallCalms | device/client.go:195-306 | A device whose key is right, and whose list is or is about to be right, has nothing left to patch after one more call. |
| Everybody.ThirdRound | device/client.go:99-161 | Once nobody has anything to patch, a round only adds to the index, and every caller is accepted exactly if its view is reportable. |
| Choosing.TryEndpoints | device/client.go:237-258 | The first loop tries every other device without a choice and lists those that answer on no endpoint. |
| Choosing.AssignForwarders | device/client.go:259-273 | The second loop gives each of these, in order, a random one of the forwarders there are by then. |
| Choosing.ChooseEndpoints | device/client.go:229-275 | Together they make the specified choices for every outcome of pings and random numbers. |
| Choosing.ForwardersRanked | device/client.go:259-273 | On a freshly fetched view: a rank that strictly decreases from each device to its forwarder exists, no forwarder is the local device, every forwarder has a choice, and nothing but choices changed. |
| Choosing.ChainEnd | device/client.go:259-273 | Following forwarders from any device with a choice ends at a directly reachable device other than the local one, with a valid endpoint index. |
| Choosing.ChoicesCompile | spec/compile.go:66-76 | After the choices every forwarder and endpoint index is in range and every forwarder has a choice; a missing key, where not ignored, is the only fault left. |
| Choosing.PingNeverPanics | spec/resolve.go:18-32 | The ping scorer never leads to the "unreachable" panic, and a picked index is in range. |
| Choices.ChosenMeans | device/client.go:236-273 | A device of which some endpoint answers is chosen directly, with the first endpoint that does. Any other is chosen if and only if some device, not the own, announces its name and answers itself or stands earlier and has got a forwarder; then its forwarder is such a device. |
| Choices.AnyForwarder | device/client.go:267-271 | Each device that has a choice and announces the name is picked for some random number. |
| Choices.PlannedEndpoints | spec/compile.go:59-101 | The peers of the planned machine have, by name and key, the endpoint that answers first, or none if no endpoint does; every keyed device that answers has its peer. |
| Choices.AnnouncedMeans | device/client.go:284-299 | A device that can forward announces the names of exactly the devices with a choice, in order; any other announces nothing. |
| Resolve.ChooseEndpoint | spec/resolve.go:40-80 | For every order in which the scorers complete, the same choice is made and written to the device. |
| Resolve.ChoiceMeans | spec/resolve.go:54-79 | All bad if and only if every endpoint errs; a picked endpoint is the first of maximal score; panics if and only if something succeeds and all that does is negative. |
| Resolve.BestMeans | spec/resolve.go:64-73 | The loop finds the first maximum among non-negative scores of endpoints without error. |
| Compile.CompileMachine | spec/compile.go:11-111 | The loops compute the specified machine, or fail with the first fault, error or panic. |
| Compile.FlagFamilies | spec/compile.go:18-34 | Forwarding flags are set exactly if some announced device has an address of the family; an unknown name is a panic. |
| Compile.GroupForwardees | spec/compile.go:35-46 | The list of a forwarder holds, in order, the keyed devices that use it; fails if and only if an index is out of range. |
| Compile.BuildPeers | spec/compile.go:47-102 | The peers are the keyed direct devices other than the own, in order, each with its forwardees' addresses after its own; otherwise the first fault in order. |
| Compile.FoldAddresses | spec/compile.go:80-93 | A peer's AllowedIPs are its addresses and then those of its forwardees in order. |
| Compile.FlagsMean | spec/compile.go:19-34 | The IPv4 flag of a network is set if and only if some device on the own list has an address that is 4 bytes long or IPv4-mapped, the IPv6 flag if and only if one has another address. |
| Compile.BuiltIff | spec/compile.go:14-102 | A network without the device is skipped; any other compiles if and only if every announced name is in it, every other keyed device with a choice has its endpoint or forwarder in range, and, unless incomplete devices are ignored, every other device has a key and every forwarder in use a choice. |
| Compile.BrokenMeans | spec/compile.go:19-102 | Otherwise it panics if and only if an announced name is unknown, a forwarder is out of range, or an endpoint is out of range and no earlier device is incomplete. |
| Machines.MachineMeans | spec/compile.go:11-111 | The machine has the interfaces of all networks with the device, in their order, and each flag that any of them sets; if a network does not compile, the first such decides the error. |
| Routing.PeersAreDirectDevices | spec/compile.go:47-109 | A compiled interface has the local device's name, port and addresses, and its peers are, in order and each once, the other keyed devices not reached through a forwarder, with their keys, chosen endpoints and at least their addresses. |
| Routing.PeerCarriesLoad | spec/compile.go:80-101 | Each address occurs in a peer's AllowedIPs exactly as often as among the devices that this peer carries: itself, and those that use it. |
| Routing.LoadsAreCarried | spec/compile.go:35-102 | Summed over all peers, every carried address is counted once: no two peers carry the same device. |
| Routing.EveryAddressOnce | spec/compile.go:35-102 | AllowedIPs of all peers together with the addresses of devices without a carrier are, as a multiset, the addresses of all other keyed devices. |
| Routing.AllowedInOrder | spec/compile.go:80-101 | AllowedIPs are the peer's addresses and then, in order, those of exactly the keyed devices, other than the own, that have it as their forwarder. |
| Routing.RoutingConservedIff | spec/compile.go:35-102 | Nothing is lost if and only if every other keyed device with addresses is direct or uses a keyed, direct forwarder that is not the compiling device. |
| OneHop.ChoosesDirect | device/client.go:259-273 | From a freshly fetched view with at most one announcing device, no forwarder that is chosen is itself forwarded, whatever the pings and random numbers. |
| OneHop.PlannedRoutingIff | spec/compile.go:35-102 | Then the planned machine routes everything if and only if the forwarder has a key wherever it is to carry addresses. |
| OneHop.PatchedRunsRouteIff | coord/server.go:197-224 | So it is for whatever a device plans from its view in any run with a PATCH since the spec was last replaced. |
| OneHop.ChainLosesRoutes | spec/spec.go:113-121 | From a view with two announcers, `chooseEndpoints` builds a chain of forwarders for every random number; the device has nothing to patch, and its machine lacks an address. |
| Respelling.CompileRespelled | spec/compile.go:11-111 | Compiling commutes with respelling addresses as 4-byte or mapped 16-byte ones. |
| Respelling.EqualViewsCompileAlike | spec/spec.go:123-125 | Equal views with the same choices compile to the same network up to the spelling of addresses, or fail in the same way. |
| Respelling.EqualSpecsCompileAlike | spec/compile.go:11-111 | Lists of pairwise Equal views with the same choices compile to the same machine up to the spelling of addresses, or fail in the same way. |
| Specs.ViewEqualIsEquivalence | spec/spec.go:123-125 | Equal on views is reflexive, symmetric and transitive. |
| Specs.ViewEqualIffCanon | spec/spec.go:245-251 | Views are Equal if and only if they have the same canonical form: choices cleared, addresses spelled short. |
| NetAddr.TextNetMeans | goal/util.go:16-33 | A network written as text and read back is Equal to itself unless it is IPv4-mapped with a 16-byte mask; reading back twice changes nothing more. |
| NetAddr.IPEqualIffCanon | spec/spec.go:245-247 | Addresses are equal if and only if their short spellings are, across 4 and 16 bytes. |
| Specs.CloneEqualIff | spec/spec.go:253-278 | A device and its clone are Equal if and only if it announces nothing. |
| Specs.NetworkClone | spec/spec.go:85-91 | The loop clones every device in its place. |
| Specs.SpecClone | spec/spec.go:19-25 | The loop clones every network in its place. |
| Cloning.CloneDeviceRef | spec/spec.go:151-156 | On the heap: the clone of a device holds the specified value, access rights included, and everything mutable reachable from it is fresh. |
| Cloning.CopyNets | spec/spec.go:265-271 | The addresses are copied byte by byte into fresh arrays with equal contents. |
| Cloning.CloneDevices | spec/spec.go:85-91 | The same for a whole network; no two of the clones have any memory in common. |
| Cloning.CloneSpecRef | spec/spec.go:19-25 | The same for a whole spec: it holds CloneSpec of the source's value, in fresh memory only. |
| Cloning.PatchOnHeap | coord/server.go:197-221 | A PATCH clones and assigns through the clone; the old spec still holds its value, the new one holds the patched value, and all it reaches is fresh or came with the request. It is refused exactly for an unknown device or unknown names. |
| Cloning.AssignTo | coord/server.go:200-221 | Assigning to one device of a spec in place changes the value of that device only. |
| Specs.CensorForDevice | spec/spec.go:127-140 | The loop builds the view that ViewMeans describes. |
| Specs.ViewMeans | spec/spec.go:127-140 | A view has, in order and each once, the public parts of exactly the devices for which the access of its owner is to all or lists their name. |
| Specs.NeverSent | coord/server.go:123-165 | Whatever the spec, a device without access to all is never sent one that its list does not name. |
| Specs.VisibleFirst | spec/spec.go:127-140 | Looking a name up in a view finds the device that a lookup in the network finds, if access is granted, and nothing otherwise. |
| Specs.CensoringIsolates | spec/spec.go:127-140 | Two networks give a device Equal views if and only if the devices it may access correspond, in order and Equal, whatever else the networks contain. |
| Specs.HiddenEdit | spec/spec.go:127-140 | Adding, removing or changing devices that a device may not access leaves its view exactly as it is. |
| Specs.VisibleUpdate | coord/server.go:197-221 | Changing one device changes a view in the place of that device only, and not at all if it may not be seen. |
| Specs.Forwarders | spec/spec.go:112-121 | The indices listed are exactly those of devices that have a choice and announce the name. |
| Specs.GetForwardersFor | spec/spec.go:112-121 | The loop computes that list. |
| Specs.NetworkIndex | spec/spec.go:35-41 | The first network of a name, or none. |
| Specs.DeviceIndex | spec/spec.go:80-83 | The first device of a name in a network, or none. |
| Specs.ViewIndex | spec/spec.go:107-110 | The first device of a name in a view, or none. |
| Appliers.Applier.ApplyMachine | goal/apply_linux.go:57-133 | With distinct interface names: succeeds if and only if all managed interfaces are in the machine, new names are short enough, endpoints resolve and WireGuard takes the configurations, nothing missing is asked for twice and no IPv6 forwarding is wanted; then every interface is up, configured, and has exactly the wanted addresses and routes. If all managed interfaces are in the machine, it panics if and only if all this holds but for IPv6 forwarding, and has applied everything by then. Even if it fails, no other link is touched and no table that was at its goal. At the goal it adds and deletes nothing. IPv4 forwarding ends as the machine says. |
| Appliers.Applier.DriveInterfaces | goal/apply_linux.go:58-105 | The creation and update loops together, with the same condition but for forwarding; a panic means that some managed interface is not in the machine. |
| Appliers.ApplyTwice | goal/apply_linux.go:54-56 | After a successful run a second one succeeds, adds and deletes nothing and leaves every link as it is. |
| Appliers.AgainDrivable | goal/apply_linux.go:54-56 | Once the goal is reached it can be reached again, and reaching it again is no change. |
| Appliers.Applier.PlanInterfaces | goal/apply_linux.go:62-77 | Managed names grow by the machine's; deleted are the managed, existing ones that the machine lacks; created are the machine's that do not exist, as often as they occur. |
| Appliers.Applier.CreateInterfaces | goal/apply_linux.go:88-95 | Succeeds if and only if the names are distinct and at most 15 characters long; then exactly these links are new and bare; if it fails, only some of them are. |
| Appliers.Applier.UpdateInterfaces | goal/apply_linux.go:97-105 | Brings every named interface to its goal, or fails because one is not in the machine or cannot be brought there. |
| Apply.Reconcile | goal/apply_linux.go:219-310 | Sorts the goal in place and makes the kernel's table equal to it as a set, if and only if nothing missing is asked for twice; issues nothing if they agree already. |
| Apply.Differences | goal/apply_linux.go:229-236 | The removed entries are those present and unwanted, each once; the added ones those wanted and absent. |
| Apply.ExecuteTasks | goal/apply_linux.go:293-308 | No task deletes something absent; one adds something present if and only if it was asked for twice. |
| Apply.UpdateInterfaceAddresses | goal/apply_linux.go:219-257 | The addresses of the link become those of the interface, and the interface's slice is sorted. |
| Apply.ApplyInterfaceRoutes | goal/apply_linux.go:259-310 | The routes of the link become the AllowedIPs of all peers, and the peers' own slices stay as they are. |
| Apply.ConfigureWireguard | goal/apply_linux.go:324-367 | Resolves the endpoints in order and configures the link; if one does not resolve or WireGuard refuses, nothing is changed. |
| Apply.ConfigurationMeans | goal/apply_linux.go:326-351 | The configuration exists only if every endpoint resolves and WireGuard takes it, and has the private key and, in order, every peer with its keys, resolved endpoint and AllowedIPs. |
| Apply.UpdateInterface | goal/apply_linux.go:174-217 | WireGuard, then addresses, then up, then routes; succeeds if and only if the link exists, can be configured and both tables can be reached; even if it fails, no other link changes and no table leaves its goal. |
| SetOps.SetDifference | goal/util.go:104-120 | For any strict weak order: the sorted sub-multiset without equivalents in the second slice; both slices end as sorted permutations. |
| SetOps.WithoutCounts | goal/util.go:104-120 | The difference keeps each value as often as it occurs, or not at all. |
| SetOps.WithoutMembers | goal/util.go:104-120 | Its values are exactly those of the first slice with no equivalent in the second. |
| SetOps.WithoutSorted | goal/util.go:104-120 | It is sorted if the first slice is. |
| SetOps.SetIntersection | goal/util.go:122-138 | The result is sorted, within the first slice, and holds each class of equivalents as often as the slice with fewer of them; both slices end as sorted permutations. |
| SetOps.MergeCounts | goal/util.go:126-136 | The merge loop counts each class of equivalents with the minimum of its counts. |
| SetOps.SliceUnion | coord/update.go:52-79 | Terminates, and returns the sorted multiset intersection, with or without duplicates; both slices end as permutations. |
| SetOps.MergeIntersects | coord/update.go:58-78 | For a total order the merge loop is multiset intersection. |
| NetAddr.LessIPNetTotal | goal/util.go:98-102 | lessIPNet is a strict total order, hence a strict weak one. |
| NetAddr.LessIPNetMeans | goal/util.go:98-102 | It compares the addresses, and masks only if these agree, by the first byte that differs, a proper beginning first. |
| NetAddr.To4Means | spec/compile.go:25 | IPv4 addresses are those of 4 bytes and those of 16 that begin with ten zeros and 255, 255. |
| Assign.AssignAddress | util/assign.go:20-37 | The loop terminates and computes the specified search. |
| Assign.NextIPIsSuccessor | util/assign.go:39-46 | nextIP is +1 on big-endian bytes of the same length, and fails exactly for the all-ones address. |
| Assign.ScanOutcome | util/assign.go:20-37 | For any masks: an assigned address is the numerically least free one; an overflow means all before the first address outside are used; a panic, that all are. |
| Assign.PanicIff | util/assign.go:28-44 | The panic happens if and only if every address from the start to the all-ones one is in the network and used. |
| Assign.PanicExample | util/assign.go:44 | 255.255.255.255/32, in use, is such a case. |
| Assign.BlockConvex | util/assign.go:25 | A CIDR block (section 3.1 of RFC 4632) of addresses of one length is an interval. |
| Assign.ContainsConvex | util/assign.go:25 | So is what net.IPNet.Contains accepts, as far up as it matters, unless the block skips the IPv4-mapped range. |
| Blocks.ContainsMeans | util/assign.go:25 | A block of addresses of one length contains exactly those whose leading bits, as many as its mask has ones, agree with its own. |
| Assign.SearchRight | util/assign.go:20-37 | For every other CIDR block and all used blocks, the least free address is returned, and a failure means there is none. |
| Assign.SearchWrong | util/assign.go:25-27 | For every block that skips the mapped range there are used blocks for which an overflow is reported although free addresses remain. |
| Assign.AssignCorrectIff | util/assign.go:20-37 | For a CIDR block, the search is right for all used blocks if and only if the block does not skip the mapped range. |
| Assign.AssignAnswersIff | util/assign.go:20-46 | It is right without ever panicking if and only if, in addition, the block does not hold the all-ones address. |
| Dns.Server.CheckParents | dns/dns.go:30-56 | Accepts exactly the valid lists of parents: at least one, distinct suffixes, each with the dots its kind needs. |
| Rcodes.ValidParentsMean | dns/dns.go:30-56 | Parents are valid if and only if there is one, suffixes are pairwise distinct, not empty and do not end in a dot, and both network and device are given exactly where the suffix does not begin with a dot, neither where it does. |
| Dns.Server.UpdateSpec | dns/rpc.go:16-22 | The server keeps the spec it is given. |
| Dns.Server.HandleQuery | dns/dns.go:117-134 | The questions are answered in order up to the first failure; answers before it stay; a message with one question gets the answer to it. |
| Dns.Server.HandleQuestion | dns/dns.go:118-132 | Only the first parent with a matching suffix is asked, and only for A questions. |
| Dns.Server.HandleParent | dns/dns.go:136-171 | Appends the device's records, or fails with the code that AnswerMeans describes. |
| Dns.Server.ParseName | dns/dns.go:143-158 | Splitting, reversing and prepending preset parts yields the specified pair, if any. |
| Dns.Server.ReturnAddresses | dns/dns.go:173-202 | Appends a record for each /32 and /128 network, in order. |
| Dns.TargetIff | dns/dns.go:143-158 | Under a valid parent, a name stands for a device if and only if it is `device.network` before the suffix with both dot-free, or the suffix itself for a preset parent. |
| Dns.SplitTwo | dns/dns.go:143 | Splitting gives two parts if and only if the string is two dot-free parts joined by a dot. |
| Dns.NameIsAnswered | dns/dns.go:117-202 | Asking for a device by its name under the first matching parent gives exactly that device's addresses, with success (RCODE 0 in section 4.1.1 of RFC 1035). |
| Dns.AnswerHasName | dns/dns.go:117-202 | Every answer with a record determines one network and device, is the answer for it, and the name asked for is its name. |
| Dns.RecordsMean | dns/dns.go:173-202 | The records correspond, in order and one to one, to the networks with a full mask, each with the right type and that network's address; there are no others. |
| Rcodes.AnswerMeans | dns/dns.go:136-171 | An A question under a first matching parent gets a server failure if and only if there is no spec, success if and only if the name is that of a device of the spec, and a name error otherwise; records come with success only. |
| Rcodes.UnansweredMeans | dns/dns.go:118-134 | A question under no parent, or of another type, gets success and no records. |
| Rcodes.CollectedMeans | dns/dns.go:117-134 | A message has the records of its questions up to and including the first that fails, and the code of that one, or success. |

## Left out

- HTTP, JSON syntax, decode errors, body reading, logging, token parsing and identity checks: requests are typed values from a known caller. The decode error of coord/server.go:262-265, after which the handler goes on with a partial request, is an arbitrary report.
- Key generation and derivation: a new key and the derivation are parameters.
- StringConfig and log output.
- Interface names are counted in characters where the code counts bytes.
- Interface deletion: as written it cannot run, since it looks the deleted name up in the machine; the model has the panic.
- IPv6 forwarding: panics at the end of ApplyMachine, after everything else was applied; so does the model.
- Links of other types than WireGuard with a wanted name, access errors of /proc and netlink errors other than duplicates, missing entries and long names.
- Appliers.Applier.ApplyMachine: names of different interfaces in one machine are assumed distinct for its goal, because two interfaces of one name overwrite each other; the client compiles one network.
- DeviceClient.Client.ReifySpec: the view is a value that the methods hand on; of the memory it shares with the machine only the slice of the own addresses, which applying sorts, is an array. The DNS server gets a copy, as over RPC; a server in the same process shares that slice, so that the order of the own records may change.
- Locks.NoDeadlock: some handler can always move; that a particular one is served eventually depends on the fairness of Go's locks.
- Protocol.LatestIsApplied: assumes that no report is handled after its sender has given up on it; Late.LatestIsAppliedLate has late reports.
- Coord.Server.PatchReifySpec: works on values; that writing to the clone leaves the old spec alone is Cloning.PatchOnHeap, whose slices are sequences of device objects because no slice header is assigned to.
- Resolve.ChooseEndpoint: scorers run in the order of a permutation instead of in parallel; they write to different slots.
- Dns.Server.HandleQuery: questions have non-empty names, as the DNS library delivers them; the library itself, the RPC transport and other opcodes.
- Backoff, durations, profiles, command line, systemd and Nix files.
