# Verified models of the EOS/BGP++ topology toolchain

This project models the algorithmic parts of a network test repository in Dafny and proves what they promise:

- **Topology compiler projections** (`taac/abstractions/compiler.py`). A bound topology is a list of device groups with
  addresses. The compiler lowers it to sparse prefix windows, compact interface blocks, a numbered peer plan,
  partitioned IXIA leaves and an ordered teardown. Proved: the compact forms stand for exactly the explicit lists, and
  the independent projections of one topology agree.
- **Dependency pinning** (`scripts/pin_fbcode_snapshot.py`). A memoised depth-first walk over a possibly cyclic manifest
  graph, the `--check` and `--write` decisions, and the line rewrite that pins a manifest. Proved: the walk finds exactly
  the reachable names with simple witness paths, `--check` passes exactly on reproducible graphs, the outcome of
  `--write` and every overlay after it follow from the inputs, a check after a complete write passes under exact
  conditions, and re-pinning is last-writer-wins.
- **Lifecycle** (`taac/abstractions/compilation/lifecycle.py`, `eos_bgpcpp_renderer.py`,
  `eos_bgpcpp_lifecycle_materializer.py`). Operations are ordered by Kahn's algorithm, rendered into setup and cleanup
  fragments, and materialized into tasks. Proved: the order is the least topological order, the chain succeeds exactly on
  the plans and operations that meet the demands on their fields, the tasks emitted configure and restore exactly the
  plan's interfaces, configuration and component, every reconcile run keeps the running daemons dependency-closed, and a
  setup interrupted anywhere is undone by the cleanup.
- **Snake circuits** (`taac/transform_functions.py`). Deduplicating loopback circuits and selecting every other
  transceiver.
- **Policy coverage** (`taac/abstractions/eos_bgpcpp_capabilities.py`). The list checks amount to an exact one-to-one
  cover.

Addresses are integers, names are strings compared for equality, and a raised validation error is a result value.
`Sequences`, `Orders` (Python's tuple order and stable `sorted`), `Strides` and `Decimals` are shared vocabulary.
Code that updates dictionaries, lists or fields step by step is modelled by methods with loops, or by classes, proved
against specification functions; the lemmas are about those functions. For the main operations a second statement, over
the input's own fields and without those functions, is proved as well (`FollowsEntries` and `OnlyListed` in
`DependencyWalk.Walk`, `PinWrite.RunByInputs`, `LifecycleAccept.RendersIff`, `PolicyCoverage.AcceptableIff`,
`PeerPlan.PlanOrder`, `InterfaceChecks.AcceptedIff`). External calls (the upstream fetch, the tag
lookup, the manifest parser, the effect of a task on a device, policy-preset resolution) are parameters about which
nothing is assumed, with one exception: a check after a write needs to know what the parser makes of the written texts.
`ConfigText` models the script's parser line by line for regular texts, where the last assignment of a key wins, and the
results assume only that the parser agrees with it on which git values such a text ends up with
(`ConfigText.ReadsRegular`); the model's own parser `ConfigText.Parse` does.

## Where the code and its description differ

- `inject_rev` is described as setting the `rev` of the `[git]` section. It replaces the first `rev` line of any section.
  `InjectRev.RevOutsideGitIsRewritten` gives an input; `InjectRev.InjectionKeepsSections` and `InjectRev.RevLandsInGit`
  give the exact condition under which the description holds.
- `--write` resolves every tag before it writes anything, so a missing tag cannot leave the overlays half migrated, as
  described. A body without a place for a `rev` can: it is only noticed while writing. This happens exactly when some
  pinned body has no place and some pinned name sorts before all of those (`PinWrite.HalfMigratesIff`);
  `PinExamples.StopsHalfWay` gives an input.
- A completed `--write` is meant to leave reproducible manifests. `inject_rev` fills only the first `rev` line, while the
  parser keeps the last one, so a body with a second, empty `rev` stays floating (`PinExamples.SecondRevFails`).
  `CheckAfterWrite.RewrittenFailsIff` and `RewrittenText.RevSticks` give the exact condition.
- `_port_sort_key` is described as sorting non-numeric names last. Their keys are all zeros and sort first
  (`PortNames.DigitFreeSortsFirst`, `PortNames.NonNumericSortsFirst`).
- Selected circuits are described as ordered. Names of different depth can come out of order, as eth1/5, eth1/2/3
  (`SnakeCircuits.PortsOutOfOrder`); `SnakeCircuits.SelectionInCircuitOrder` gives the exact condition, which names with
  equally many numbers always meet.
- EBB leaf configurations always carry an increment of 2 although the base is recovered with the group's own stride.
  The assigned addresses are the bound ones exactly when the stride is 2 (`PartitionLeaves.FamilyFaithfulIff`,
  `PartitionLeaves.StrideFourMisassigns`).
- An accepted interface block is described by its base, offset and stride only if every group steps by its own stride,
  which the aggregation does not check (`InterfacePlan.AcceptedButNotDescribed`, `InterfacePlan.AggregationIsLossless`).
- The interface task expands its addresses in steps of two, whatever the stride of the block it was made from. They are
  the block's addresses exactly when the members step by two (`Teardown.TaskGivesBlockIff`); a group with stride four
  passes every check (`InterfacePlan.AcceptedWithStrideFour`).
- A validated daemon list may enable a daemon whose dependency is disabled (`DaemonReconcile.ValidButUnsafe`);
  `DaemonReconcile.ReconcileSafeIff` gives the exact condition for safe runs, and the shipped list meets it.

## Model

| member | source | states |
|---|---|---|
| `PrefixWindows.LookupBisects` | taac/abstractions/topology/routes.py:69-92 | a binary search over the shifted exclusions finds the candidate that the first boundary among them defines |
| `PrefixWindows.CandidateIsKthRetained` | taac/abstractions/topology/routes.py:69-98 | that candidate is exactly the k-th one that filtering retains |
| `PrefixWindows.SequenceIsFilteredCandidates` | taac/abstractions/topology/routes.py:45-98 | random access reads, index by index, the list obtained by filtering the excluded candidates, of exactly `count` elements |
| `PrefixWindows.RetainedCandidateIndex` | taac/abstractions/ixia_renderer.py:1174-1183 | for every list of exclusions, sorted or not, with repeats or negatives, the renderer's scan computes the candidate of the sorted list; on validated exclusions it is the bisection's |
| `PrefixWindows.ScanExclusions` | taac/abstractions/ixia_renderer.py:1178-1183 | stopping at the first exclusion above the running candidate yields the k-th retained candidate |
| `PrefixWindows.TopologyPrefixAt` | taac/abstractions/churn/geometry.py:15-37 | exactly rows outside the count are invalid; on every ascending list the iteration converges within its bound, to the least candidate that settles; on validated exclusions that is the retained candidate |
| `PrefixWindows.SettledIsCandidate` | taac/abstractions/churn/geometry.py:26-35 | the least settled candidate of validated exclusions is the retained one |
| `PrefixWindows.ExactQuotientIsDivmod` | taac/abstractions/compiler.py:1709-1724 | the model's exact quotient is `divmod` with a zero remainder, for every distance and step |
| `PrefixWindows.StartsAtWindow` | taac/abstractions/ixia_renderer.py:1096-1106 | validation accepts exactly the window's first retained prefix as its starting prefix |
| `PrefixWindows.PartitionedPrefixMutation` | taac/abstractions/ixia_renderer.py:2168-2194 | lowering by indices, with the starting prefix carried along, emits the same mutation as lowering by addresses if and only if validation accepts that prefix |
| `PrefixWindows.FormulaicPrefixValues` | taac/ixia/taac_ixia.py:1014-1027 | the runtime loop yields the retained candidates of the span as addresses, or the count error |
| `PrefixWindows.RetainedWindow` | taac/abstractions/compiler.py:1727-1733 | restricting exclusions to a raw window and shifting them to zero keeps exactly the window's retained candidates |
| `PrefixWindows.WindowGeometry` | taac/abstractions/compiler.py:1727-1734 | span length equals count plus relative exclusions, and the shifted window holds exactly the named candidates |
| `PrefixWindows.LoweringIsExact` | taac/abstractions/compiler.py:1700-1741 | exactly which windows lower, what is emitted, and that only the range and step errors can occur for validated windows: the alignment and geometry checks never fire |
| `PrefixWindows.WindowRoundTrip` | taac/abstractions/compiler.py:1700-1741 | expanding the emitted start, step, count and relative exclusions gives exactly the slice of retained prefixes the membership names |
| `PrefixWindows.EmptyWindowIsRejected` | taac/abstractions/compiler.py:1715-1734 | an empty leading window always trips the geometry check, because its end index wraps around |
| `PrefixWindows.LoweringCarries` | taac/abstractions/compiler.py:1735-1741 | a lowered window keeps distribution, count and step |
| `PrefixWindows.Resolve` | taac/abstractions/topology/routes.py:186-207 | resolution gives every peer paths that start where the membership window says |
| `PrefixWindows.SliceWellBound` | taac/abstractions/topology/binding.py:334-390 | slicing a child out of an advertisement keeps its peers' paths aligned with the child's own window |
| `PrefixWindows.ChildrenTileParent` | taac/abstractions/topology/binding.py:334-390 | however the peers are cut into children, their lowered and expanded windows concatenate to the parent's prefixes |
| `PrefixWindows.PathInWindow` | taac/abstractions/topology/routes.py:186-207 | every path of every peer is the prefix of the window at the peer's place |
| `PrefixWindows.SharedChildrenShare` | taac/abstractions/topology/binding.py:334-390 | every child of a shared advertisement announces the whole window, which is each of its peers' paths in order |
| `PrefixWindows.DisjointChildAnnounces` | taac/abstractions/topology/binding.py:334-390 | every child of a disjoint advertisement announces exactly its own peers' paths, peer by peer |
| `InterfacePlan.Plan` | taac/abstractions/compiler.py:4393-4505 | the aggregation loop accepts exactly the inputs whose groups all pass, reports the first that does not, and returns one block per key holding that key's groups in order |
| `InterfaceChecks.AcceptedIff` | taac/abstractions/compiler.py:4393-4472 | acceptance over the fields of the groups: each is on one side, has equally many addresses on both, one prefix length, a positive stride and a first address at or above the base, and goes on where the earlier groups of its block stop, with their family, length and stride |
| `InterfaceChecks.FitsIff` | taac/abstractions/compiler.py:4417-4472 | the same for the next group after accepted ones |
| `InterfaceChecks.LengthIff` | taac/abstractions/compiler.py:4289-4315 | the prefix length of a group exists exactly when its CIDRs pair up with its addresses and agree on one |
| `InterfacePlan.BlockOfAppend` | taac/abstractions/compiler.py:4473-4475 | extending a block in place is the block of the extended member list |
| `InterfacePlan.MembersChained` | taac/abstractions/compiler.py:4446-4475 | each accepted member starts at the offset where the members before it stop |
| `InterfacePlan.AggregationIsLossless` | taac/abstractions/compiler.py:4315-4505 | a block lists exactly its members' addresses; base, offset and stride describe that list if and only if every member steps by its own stride, and then no address repeats |
| `InterfacePlan.AcceptedButNotDescribed` | taac/abstractions/compiler.py:4417-4475 | a group that passes every check although its addresses do not step |
| `InterfacePlan.BlockStepsIff` | taac/abstractions/compiler.py:4446-4490 | for any step, the block's addresses step by it from base and offset if and only if it is the stride and every member steps, or a single member's addresses step so |
| `InterfacePlan.AcceptedWithStrideFour` | taac/abstractions/compiler.py:4417-4475 | a group that passes every check and steps by its stride of four, hence not by two |
| `PeerPlan.AppendGroup` | taac/abstractions/compiler.py:4556-4573 | one group continues its family's numbering |
| `PeerPlan.PlanGroup` | taac/abstractions/compiler.py:4534-4574 | one turn of the outer loop keeps entries and per-family counters in step |
| `PeerPlan.Plan` | taac/abstractions/compiler.py:4516-4580 | the plan exists exactly when every group with a baseline neighbor projects, and numbers each covered peering by its rank within its family |
| `PeerPlan.PlanableByFields` | taac/abstractions/compiler.py:4536-4554 | a group projects when it is on one side of its link, with equally many addresses on both |
| `PeerPlan.OrdinalIsRank` | taac/abstractions/compiler.py:4555-4574 | each entry is its peering with the family rank as ordinal, below the family's size |
| `PeerPlan.EntryDescribesPeering` | taac/abstractions/compiler.py:4534-4573 | each entry carries the name, family, addresses, ASN, peer group and description of one peering of one configured group |
| `PeerPlan.RankSurjective` | taac/abstractions/compiler.py:4555-4574 | every ordinal below a family's size is used |
| `PeerPlan.NumberingOrders` | taac/abstractions/compiler.py:4555-4573 | within a family ordinals strictly increase in output order, and all descriptions differ |
| `PeerPlan.DescriptionInjective` | taac/abstractions/compiler.py:4572 | a description determines family and ordinal |
| `PeerPlan.PlanIsPermutation` | taac/abstractions/compiler.py:4516-4580 | the plan covers every (group, index) pair of every group with a baseline neighbor exactly once |
| `PeerPlan.PlanIsSorted` | taac/abstractions/compiler.py:4517-4526 | with unique names the plan is the only listing of those pairs ordered by its sort key |
| `PeerPlan.PlanOrder` | taac/abstractions/compiler.py:4517-4526 | no IPv4 entry precedes an IPv6 one; within a family EBGP peerings come first, then IBGP, then the monitor's, then all others; among these the group authored first comes first, and in it the first position |
| `PeerPlan.PlanCovers` | taac/abstractions/compiler.py:4528-4573 | a peering is planned exactly when its group is authored, has a baseline neighbor, and has an address for it on the device's side |
| `PeerPlan.DescriptionReads` | taac/abstractions/compiler.py:4572 | a description is its family's prefix and the number of the peer, counted from one |
| `PeerPlan.SlotKeyMeaning` | taac/abstractions/compiler.py:4508-4526 | the sort key is IPv6 first, then role rank, then authored position, then position in the group |
| `PeerSlots.SortKeepsParts` | taac/abstractions/compiler.py:4519-4526 | sorting the groups permutes the peerings they contribute |
| `Agreement.KeySlotsOfMembers` | taac/abstractions/compiler.py:4417-4475 | the peerings counted for a key are those of its block's members, member by member |
| `Agreement.ProjectionsBalance` | taac/abstractions/compiler.py:4393-4580 | interface peerings plus skipped ones equal planned peerings plus those of absent neighbors, as multisets |
| `Agreement.ProjectionsAgree` | taac/abstractions/compiler.py:4393-4580 | interface peerings equal planned plus absent ones if and only if every group with addresses names its parent network |
| `Agreement.BlockListsSlots` | taac/abstractions/compiler.py:4473-4490 | a block's local and peer addresses are those of the peerings counted for it, position by position |
| `FullScaleShape.CheckFamily` | taac/abstractions/compiler.py:6448-6468 | the loop over leaves sorted by ordinal accepts exactly the families whose intervals tile the expected range |
| `FullScaleShape.ConsecutiveIffTiles` | taac/abstractions/compiler.py:6448-6468 | the running-sum arithmetic is equivalent to: ordinals 0..k-1, no gap, no overlap, nothing outside |
| `FullScaleShape.CheckKey` | taac/abstractions/compiler.py:6391-6475 | one role/AFI combination passes exactly as one whole group of the expected size or one complete partition family |
| `FullScaleShape.GroupByRoleAfi` | taac/abstractions/compiler.py:6383-6387 | the dictionary holds each combination's groups in authored order |
| `FullScaleShape.CheckPresent` | taac/abstractions/compiler.py:6389-6475 | the combinations reported are exactly the present ones that are not allowed |
| `FullScaleShape.CheckMissing` | taac/abstractions/compiler.py:6477-6488 | the required combinations that are absent are added, and nothing else |
| `FullScaleShape.Validate` | taac/abstractions/compiler.py:6376-6491 | issues name exactly the faulty combinations; acceptance is the absence of any |
| `FullScaleShape.AllowedTotal` | taac/abstractions/compiler.py:6448-6468 | however a combination is split, its groups add up to the expected count |
| `FullScaleShape.AcceptedTotal` | taac/abstractions/compiler.py:141-160 | every accepted topology has 1272 peers, or 1274 with the monitor group |
| `PartitionLeaves.BaseIsCommon` | taac/abstractions/compiler.py:2071-2080 | every leaf of a family recovers the same base address |
| `PartitionLeaves.AssignedIsWindow` | taac/ixia/ixia.py:3035-3060 | the runtime assigns the leaf's window of the progression from the common base in steps of two, for addresses and gateways |
| `PartitionLeaves.WindowsTileFamily` | taac/abstractions/topology/binding.py:2340-2350 | in ordinal order the leaves of an accepted family list its addresses exactly once each |
| `PartitionLeaves.LeafFaithfulIff` | taac/abstractions/compiler.py:2083-2104 | a leaf gets its bound addresses if and only if the stride is two, or it is empty, or it is the first peer alone |
| `PartitionLeaves.FamilyFaithfulIff` | taac/abstractions/compiler.py:2071-2104 | the leaf expansions partition the progression from the base, and equal the bound family list if and only if the stride is two or there is at most one peer |
| `PartitionLeaves.StrideFourMisassigns` | taac/abstractions/compiler.py:2083-2104 | a leaf with stride four that is assigned another address than it was bound to |
| `Teardown.Tabulate` | taac/abstractions/compiler.py:4634-4655 | the per-family dictionary is built exactly when no two blocks share a set-up family and address family |
| `Teardown.CharacteristicTasks` | taac/abstractions/compiler.py:4618-4702 | setup is rendered exactly for non-empty, unambiguous plans whose families share interface and peer count |
| `Teardown.SetupAssignsBlock` | taac/abstractions/compiler.py:4657-4701 | every EBGP or IBGP block is assigned by its family's single task: its interface, base, offset and address count |
| `Teardown.SetupTasksAre` | taac/abstractions/compiler.py:4618-4702 | setup is one task for each of the two families with a block, EBGP first, for exactly the address families with blocks, and each block is assigned by the task of its family |
| `Teardown.SecondaryAddresses` | taac/utils/arista_utils.py:1366-1420 | the run-time loop yields the addresses from base and offset in steps of two |
| `Teardown.TaskGivesBlockIff` | taac/utils/arista_utils.py:1366-1420 | the addresses a block's task gives at run time are the block's own if and only if its members step by two: for members that step by their stride, if and only if the stride is two or there is one address |
| `Teardown.ConfiguredInterfaceOrder` | taac/abstractions/compiler.py:4724-4737 | the loop yields interfaces by first use in role and family order |
| `Teardown.InterfaceOrder` | taac/abstractions/compiler.py:4724-4737 | the interface of the block that comes first by role, then IPv6 before IPv4, then position in the plan is configured first |
| `Teardown.BlockBeforeTotal` | taac/abstractions/compiler.py:4724-4737 | that order decides between any two blocks |
| `Teardown.ConfiguredOnce` | taac/abstractions/compiler.py:4724-4737 | that order lists exactly the blocks' interfaces, each once |
| `Teardown.TeardownOrder` | taac/abstractions/compiler.py:4874-4915 | components are disabled in reverse startup order, interfaces cleaned in reverse configuration order, every disable before every cleanup |
| `Teardown.TeardownPlan` | taac/abstractions/compiler.py:4840-4915 | when the plan is skipped, or which input is missing; otherwise the task list in its order, and the recorded lists are what the tasks do |
| `Teardown.EnabledAre` | taac/abstractions/compiler.py:4792-4826 | the components disabled: the enabled ones of the runtime plan at full scale, else the daemons of the characteristic setup, with OpenR only as a peer |
| `Teardown.SetupIsCleaned` | taac/abstractions/compiler.py:4618-4702 | every interface that setup assigns is cleaned exactly once |
| `Teardown.CleanedInReverse` | taac/abstractions/compiler.py:4724-4737 | of two set-up interfaces the later one is cleaned first |
| `Teardown.OnlyBlocksCleaned` | taac/abstractions/compiler.py:4898-4906 | nothing but block interfaces is cleaned |
| `Teardown.GroupInterfaceCleaned` | taac/abstractions/compiler.py:4898-4906 | the interface of every group the interface plan covers is cleaned |
| `Manifests.FirstOfferWins` | scripts/pin_fbcode_snapshot.py:145-163 | a lookup yields the first non-empty value among a family's sections, conditional ones included, and nothing exactly when none has one |
| `Manifests.Upstream.Find` | scripts/pin_fbcode_snapshot.py:118-142 | a manifest is the overlay if there is one, else the upstream file at the revision in force; absent or unparsable exactly when that is |
| `Manifests.ClassifiedValues` | scripts/pin_fbcode_snapshot.py:166-185 | url and rev of a dependency are the first non-empty repo_url and rev in its git sections; without a url neither is recorded |
| `Manifests.ClassifiedBySections` | scripts/pin_fbcode_snapshot.py:166-185 | the kind of an existing manifest, each way: pinned, floating, immutable or system by which git values it has and whether it has a bare download section |
| `Manifests.Classified` | scripts/pin_fbcode_snapshot.py:166-185 | how kind, url and rev determine each other; missing exactly for absent manifests |
| `Manifests.ManifestStore.constructor` | scripts/pin_fbcode_snapshot.py:113-116 | a new store has an empty, valid cache |
| `Manifests.ManifestStore.Parsed` | scripts/pin_fbcode_snapshot.py:118-142 | the cached answer equals an uncached lookup, and the cache only grows |
| `Manifests.ManifestStore.Classify` | scripts/pin_fbcode_snapshot.py:166-185 | classification agrees with the uncached lookup |
| `DependencyWalk.Walker.constructor` | scripts/pin_fbcode_snapshot.py:188-191 | the walk starts with nothing found |
| `DependencyWalk.Walker.Visit` | scripts/pin_fbcode_snapshot.py:192-205 | a visit terminates, records the name with its path, and leaves everything outside the current line closed |
| `DependencyWalk.Walker.Enter` | scripts/pin_fbcode_snapshot.py:195-199 | a new name is classified, recorded with its path and looked up; the walk aborts exactly on a manifest that does not parse |
| `DependencyWalk.Walker.Record` | scripts/pin_fbcode_snapshot.py:195 | recording a name keeps the dictionary sound and opens only that name |
| `DependencyWalk.Walker.VisitDependencies` | scripts/pin_fbcode_snapshot.py:196-205 | after it all dependencies of the name are found |
| `DependencyWalk.Walker.VisitSection` | scripts/pin_fbcode_snapshot.py:203-205 | after it all entries of one section are found |
| `DependencyWalk.Walker.VisitEntry` | scripts/pin_fbcode_snapshot.py:204-205 | after it one dependency of the name is found |
| `DependencyWalk.FoundIsReachable` | scripts/pin_fbcode_snapshot.py:188-209 | a closed dictionary with the roots holds exactly the reachable names |
| `DependencyWalk.Walk` | scripts/pin_fbcode_snapshot.py:188-209 | terminates on every finite graph; succeeds exactly when every reachable manifest parses; finds exactly the reachable names, each once and with a simple path; whatever a found manifest lists in a dependencies section under any condition is found, and nothing else but the targets |
| `DependencyWalk.PathByEntries` | scripts/pin_fbcode_snapshot.py:192-205 | a path starts at a target, and each of its names stands in a dependencies section of the one before |
| `DependencyWalk.WalkFollowsEntries` | scripts/pin_fbcode_snapshot.py:203-205 | every entry of every dependencies section, conditional or not, of a found manifest is found |
| `DependencyWalk.WalkOnlyListed` | scripts/pin_fbcode_snapshot.py:188-209 | a found name is a target or an entry of such a section of a found manifest |
| `InjectRev.Inject` | scripts/pin_fbcode_snapshot.py:276-291 | the loop replaces the first rev line or adds one after the first anchor, or fails exactly when neither exists |
| `InjectRev.InjectionPlace` | scripts/pin_fbcode_snapshot.py:276-291 | the first rev line gives way to `rev = <sha>`; without any the line follows the first repo_url line of a bare git section; without that there is no result |
| `InjectRev.InGitMeans` | scripts/pin_fbcode_snapshot.py:281-287 | a line is in the git section exactly when the last header before it is `[git]` |
| `InjectRev.BareKeyIsRepoUrl` | scripts/pin_fbcode_snapshot.py:286 | the bare key counts as a repo_url line |
| `InjectRev.SpacesAre` | scripts/pin_fbcode_snapshot.py:283 | the white space that stripping removes |
| `InjectRev.LastWriterWins` | scripts/pin_fbcode_snapshot.py:276-291 | injecting one commit and then another equals injecting the other |
| `InjectRev.InjectionKeepsSections` | scripts/pin_fbcode_snapshot.py:276-291 | headers never change; content outside bare `[git]` sections is unchanged if and only if there was no rev line, or the first one lies in `[git]` or already reads so |
| `InjectRev.RevLandsInGit` | scripts/pin_fbcode_snapshot.py:276-291 | the written line is in `[git]` if and only if the body had no rev line or its first one was there |
| `InjectRev.RevOutsideGitIsRewritten` | scripts/pin_fbcode_snapshot.py:276-280 | a body whose rev line in another section is rewritten instead |
| `PinModes.SortingComparesNamesOnly` | scripts/pin_fbcode_snapshot.py:314-355 | sorting the results never compares an optional field: names are unique, and the tuples compare as their names do |
| `PinModes.Failures` | scripts/pin_fbcode_snapshot.py:327-336 | the failure list is the sorted results that are missing, or floating outside the allow list |
| `PinModes.Check` | scripts/pin_fbcode_snapshot.py:327-355 | passes exactly when every reachable manifest exists, parses, and has a rev if it has a repo_url or is allowed to float; otherwise lists in name order exactly the manifests that do not, each with a simple path |
| `PinModes.UnfixedBySections` | scripts/pin_fbcode_snapshot.py:327-355 | a manifest fails the check exactly when it is missing, or has a git repo_url, no git rev and no permission to float |
| `PinWrite.ResolveForWrite` | scripts/pin_fbcode_snapshot.py:387-420 | each dependency lands in exactly the list its decision says |
| `PinWrite.WriteOverlays` | scripts/pin_fbcode_snapshot.py:460-462 | overlays are written in order up to the first body without a place for a rev |
| `PinWrite.PlanHolds` | scripts/pin_fbcode_snapshot.py:387-420 | the resolved list is exactly the pinned names, in ascending order, each with its own commit and body |
| `PinWrite.AppliedAsPlanned` | scripts/pin_fbcode_snapshot.py:460-462 | every overlay after the loop: rewritten exactly for the pinned names before the first stuck one in name order, otherwise as before |
| `PinWrite.MakePlan` | scripts/pin_fbcode_snapshot.py:441-455 | planning finds a missing tag, or an unpinnable dependency, exactly when some name of the graph has that verdict |
| `PinWrite.WriteAll` | scripts/pin_fbcode_snapshot.py:460-475 | the loop completes exactly when no pinned body is stuck, and leaves the overlays as planned |
| `PinWrite.WritePlan` | scripts/pin_fbcode_snapshot.py:441-475 | refusals in their order, each exactly on its condition, before anything is written |
| `PinWrite.ModeWrite` | scripts/pin_fbcode_snapshot.py:423-475 | the outcome as a function of the inputs, with bodies read at the commit of the tag in fbthrift's repository; every overlay afterwards; the snapshot is recorded exactly on completion |
| `PinWrite.Write` | scripts/pin_fbcode_snapshot.py:423-475 | end to end, over the names reachable by any chain: one outcome for each input and every overlay afterwards, both also by manifests, fetches and tags alone; a missing tag or an unpinnable dependency leaves all overlays unchanged |
| `PinWrite.VerdictByInputs` | scripts/pin_fbcode_snapshot.py:396-420 | which dependencies are pinned, and to what: the tag commit of the url their own manifest names, with the body fetched at fbthrift's tag commit; and which are untagged, unpinnable, kept by hand or left alone, by url, allow list, overlay, rev, fetch and tag |
| `PinWrite.OutcomeByInputs` | scripts/pin_fbcode_snapshot.py:455-475 | the outcome by those conditions: a dependency without a body, one without the tag, nothing to pin, a body without a place for the rev, or complete |
| `PinWrite.OverlayByInputs` | scripts/pin_fbcode_snapshot.py:294-312 | every overlay afterwards: header and fetched body with the dependency's own tag commit injected, exactly for the pinned names before the first stuck one; otherwise as before |
| `PinWrite.RunByInputs` | scripts/pin_fbcode_snapshot.py:423-475 | both together with the two ways in which fbthrift itself stops the run |
| `PinWrite.CompletesIff` | scripts/pin_fbcode_snapshot.py:423-475 | a run gets to writing if and only if fbthrift and its tag are there, something is to be pinned and nothing is refused; it completes if and only if, besides, every pinned body has a place for the rev |
| `PinWrite.FloatingIsRewritten` | scripts/pin_fbcode_snapshot.py:423-475 | a complete run rewrites every reachable floating dependency outside the allow list |
| `PinWrite.HalfMigratesIff` | scripts/pin_fbcode_snapshot.py:455-475 | a run that gets to writing rewrites some pinned overlay and leaves another as it was if and only if some pinned body has no place for the rev and some pinned name sorts before all of those |
| `PinWrite.StuckAtOnceKeepsAll` | scripts/pin_fbcode_snapshot.py:455-475 | an incomplete run whose least pinned name is stuck leaves every overlay as it was |
| `PinExamples.OnlyBareGitHasPlace` | scripts/pin_fbcode_snapshot.py:276-291 | a body with a bare git section can be rewritten, one with a conditional section cannot |
| `PinExamples.StopsHalfWay` | scripts/pin_fbcode_snapshot.py:455-475 | two floating manifests for which planning refuses nothing, the first overlay is written and the run then stops |
| `ConfigText.AssignedAppend` | scripts/pin_fbcode_snapshot.py:136-140 | of two texts one after the other, the later assignment of a key in a section wins, whichever section the first one leaves open |
| `ConfigText.ParsedGitValue` | scripts/pin_fbcode_snapshot.py:145-163 | in the parsed manifest the git sections have a value for a key exactly when the last assignment in one of them is non-empty |
| `ConfigText.ParseReadsRegular` | scripts/pin_fbcode_snapshot.py:136-140 | the line-by-line parser reads regular texts as the check after a write assumes |
| `RewrittenText.RevIsAssignment` | scripts/pin_fbcode_snapshot.py:276-279 | what the rewriter takes for a rev line, the parser reads as an assignment of rev |
| `RewrittenText.HeadersAgree` | scripts/pin_fbcode_snapshot.py:283-285 | on regular lines rewriter and parser agree on what a section header is |
| `RewrittenText.InjectedIsRegular` | scripts/pin_fbcode_snapshot.py:276-291 | rewriting keeps a regular body regular |
| `RewrittenText.RevSticks` | scripts/pin_fbcode_snapshot.py:276-312 | the overlay written ends up with a git rev if and only if the injected line is in a git section that does not empty rev again later, or another git section has a rev |
| `RewrittenText.OtherKeysStay` | scripts/pin_fbcode_snapshot.py:276-312 | for every other key the overlay written has a git value exactly when the body had one |
| `CheckAfterWrite.RewrittenLine` | scripts/pin_fbcode_snapshot.py:294-312 | the pinned rev line is the rewritten overlay's first one |
| `CheckAfterWrite.NextRunReadsTag` | scripts/pin_fbcode_snapshot.py:488-501 | once fbthrift's overlay is rewritten, the next run reads manifests at the commit this run read bodies at |
| `CheckAfterWrite.UpstreamRevIs` | scripts/pin_fbcode_snapshot.py:488-501 | the revision in force is the value of the first rev line with a value in fbthrift's overlay, else main |
| `CheckAfterWrite.RewrittenFailsIff` | scripts/pin_fbcode_snapshot.py:327-355 | a rewritten manifest is readable, and fails the next check if and only if its body names a repository and the injected rev does not stick |
| `CheckAfterWrite.CheckAfterCompleteWrite` | scripts/pin_fbcode_snapshot.py:327-355 | after a complete write the check passes if and only if no rewritten manifest of the new graph was left floating, and no manifest of it that the write did not touch fails |
| `CheckAfterWrite.CompleteWriteChecksOut` | scripts/pin_fbcode_snapshot.py:402-412 | if the new bodies keep the graph, a complete write makes the check pass if and only if no manifest is missing and none was left floating |
| `PinExamples.TwoRevsStayFloating` | scripts/pin_fbcode_snapshot.py:276-291 | a body with two empty rev lines: the rev goes to the git section and does not stick |
| `PinExamples.SecondRevFails` | scripts/pin_fbcode_snapshot.py:402-475 | on that body the write completes and the next check fails |
| `PinExamples.ParseMeetsExamples` | scripts/pin_fbcode_snapshot.py:136-140 | the line-by-line parser meets everything that these inputs assume of the parser |
| `LifecycleOrder.BuildDependents` | taac/abstractions/compilation/lifecycle.py:171-176 | the table lists, per operation, its dependents in declaration order |
| `LifecycleOrder.InitialTables` | taac/abstractions/compilation/lifecycle.py:163-184 | counters hold the open dependencies and the heap holds exactly the ready operations |
| `LifecycleOrder.Relax` | taac/abstractions/compilation/lifecycle.py:190-193 | finishing an operation lowers exactly its dependents' counters and queues those that reach zero |
| `LifecycleOrder.PopLeast` | taac/abstractions/compilation/lifecycle.py:186-187 | the heap yields its least element |
| `LifecycleOrder.StableDependencyOrder` | taac/abstractions/compilation/lifecycle.py:162-205 | the loop yields a dependency-respecting, greedy order that cannot be extended |
| `LifecycleOrder.GreedyIsLeast` | taac/abstractions/compilation/lifecycle.py:162-205 | a greedy topological order is the lexicographically least one |
| `LifecycleOrder.StuckMeansCyclic` | taac/abstractions/compilation/lifecycle.py:195-204 | stopping early means that no order satisfies the dependencies |
| `LifecycleOrder.HasDuplicateId` | taac/abstractions/compilation/lifecycle.py:136-142 | detects exactly the plans with a repeated id |
| `LifecycleOrder.ValidIff` | taac/abstractions/compilation/lifecycle.py:55-108 | what constructing an operation demands: no self or repeated dependency, and the restoration that ownership and state change call for |
| `LifecycleOrder.Plan` | taac/abstractions/compilation/lifecycle.py:127-205 | a plan is accepted exactly when ids are unique, dependencies known and some order satisfies them; its order is then the least one |
| `LifecycleRender.PhysicalCidrs` | taac/abstractions/eos_bgpcpp_renderer.py:835-873 | succeeds exactly when members exist, list their adjacencies' addresses and repeat none; returns each family in plan order |
| `LifecycleRender.CidrFamiliesPartition` | taac/abstractions/eos_bgpcpp_renderer.py:835-873 | the two family lists split the member addresses: nothing lost, nothing twice |
| `LifecycleRender.CleanupsFollowTeardown` | taac/abstractions/eos_bgpcpp_renderer.py:493-558 | the grouped cleanups name the teardown ids in teardown order |
| `LifecycleRender.RenderedOrder` | taac/abstractions/eos_bgpcpp_renderer.py:319-394 | setup is all physical interfaces, then the routing configuration, then the component; concatenated cleanup ids are its exact reverse |
| `LifecycleRender.RenderedFollowsDeps` | taac/abstractions/eos_bgpcpp_renderer.py:644-668 | every consumed operation follows all its dependencies |
| `LifecycleRender.TeardownReverses` | taac/abstractions/compilation/lifecycle.py:207-215 | accepted operations are all eligible, so teardown reverses setup |
| `LifecycleRender.TeardownMeans` | taac/abstractions/compilation/lifecycle.py:207-215 | teardown lists exactly what setup changed and does not merely borrow, in the reverse order |
| `LifecycleAccept.RendersIff` | taac/abstractions/eos_bgpcpp_renderer.py:319-394 | a full plan renders exactly when plan and operations meet every demand, stated over their own fields, and the order is interfaces, configuration, component |
| `LifecycleAccept.PlanFitsIff` | taac/abstractions/eos_bgpcpp_renderer.py:561-641 | the demands on the plan: one endpoint, one BGP++ configuration from Configerator, one standard component depending on it, no OpenR |
| `LifecycleAccept.CoversIff` | taac/abstractions/eos_bgpcpp_renderer.py:341-363 | the coverage check: the operations of the three kinds are those of the plan's resources |
| `LifecycleAccept.ContractedIff` | taac/abstractions/eos_bgpcpp_renderer.py:644-832 | the contract of each operation by kind: ownership, restoration, readiness and dependencies |
| `LifecycleAccept.AddressesFitIff` | taac/abstractions/eos_bgpcpp_renderer.py:835-873 | the address check: members exist, each lists exactly the local addresses of its adjacencies, and none stands twice |
| `LifecycleAccept.RenderableIsShaped` | taac/abstractions/eos_bgpcpp_renderer.py:319-394 | on one endpoint the order is always interfaces, configuration, component |
| `LifecycleRender.NeverNotReversed` | taac/abstractions/eos_bgpcpp_renderer.py:374-384 | the reversal check never fires, for any plan |
| `LifecycleRender.DependenciesForceShape` | taac/abstractions/eos_bgpcpp_renderer.py:757-832 | the dependency order alone forces the setup shape when every interface is on the device under test |
| `LifecycleRender.NeverNotGrouped` | taac/abstractions/eos_bgpcpp_renderer.py:493-558 | the cleanup grouping check never fires on such plans |
| `LifecycleRender.RenderedSplitKeepsOrder` | taac/abstractions/compilation/dut.py:163-219 | running all pre-IXIA tasks and then all post-IXIA tasks runs the fragments in setup order |
| `DaemonReconcile.ValidateIntent` | taac/abstractions/eos_bgpcpp_renderer.py:704-754 | accepts exactly non-empty lists with unique names, dependencies listed before their daemons and unique options of enabled daemons |
| `DaemonReconcile.StepsAre` | taac/abstractions/eos_bgpcpp_lifecycle_materializer.py:172-231 | the steps one by one: snapshot, every daemon disabled in reverse, the options if any, the enabled daemons in order, the acknowledgement |
| `DaemonReconcile.ReconcileSafeIff` | taac/abstractions/eos_bgpcpp_lifecycle_materializer.py:172-231 | from any dependency-closed state, every intermediate state stays closed if and only if enabled daemons depend on enabled ones only |
| `DaemonReconcile.FlagsChangeOnlyWhenStopped` | taac/abstractions/eos_bgpcpp_lifecycle_materializer.py:172-231 | startup flags change only while no managed daemon runs |
| `DaemonReconcile.ReconcileResult` | taac/abstractions/eos_bgpcpp_lifecycle_materializer.py:172-231 | the run ends with exactly the enabled daemons running among the managed ones and the requested flags |
| `DaemonReconcile.ShippedIntentIsValid` | taac/abstractions/eos_bgpcpp_renderer.py:671-701 | the shipped daemons and startup option pass validation and meet the condition for safe runs |
| `DaemonReconcile.RoutingDaemonsAreSafe` | taac/abstractions/eos_bgpcpp_renderer.py:671-701 | every shipped reconcile run keeps the running daemons dependency-closed at every step and ends with all of them but Openr running and the one startup option set |
| `DaemonReconcile.ValidButUnsafe` | taac/abstractions/eos_bgpcpp_renderer.py:704-754 | a validated list that does not meet it |
| `LifecycleRun.RestoreItems` | taac/abstractions/eos_bgpcpp_lifecycle_materializer.py:253-275 | fails exactly on an unknown operation; otherwise keeps operations and order, each with the bound interface of its own physical interface |
| `LifecycleRun.LowerAllAppend` | taac/abstractions/eos_bgpcpp_lifecycle_materializer.py:234-250 | a fragment's tasks are those of its intents, in order |
| `LifecycleRun.MaterializesIff` | taac/abstractions/eos_bgpcpp_lifecycle_materializer.py:150-169 | materialization succeeds exactly for distinct daemons, distinct options of Bgpcpp alone, and restores of known interfaces |
| `LifecycleRun.MaterializeKeepsOrder` | taac/abstractions/eos_bgpcpp_lifecycle_materializer.py:234-343 | renderer output never meets the unknown-operation error; ids and order are kept, and the restored operations are the reverse of setup |
| `LifecycleRun.RunStaysRecoverable` | taac/abstractions/compilation/lifecycle.py:224-240 | at every point of a run each resource has its initial value or that value on record |
| `LifecycleRun.InterruptedRunIsUndone` | taac/abstractions/compilation/lifecycle.py:224-240 | interrupting a run anywhere and restoring returns every resource to its start, whatever the tasks did |
| `LifecycleRun.SetupTasksGuarded` | taac/abstractions/eos_bgpcpp_lifecycle_materializer.py:70-231 | no materialized setup task changes a resource before its first snapshot |
| `LifecycleRun.SetupThenCleanupRestores` | taac/abstractions/eos_bgpcpp_lifecycle_materializer.py:234-343 | running any part of a rendered and materialized setup and then its cleanup restores every resource |
| `LifecycleLowering.SetupIdsDistinct` | taac/abstractions/compilation/lifecycle.py:136-142 | the setup order of an accepted plan repeats no id |
| `LifecycleLowering.ShippedIntentMaterializes` | taac/abstractions/eos_bgpcpp_lifecycle_materializer.py:150-169 | the shipped daemons and startup option pass the materializer |
| `LifecycleLowering.LowerLifecycle` | taac/abstractions/eos_bgpcpp_lifecycle_materializer.py:314-343 | planning, rendering and materializing: stops early exactly without a valid order, or when plan and operations do not meet the renderer's demands, or the order is not interfaces, configuration, component, which cannot happen on one endpoint; otherwise emits exactly the setup and cleanup tasks of the plan |
| `LifecycleLowering.RenderedContent` | taac/abstractions/eos_bgpcpp_lifecycle_materializer.py:70-250 | the setup tasks: each physical interface is configured once, under its own operation, on its own bound interface, with exactly its members' addresses per family; then snapshot, create, validate and verify of the configuration; then the reconcile steps |
| `LifecycleLowering.RenderedCleanupContent` | taac/abstractions/eos_bgpcpp_lifecycle_materializer.py:253-311 | the cleanup tasks: the component, the configuration, then every physical interface once, under its own operation and on its own bound interface |
| `LifecycleLowering.FamilyIsMembers` | taac/abstractions/eos_bgpcpp_renderer.py:835-873 | the addresses of one family are exactly those of the logical members of that family, each once |
| `LifecycleLowering.LoweringErrors` | taac/abstractions/eos_bgpcpp_renderer.py:319-394 | when a planned order renders, and which errors cannot occur |
| `LifecycleLowering.LoweredLifecycleRestores` | taac/abstractions/compilation/lifecycle.py:207-240 | whatever the whole chain lowers, any part of its setup followed by its cleanup restores every resource |
| `PortNames.PortSortKey` | taac/transform_functions.py:27-38 | the loop computes the tuple of the tokens' numbers |
| `PortNames.PortKeyReads` | taac/transform_functions.py:27-50 | eth<unit>/<module>/<lane> reads as (unit, module, lane), and its transceiver as (unit, module), for all numbers |
| `PortNames.PortPairReads` | taac/transform_functions.py:27-50 | eth<unit>/<port> reads as (unit, port), for all numbers |
| `PortNames.LexByDropLast` | taac/transform_functions.py:27-50 | keys on different transceivers are ordered as their transceivers exactly when they do not clash |
| `PortNames.DigitFreeSortsFirst` | taac/transform_functions.py:30-38 | a name without digits has a key of zeros, and exactly the names with no longer a key of zeros sort at or before it |
| `PortNames.NonNumericSortsFirst` | taac/transform_functions.py:30-38 | a single token without digits has the least key of all, shared exactly by the names that tie with it |
| `SnakeCircuits.BuildCircuits` | taac/transform_functions.py:92-109 | the loop keeps one representative per circuit, at its first report |
| `SnakeCircuits.FirstsCoverCircuits` | taac/transform_functions.py:97-109 | the kept reporters have pairwise different circuits and cover all of them |
| `SnakeCircuits.OneRepresentativeEach` | taac/transform_functions.py:97-109 | there are as many representatives as distinct circuits, and the j-th stands for the j-th reported circuit |
| `SnakeCircuits.GroupByTransceiver` | taac/transform_functions.py:113-116 | the dictionary holds each transceiver's circuits in sorted order |
| `SnakeCircuits.PickGroups` | taac/transform_functions.py:118-124 | every second group from the start position is flattened |
| `SnakeCircuits.SelectAEnds` | taac/transform_functions.py:53-124 | the whole selection for any ordering key; rejected exactly for an unknown parity |
| `SnakeCircuits.SelectSnakeCircuitAEnds` | taac/transform_functions.py:53-124 | the same with the keys read off interface names |
| `SnakeCircuits.SelectionsPartition` | taac/transform_functions.py:96-124 | even and odd selections together are a permutation of the representatives and share no A-end transceiver, for every input |
| `SnakeCircuits.SelectedByRank` | taac/transform_functions.py:113-124 | a circuit is in the even selection exactly when an even number of transceivers sort before its own, in the odd one otherwise |
| `SnakeCircuits.SelectionInCircuitOrder` | taac/transform_functions.py:111-124 | for every input the result is in circuit order if and only if no two selected names clash: one continuing where the other ends, with a smaller number there |
| `SnakeCircuits.MixedDepthsOutOfOrder` | taac/transform_functions.py:111-124 | three circuits with A-end keys (1, 5), (1, 1, 9), (1, 2, 3), whose even selection is not in order |
| `SnakeCircuits.PortsOutOfOrder` | taac/transform_functions.py:111-124 | the same for interfaces named eth1/5, eth1/1/9 and eth1/2/3 |
| `SnakeCircuits.TiesKeepReportOrder` | taac/transform_functions.py:108-124 | circuits with equal sort keys go to one selection and keep the order of their first report |
| `SnakeCircuits.CircuitsListLowerEnds` | taac/transform_functions.py:97-109 | under symmetric cabling the representatives are exactly the lower ends, each once |
| `SnakeCircuits.OrderIrrelevant` | taac/transform_functions.py:92-124 | then the selection depends on which interfaces are listed, not on their order |
| `PolicyCoverage.DuplicateKeys` | taac/abstractions/eos_bgpcpp_capabilities.py:274-284 | lists each repeated key exactly once and nothing else; empty exactly when no key repeats |
| `PolicyCoverage.CheckCoverage` | taac/abstractions/eos_bgpcpp_capabilities.py:252-271 | exact or, with the precise members of all three mismatch lists, not |
| `PolicyCoverage.CoveredIffBijection` | taac/abstractions/eos_bgpcpp_capabilities.py:252-271 | with distinct adjacency ids the check accepts if and only if bindings and (adjacency, direction) pairs are equal as multisets |
| `PolicyCoverage.LookupNeverFails` | taac/abstractions/eos_bgpcpp_capabilities.py:205-217 | once coverage is exact, every binding's adjacency is found |
| `PolicyCoverage.CheckBindings` | taac/abstractions/eos_bgpcpp_capabilities.py:206-230 | accepts exactly when every binding's preset matches its direction, adjacency and the device role |
| `PolicyCoverage.ValidatePolicyBindings` | taac/abstractions/eos_bgpcpp_capabilities.py:198-271 | the whole preflight: accepts exactly when every preset resolves, every present adjacency has a relationship, exactly the present adjacencies are bound once per direction, and every binding's policy fits; otherwise which check refuses, and the first binding that does not fit |
| `PolicyCoverage.AcceptableIff` | taac/abstractions/eos_bgpcpp_capabilities.py:198-271 | the conditions over the plan's own lists: the last policy of the named id has the preset of the direction, family and relationship of the last present adjacency of the named id, and of the device role |
| `PolicyCoverage.MatchesIff` | taac/abstractions/eos_bgpcpp_capabilities.py:206-230 | one binding fits exactly so |
| `PolicyCoverage.CoveredIffBoundOnce` | taac/abstractions/eos_bgpcpp_capabilities.py:252-271 | coverage is exact when exactly the present adjacencies are bound, in both directions, and nothing twice |
| `PolicyCoverage.AcceptedCoversExactly` | taac/abstractions/eos_bgpcpp_capabilities.py:198-271 | then each present adjacency has in each direction exactly one binding, and the policy of its id was made for it |

## Left out

- IP address text, `ipaddress` ranges and parent-network membership: addresses are unbounded integers.
- Regular-expression and `configparser` corner cases: bodies are lines without terminators, `rev`, `=` and the value stand on one line, and section headers come split into family and condition.
- Digits outside ASCII: `str.isdigit` accepts more characters than the model does.
- Manifest texts with continuation lines, text around a header's brackets, a `DEFAULT` section, interpolation or assignments before the first header: the results on a check after a write are for bodies without them.
- Network, git, file and process I/O, and the snapshot-agreement printout of the pin script: fetching and tag lookup are parameters, writing is a map update.
- `walk` on infinite manifest graphs: the proof takes a finite set of names that no dependency leaves.
- What IXIA does with route-scale fields beyond the expansion of a prefix mutation and of a leaf's addresses.
- On-device behaviour of lifecycle tasks: their effect on a value is arbitrary, and only the first-snapshot contract is assumed of capture and restore.
- `run_cleanup` and its failure aggregation, and the re-validation of a finished render result.
- Profile-specific literal checks, candidate-compiler wiring, endpoint and host-OS rendering: finite comparisons with fixed values.
- Validation of the FibAgent watermarks during teardown planning: only whether a restore is due is an input.
- Issue texts of the shape check: an issue is its kind and its role/AFI combination.
- The emitted interface block drops the stride that the aggregation compares; the model's block keeps it.
- Default start offsets of interface tasks for a missing address family, host names and task flags of setup and teardown tasks.
- Whether an odd transceiver stays up when even circuits are disabled: the code does not constrain the Z-ends.
- The relation between peer-group objects and their names, and the later demand for a remote ASN and peer group of every planned peer.
