# Verified models of SONiC components

A Dafny 4.11 project that models self-contained cores of the SONiC build image repository and proves
what they promise. `dafny verify dfyconfig.toml` checks everything.

| files | what they model |
|---|---|
| `Version*.dfy` | pinned package versions of the image build: components keyed by type, distribution and architecture, and the compressions `adjust` and `subtract` |
| `Iccp*.dfy` | the ICCP connection state machine of an MC-LAG peer (section 4.2.1 of RFC 7275), alone and as a system of two peers |
| `Dma*.dfy`, `Arithmetic.dfy` | assembling a contiguous DMA segment from unordered blocks, with tags in the low address bits |
| `Yang*.dfy` | translation of ConfigDB tables to YANG containers and back |
| `Splay*.dfy` | the top-down splay tree of the OpenBSD tree macros, on pointers |
| `Mpool*.dfy` | the first-fit pool allocator on its linked list |
| `Bpf.dfy`, `Octets.dfy` | two hand-encoded packet filter programs under a packet filter interpreter |
| `DhcpRelay.dfy` | wrapping and unwrapping of DHCPv6 relay messages |
| `ArpSync.dfy` | the ARP table of an MC-LAG peer and the queue that synchronises it |

Code that computes is a function; code that works step by step is a method, or a class with methods, whose
contract ties it to such a function. The results are lemmas about the functions, for all inputs, all runs or
all reachable states.

## What is proved

- **Versions.** The configuration of a target is the fold of all components it inherits from, and equals a
  closed form by layers. `adjust` preserves it if and only if no package of the target is shadowed, and
  always where inheritance is a chain; `subtract` preserves the generated configuration if and only if no
  package is unmasked. Contrary to what one might expect, `subtract` needs no chain: only a default module
  with duplicate components can lose something. Witnesses show that both conditions are needed. Both are
  minimal: no pin remains that is given already. The default of a build without one holds exactly the packages
  on whose version all components that take part agree, and a frozen build generates what the cleaned one
  does with minimal modules.
- **ICCP.** In every run of two peers of one redundancy group there is no half-open session, OPERATIONAL is
  final, and every fair schedule, with any application traffic in between, brings both peers up for good if
  and only if no capability message was lost; a run in which one is lost is given, because a peer in
  NONEXISTENT drops what it dequeues. From reset, a fair schedule brings both peers up for good if and only
  if both leave NONEXISTENT and neither dequeues the other's capability message before that. Peers of
  different groups never become OPERATIONAL. Application data arrive complete and in order, the log of sent
  messages is a ring of the last 128, and a NAK finds the sender of what it rejects.
- **DMA.** The search leaves no block tagged as current, its matched blocks tile the published segment
  exactly, and it either meets the request, by less than a block too much, or no run of blocks is longer. Of
  several that would do, the tags in the address bits make no difference: it publishes what grows, over the
  addresses alone, from the first entry that lies in a run of the requested length, or of the longest there
  is. The answers of the page allocator and the sizes determine the entries that each search of the grow and
  retry loop sees, which search is the last, the published segment and the pages held. Every page taken is
  held or released exactly once. The published segment is held, page for page, if and only if the last search
  saw a longer run than the one before and does not grow down to address 0, a condition on the entries. Both
  can fail, and both are shown on the allocation itself: the size of the segment survives a search, so a
  second search without a longer run releases everything that is published; and a first batch that is not
  granted leaves entries 0, which pass for blocks at address 0. If the first batch is granted, only the first
  can fail, and not when the request is met. If no page lies directly above address 0, the second fails
  exactly in a first search of a batch of which no page was granted.
- **YANG.** If forward translation accepts a ConfigDB, reverse translation gives it back if and only if every
  table is restorable, for any schema depth, any number of lists and any dictionary order. Restorable is
  stated on the input: trimmed non-empty key parts, dictionaries where lists take them, fields not named
  like keys, canonical decimal numbers, lists named `_LIST`, boolean leaves that are true. A table key lands in
  exactly one list, the first that accepts it. Forward translation accepts a table if and only if every key of
  it has a place, and what it produces is given name by name, for the whole ConfigDB too.
- **Splay tree.** The pointer operations build exactly the trees of a functional top-down splay. Splaying keeps
  the in-order sequence and brings the key to the root if and only if it is present; find, insert and remove are
  membership, addition and removal of a set, and no node is lost when removal joins the two subtrees. A node on
  the path to the key comes up to half its depth plus two, and no node goes down by more than two.
- **Pool allocator.** A run of allocations of any C ints and frees of any addresses keeps both pools
  throughout if and only if every size is positive and can be rounded up without wrapping and no address of an
  end sentinel is freed; a data pool without room also turns down sizes that are not negative enough to fit.
  In all such runs live blocks are disjoint, aligned and inside their pool, and
  descriptor and data blocks never overlap; first fit is complete, and freeing undoes it. Descriptor blocks
  stay inside the region if and only if the rounded region has at least 1 MB.
- **Filters, relay, ARP.** Each filter accepts exactly the packets it is for. A Relay-Forward message with
  option 79 is a header and two options; the walk over a Relay-Reply stops at its end if and only if it is a
  list of options, and then yields exactly the relayed bytes. The ARP table follows the last event for each
  address, and replaying the queued messages gives the current table.

Where the code and a comment or the expected property disagree, the model follows the code.

## Model

| member | source | states |
|---|---|---|
| VersionResolution.ResolveByLayers | scripts/versions_manager.py:202-207 | what a target gets for a package, as the fold over all components it sees, equals the pin of the most specific layer that has one: own key, distribution, architecture, everything |
| VersionResolution.SortLayer | scripts/versions_manager.py:133-140 | sorting components by inheritance order does not change which version a layer pins |
| VersionOrder.SortSorted | scripts/versions_manager.py:133-140 | components end up in inheritance order |
| VersionOrder.SortContents | scripts/versions_manager.py:133-140 | sorting keeps exactly the given components |
| VersionReduce.ReduceKeepsChain | scripts/versions_manager.py:242-255 | removing pins that more general components give already keeps what every target with at most one named coordinate gets |
| VersionAdjust.AdjustMeaning | scripts/versions_manager.py:228-255 | what every target gets for every package after `adjust`, in closed form |
| VersionAdjust.AdjustLossless | scripts/versions_manager.py:228-255 | `adjust` preserves the configuration of a target if and only if no package is shadowed there |
| VersionAdjust.AdjustLosslessWhenChained | scripts/versions_manager.py:228-255 | where no type mixes an (all, arch) with a (dist, all) component, `adjust` preserves every target |
| VersionAdjust.AdjustCanLose | scripts/versions_manager.py:106-113 | three components for which `adjust` changes the version a target gets |
| VersionMinimal.AdjustMinimal | scripts/versions_manager.py:242-255 | no component that `adjust` leaves is empty or has a pin that those before it give, and every pin was there before |
| VersionSubtract.OverwriteTakesEffect | scripts/versions_manager.py:161-175 | after `overwrite` without flags, every incoming package resolves at its key to the incoming version |
| VersionSubtract.OverwriteAllLayer | scripts/versions_manager.py:96-103 | with both flags off, `overwrite` replaces exactly the pins of the incoming keys and keeps the others |
| VersionOverwrite.OverwriteRound | scripts/versions_manager.py:161-174 | one round of `overwrite` for any flags: exactly the components from which the incoming one could inherit, as far as the flags go, have its versions, or a new one has |
| VersionOverwrite.OverwriteFlagged | scripts/versions_manager.py:161-174 | for any flags, a key that is there ends up with the last incoming version that it takes |
| VersionOverwrite.FlaggedTakesEffect | scripts/versions_manager.py:456-459 | with both flags an incoming component takes effect at its key |
| VersionSubtract.ConfigMeaning | scripts/versions_manager.py:185-200 | the generated configuration of a target in closed form over default and module |
| VersionSubtract.SubtractMeaning | scripts/versions_manager.py:209-226 | package by package: the configuration survives `subtract` if and only if the package is not unmasked |
| VersionSubtract.SubtractLossless | scripts/versions_manager.py:209-226 | `subtract` preserves the generated configuration of a target if and only if no package is unmasked there |
| VersionSubtract.SubtractLosslessForUniqueDefault | scripts/versions_manager.py:209-226 | a default without duplicate components never loses anything, whatever the module mixes |
| VersionSubtract.SubtractLosslessWhenChained | scripts/versions_manager.py:209-226 | where default and module form chains, nothing is lost |
| VersionSubtract.SubtractCanLose | scripts/versions_manager.py:209-226 | a default with a duplicate component for which `subtract` changes a target |
| VersionMinimal.SubtractMinimal | scripts/versions_manager.py:209-226 | no component that `subtract` leaves is empty or has a pin that the default and those before it give, and every pin was there before |
| VersionFreeze.FreezeLossless | scripts/versions_manager.py:438-447 | a frozen module generates on top of the frozen default what the cleaned module generates, for every target |
| VersionFreeze.CommonVersions | scripts/versions_manager.py:578-584 | only packages with a single version among all components are common, and they keep that version |
| VersionFreeze.DefaultHoldsAgreed | scripts/versions_manager.py:468-486 | the default of a build without one: a package has a version there if and only if a component that takes part has it and no other disagrees, per distribution for Debian packages; nothing else is in it |
| VersionFreeze.OwnDefault | scripts/versions_manager.py:468-470 | a default module of the build is kept, cleaned |
| VersionFreeze.FrozenMinimal | scripts/versions_manager.py:424-436 | a frozen module has no pin that the default gives, except the base image of the host, which keeps all |
| VersionFreeze.InheritedPins | scripts/versions_manager.py:177-183 | what a module inherits from the default |
| VersionFreeze.WhoInherits | scripts/versions_manager.py:343-353 | docker images inherit everything; build slaves, host images and the default do not |
| VersionFreeze.DefaultForAllArchs | scripts/versions_manager.py:468-486 | the default module of a cleaned build has components for all architectures only |
| VersionManager.Component.Merge | scripts/versions_manager.py:56-59 | the versions of a component after merging others, with and without overwriting |
| VersionManager.Component.Subtract | scripts/versions_manager.py:61-64 | exactly the pins that are given elsewhere with the same version disappear |
| VersionManager.Component.CleanInfo | scripts/versions_manager.py:142-147 | the key after cleaning distribution and architecture |
| VersionManager.ComponentsPerCtypes | scripts/versions_manager.py:257-263 | the components grouped by type |
| VersionManager.VersionModule.Adjust | scripts/versions_manager.py:228-233 | the loops over types and components compute the function whose meaning is proved |
| VersionManager.VersionModule.Overwrite | scripts/versions_manager.py:161-175 | the same for `overwrite` |
| VersionManager.VersionModule.GetConfigModule | scripts/versions_manager.py:185-200 | the generated components have the configuration of the target for every type |
| VersionManager.VersionModule.Subtract | scripts/versions_manager.py:209-226 | the loops of `subtract` compute the function whose meaning is proved |
| IccpCsm.Connection.EnqueueMsg | src/iccpd/src/iccp_csm.c:721-768 | which queue a message goes to: by its type, and for a NAK by the logged type of the message that it rejects |
| IccpCsm.Connection.CorrespondFromMsg | src/iccpd/src/iccp_csm.c:632-718 | the flags and the status code after a message, including rejection of a wrong group |
| IccpCsm.Connection.PrepareAndSend | src/iccpd/src/iccp_csm.c:412-460 | what is sent in each state, and the log entry it leaves |
| IccpCsm.Connection.EnterState | src/iccpd/src/iccp_csm.c:59-100 | the flags that entering a state sets |
| IccpCsm.Connection.RunState | src/iccpd/src/iccp_csm.c:307-373 | the next state from the flags |
| IccpCsm.Connection.TransitOnce | src/iccpd/src/iccp_csm.c:285-409 | one transit: take a message, handle it, send, change state |
| IccpSession.RunKeepsInvariant | src/iccpd/src/iccp_csm.c:285-409 | every run of two peers keeps the invariant that ties states, flags, logs and pending messages together |
| IccpSession.NoHalfOpenSession | src/iccpd/src/iccp_csm.c:340-367 | if one peer is OPERATIONAL the other is CONNECTING or OPERATIONAL, and if CONNECTING the RG Connect is still pending |
| IccpSession.OperationalIsFinal | src/iccpd/src/iccp_csm.c:353-367 | no run of a closed system of equal groups leaves OPERATIONAL, on either side |
| IccpSession.DifferentGroupsNeverOperational | src/iccpd/src/iccp_csm.c:602-629 | peers of different redundancy groups never become OPERATIONAL |
| IccpProgress.NoDeadlock | src/iccpd/src/iccp_csm.c:285-409 | as long as the session is not up some step makes progress |
| IccpProgress.StepWork | src/iccpd/src/iccp_csm.c:285-409 | every step, application traffic included, leaves less to do, or keeps enabled what is enabled |
| IccpProgress.ComesUpExactly | src/iccpd/src/iccp_csm.c:285-409 | a fair schedule, whatever application traffic it contains, brings both peers to OPERATIONAL for good if and only if no capability message was lost |
| IccpProgress.EveryRunComesUpExactly | src/iccpd/src/iccp_csm.c:285-409 | the same for every state that a run reaches |
| IccpStartup.StepKeepsExactly | src/iccpd/src/iccp_csm.c:305-313 | a step loses a capability message if and only if a peer in NONEXISTENT takes one from its queue |
| IccpStartup.ResetComesUpExactly | src/iccpd/src/iccp_csm.c:285-409 | from reset, a fair schedule brings both peers up for good if and only if both leave NONEXISTENT and no transit in NONEXISTENT takes a capability message |
| IccpDelivery.DataArrive | src/iccpd/src/iccp_csm.c:721-745 | in every run the application data that a peer has sent, in order, are those in the application queue of the other, followed by those on their way |
| IccpDelivery.LogIsRing | src/iccpd/src/iccp_csm.c:242-270 | messages are numbered consecutively, and the log holds the last 128 |
| IccpDelivery.NakFindsSender | src/iccpd/src/iccp_csm.c:746-762 | a NAK that rejects one of the last 128 messages goes to the application if that was application data, else to the connection state machine |
| IccpDelivery.OtherNak | src/iccpd/src/iccp_csm.c:746-762 | any other NAK goes to the connection state machine |
| IccpDelivery.NakNamesGroup | src/iccpd/src/iccp_csm.c:501-545 | in every run a NAK of the state machine is for an unknown group and names that of the other peer |
| IccpDelivery.MessagesSayWho | src/iccpd/src/iccp_csm.c:463-570 | in every run capabilities are complete and connects give group and name of the sender |
| IccpDelivery.HeardExactly | src/iccpd/src/iccp_csm.c:602-718 | what a peer knows after any message, field by field |
| IccpDelivery.NoUnknownMessages | src/iccpd/src/iccp_csm.c:632-672 | no peer receives a message of an unknown type |
| IccpDelivery.UnknownCounted | src/iccpd/src/iccp_csm.c:632-672 | a message of an unknown type is counted, and no other |
| IccpDelivery.RemovalReconnects | src/iccpd/src/iccp_csm.c:353-367 | a removal ends OPERATIONAL with a disconnect, and the peer connects again; no other disconnect does |
| IccpDelivery.SocketLost | src/iccpd/src/iccp_csm.c:290-303 | without a socket a peer falls back to NONEXISTENT and sends nothing |
| IccpProgress.InitializedPeersComeUp | src/iccpd/src/iccp_csm.c:285-409 | two initialized peers always come up |
| IccpProgress.CapabilityCanBeLost | src/iccpd/src/iccp_csm.c:305-313 | a run in which a peer drops the capability message and no schedule helps afterwards |
| IccpProgress.RoundRobinIsFair | src/iccpd/src/iccp_csm.c:285-409 | fair schedules exist |
| DmaAssembly.ClearTags | platform/centec/centec-dal/dal_kernel.c:886-890 | every entry loses its tag and keeps its address |
| DmaAssembly.TryBlock | platform/centec/centec-dal/dal_kernel.c:908-926 | an untagged block directly below or above joins the current segment, which stays tiled; no other does |
| DmaAssembly.Pass | platform/centec/centec-dal/dal_kernel.c:907-928 | a pass without a find means that nothing adjacent is left or the request is met |
| DmaAssembly.Grow | platform/centec/centec-dal/dal_kernel.c:897-930 | the current blocks tile a segment that is long enough or cannot be extended; the tags do not influence how it grows unless the entry lies in runs only that are no longer than the largest so far; the loop ends |
| DmaAssembly.Promote | platform/centec/centec-dal/dal_kernel.c:940-952 | current becomes largest, the previous largest is discarded |
| DmaAssembly.Drop | platform/centec/centec-dal/dal_kernel.c:957-963 | the current segment is discarded |
| DmaSegment.RunInside | platform/centec/centec-dal/dal_kernel.c:892-966 | a run of blocks that shares a block with a span without neighbours lies inside it |
| DmaSearch.SpanCovered | platform/centec/centec-dal/dal_kernel.c:892-966 | no run through a grown segment is longer than the segment or than an earlier bound |
| DmaSearch.FindLargestSegment | platform/centec/centec-dal/dal_kernel.c:876-969 | no current block remains; the matched blocks tile the segment exactly, or there are none; the request is met by less than a block too much, or no run is longer; a new segment is what grows over the addresses alone from the first entry in a run of its length, or of the requested one |
| DmaSupply.LastSearchUnique | platform/centec/centec-dal/dal_kernel.c:1050-1062 | the answers of the page allocator and the sizes determine which search is the last |
| DmaSupply.NextEntries | platform/centec/centec-dal/dal_kernel.c:989-1001 | each further search sees the entries of the one before and one more batch |
| DmaSupply.ZeroSearched | platform/centec/centec-dal/dal_kernel.c:1050-1051 | an entry without a page is searched if and only if the first batch is not granted in full |
| DmaPool.Descriptor.AllocBlocks | platform/centec/centec-dal/dal_kernel.c:974-1004 | which answers fill the new entries, what is left of the supply, and the empty entries that a failure leaves |
| DmaOutcome.SearchMatches | platform/centec/centec-dal/dal_kernel.c:932-953 | a search matches blocks if and only if some run is longer than all that the search before it saw; the published segment is a longest run or meets the request |
| DmaPool.Descriptor.Assemble | platform/centec/centec-dal/dal_kernel.c:1053-1062 | the grow and retry loop stops after the search that the supply determines, with all entries and the matched blocks |
| DmaPool.Descriptor.ReleaseUnused | platform/centec/centec-dal/dal_kernel.c:1064-1084 | matched blocks stay, all others are released in order |
| DmaPool.FreedOrKept | platform/centec/centec-dal/dal_kernel.c:1064-1084 | every address occurs among the released and the kept blocks as often as it was obtained |
| DmaPool.SegmentAlloc | platform/centec/centec-dal/dal_kernel.c:1009-1087 | pages taken are those granted, and are held or released exactly once; the published segment is a run of the searched entries and grows from the entry that the supply determines; it is held exactly if and only if the last search saw a longer run than the one before and does not grow down to address 0 |
| DmaOutcome.OutcomeUnique | platform/centec/centec-dal/dal_kernel.c:1050-1087 | the answers of the page allocator and the sizes determine the last search, the published segment and the pages held |
| DmaOutcome.StartsAtZeroExactly | platform/centec/centec-dal/dal_kernel.c:892-953 | from the entries alone: whether a search publishes a segment at address 0 |
| DmaOutcome.HeldWhenGranted | platform/centec/centec-dal/dal_kernel.c:1050-1087 | if the first batch is granted, the segment is held exactly if and only if the last search saw a longer run than the one before, and always if it meets the request |
| DmaOutcome.HeldUnlessDenied | platform/centec/centec-dal/dal_kernel.c:1050-1087 | if no page lies directly above address 0, the segment is held exactly if and only if the last search saw a longer run than the one before and was not the first search of a batch of which no page was granted |
| DmaCases.StaleInTwo | platform/centec/centec-dal/dal_kernel.c:1053-1084 | whenever a second and last batch makes no longer run, the longest run is published and nothing is held |
| DmaCases.PublishedCanBeReleased | platform/centec/centec-dal/dal_kernel.c:1053-1084 | the allocation for a supply of eleven pages takes all of them, publishes two and holds none |
| DmaCases.DeniedHoldsNothing | platform/centec/centec-dal/dal_kernel.c:1050-1051 | whenever the page of a request for one block is denied, a segment at address 0 that meets the request is published, with nothing taken or held |
| DmaCases.MetWithoutPages | platform/centec/centec-dal/dal_kernel.c:1050-1051 | the allocation for an empty supply publishes a segment that meets the request |
| DmaPool.Descriptor.Free | platform/centec/centec-dal/dal_kernel.c:1092-1118 | every block still held is released once |
| YangText.KeySurvivesExactly | src/sonic-yang-mgmt/sonic_yang_ext.py:165-178 | a table key comes back if and only if its parts are trimmed and not empty |
| YangText.NumberSurvivesExactly | src/sonic-yang-mgmt/sonic_yang_ext.py:242-243 | a number survives reading and printing if and only if it is canonical decimal |
| YangModel.FieldSurvivesExactly | src/sonic-yang-mgmt/sonic_yang_ext.py:468-485 | a field comes back if and only if its shape fits the leaf, numbers are canonical and a boolean is true |
| YangModel.BooleanCanBeLost | src/sonic-yang-mgmt/sonic_yang_ext.py:480-481 | a boolean leaf that is false comes back as true |
| YangModel.EntrySurvivesExactly | src/sonic-yang-mgmt/sonic_yang_ext.py:490-512 | a list entry comes back if and only if its key is trimmed, no field is named like a key and all fields are good |
| YangRoundTrip.LandsInFirst | src/sonic-yang-mgmt/sonic_yang_ext.py:273-310 | each list stores the entries of exactly those keys that it accepts and no list before it does |
| YangRoundTrip.ListsRoundTrip | src/sonic-yang-mgmt/sonic_yang_ext.py:541-553 | what the lists of a container took comes back |
| YangContainers.TableRoundTrip | src/sonic-yang-mgmt/sonic_yang_ext.py:354-402 | every restorable table that forward translation accepts comes back, for any depth |
| YangExact.RankRises | src/sonic-yang-mgmt/sonic_yang_ext.py:443-463 | an entry that comes back under another key has more fields or an untrimmed key |
| YangExactTables.OnlyRestorable | src/sonic-yang-mgmt/sonic_yang_ext.py:541-569 | only restorable tables come back |
| YangExactTables.TableSurvivesExactly | src/sonic-yang-mgmt/sonic_yang_ext.py:541-569 | a table that forward translation accepts comes back if and only if it is restorable |
| YangTables.DbSurvivesExactly | src/sonic-yang-mgmt/sonic_yang_ext.py:574-598 | the whole ConfigDB comes back if and only if every table is restorable, in any order of tables |
| YangMeaning.FieldTyped | src/sonic-yang-mgmt/sonic_yang_ext.py:233-261 | the typed value of strings and lists |
| YangMeaning.NumberRead | src/sonic-yang-mgmt/sonic_yang_ext.py:242-243 | white space around a number and a plus sign in front of it do not matter |
| YangMeaning.FieldBack | src/sonic-yang-mgmt/sonic_yang_ext.py:468-485 | the ConfigDB value of every kind of leaf; a boolean is false if and only if it is empty or 0 |
| YangMeaning.EntryAcceptedExactly | src/sonic-yang-mgmt/sonic_yang_ext.py:165-178 | which table keys and values a list accepts |
| YangMeaning.EntryHolds | src/sonic-yang-mgmt/sonic_yang_ext.py:285-296 | an entry holds the trimmed key parts and the typed fields, and nothing else |
| YangMeaning.TableAcceptedExactly | src/sonic-yang-mgmt/sonic_yang_ext.py:354-402 | forward translation accepts a table if and only if every key is accepted by a list, is an inner container that is accepted, or is a leaf of the right type |
| YangMeaning.ListHolds | src/sonic-yang-mgmt/sonic_yang_ext.py:315-325 | what each list of the result holds |
| YangMeaning.ChildHolds | src/sonic-yang-mgmt/sonic_yang_ext.py:332-347 | what each inner container of the result holds |
| YangMeaning.LeafHolds | src/sonic-yang-mgmt/sonic_yang_ext.py:382-391 | what each leaf of the result holds |
| YangMeaning.NothingElse | src/sonic-yang-mgmt/sonic_yang_ext.py:354-402 | nothing else is in the result |
| YangMeaning.ListBack | src/sonic-yang-mgmt/sonic_yang_ext.py:517-523 | a list that is absent, empty or not marked gives nothing back |
| YangMeaning.DbHolds | src/sonic-yang-mgmt/sonic_yang_ext.py:407-422 | every table is stored, translated, under module and top level container, then top level container and table; nothing else is |
| YangMeaning.SlotNames | src/sonic-yang-mgmt/sonic_yang_ext.py:580-590 | the table is read from the part behind the colon, and more than one colon is an error |
| YangTranslator.FindYangTypedValue | src/sonic-yang-mgmt/sonic_yang_ext.py:233-261 | the typed value of a field, or failure |
| YangTranslator.ExtractKey | src/sonic-yang-mgmt/sonic_yang_ext.py:165-178 | the key leaves from the parts of a table key, or failure if their number differs |
| YangTranslator.BuildEntry | src/sonic-yang-mgmt/sonic_yang_ext.py:285-296 | the list entry for a table key, or failure |
| YangTranslator.XlateList | src/sonic-yang-mgmt/sonic_yang_ext.py:273-310 | accepted keys move to the list in dictionary order, the others stay |
| YangTranslator.XlateListInContainer | src/sonic-yang-mgmt/sonic_yang_ext.py:315-325 | a list without entries is not stored |
| YangTranslator.XlateContainerInContainer | src/sonic-yang-mgmt/sonic_yang_ext.py:332-347 | inner containers, with absent, empty and malformed values |
| YangTranslator.XlateEachLeaf | src/sonic-yang-mgmt/sonic_yang_ext.py:382-400 | the remaining keys become leaves, or translation fails |
| YangTranslator.XlateTable | src/sonic-yang-mgmt/sonic_yang_ext.py:354-402 | the recursive translation computes the function whose round trip is proved |
| YangTranslator.XlateConfigDb | src/sonic-yang-mgmt/sonic_yang_ext.py:407-422 | the same for all tables |
| YangTranslator.CreateKey | src/sonic-yang-mgmt/sonic_yang_ext.py:443-463 | the table key from the key leaves, or failure if one is missing or empty |
| YangTranslator.RevFindYangTypedValue | src/sonic-yang-mgmt/sonic_yang_ext.py:468-485 | the ConfigDB value of a leaf |
| YangTranslator.RevXlateList | src/sonic-yang-mgmt/sonic_yang_ext.py:490-512 | every entry of a list becomes a table key with its fields |
| YangTranslator.RevXlateTable | src/sonic-yang-mgmt/sonic_yang_ext.py:541-569 | the recursive reverse translation computes the function whose round trip is proved |
| YangTranslator.RevXlateYang | src/sonic-yang-mgmt/sonic_yang_ext.py:574-598 | the same for all containers |
| SplayHead.Head.RotateRight | src/iccpd/include/openbsd_tree.h:92-97 | the left child turns up, and nothing else moves |
| SplayHead.Head.RotateLeft | src/iccpd/include/openbsd_tree.h:99-104 | the right child turns up |
| SplayHead.Head.LinkLeft | src/iccpd/include/openbsd_tree.h:106-111 | the root and its right subtree move to the right part |
| SplayHead.Head.LinkRight | src/iccpd/include/openbsd_tree.h:113-118 | the root and its left subtree move to the left part |
| SplayHead.Head.Assemble | src/iccpd/include/openbsd_tree.h:120-130 | the parts hang below the root again |
| SplayHead.Head.Splay | src/iccpd/include/openbsd_tree.h:225-263 | the pointers form exactly the splayed tree; the loop ends |
| SplayFunction.SplayKeepsOrder | src/iccpd/include/openbsd_tree.h:225-263 | the in-order sequence is unchanged, and nothing lies between the key and the root |
| SplayFunction.SplayFindsKey | src/iccpd/include/openbsd_tree.h:225-263 | after splaying, the key is at the root if and only if it is in the tree |
| SplayFunction.InsertMeaning | src/iccpd/include/openbsd_tree.h:177-201 | insertion adds the node exactly if its key is not there, and keeps the order |
| SplayFunction.NoRightChild | src/iccpd/include/openbsd_tree.h:214-218 | splaying for a key above all others brings up a node without right child, so nothing is lost when the right subtree is attached |
| SplayFunction.RemoveMeaning | src/iccpd/include/openbsd_tree.h:203-223 | removal removes exactly the node with the key, and keeps the order |
| SplayFunction.NoChangeSplays | src/iccpd/include/openbsd_tree.h:177-223 | inserting a key that is there, or removing one that is not, only splays |
| SplayDepth.SplayHalvesPath | src/iccpd/include/openbsd_tree.h:225-263 | a node at depth d on the path to the key ends up at depth d / 2 + 2 or above, and no node goes down by more than two |
| SplayHead.Head.Find | src/iccpd/include/openbsd_tree.h:141-150 | the node with the key, or null if and only if there is none; the set is unchanged |
| SplayHead.Head.Insert | src/iccpd/include/openbsd_tree.h:177-201 | the pointers form the tree after insertion; null if the node was added, else the node that has the key |
| SplayHead.Head.Remove | src/iccpd/include/openbsd_tree.h:203-223 | the pointers form the tree after removal; the argument if and only if the key was there |
| MpoolList.RoundUpExactly | platform/centec/centec-dal/dal_mpool.c:169-173 | rounding a C int gives a positive number of lines if and only if it is positive and does not wrap |
| MpoolList.LiveBlocksApart | platform/centec/centec-dal/dal_mpool.c:126-158 | live blocks are pairwise disjoint, have different addresses and lie inside the pool |
| MpoolList.AllocKeepsPool | platform/centec/centec-dal/dal_mpool.c:126-158 | allocation keeps the list sorted, aligned and inside the pool |
| MpoolList.AllocExactly | platform/centec/centec-dal/dal_mpool.c:160-173 | allocation of any C int keeps the pool if and only if the size is positive and does not wrap |
| MpoolList.FreeKeepsPool | platform/centec/centec-dal/dal_mpool.c:220-244 | freeing a live address removes exactly that block |
| MpoolList.FreeExactly | platform/centec/centec-dal/dal_mpool.c:220-244 | freeing an address keeps the pool if and only if it is not the address of the end sentinel |
| MpoolList.FirstFitExactly | platform/centec/centec-dal/dal_mpool.c:130-143 | allocation fails if and only if no gap is large enough, else takes the lowest |
| MpoolList.FreeUndoesAlloc | platform/centec/centec-dal/dal_mpool.c:220-244 | freeing what was just allocated restores the list |
| MpoolList.Conservation | platform/centec/centec-dal/dal_mpool.c:126-158 | live sizes and gaps add up to the size of the pool |
| MpoolList.UsageOfSentinels | platform/centec/centec-dal/dal_mpool.c:306-324 | a new pool has no usage |
| MpoolList.AllocUsage | platform/centec/centec-dal/dal_mpool.c:306-324 | an allocation raises the usage of its kind by the rounded size and no other |
| MpoolRuns.AlignedRegion | platform/centec/centec-dal/dal_mpool.c:78-88 | the rounded region lies inside the given one and loses less than a line at either end |
| MpoolRuns.RunSoundExactly | platform/centec/centec-dal/dal_mpool.c:160-244 | a run keeps both pools throughout if and only if all its sizes can be allocated and no end sentinel is freed |
| MpoolRuns.NoOverlapInAnyRun | platform/centec/centec-dal/dal_mpool.c:98-109 | in every run live blocks are disjoint and aligned, and no descriptor block overlaps a data block |
| MpoolRuns.DataInside | platform/centec/centec-dal/dal_mpool.c:108-109 | data blocks always lie inside the region |
| MpoolRuns.DescInsideExactly | platform/centec/centec-dal/dal_mpool.c:98-99 | descriptor blocks lie inside the region in all runs if and only if the rounded region has 1 MB |
| MpoolHeap.Pool.Create | platform/centec/centec-dal/dal_mpool.c:46-72 | the two sentinels of a new pool |
| MpoolHeap.Pool.AllocCommon | platform/centec/centec-dal/dal_mpool.c:126-158 | the linked list after a first-fit allocation; null if and only if no gap is large enough or there is no memory for the node |
| MpoolHeap.Pool.AllocLines | platform/centec/centec-dal/dal_mpool.c:160-217 | the same for a size rounded up to lines, and the address of the lowest gap that is large enough |
| MpoolHeap.Pool.FreeCommon | platform/centec/centec-dal/dal_mpool.c:220-244 | the first node behind the head with the address is unlinked, if there is one |
| MpoolHeap.Pool.Usage | platform/centec/centec-dal/dal_mpool.c:306-324 | the bytes in use by a kind |
| Bpf.SharesLowBits | src/dhcpmon/src/dhcp_device.c:98 | a bit test against the low bits is a test for divisibility |
| Bpf.ComparePorts | src/dhcpmon/src/dhcp_device.c:88-91 | four comparisons branch exactly on the DHCP ports |
| Bpf.DhcpProgramCorrect | src/dhcpmon/src/dhcp_device.c:82-112 | the program returns 0x40000 bytes if the packet is UDP over IPv6, or over IPv4 and not a later fragment, from or to port 67, 68, 546 or 547, and 0 if not |
| Bpf.RelayProgramCorrect | src/dhcp6relay/src/relay.cpp:25-43 | the program returns 0x40000 bytes if the packet is UDP over IPv6 to ff02::1:2, port 547, and 0 if not |
| DhcpRelay.DecodeEncode | src/dhcp6relay/src/relay.cpp:229-235 | options that were written are read back |
| DhcpRelay.EncodeDecode | src/dhcp6relay/src/relay.cpp:229-235 | options that were read are the only reading of the bytes |
| DhcpRelay.RelayClient | src/dhcp6relay/src/relay.cpp:425-458 | the copies into the buffer, one behind the other, leave the Relay-Forward message at its front and the bytes behind it as they were |
| DhcpRelay.ForwardFits | src/dhcp6relay/src/relay.cpp:519-552 | the result for a message that lies within a received frame always fits into the buffer; which lengths fit at all |
| DhcpRelay.ForwardIsTwoOptions | src/dhcp6relay/src/relay.cpp:425-458 | with option 79 the message is type 12, hop count 0, link and peer address, and exactly the options 9 and 79 |
| DhcpRelay.ForwardIsOptionListExactly | src/dhcp6relay/src/relay.cpp:442-453 | the message is a list of options if and only if option 79 is on or the address bytes read as an option of length 2 |
| DhcpRelay.WalkStopsExactly | src/dhcp6relay/src/relay.cpp:482-484 | the walk stops at the length of the message, whatever lies behind it, if and only if the message is a list of options |
| DhcpRelay.RelayReply | src/dhcp6relay/src/relay.cpp:472-503 | for a list of options the buffer holds the contents of the relay message options, and the target is the peer address; else there is no result |
| DhcpRelay.UnwrapsExactlyInner | src/dhcp6relay/src/relay.cpp:472-503 | one relay message option among arbitrary others yields exactly the relayed bytes |
| DhcpRelay.UnwrapUndoesWrap | src/dhcp6relay/src/relay.cpp:264-270 | unwrapping undoes wrapping |
| ArpSync.Mlacp.LearnFromKernel | src/iccpd/src/iccp_ifm.c:280-371 | the table and the queue after a kernel neighbour event |
| ArpSync.Mlacp.UpdateFromReply | src/iccpd/src/iccp_ifm.c:965-1016 | the table and the queue after an ARP reply packet |
| ArpSync.EventIsLogged | src/iccpd/src/iccp_ifm.c:280-371 | one event keeps one entry per address, and its messages carry the change |
| ArpSync.QueueIsLog | src/iccpd/src/iccp_ifm.c:280-371 | over any run in EXCHANGE state, replaying the queue onto the starting table gives the current one |
| ArpSync.TableFollowsEvents | src/iccpd/src/iccp_ifm.c:280-371 | after any run an entry is there if and only if the last event that decides about its address announces it, or there is none and it was there at the start |
| ArpSync.SentExactly | src/iccpd/src/iccp_ifm.c:317-371 | in EXCHANGE state, and in no other, a reply packet is announced, a kernel event if it changes the table |

## Left out

- Reading and writing of version files, command line handling and the merging of debug modules in `scripts/versions_manager.py`.
- VersionManager.VersionModule.Adjust: components are held as values in the module; sharing of one component object between modules is not modelled.
- Freezing without rebuilding, which merges into the stored versions.
- The ICCP scheduler and loss of the socket: a run ends where the socket is lost.
- IccpCsm.Connection.EnterState: `iccp_csm_finalize` on entering NONEXISTENT is not modelled.
- IccpCsm.Connection.TransitOnce: nor is the tearing down of a session whose socket is lost.
- IccpCsm.Connection.PrepareAndSend: messages are records of type, id, group and name; their byte layout is not modelled.
- The sizes of page orders, page reservation flags and the list of segments in `dal_kernel.c`.
- DmaPool.SegmentAlloc: pages are taken to be aligned and to end before the top of the address space, rounding a block size up to pages not to wrap, and the memory for the descriptor and for its block table is one flag.
- Building the schema from YANG files and libyang validation; leaf types are reduced to unsigned numbers, booleans and others.
- YangText.KeySurvivesExactly: white space is that of ASCII.
- YangText.NumberSurvivesExactly: white space and digits are those of ASCII.
- YangTranslator.RevXlateTable: input in which a leaf holds a list of entries or a container is rejected, where the code prints it.
- SplayHead.Head.Splay: the comparison function is the order of integer keys; `SPLAY_MINMAX`, `SPLAY_NEXT` and the red-black tree are not modelled.
- The common pool that overlaps both others, the choice of a pool by type and the locks in `dal_mpool.c`.
- Packet filter instructions that neither program uses.
- DhcpRelay.RelayReply: a walk that does not stop at the end of the message is left as soon as it would leave the message, without a result; sending is not modelled.
- DhcpRelay.RelayClient: the length of the client message is that of a UDP packet, below 65536, and the buffer is taken to be long enough for the result, as it is for every message within the received frame.
- ArpSync.Mlacp.LearnFromKernel: failing allocation of entries and messages is not modelled.
- ArpSync.Mlacp.UpdateFromReply: failing allocation of entries and messages is not modelled.
- ArpSync.QueueIsLog: the interface checks in front of an event and failing allocation are not modelled, and entries are appended to the table.
- Deferred VLAN membership, the dhcpmon counters and the port breakout lanes.
