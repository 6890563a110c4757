# AximaVPN panel: CIDR algebra, route publication, peers, subscriptions and payments

A Dafny model of the parts of the AximaVPN control panel whose correctness depends on more than one
function at a time. `dafny verify dfyconfig.toml` checks the whole project.

## What is modelled

**CIDR algebra.** `Text`, `CidrText` and `CidrUtil` model `cidr.util.ts` on real strings: trimming,
splitting, decimal numerals, dotted quads and prefixes. A list of CIDR strings means the set of
addresses it covers (`Coverage`). Independently of the greedy code, `Blocks` defines what the right
answer is: `Canon(s)` halves the address space recursively and keeps the blocks that lie inside the
set `s`; `CanonIsCanonical` shows this is the one list of all maximal aligned blocks of `s`, and
`CanonicalMinimal` that no shorter list covers `s`. Every loop of the source is a method proved
equal to that reference: merging, greedy splitting, aggregation, carving out a host.

**Address allocation.** `Bits` defines shifts, masks and bitwise or on 32-bit values, bit by bit;
`IpAlloc` models the second, lenient parser of `ip-alloc.util.ts` with them, proves that it agrees
with the strict one, and that allocation returns the least free host.

**Peers.** `Peers` keeps the peer rows and one table per remote agent, mapping an allowed address to
a public key, the last writer winning. Every agent request ends as applied and confirmed, applied but
reported as failed, or not applied. The invariant `Consistent` says that the two unique constraints
hold, that revoked peers hold no address, and that each active peer holds a pool address of its own
that its server routes to its own key. It is kept by every operation whatever the agents answer, so
also when a removal failed and the freed address is given to someone else.

**Route lists.** `RouteLists` and `Routes` model resolving, the per-group fallback, deduplication,
the anti-poison stop, change detection and versioning. The resolver is an arbitrary function to lists
of arbitrary strings; a failed lookup answers with the empty list. The database may return the
enabled groups, and the entries of the current version, in any order. Change detection compares sets
of texts; because each group's list is canonical up to order, that compares the addresses of every
group (`KeysMeaning`).

**Subscriptions and payments.** `Subscriptions` keeps time intervals in milliseconds under a clock
that does not run backwards; `Payments` adds checkouts, webhooks and manual marks; `Settlements` is
about what runs of these do to subscriptions. Entitlement is counted as a set of instants and is
conserved over whole runs, down to the tariffs of the payments. A grant is counted when a row is
credited; a call that fails because the tariff or the user is missing is not one. Sweeping expired
rows is invisible, and so are repeated settlements.

`Notation` says exactly which texts are read and as what, and that addresses and blocks are printed
in the one plain way; `PeerOutcomes`, and the lemmas whose names end in `Means`, say on rows, tables and
results what each operation does, in every case.

In the stateful services (`PeersService`, `RoutesService`, `SubscriptionsService`,
`PaymentsService`) each method is proved equal to a function of the old state, and the theorems
are about those functions and about arbitrary sequences of them. Operations are serial, database
writes succeed, and the unique constraints they rely on are proved.

### Where comments and code differ

- `payments.service.ts:81` calls marking a payment succeeded idempotent. The guard only tests for
  SUCCEEDED, so a payment that was marked paid by hand, or that failed after having been settled,
  grants again. `GrantsAtMostOnceIff` gives the exact condition on what was asked of the payment, and
  `ManualThenWebhookGrantsTwice` and `FailedThenSucceededGrantsAgain` show the extra period in the
  rows. The status is also set before the grant: if the tariff or the user is missing at that moment,
  no later settlement makes up for it (`SettledGrantsOnce`).
- `ip-alloc.util.ts:52` says that the capacity excludes the server address. It subtracts one whether
  or not the server lies in the subnet; `CapacityCounts` says exactly when the number is right, and
  `CapacityMiscounts` gives a subnet where it is not.

## Model

| member | source | states |
|---|---|---|
| CidrText.IpToInt | apps/api/src/common/cidr.util.ts:19-30 | the accumulating loop yields the value of a strict dotted quad, and nothing for any other string |
| CidrText.IpRoundTrip | apps/api/src/common/cidr.util.ts:19-40 | reading a printed address gives the address back, for every 32-bit value |
| Notation.IpValueIff | apps/api/src/common/cidr.util.ts:19-30 | a text is read as an address if and only if it is four dotted groups of one to three digits, each at most 255, and as their positional value |
| Notation.PrintsPlainQuad | apps/api/src/common/cidr.util.ts:33-40 | a text is the printed form of an address if and only if it is read as it and has no superfluous leading zero |
| Notation.DecimalUnique | apps/api/src/common/cidr.util.ts:33-40 | a numeral without superfluous leading zeros is the one printed for its value |
| Notation.LeadingZero | apps/api/src/common/cidr.util.ts:24-25 | leading zeros do not change the number read |
| CidrText.CidrRoundTrip | apps/api/src/common/cidr.util.ts:52-68 | parsing the printed text of any masked block gives the block back |
| Notation.ParseCidrIff | apps/api/src/common/cidr.util.ts:52-68 | a text is read as a block if and only if, between white space, it spells an address of the block and its prefix length of one or two digits, or an address alone for a /32 |
| Notation.PrintsPlainCidr | apps/api/src/common/cidr.util.ts:114-142 | a text is the printed form of a block if and only if it is read as it, has no superfluous leading zero and no host bit set |
| Text.SpaceCodes | apps/api/src/common/cidr.util.ts:53 | the characters trimmed, by code point |
| CidrText.ParseTexts | apps/api/src/common/cidr.util.ts:142-155 | a list of printed blocks parses to the same list, none skipped |
| ReservedRanges.ReservedParse | apps/api/src/common/cidr.util.ts:81-93 | all nine reserved texts parse, to the networks they name |
| ReservedRanges.ReservedMeans | apps/api/src/common/cidr.util.ts:76-93 | in numbers: an address is reserved if and only if it is in 0.x, 10.x, 127.x, 100.64-127.x, 169.254.x, 172.16-31.x, 192.168.x or from 224.0.0.0 on |
| CidrUtil.SanitizeCidrs | apps/api/src/common/cidr.util.ts:105-120 | the filtering loop keeps the accepted entries in order, each canonical text once |
| CidrUtil.SurvivorsHold | apps/api/src/common/cidr.util.ts:105-120 | a block is kept if and only if some entry is accepted as it, and no block twice |
| CidrUtil.SurvivorsInOrder | apps/api/src/common/cidr.util.ts:105-120 | the blocks kept come in the order of their first occurrences |
| CidrUtil.OverlapMeans | apps/api/src/common/cidr.util.ts:95-97 | comparing the ends of ranges reports an overlap if and only if the block has a reserved address |
| CidrUtil.SanitizeExact | apps/api/src/common/cidr.util.ts:99-120 | sanitising, and aggregating afterwards, covers exactly the addresses of the entries that parse, have a prefix of at least 8 and have no reserved address |
| CidrUtil.SanitizeSafe | apps/api/src/common/cidr.util.ts:81-120 | neither the sanitised list nor its aggregate covers a reserved address |
| CidrUtil.TrailingZeros | apps/api/src/common/cidr.util.ts:123-131 | the count is the exact power of two dividing the address, and below 32 |
| CidrUtil.LargestBlockAt | apps/api/src/common/cidr.util.ts:138-141 | the size chosen is aligned and fits, and no larger aligned size fits |
| CidrUtil.GreedyMaximal | apps/api/src/common/cidr.util.ts:134-147 | such a block, at a boundary no block of the range straddles, is contained in no larger block of the range |
| CidrUtil.GreedyStep | apps/api/src/common/cidr.util.ts:134-147 | after taking it, still no block of the range straddles the new boundary, and everything before it is covered |
| CidrUtil.RangeToCidrs | apps/api/src/common/cidr.util.ts:134-147 | the greedy loop terminates with the printed reference decomposition of the range, including at 0 and at the top of the space |
| CidrUtil.SortSorts | apps/api/src/common/cidr.util.ts:156 | the sort yields a permutation in order of first address |
| CidrUtil.MergeSorted | apps/api/src/common/cidr.util.ts:158-168 | merging sorted ranges leaves them ordered with gaps between them and covers the same addresses |
| CidrUtil.ToMergedRanges | apps/api/src/common/cidr.util.ts:150-169 | the ranges are separated and cover exactly what the entries that parse cover |
| CidrUtil.AggregateCidrs | apps/api/src/common/cidr.util.ts:176-178 | the result is the printed reference decomposition of the addresses covered |
| CidrUtil.FlattenRanges | apps/api/src/common/cidr.util.ts:177 | splitting separated ranges one by one gives the reference decomposition of their union |
| CidrUtil.PushAround | apps/api/src/common/cidr.util.ts:192-199 | one round keeps the output canonical for the ranges so far without the target |
| CidrUtil.ExcludeIpFromCidrs | apps/api/src/common/cidr.util.ts:186-201 | the result is the printed reference decomposition of the addresses covered without the target; an invalid target removes nothing |
| Blocks.Laminar | apps/api/src/common/cidr.util.ts:64-74 | two aligned blocks are nested or disjoint |
| Blocks.CanonicalUnique | apps/api/src/common/cidr.util.ts:134-178 | a set of addresses has at most one canonical list |
| Blocks.CanonIsCanonical | apps/api/src/common/cidr.util.ts:134-178 | it has one, the recursive decomposition, and a list is canonical if and only if it is that list |
| Blocks.CanonicalMinimal | apps/api/src/common/cidr.util.ts:171-178 | a canonical list is no longer than any list covering the same addresses |
| CidrUtil.AggregateExact | apps/api/src/common/cidr.util.ts:171-178 | aggregation neither adds nor loses an address, after printing and parsing again |
| CidrUtil.AggregateCanonical | apps/api/src/common/cidr.util.ts:171-178 | two lists aggregate to the same strings if and only if they cover the same addresses |
| CidrUtil.AggregateIdempotent | apps/api/src/common/cidr.util.ts:171-178 | aggregating the printed result again changes nothing |
| CidrUtil.AggregateMinimal | apps/api/src/common/cidr.util.ts:171-178 | no list of strings covering the same addresses has fewer valid entries than the result |
| CidrUtil.ExcludeExact | apps/api/src/common/cidr.util.ts:180-201 | the result covers exactly the covered addresses minus the target; with an invalid target it is the plain aggregate |
| CidrUtil.ExcludeCommutes | apps/api/src/common/cidr.util.ts:180-201 | carving out two hosts in either order gives the same strings |
| CidrUtil.ExcludeMinimal | apps/api/src/common/cidr.util.ts:180-201 | the carved list is also shortest |
| BlockCounts.NoThreeAlike | apps/api/src/common/cidr.util.ts:134-147 | a range never splits into three blocks of one size |
| CidrUtil.RangeSizeBound | apps/api/src/common/cidr.util.ts:134-147 | a range never splits into more than 62 blocks |
| CidrUtil.ExcludeSize | apps/api/src/common/cidr.util.ts:186-201 | carving a contained host out of a single /p yields exactly 32 - p blocks |
| IpAlloc.PackSum | apps/api/src/common/ip-alloc.util.ts:12 | the shifts and ors of four octets are their positional value |
| IpAlloc.WordToIp | apps/api/src/common/ip-alloc.util.ts:15-17 | printing with shifts and masks equals printing with divisions |
| IpAlloc.NumberOfIff | apps/api/src/common/ip-alloc.util.ts:8 | a piece is read as a number if and only if it is digits, perhaps none, between white space |
| IpAlloc.IpToWordIff | apps/api/src/common/ip-alloc.util.ts:7-13 | a text is read as an address if and only if it is four such pieces between dots, each at most 255, and as their positional value |
| IpAlloc.MaskSplits | apps/api/src/common/ip-alloc.util.ts:30-32 | masking and or-ing with the complement give the first and last address of the aligned block |
| IpAlloc.ParseSubnetIff | apps/api/src/common/ip-alloc.util.ts:25-34 | a text is read as a subnet if and only if its first two pieces between slashes are an address in it and its prefix length; the subnet is the aligned block of that length |
| IpAlloc.ParsersAgree | apps/api/src/common/ip-alloc.util.ts:7-34 | on every text with a slash that the strict parser accepts, the lenient one gives its base, its last address and its prefix |
| IpAlloc.CollectWords | apps/api/src/common/ip-alloc.util.ts:43 | the set holds the number of each used address, unless one is malformed |
| IpAlloc.ScanHosts | apps/api/src/common/ip-alloc.util.ts:46-49 | the scan finds the least unused address strictly between network and broadcast, or none |
| IpAlloc.LeastFree | apps/api/src/common/ip-alloc.util.ts:46-49 | all smaller addresses are used, and none is found only when all are |
| IpAlloc.NextFreeIp | apps/api/src/common/ip-alloc.util.ts:40-50 | the least free host other than the server, as text, or the error the source throws |
| IpAlloc.AllocationMeans | apps/api/src/common/ip-alloc.util.ts:40-50 | the address allocated is the least one strictly between network and broadcast that is neither the server nor taken; malformed and exhausted are reported exactly when a text is malformed and when there is no such address |
| IpAlloc.HostPartIff | apps/api/src/common/ip-alloc.util.ts:42-43 | the part of a text before its first slash, or all of it |
| IpAlloc.PrintedIpParses | apps/api/src/common/ip-alloc.util.ts:7-17 | an allocated text is read back as its number |
| IpAlloc.ExhaustedIff | apps/api/src/common/ip-alloc.util.ts:40-50 | the pool is exhausted if and only if every host other than the server is used |
| IpAlloc.CapacityCounts | apps/api/src/common/ip-alloc.util.ts:52-56 | the capacity is the number of hosts other than the server if and only if the server is a host or there are none |
| IpAlloc.CapacityMiscounts | apps/api/src/common/ip-alloc.util.ts:52-56 | with a server outside 10.66.66.0/24 there are 254 assignable addresses and the capacity is 253 |
| IpAlloc.AllocatedIsFree | apps/api/src/common/ip-alloc.util.ts:40-50 | an allocated address is a host, is not the server and, as a text, is not in use |
| IpAlloc.AllocationSucceeds | apps/api/src/common/ip-alloc.util.ts:40-56 | with fewer addresses in use than the capacity, allocation succeeds |
| PeersService.Service.Create | apps/api/src/peers/peers.service.ts:44-109 | rows and agent tables after the call, and its result, for each outcome of the agent request |
| PeersService.Service.Revoke | apps/api/src/peers/peers.service.ts:156-171 | likewise; a failed removal is tolerated and the address released |
| PeersService.Service.Recreate | apps/api/src/peers/peers.service.ts:178-183 | likewise; the new peer first, the old one revoked only then |
| PeersService.Service.AdminDelete | apps/api/src/peers/peers.service.ts:186-197 | likewise; the row is removed |
| PeersService.Service.AddPeer | apps/api/src/agent-gateway/agent-gateway.service.ts:33-55 | a request without a token is never sent; otherwise the table changes unless it was not applied |
| PeersService.Service.RemovePeer | apps/api/src/agent-gateway/agent-gateway.service.ts:57-63 | the table loses the key when the server row exists, has a token and the request took effect; its error is swallowed |
| PeersService.Service.UsedIps | apps/api/src/peers/peers.service.ts:70-79 | exactly the addresses of the active peers of the server |
| PeerOutcomes.AddMeans | apps/agent/src/index.ts:51-74 | if the request takes effect the key holds exactly the new address and every other key and server is as before, except that the address is taken over; otherwise nothing changes |
| PeerOutcomes.RemoveMeans | apps/agent/src/index.ts:76-79 | if the request takes effect the key holds nothing and every other key and server is as before; otherwise nothing changes |
| PeerOutcomes.CreateMeans | apps/api/src/peers/peers.service.ts:44-109 | create is refused with the first check that fails in the order of the source, then for want of an address, then when the agent does not confirm; the row is inserted exactly on success, the agent table changes exactly when the request took effect |
| PeerOutcomes.CreateGrantsLeast | apps/api/src/peers/peers.service.ts:68-80 | the address granted is the least host that is neither the server nor held by an active peer of the server |
| PeerOutcomes.RevokeMeans | apps/api/src/peers/peers.service.ts:156-171 | the row keeps user, server and key, is revoked and loses its address; no other row changes; the agent table changes exactly when the removal took effect |
| PeerOutcomes.RecreateMeans | apps/api/src/peers/peers.service.ts:178-183 | a create on the same server that does not count the old peer, and, exactly if that succeeds, a revoke of the old one |
| PeerOutcomes.AdminDeleteMeans | apps/api/src/peers/peers.service.ts:186-197 | the row goes, whatever its status, and no other row changes; the agent is asked only for an active peer; for an unknown one nothing changes |
| PeersService.Service.LoadOwned | apps/api/src/peers/peers.service.ts:199-204 | it succeeds if and only if the peer is one of the active peers of that user, and returns its row; revoked is reported exactly for a peer of that user that is not active, not found exactly for any other |
| Peers.OwnActiveOnly | apps/api/src/peers/peers.service.ts:156-204 | revoking or recreating anything but one of the user's own active peers changes neither rows nor agents, and says which of the two reasons applies |
| Peers.OthersUntouched | apps/api/src/peers/peers.service.ts:44-183 | no step of a user adds, changes or removes a peer of another user |
| Peers.RevokeOnce | apps/api/src/peers/peers.service.ts:156-204 | a peer that was revoked cannot be revoked again, and trying changes nothing |
| Peers.RoutedAfterAdd | apps/agent/src/index.ts:51-74 | setting a key's address leaves every other key with another address routed |
| Peers.CreateConsistent | apps/api/src/peers/peers.service.ts:44-109 | create keeps the invariant, whether the request was applied or not and confirmed or not |
| Peers.RevokeConsistent | apps/api/src/peers/peers.service.ts:156-171 | revoke keeps it, also when the agent was not reached |
| Peers.RecreateConsistent | apps/api/src/peers/peers.service.ts:178-183 | recreate keeps it for every pair of agent outcomes |
| Peers.AdminDeleteConsistent | apps/api/src/peers/peers.service.ts:186-197 | adminDelete keeps it |
| Peers.RecreateAllOrNothing | apps/api/src/peers/peers.service.ts:178-183 | on failure the rows are unchanged and the old peer still routes; on success exactly the old peer is revoked, the new one has another address and routes, and all active counts are unchanged |
| Peers.RecreateIgnoresOldPeer | apps/api/src/peers/peers.service.ts:48-75 | with limits already full, recreate is still never refused for a limit |
| Peers.AllocationNeverFails | apps/api/src/peers/peers.service.ts:68-80 | in a consistent state, with the server a host of the subnet and maxPeers below the capacity, no create or recreate finds the pool exhausted |
| Peers.CreateSucceedsIff | apps/api/src/peers/peers.service.ts:44-109 | under the same conditions a create succeeds if and only if subscription, country, server and both limits permit it and the agent confirms |
| Peers.ReleaseFrees | apps/api/src/peers/peers.service.ts:156-197 | revoking and deleting an active peer touch no other row, free its address for the next one and, if the agent was reached, remove its key |
| Peers.RunSafe | apps/api/src/peers/peers.service.ts:44-197 | in every run, however agent calls fail: unique constraints, each active peer's address routes to its own key, and limits that are never lowered are never exceeded |
| Peers.RunFromNothingSafe | apps/api/src/peers/peers.service.ts:44-197 | the same for every run of a panel that starts without peers, whatever the agents hold |
| RouteLists.KeyInjective | apps/api/src/routes/routes.service.ts:88-95 | the text key of a group and a CIDR determines both |
| RouteLists.DedupDropsNothing | apps/api/src/routes/routes.service.ts:88-95 | a list without repetitions inside a group passes the filter unchanged |
| RouteLists.DedupKeepsFirst | apps/api/src/routes/routes.service.ts:88-95 | what the filter keeps of any list are exactly the first entries of their keys |
| RouteLists.KeysMeaning | apps/api/src/routes/routes.service.ts:104-107 | for lists that are canonical for each group, in any order, equal sets of keys means equal addresses for every group, and conversely |
| RouteLists.PermutedAlike | apps/api/src/routes/routes.service.ts:57-66 | reading entries in another order gives each group the same CIDRs and the same addresses, and the same keys |
| RoutesService.Service.ResolveAndPublish | apps/api/src/routes/routes.service.ts:55-132 | versions and result after a resolve, for every answer of the resolver and every order in which groups and entries are read |
| RoutesService.Service.FindEnabled | apps/api/src/routes/routes.service.ts:56 | exactly the enabled groups, each once |
| RoutesService.Service.GetCurrentVersion | apps/api/src/routes/routes.service.ts:32-37 | the row with the greatest number, and its entries in whatever order |
| RoutesService.Service.UpsertGroup | apps/api/src/routes/routes.service.ts:17-23 | an existing key keeps its id, a new one gets the generated id; no version changes |
| RoutesService.Service.SetEnabled | apps/api/src/routes/routes.service.ts:25-29 | only the flag of that group changes, or an error for an unknown key |
| Routes.UpsertMeans | apps/api/src/routes/routes.service.ts:17-23 | on any state: the fields given are stored, the id is kept or new, every other group and all versions are as before |
| Routes.SetEnabledMeans | apps/api/src/routes/routes.service.ts:25-29 | on any state: only the flag changes; an unknown key changes nothing |
| Routes.LatestIsGreatest | apps/api/src/routes/routes.service.ts:32-37 | the current version is one with the greatest number |
| RoutesService.PreviousByGroup | apps/api/src/routes/routes.service.ts:61-66 | the map holds each group's previous CIDRs in order |
| RoutesService.ResolveGroups | apps/api/src/routes/routes.service.ts:68-86 | each group gets its own canonical CIDRs, or its previous ones when it resolves to none |
| RoutesService.Dedup | apps/api/src/routes/routes.service.ts:88-95 | the filter keeps the first entry of each key |
| Routes.ResolvedExact | apps/api/src/routes/routes.service.ts:68-95 | the resolved list is canonical and free of reserved addresses for each group, covers exactly the accepted answers or the fallback, and the filter drops nothing |
| Routes.AcceptedAnswers | apps/api/src/routes/routes.service.ts:70-77 | an address is accepted for a group if and only if it was answered, as a dotted quad, to a lookup of one of the group's domains and is not reserved |
| Routes.TargetsByGroup | apps/api/src/routes/routes.service.ts:56-86 | an enabled group is to route what was accepted for it or, if nothing was, what it routed before; a disabled one is to route nothing |
| Routes.ChangeIsSemantic | apps/api/src/routes/routes.service.ts:97-131 | a version is published if and only if there is none yet, or some group's addresses are to change and not all are to vanish; it routes exactly the target addresses; otherwise nothing changes; no reading order matters |
| Routes.PublishedTexts | apps/api/src/routes/routes.service.ts:68-121 | a new version lists for an enabled group exactly the canonical list of the addresses accepted, in order, or its previous list if there are none |
| Routes.OutcomeMeans | apps/api/src/routes/routes.service.ts:97-131 | the outcome names the version current afterwards, counts its entries and says whether it is new |
| Routes.PublishSound | apps/api/src/routes/routes.service.ts:55-132 | publication keeps the history invariant |
| Routes.RunSound | apps/api/src/routes/routes.service.ts:17-132 | in every run versions are only appended and numbered 1, 2, 3, ...; only the first can be empty; neighbours differ in some group's addresses; each group's list is canonical up to order and touches no reserved address |
| Routes.RunFromNothing | apps/api/src/routes/routes.service.ts:17-132 | the same for every run of a new installation |
| Routes.NoGroupLoss | apps/api/src/routes/routes.service.ts:76-86 | an enabled group with entries keeps entries after a resolve, and exactly its previous ones, up to order, if no answer is acceptable |
| Routes.GroupNeverLost | apps/api/src/routes/routes.service.ts:59-102 | over a run in which every resolve finds the group enabled, all later versions have entries for it |
| SubscriptionsService.Service.GetActive | apps/api/src/subscriptions/subscriptions.service.ts:10-16 | a live subscription of the user that ends last, or none exactly if none is live |
| SubscriptionsService.Service.GrantOrExtend | apps/api/src/subscriptions/subscriptions.service.ts:31-66 | the table and result after a grant on whichever such subscription was found, errors included, for every table |
| SubscriptionsService.Service.Cancel | apps/api/src/subscriptions/subscriptions.service.ts:68-73 | only the status changes, whatever it was, or an error for an unknown id |
| SubscriptionsService.Service.ExpireDue | apps/api/src/subscriptions/subscriptions.service.ts:76-82 | exactly the active rows that have ended become expired, and how many |
| Subscriptions.GrantMeans | apps/api/src/subscriptions/subscriptions.service.ts:31-66 | a grant needs the tariff, then the user; it adds the days requested, or else those of the tariff, to the end of the row found, keeping its start, or to a new active row that starts now; no other row changes |
| Subscriptions.CancelMeans | apps/api/src/subscriptions/subscriptions.service.ts:68-73 | only the status of the row changes, whatever it was |
| Subscriptions.ExpireMeans | apps/api/src/subscriptions/subscriptions.service.ts:76-82 | rows that were active and have ended become expired and are otherwise as before; every other row is as before |
| Subscriptions.GetActiveFinds | apps/api/src/subscriptions/subscriptions.service.ts:10-16 | a row is found if and only if it is live |
| Subscriptions.GrantOnAnswer | apps/api/src/subscriptions/subscriptions.service.ts:43-65 | where no rows of a user overlap, which row the query returned makes no difference |
| Subscriptions.GrantSucceedsIff | apps/api/src/subscriptions/subscriptions.service.ts:37-40 | a grant succeeds if and only if the tariff and the user exist, and changes nothing otherwise |
| Subscriptions.AtMostOneLive | apps/api/src/subscriptions/subscriptions.service.ts:10-16 | a user never has two live subscriptions |
| Subscriptions.GrantTakesEffect | apps/api/src/subscriptions/subscriptions.service.ts:42-65 | the granted row is the active one until its end, which lies the granted days after the previous end, or after now; no other row changes |
| Subscriptions.CancelTakesEffect | apps/api/src/subscriptions/subscriptions.service.ts:10-73 | cancelling the active subscription leaves the user without one, then and later |
| Subscriptions.RunSound | apps/api/src/subscriptions/subscriptions.service.ts:31-82 | in every run, subscriptions of a user that were not cancelled do not overlap, and expired ones have ended |
| Subscriptions.InstantsSize | apps/api/src/subscriptions/subscriptions.service.ts:43-66 | intervals that do not overlap hold as many instants as the sum of their lengths |
| Subscriptions.RunCredits | apps/api/src/subscriptions/subscriptions.service.ts:31-82 | over a run each row is lengthened by exactly the days credited to it |
| Subscriptions.EntitlementConserved | apps/api/src/subscriptions/subscriptions.service.ts:31-82 | over every run, instants of entitlement plus cancelled time equal the days granted times 86,400,000 |
| Subscriptions.SweepInvisible | apps/api/src/subscriptions/subscriptions.service.ts:10-82 | runs that differ only in sweeps give the same active subscription, tariff and source included, at every later time, and tables that agree once swept |
| PaymentsService.Service.Checkout | apps/api/src/payments/payments.service.ts:20-61 | payments and subscriptions after a checkout, and its result |
| PaymentsService.Service.HandleWebhook | apps/api/src/payments/payments.service.ts:63-79 | likewise for a webhook |
| PaymentsService.Service.MarkSucceeded | apps/api/src/payments/payments.service.ts:82-99 | nothing for a SUCCEEDED payment; otherwise the status first, then the grant, whose failure leaves the status |
| PaymentsService.Service.MarkManuallyPaid | apps/api/src/payments/payments.service.ts:102-119 | an error for a SUCCEEDED payment; otherwise likewise |
| PaymentsService.Service.FindByTxnOrId | apps/api/src/payments/payments.service.ts:139-142 | by our own id if one is given, else the one payment with the transaction id |
| Payments.CheckoutMeans | apps/api/src/payments/payments.service.ts:20-61 | the tariff must be active, public and not archived; the payment recorded has its price and currency and is pending, gets the transaction id if the provider answers, and is marked succeeded if it settled at once |
| Payments.WebhookMeans | apps/api/src/payments/payments.service.ts:63-79 | handled exactly if not ignored and the payment is known; a success notice marks the payment, a failure notice records FAILED and changes nothing else |
| Payments.MarkSucceededMeans | apps/api/src/payments/payments.service.ts:82-99 | the payment becomes SUCCEEDED now, otherwise unchanged, and grants the tariff's period to the payer as a payment; a failed grant shows in the result only; a SUCCEEDED payment changes nothing |
| Payments.MarkManuallyPaidMeans | apps/api/src/payments/payments.service.ts:102-119 | likewise with MANUAL and the source of an administrator; a SUCCEEDED payment is an error |
| Payments.FindMeans | apps/api/src/payments/payments.service.ts:139-142 | by our own id if it is given and not empty, else a payment with the transaction id, and none only if there is none |
| Payments.RunUnique | apps/api/prisma/schema.prisma:152 | the unique constraint on transaction ids is met in every run |
| Payments.RunFinds | apps/api/src/payments/payments.service.ts:139-142 | a payment is found by its transaction id in every later state |
| Payments.CheckoutRecords | apps/api/src/payments/payments.service.ts:20-61 | a payment is recorded if and only if the tariff may be bought, with its price and the transaction id, and is paid exactly if the provider settled at once; no other payment changes |
| Settlements.RunTraced | apps/api/src/payments/payments.service.ts:82-119 | subscriptions change by the calls to grantOrExtend of the run and by nothing else |
| Settlements.RunTallied | apps/api/src/payments/payments.service.ts:63-119 | the status of a payment, and the number and the days of the credits made for it, follow from what was asked of it |
| Settlements.PaidEntitlement | apps/api/src/payments/payments.service.ts:20-119 | over every run from nothing, a user's entitlement and cancelled time add up to the days credited for the user's payments and by hand |
| Settlements.SettledEntitlement | apps/api/src/payments/payments.service.ts:20-99 | over every run of checkouts, repeated success webhooks and sweeps from nothing, a user's entitlement is exactly the tariff days of the user's settled payments, each counted once, at its first settlement |
| Settlements.GrantsAtMostOnceIff | apps/api/src/payments/payments.service.ts:81-119 | subscriptions are credited at most once for a payment if and only if every request that can grant, after the first that found the payment unsettled, comes after a settlement with no failure since |
| Settlements.SettledGrantsOnce | apps/api/src/payments/payments.service.ts:82-98 | a payment that is only ever settled, however often, is credited the days of its tariff exactly once, at its first settlement, or never if the tariff or the user was missing then |
| Settlements.DuplicateSafe | apps/api/src/payments/payments.service.ts:63-99 | leaving out repeated settlements gives the same payments and the same subscriptions, end dates included |
| Settlements.FirstOnlyOnce | apps/api/src/payments/payments.service.ts:63-99 | what is then left of a payment that is only ever settled is one settlement |
| Settlements.ManualThenWebhookGrantsTwice | apps/api/src/payments/payments.service.ts:85-108 | a payment marked paid by hand and then confirmed by the provider credits both periods; while the first runs, its end moves by both |
| Settlements.FailedThenSucceededGrantsAgain | apps/api/src/payments/payments.service.ts:73-90 | a failure notice between two success notices makes the second credit another period; without it the second changes nothing |

## Left out

- IpAlloc.IpToWord: numbers are optional runs of decimal digits between white space; the hexadecimal, signed, fractional and exponent forms that JavaScript's `Number` also reads are not modelled, since configured and stored addresses are plain dotted quads. 32-bit words are integers below 2^32 with shifts and masks defined bit by bit, not machine words.
- IpAlloc.CollectWords: reports an address written in one of those other number forms as malformed, where the source reads it.
- IpAlloc.NextFreeIp: likewise for the subnet, the server address and the used addresses.
- CidrUtil.SortSorts: the library sort is an insertion sort on a sequence, standing for any stable sort; the arrays of ranges are sequences, so sorting and `last[1] = e` in place appear as sequence updates.
- RoutesService.Service.ResolveAndPublish: the note of a version and the `needsUpdate` flags of peers are not modelled.
- PeersService.Service.Create: labels, private and preshared keys and their encryption; keys matter only in that a generated one is new.
- PaymentsService.Service.MarkSucceeded: like the other payment methods it is proved for subscription tables without overlapping rows of one user, which every run keeps.
- PaymentsService.Service.Checkout: the confirmation URL, the description sent to the provider and signature checks of webhooks.
- Settlements.PaidEntitlement: assumes of the clock and of generated ids what the subscription theorems assume; durations are at least one day, as the input schemas require.
- Concurrency of two calls to one service: the code reads and then writes without a lock, and the invariants are about serial runs.
- Deleting servers, users or tariffs, lowering limits and changing agent addresses: administrative steps that void the peer invariants by design.
- Rendering of client configurations and QR codes, health checks, registration, provisioning, billing totals, authentication and the web application.
- DNS, HTTP, SSH and the database engine: they appear as arbitrary answers, agent outcomes and tables.
