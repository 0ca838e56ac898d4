# Lazyjack: edits, addresses, routes and recovery

Lazyjack sets up a Kubernetes cluster over IPv6, IPv4 or both. On each node, "prepare" and
"up" edit files, addresses, routes and containers, and "down" and "clean" undo that. This
project models these edits in Dafny and proves what they promise.

## Layers

Text edits (`Text`, `Tags`, `HostsFile`, `HostsLines`, `HostsEntries`, `ResolvConf`, `EditRuns`,
`TokenYaml`). A file is a `string`, one character per byte. `Lines` and `Print` are the read and write
halves shared by all edits. A line edited away is put behind the tag `#[-] `, a line added
ends in `  #[+]`. The main result is that, from an untagged file, any sequence of updates and
reverts, each with its own node list or name server, is undone by one revert. It has one exact
exception, the line ` #[+]`: commented out, it passes for an addition and is lost. This
happens if and only if a node whose name occurs in that line claims it, so never for names
with a letter or a digit. The hosts edit looks for names inside lines, while entries consist of
fields: a node may be left without an entry, and other hosts' lines may be commented out.
`HostsEntries` says exactly when. `HostsLines` and the end of `ResolvConf` say line by line what an
updated file holds, and the end of `TokenYaml` what a reader finds in an updated configuration file.

Address text (`Numerals`, `AddressText`, `PodSubnets`, `PodSubnetsExact`, `NodeAddresses`,
`PeerRoutes`, `AddressChoice`). Text is given a meaning by a parser for section 2.2 of RFC
4291; the input text is the canonical one of section 4 of RFC 5952. The text that is glued
together for a pod subnet denotes network + ID * 2^(120 - size), for sizes that are a multiple of
8 up to 104 exactly for networks whose canonical text ends in `::` (and for the all-zero /8); for
every other network it is not an address, and for other sizes the ID is misplaced or does not fit.
With multiples of 8 up to 104 an ID above 255 never gives an address in the pod network. The code
writes node IDs in hexadecimal in some places and in decimal in others, so:

- IPv4 gateway texts are right exactly for IDs below ten, and for some other IDs no address at all;
- IPv6 hosts, advertise and join addresses are right exactly for IDs below ten, and so is the name
  server written on a node outside IPv6 mode, which is meant to be the node itself;
- the cluster DNS address is the tenth one of the service network always over IPv4, and over IPv6
  exactly if the last group of the network is zero;
- the join endpoint always uses the first management network, which is the advertised one
  exactly if it has the family of the service network;
- in a single-family mode whose service network has another family than the management network,
  the advertised address is a bare number.

Configuration (`Configs`, `Validation`, `MappingPool`, `Acceptance`, `NodeList`). The
checks are methods proved equivalent to predicates, whatever the order in which the topology
map is walked. `Acceptance` chains them to what the runs rely on. Two checks are weaker than
their purpose: the number of NAT64 hosts is never checked, though all orders of the topology give
one and the same successful result exactly if there is one, and the mapping pool is only checked
by one of its addresses, which puts the whole pool inside the support network exactly if the
pool's prefix is no shorter. `Samples` shows that the assumptions can be met, by the IPv6 sample
configuration, and by the dual-stack one with a /16 for its IPv4 management network; as they stand
both other samples give a /24 there and are refused, as only /8 and /16 are allowed.

The host (`HostMachine`, `SaveFile`, `LinkSearch`, `Gateways`, `RouteMesh`, `MeshWalks`,
`MeshTheorems`, `NodePlan`, `Prepare`, `PreparedNode`, `CleanPlan`, `Cleanup`, `Lifecycle`).
`HostMachine.Host` holds the abstract state: support network, two containers, the volume,
addresses, MTUs, routes and files. Each call to docker, netlink or the file system is a method
that may work, fail without effect, or fail after taking (part of) its effect; on a `reliable`
host none fails. Its `Valid` is the step invariant: a running DNS64 server has its network and
the generated named.conf on its volume. As every method requires and ensures `Valid`, it holds in
every state a run goes through.

`NodePlan.Target` says in closed form what "prepare" is to achieve from a state, but for the
routes over a NAT64 host, which depend on the host met first; `NodePlan.Prepared` are the states
it may leave, and `CleanPlan.CleanTarget` is what "clean" is to leave. Each step is proved to
lead to nothing that was not in reach before, however it stops, and success means a prepared
state. `PreparedNode` says what such a state amounts to on a node of an accepted cluster, in
plain addresses, routes and file lines. From this follow convergence after any number of failed
runs, and when exactly any history of prepare and clean runs, ended by one clean without failing
calls, gives back the original host.

Limits of the code show up as exact conditions. In dual-stack mode a clean that lost the first
management address never removes the second one. With several NAT64 hosts clean may look for a
route over another host than prepare used, which cannot happen exactly if there is one host or no
such route is left; with none prepare fails on the nodes that need one.

Adding routes between the nodes stops at the first destination that is already there, deleting at
the first route that is not, and "up" and "down" then go on. The topology map is walked in a fresh
order for each family, so what ends up in the table can depend on that order: with one of two
routes there, "up" adds the other one if it meets it first, and nothing otherwise. `MeshWalks`
says exactly for which tables all orders get everything done. In particular, from a table with
none of the routes, an interrupted "up" is completed by another one in all orders if and only if it
had added nothing or everything, and taken back by "down" in all orders if and only if it had added
nothing, the whole first family, or everything.

## Model

| member | source | states |
|---|---|---|
| Text.LinesOfPrint | cleanup.go:18-26 | printing lines and reading them back gives the same lines, when the last is not blank (or the only one) |
| Text.ReadBackDropsBlanks | cleanup.go:18-26 | reading back any printed lines drops exactly the blank lines at the end |
| Text.PrintInjective | cleanup.go:18-26 | different line lists print differently |
| Tags.RevertConfigInfo | cleanup.go:16-27 | the loop computes the reverted text |
| Tags.TagRoundTrip | cleanup.go:20-24 | stripping undoes commenting out; the result passes for an addition only for one line |
| Tags.RevertManaged | cleanup.go:16-27 | a reverted file is untagged, stays well formed, and a second revert changes nothing |
| HostsFile.MatchingNodeIndex | prepare.go:161-168 | the first node whose name occurs in the line, or -1 when none does |
| HostsFile.UpdateHostsInfo | prepare.go:175-202 | the loop computes the updated text, and sets exactly the flags of the nodes it sighted in place |
| HostsFile.EveryNodeIsListed | prepare.go:175-202 | every node not sighted before has an active line that holds its name and its address, if only inside other text; for entries see HostsEntries.NodeHasEntry |
| HostsFile.OldLinesSurvive | prepare.go:180-195 | old lines survive in order, bare or commented out; an active one holds the address of its first matching node |
| HostsFile.UpdateKeepsManaged | prepare.go:175-202 | the original lines can still be recovered, and a second update with the same nodes changes nothing |
| HostsFile.NamedNodesAreHarmless | prepare.go:161-168 | node names with a letter or a digit never claim the lookalike line |
| HostsFile.LookalikeIsTagged | prepare.go:175-202 | a claimed lookalike line is not in the output in a form a revert could restore |
| HostsFile.SubstringNameGetsNoEntry | prepare.go:161-168 | concrete input: for nodes "a" and "ab" the entry of "ab" is taken for one of "a", so "ab" gets a second entry and "a" gets none |
| HostsLines.UpdatedLinesExactly | prepare.go:175-202 | the whole output: the old lines in order without earlier additions, behind the tag exactly those that are active, hold a node's name and lack the address of the first such node; then one entry for each node, in list order, that no active old line covers by holding its name and address and no earlier node's name |
| HostsLines.AddedExactlyWhenMissing | prepare.go:184-200 | a node gets an entry if and only if no old line covers it |
| HostsLines.ReprintedExactlyWhenComplete | prepare.go:175-202 | a file without additions is only printed again if and only if every node is covered and no line is outdated |
| HostsEntries.AddedLineEntry | prepare.go:196-200 | by its fields, an added line is the entry of its own node and of no other |
| HostsEntries.NodeHasEntry | prepare.go:161-202 | a node has an active entry in the output if and only if no old line covers it (holds its name and address and no earlier node's name), or some old line is its entry and is left active |
| HostsEntries.EveryNodeHasEntry | prepare.go:161-202 | every listed node has one if and only if this holds for each of them |
| HostsEntries.OnlyEntriesAreCommentedOut | prepare.go:161-195 | only lines that name the host they are matched with are commented out if and only if no active old line holds the name of its first match merely inside other text while lacking that node's address |
| HostsEntries.OtherHostsAreLeftAlone | prepare.go:161-195 | lines naming none of the nodes are left active if and only if none of them holds a node's name in its text while lacking the address of the first such node |
| HostsEntries.LongerNameIsCommentedOut | prepare.go:161-195 | for every host name that is longer than a node's and holds it, the host's line is commented out unless the node's address occurs in it |
| ResolvConf.UpdateResolvConfInfo | prepare.go:245-273 | the loop computes the updated text |
| ResolvConf.UpdateKeepsManaged | prepare.go:245-273 | the original lines can still be recovered, and a second update with the same server changes nothing |
| ResolvConf.ClusterServerComesFirst | prepare.go:245-273 | the first nameserver line names the cluster's server, and no later one does |
| ResolvConf.UpdatedLinesExactly | prepare.go:245-273 | the whole output: additions aside one line for each old one in order, behind the tag exactly if it starts with "nameserver", holds the server and is not the first such line; one line is added, in front of the first such line or at the end, exactly if that line does not hold the server or there is none |
| EditRuns.AnyRunIsReversible | prepare.go:175-273 | after any run of updates and reverts on an untagged file, one revert gives the original lines, each newline-terminated |
| EditRuns.RunKeepsOriginal | prepare.go:175-273 | in every state of such a run the original lines can be recovered |
| EditRuns.UpdatesAreIdempotent | prepare.go:175-273 | in every state of such a run, an edit done twice is an edit done once, byte for byte |
| EditRuns.ReversibleExactlyWhenHarmless | prepare.go:175-202 | all runs with a node list are reversible if and only if no node claims the lookalike line of the file |
| EditRuns.TwoUpdatesLoseLookalike | prepare.go:175-202 | otherwise two updates already lose a line for good |
| TokenYaml.UpdateConfigYAMLContents | init.go:178-206 | the loop computes the updated text |
| TokenYaml.LastWriterWins | init.go:178-206 | updating with one token and hash and then with others equals updating with the others alone, up to trailing newlines |
| TokenYaml.OtherLinesAreKept | init.go:178-206 | all lines that are neither token, hash nor "general:" lines keep content and order |
| TokenYaml.NewValuesAreRead | init.go:178-206 | a reader of the updated file finds, under each of the two keys, at least one value, always the same, which unquotes to the new token and the new hash |
| TokenYaml.UnquoteQuoted | init.go:192-193 | what is written in quotes reads back as it was, for every byte string |
| TokenYaml.NewValuesOnly | init.go:178-206 | every "general:" line is followed by two indented lines that read as the new token and the new hash, and there is no other token or hash line |
| Numerals.RenderingsAgree | networker.go:24-35 | decimal and hexadecimal text of a number are equal if and only if it is below ten |
| Numerals.RenderRoundTrip | networker.go:24-35 | the value of a rendering is the number rendered |
| PodSubnets.MakePrefixFromNetwork | validate.go:267-284 | the loop computes the prefix text |
| PodSubnets.PodSubnetParses | plugin.go:28-40 | prefix and subnet text together parse, to the network with the ID in the next eight bits |
| PodSubnets.PodSubnetIsRight | plugin.go:28-40 | the number denoted is network + ID * 2^(120 - size) |
| PodSubnets.BlocksAreDisjoint | plugin.go:28-40 | the blocks of different IDs are disjoint, and lie in the network |
| PodSubnetsExact.PodSubnetExactly | validate.go:267-284 | for sizes that are a multiple of 8 up to 104: the text denotes the subnet if and only if the network's canonical text ends in "::" or it is the all-zero /8; otherwise it is no address |
| PodSubnetsExact.InNetworkExactly | plugin.go:28-40 | for every ID, and sizes that are a multiple of 8 up to 104: the text denotes an address in the pod network if and only if the ID is below 256 and the network is one of those; a larger ID gives no address where it is written into the upper byte, and elsewhere none or one outside the network |
| PodSubnetsExact.LongNetworksNeverParse | plugin.go:28-40 | for sizes 112 and 120 the text is never an address, whatever the ID |
| PodSubnetsExact.OtherSizesAreWrong | plugin.go:28-40 | for every size that is not a multiple of 8 the text of node 1 is not network + 2^(120 - size) |
| NodeAddresses.GatewayMatchesNodeText | networker.go:24-35 | a peer's gateway text equals the address part of its own CIDR: always in IPv6, exactly below ten in IPv4 |
| NodeAddresses.NodeAddress6 | networker.go:24-35 | IPv6, last group zero: hexadecimal text denotes network + ID, decimal text exactly below ten |
| NodeAddresses.NodeAddress6Exactly | networker.go:24-35 | for any IPv6 network: hexadecimal text denotes network + ID for every ID if and only if the last group of the network is zero |
| NodeAddresses.NodeAddress4 | networker.go:24-35 | IPv4: decimal text denotes network + ID, hexadecimal text exactly below ten, and is an address exactly if its digits are decimal |
| NodeAddresses.V4Parts | validate.go:293-296 | the IPv4 prefix is the canonical text without its last octet |
| NodeAddresses.CidrText | netmgr.go:99-110 | address text, slash and size are read back as the masked address and the size |
| NodeAddresses.V6TextParses | validate.go:331-353 | canonical IPv6 text reads back as the address it was written for |
| NodeAddresses.TenthAddress6 | prepare.go:18-27 | the prefix with "a" behind it denotes the tenth address of an IPv6 network if and only if its last group is zero |
| PeerRoutes.PodDest | plugin.go:123-127 | the destination text of a peer's route denotes the peer's pod block, in both families |
| PeerRoutes.PeerBlocksDiffer | plugin.go:123-127 | different IDs have different pod blocks |
| PeerRoutes.PodAddressHasOneNode | plugin.go:28-40 | in both families every address of a node's pod block is in the cluster's pod network, and in no other node's block |
| PeerRoutes.GatewayDenotesPeer | plugin.go:123-127 | the gateway text denotes the peer's management address: always over IPv6, over IPv4 exactly below ten |
| Validation.Configuration.ExtractNetInfo | validate.go:331-353 | accepts exactly readable CIDRs of an allowed size, and splits them |
| Validation.Configuration.CalculateDerivedFields | validate.go:358-437 | accepts exactly the configurations whose networks are present, readable, sized and of the families the mode asks for; then the fields are the derived ones |
| Validation.Configuration.DerivePodFields | validate.go:398-428 | the pod part: accepts exactly networks of the families the mode asks for, and makes room for the node ID |
| Validation.SizesExactly | validate.go:306-353 | in an accepted configuration, which other prefix lengths would be accepted as well: over IPv4 8 and 16 for management, 16 for pods, below 24 for services; over IPv6 all |
| Validation.Configuration.ValidateUniqueIDs | validate.go:39-50 | accepts exactly topologies without a repeated ID, in every map order |
| Validation.Configuration.ValidateNodeOpModes | validate.go:54-103 | accepts exactly legal role lists, and sets the flags they name |
| Validation.Configuration.ValidateOpModesForAllNodes | validate.go:111-133 | accepts exactly valid topologies with one master; the stored topology is the same for every map order |
| Validation.Configuration.DetermineMasterNode | up.go:169-176 | returns a master if there is one, in every map order |
| Validation.RolesAreWhatNodesName | validate.go:54-133 | with clear flags: accepted if and only if one node names master, none names master and minion, dns64 and nat64 come together and only in IPv6 mode, and all names are legal; then the flags are those named |
| Validation.FoldIgnoresCase | validate.go:54-103 | two role names count as the same if and only if they differ in case only |
| Validation.TheMasterIsUnique | up.go:169-176 | the accepted topology has exactly one master, and each node stores its own name |
| MappingPool.ValidateNAT64Fields | validate.go:463-495 | accepts exactly if all three settings are there and readable and the mapping address and the pool's address are in the support network |
| MappingPool.PoolInsideSupport | validate.go:460-495 | after that check the whole pool is in the support network if and only if its prefix is no shorter than the support network's |
| NodeList.BuildNodeInfo | prepare.go:137-157 | the list is a function of the configuration: the same for every map order |
| NodeList.ByNameIsUnique | prepare.go:153-156 | two lists with the same entries, sorted by name, are equal |
| AddressChoice.AdvertisedIsListed | prepare.go:46-157 | the advertised address equals the one in the hosts files if and only if some management network has the service family; otherwise it is a bare number and no address |
| AddressChoice.AdvertisedIsOwn | prepare.go:46-55 | it denotes the node's own address if and only if it is IPv4 or the ID is below ten |
| AddressChoice.JoinReachesAdvertised | up.go:92-113 | the join endpoint is the advertised address if and only if the first management network has the service family |
| AddressChoice.InterfaceAddress | networker.go:24-30 | the CIDR put on the interface denotes the node's address on the network, with the network's size |
| Acceptance.AcceptedIsUsable | validate.go:580-655 | every node of an accepted configuration meets what prepare and clean require, if names have a letter or digit, IDs fit a byte, IPv6 clusters are managed over IPv6 and the DNS64 and NAT64 server addresses can be read |
| Acceptance.HostsAreApart | prepare.go:297-304 | with unique IDs the texts of the NAT64 hosts are addresses, different ones for different hosts |
| Acceptance.AcceptedNeedsOneHost | prepare.go:297-355 | on a cluster node of an accepted IPv6 configuration without the server, all orders of the topology give one and the same successful result if and only if exactly one node hosts it; for tables without a route to the DNS64 network yet |
| Samples.IPv6SampleIsFit | sample-config.yaml:7-37 | the IPv6 sample configuration is accepted, and every node of it is fit for prepare, clean and the route mesh |
| Samples.NoHostNoResult | prepare.go:297-355 | concrete input: the sample without a NAT64 host is accepted, and no order of the topology gives any node a result |
| Samples.TwoHostsTwoResults | prepare.go:297-355 | concrete input: the sample with two hosts is accepted, and the result on the third node depends on the order |
| Samples.PartialUp | plugin.go:122-146 | concrete input: on the sample's master, with only the route to the second minion there, "up" completes the table in one order and leaves it unchanged in another |
| Samples.DualSampleIsFit | sample-dual-stack-config.yaml:3-25 | the dual-stack sample with a /16 for its IPv4 management network is accepted, and every node of it is fit for prepare and clean |
| Samples.DualPartialClean | cleanup.go:65-83 | concrete input: on a host of it with both addresses, a clean that stops after the first address leaves a state from which no clean reaches the target |
| Samples.BareHostIsFresh | cleanup.go:290-327 | a host without any of the resources is fresh and has its destinations free, for every configuration and node |
| LinkSearch.FindLinkIndexForCIDR | netmgr.go:76-95 | returns the first link with an IPv4 address in the network |
| LinkSearch.FirstIsFound | netmgr.go:76-95 | links after the first one that serves the network do not matter |
| LinkSearch.BridgeIsFound | netmgr.go:76-95 | that is the support bridge in every order of the links if and only if no other link has an address in the network |
| LinkSearch.AddressExistsOnLink | netmgr.go:39-50 | true exactly if the address with its size is listed; false when the list cannot be read |
| HostMachine.Host.ResourceState | docker.go:26-39 | a failed inspect reads as "not present" |
| HostMachine.Host.DeleteVolume | docker.go:186-195 | the volume changes only while no DNS64 container exists |
| HostMachine.Host.RunContainer | docker.go:139-142 | success needs a free name; a start reported as failed may leave a container, created or running |
| HostMachine.Host.DeleteNetwork | docker.go:162-171 | refused while a container runs; the routes over the bridge go with it |
| HostMachine.Host.AddRoute | netmgr.go:114-156 | adds exactly one route, or says that the destination is taken, or fails |
| HostMachine.Host.DeleteRoute | netmgr.go:129-172 | removes exactly the route asked for, or says that there is none, or fails |
| HostMachine.Host.AddAddressToLink | netmgr.go:19-34 | adds exactly the address |
| HostMachine.Host.RemoveAddressFromLink | netmgr.go:53-72 | removes exactly the address, and skips one that is not there |
| SaveFile.SaveFileContents | file.go:24-47 | whatever fails, the old contents are in the file or the backup; with at most one failed call the file holds exactly the old or the new contents; no other file changes |
| SaveFile.RecoverFile | file.go:50-57 | puts the backup back, or leaves it in place |
| RouteMesh.DoRouteOpsOnNodes | plugin.go:109-151 | for the two orders in which the topology was walked: without failing calls the table is the one those walks give, also after an early exit; success adds (removes) exactly the wanted routes, and does not depend on the orders: it comes exactly if the wanted routes are consistent and all free (all there); however it stops, only wanted routes were touched, those of the first family first |
| RouteMesh.DoRouteOpsForEntry | plugin.go:112-148 | one family: it gets through all its peers, or ends where the walk in that order ends |
| RouteMesh.DoRouteOp | plugin.go:117-146 | one peer and family: either one more wanted route is done, or the walk ends with only wanted routes touched; without failing calls it ends exactly where the route is there already (or, for deletion, is not) |
| MeshWalks.UpCompletesExactlyWhen | plugin.go:109-151 | without failing calls all wanted routes are there after adding, in every pair of orders, if and only if no destination was taken by another route, those of the second family were all there or all missing, and those of the first all missing, or else nothing at all was |
| MeshWalks.DownCompletesExactlyWhen | plugin.go:109-151 | none is there after deleting, in every pair of orders, if and only if those of the second family were all there or all missing, and those of the first all there, or else everything was missing |
| MeshWalks.RetryCompletesExactlyWhen | up.go:213-224 | the same operation completes an interrupted one in every pair of orders if and only if that had done nothing or everything |
| MeshWalks.UndoCompletesExactlyWhen | plugin.go:155-165 | the opposite operation takes back an interrupted one in every pair of orders if and only if that had done nothing, exactly the first family, or everything |
| MeshWalks.OrderDecides | plugin.go:122-146 | two peers, one route there: one order completes the table, the other one leaves it unchanged |
| MeshWalks.CreateRoutesForPodNetwork | plugin.go:155-158 | whatever error is ignored: without failing calls the table has all wanted routes where every pair of orders gives them; else only wanted routes were added |
| MeshWalks.RemoveRoutesForPodNetwork | plugin.go:162-165 | the same for their removal |
| MeshTheorems.UpThenDown | plugin.go:155-165 | create and then remove, each under its own map order, restores the table |
| MeshTheorems.AddThenDelete | plugin.go:109-151 | a table that got the wanted routes and lost them is the original one |
| MeshTheorems.RoutesAdded | plugin.go:109-151 | exactly one route per other cluster node and configured family is added |
| MeshTheorems.WantedRoute | plugin.go:112-129 | for an accepted configuration: what destination and gateway of each wanted route denote; no gateway where the only management network is of another family |
| MeshTheorems.WantedRoutesDiffer | plugin.go:112-129 | no two wanted routes share a destination |
| MeshTheorems.PeersExactly | plugin.go:109-122 | a route is wanted exactly to every other node that is a master or minion, once for each family, and on masters and minions only |
| MeshTheorems.AcceptedPodIsGood | validate.go:398-428 | every accepted IPv4 pod network is one the address scheme works for |
| MeshTheorems.AcceptedIsConsistent | plugin.go:112-146 | the wanted routes of an accepted configuration are consistent if and only if every IPv4 gateway text has decimal digits only; with pods and management of different families, if and only if there are no peers |
| MeshTheorems.FullMesh | plugin.go:109-151 | after the add step every other cluster node's block is routed, in each family, over its address on the management network of the same family |
| Gateways.FindHostIPForNAT64 | prepare.go:297-304 | finds the first NAT64 host in the order the map is walked, or none |
| Gateways.FoundIsHost | prepare.go:297-304 | whatever is found is some host's text, and nothing is found only if there is none |
| Gateways.HostIsFound | prepare.go:297-304 | every host is found in some order |
| Gateways.OneTextExactlyWhenOneHost | prepare.go:297-304 | all orders find one and the same text if and only if there is exactly one host |
| Gateways.OneGatewayExactlyWhenOneHost | prepare.go:297-332 | all orders lead over one and the same next hop if and only if there is exactly one host |
| NodePlan.OneResultExactlyWhenOneHost | prepare.go:309-355 | for tables without a route to the DNS64 network yet: both route steps together give one and the same successful result in all orders if and only if there is exactly one host |
| NodePlan.RoutesByAreRouted | prepare.go:309-355 | in every order the result has all wanted routes, each over some host, and no other new one |
| NodePlan.NoGatewayNoResult | prepare.go:309-355 | without a host there is no result in any order |
| NodePlan.PreparedIsStable | prepare.go:674-710 | preparing a prepared state changes nothing, whichever hosts are met: running prepare twice is running it once |
| NodePlan.OneHostFewGateways | prepare.go:297-355 | there is no choice of hosts where there is one host or none, on a host itself, and outside IPv6 clusters |
| NodePlan.PreparedIsUnique | prepare.go:674-710 | with no choice of hosts there is one state prepare can leave |
| Prepare.CreateSupportNetwork | prepare.go:464-477 | done or skipped means the network exists, and nothing else changed |
| Prepare.CreateConfigForDNS64 | prepare.go:481-506 | success means a volume with the generated named.conf |
| Prepare.EnsureDNS64Server | prepare.go:522-550 | success means a running server; only container and volume change |
| Prepare.RemoveIPv4AddressOnDNS64Server | prepare.go:554-572 | success, or no IPv4 address, means a running server without one |
| Prepare.AddRouteForDNS64Network | prepare.go:576-587 | success or skipped means the server has its route |
| Prepare.PrepareDNS64Server | prepare.go:592-609 | success is the target state; only container and volume change |
| Prepare.EnsureNAT64Server | prepare.go:614-637 | success means a running server; a running one is left alone |
| Prepare.EnsureRouteToNAT64 | prepare.go:641-652 | success or skipped means the pool's route, if its destination was free |
| Prepare.PrepareNAT64Server | prepare.go:656-668 | success is the target state; failure keeps the target |
| Prepare.ConfigureManagementInterface | prepare.go:359-382 | success is exactly the node's addresses and the MTU; failure leaves part of them |
| Prepare.AddHostEntries | prepare.go:206-223 | success is exactly the updated hosts file; failure keeps the target |
| Prepare.AddResolvConfEntry | prepare.go:277-293 | success is exactly the updated resolv.conf; failure keeps the target |
| Prepare.CreateKubeletDropInFile | prepare.go:31-44 | success is exactly the drop-in file; a partial write keeps the target |
| Prepare.CreateKubeAdmConfigFile | prepare.go:115-125 | success is exactly kubeadm.conf; failure keeps the target |
| Prepare.CreateRouteToNAT64ServerForDNS64Subnet | prepare.go:309-332 | adds the route over the bridge on the NAT64 node, elsewhere over the host met first; one that is there is no error; without a host it fails and changes nothing |
| Prepare.CreateRouteToSupportNetworkForOtherNodes | prepare.go:337-355 | on nodes without servers adds the route over the host met first; without a host it fails and changes nothing |
| Prepare.EditFiles | prepare.go:399-419 | the file edits of a cluster node: success is exactly the target files; failure keeps the target |
| Prepare.CreateRoutes | prepare.go:421-431 | success is what two walks of the topology give; without failing calls it succeeds exactly if there is a host to route to; only wanted routes are added |
| Prepare.PrepareClusterNode | prepare.go:389-434 | success is the target with all wanted routes; however it stops, only wanted routes are added and the rest of the target stays the same; without a host all but the routes gets done |
| Prepare.Prepare | prepare.go:674-710 | from any state in which the two edited files exist and no edit has been tampered with, and with any number of NAT64 hosts: success is a prepared state; however it stops (stranded backup aside) whatever the new state can lead to the old one could; without failing calls it succeeds exactly if there is a host for a node that needs one |
| PreparedNode.PreparedResolver | prepare.go:228-293 | on a prepared node the first name server, and the only line with its text, is the DNS64 server in IPv6 mode, else the node's own address text of the hosts list |
| PreparedNode.ListedIsOwn | prepare.go:137-243 | that text denotes an address on the node's interface if and only if the listed network is IPv4 or the ID is below ten |
| PreparedNode.PreparedGateways | prepare.go:297-355 | a prepared node without the server has routes to the DNS64 network and the support network; a new one goes over the very address put on some NAT64 host's interface, network + ID |
| PreparedNode.PreparedServers | prepare.go:309-668 | on a prepared NAT64 host both servers run, the DNS64 server without IPv4 address, with its route and named.conf; the pool is reached over an address in the IPv4 support network, the DNS64 network over the NAT64 server |
| PreparedNode.NoOtherRoutes | prepare.go:309-355 | no other route is new: none outside IPv6 mode, and there only to the pool, the DNS64 network and the support network, on the nodes that need them |
| PreparedNode.PreparedSettings | prepare.go:359-382 | the node's own addresses are added to its interface and no others; pod MTU and kubeadm.conf are as configured |
| PreparedNode.PreparedHosts | prepare.go:137-223 | the hosts file has an active line with name and address text of every node of the cluster |
| PreparedNode.ClusterDNS | prepare.go:18-44 | the drop-in file names the tenth address of the service network: always over IPv4, over IPv6 if and only if the last group of the network is zero |
| PreparedNode.MappingIsInSupport | validate.go:463-495 | an accepted mapping address masks to the IPv4 support network |
| PreparedNode.SynthesisPrefix | validate.go:429-435 | the prefix for synthesized addresses reads as the DNS64 network |
| CleanPlan.GoneStays | cleanup.go:147-327 | later removals bring nothing back |
| CleanPlan.RemovalExactlyWhenOneHost | cleanup.go:100-141 | on a node without the server a route prepare added is removed in every order of the topology if and only if there is exactly one NAT64 host |
| CleanPlan.AddrsCleanExactly | cleanup.go:65-83 | both addresses go if and only if the second is not there without the first |
| CleanPlan.PartialCleanBreaksOrder | cleanup.go:65-83 | in dual-stack mode, from every state with both addresses, a clean that stops after the first leaves the second there without it |
| CleanPlan.WalksAgreeExactlyWhen | cleanup.go:100-141 | on a cluster node without the server every pair of walks takes away all routes that are to go if and only if there is exactly one NAT64 host or no route over a host is left |
| CleanPlan.ShrinksSameTarget | cleanup.go:290-327 | a partial clean leaves the same to be reached, apart from addresses; those too where the second is never there without the first |
| CleanPlan.CleanTargetHasNothingLeft | cleanup.go:290-327 | the target has nothing left of any resource; in dual-stack mode the addresses are gone if and only if the first was there or the second was not |
| Cleanup.RemoveDropInFile | cleanup.go:49-61 | removes the drop-in file; an error if there is none |
| Cleanup.RemoveManagementIP | cleanup.go:65-83 | without failing calls: an error exactly if an address is missing, and then, if it is the first, neither is removed |
| Cleanup.RevertEntries | cleanup.go:32-45 | success is exactly the reverted file; no other file changes |
| Cleanup.RemoveRouteForDNS64 | cleanup.go:100-121 | removes exactly the route over the bridge, or over the host met first, if it is there |
| Cleanup.RemoveRouteForNAT64 | cleanup.go:125-141 | removes exactly the route to the support network over the host met first, if it is there |
| Cleanup.RemoveContainer | cleanup.go:198-208 | removes the container; an error exactly if there is none |
| Cleanup.RemoveSettings | cleanup.go:150-171 | drop-in file, addresses and edited files: each is tried, and what is not reported is gone |
| Cleanup.RevertFiles | cleanup.go:162-171 | each file is tried, whatever happens to the other |
| Cleanup.RemoveRoutes | cleanup.go:173-187 | both routes of an IPv6 cluster node are tried, and no other route changes; without failing calls the result is what two walks give |
| Cleanup.CleanupClusterNode | cleanup.go:147-194 | all removals are tried; what is not reported is gone; without failing calls the routes left are what two walks leave, and with no choice of NAT64 hosts exactly what was missing is reported |
| Cleanup.CleanupDNS64Server | cleanup.go:212-241 | the same for container and volume |
| Cleanup.CleanupNAT64Server | cleanup.go:245-271 | the same for the pool's route and the container |
| Cleanup.CleanupSupportNetwork | cleanup.go:275-286 | removes the network and the routes over it; an error exactly if there is none |
| Cleanup.CleanupServers | cleanup.go:301-320 | servers and network: what is not reported is gone; without failing calls nothing is left |
| Cleanup.Cleanup | cleanup.go:290-327 | whatever fails, only what clean is to remove changes, and what is not reported is gone; without failing calls the target is reached, routes over one of several NAT64 hosts aside, and otherwise exactly what was missing is reported; where two routes to be deleted share a destination, something is always reported |
| Lifecycle.PrepareUntilDone | prepare.go:674-710 | after any number of failed runs, one run without failing calls leaves a state one successful run could have left, the only one if there is no choice of NAT64 hosts; without a host all but the routes is reached |
| Lifecycle.FreshIsClean | cleanup.go:290-327 | clean only tidies trailing newlines on a fresh host |
| Lifecycle.PreparedIsFound | prepare.go:674-710 | after prepare on free destinations there is something to every removal |
| Lifecycle.ReachesSameClean | cleanup.go:290-327 | wherever prepare gets to, there is the same left to clean |
| Lifecycle.CleanInvertsPrepare | cleanup.go:290-327 | clean takes every state prepare can leave on a fresh host back to it, apart from MTU, kubeadm.conf and trailing newlines |
| Lifecycle.PrepareThenClean | cleanup.go:290-327 | on a fresh host, any prepare that succeeds and then a clean without failing calls, with no choice of NAT64 hosts: the host is as before, and with free destinations clean reports nothing if and only if no two routes it is to delete on this node share a destination |
| Lifecycle.RestoredExactlyWhenInOrder | cleanup.go:65-121 | a clean without failing calls restores the host if and only if the second address was not there without the first and it found the routes to remove |
| Lifecycle.AnyHistoryThenClean | cleanup.go:290-327 | after any history of prepare and clean runs failing anywhere, in every mode, one clean without failing calls restores the fresh host exactly under that condition; prepare alone never breaks the order of the addresses; on a node without servers the routes left are what the last two walks leave, all that is to be left if all walks agree |
| Lifecycle.SecondAddressStays | cleanup.go:65-83 | after a clean that stopped anywhere, another still reaches the target if and only if the second address is not there without the first |

## Left out

- docker, netlink and file system internals: their calls are methods on an abstract state with a choice of failures.
- openssl, systemctl, kubeadm, command dispatch, YAML parsing and logging are not part of this model.
- named.conf, kubeadm.conf and the CNI configuration: fixed text with fields filled in; the first two are opaque values of the configuration, the third is not modelled.
- CIDR settings: a setting is absent, unreadable, or the masked network found in it; the library's own reader is only modelled for the texts the program builds.
- IPv6 text with a dotted IPv4 tail, and zones, are not read by the address parser.
- ASCII only: role names are compared with ASCII case folding, and quoting of the token and the hash writes every byte that is not printable ASCII as an escape, where the library keeps valid UTF-8.
- Node names, addresses and the name server are taken to be single-line text in the runs on a host.
- SaveFile.SaveFileContents: file modes, created directories and backups of earlier runs are not modelled; a backup that cannot be put back leaves the run "stranded", and Prepare and Lifecycle then promise nothing about files.
- LinkSearch.FindLinkIndexForCIDR: used on its own; in the host's state the bridge is simply found while the network exists, which LinkSearch.BridgeIsFound shows to need that no other link has an address there.
- Token, hash and version checks are single patterns.
- PodSubnetsExact.PodSubnetExactly: IDs to 255; PodSubnetsExact.InNetworkExactly says what larger ones give, as the program does not check them.
- PodSubnetsExact.InNetworkExactly: a /0, and IPv4-mapped networks, which the library shows as IPv4, are not covered.
- PeerRoutes.PodDest: IPv4 texts, gateways and blocks for IDs to 255 only, here and in MeshTheorems.
- PodSubnetsExact.OtherSizesAreWrong: sizes below 120, the pod subnet being eight bits longer.
- NodeAddresses.NodeAddress6: networks whose last group is zero; NodeAddresses.NodeAddress6Exactly shows that no other will do. PeerRoutes.GatewayDenotesPeer and AddressChoice.DecimalDenotesNode likewise; IDs to 255. The program checks neither.
- PeerRoutes.GatewayDenotesPeer: management networks whose last group is zero, see the line before.
- AddressChoice.DecimalDenotesNode: the same.
- Acceptance.AcceptedIsUsable: what the program never checks is assumed: node names with a letter or digit and without line breaks, IDs to 255, IPv6 management in IPv6 mode, and readable DNS64 and NAT64 server addresses.
- Lifecycle.PrepareThenClean: the report is exact only where the routes' destinations are free and there is no choice of NAT64 hosts.
- Prepare.Prepare: the hosts file and resolv.conf are taken to exist, in a form the edits leave behind; so in all members of Prepare, Cleanup and Lifecycle that edit files.
- MeshWalks.UpCompletesExactlyWhen: for wanted routes that are all readable and different, as MeshTheorems.AcceptedIsConsistent shows them to be; else adding never succeeds.
- HostMachine.Host.DeleteVolume: docker's refusal to delete a volume in use is taken as given.
- HostMachine.Host.DeleteNetwork: docker's refusal to delete a network in use is taken as given.
- HostsEntries.NodeHasEntry: for names and addresses without blanks or "#", and different names, as a node list has them.
- Bringing links down and removing the pod bridge in "down", and placing certificates, are not part of this model.
- Prepare.RemoveIPv4AddressOnDNS64Server: the interface listing is read as a yes or no, not searched for the address text.
- PodSubnets.BlocksAreDisjoint: speaks of IPv6 numbers; the IPv4 blocks are covered by PeerRoutes.PodAddressHasOneNode.
- Lifecycle.AnyHistoryThenClean: with several NAT64 hosts it depends on the walks of the last clean whether it finds the routes; CleanPlan.WalksAgreeExactlyWhen says when it always does.
