# Verified models of the CNI address allocator, the tunnel codec and the node-to-node services

Dafny 4.11 models of five components, each with proofs over every input or every run.
`dafny verify dfyconfig.toml` checks the whole project.

## Components

**Address allocation** (`GoStrings`, `InetAddr`, `IpamRecord`, `IpamStore`, `IpamService`,
`IpamRefinement`, `IpamCluster`, `IpamSafety`). Hosts share a key/value store. It holds a pool of
networks, one network per registered host, and per host a `;`-joined record of used addresses.
`IpamService` is the service object with its loops over strings. Each method is proved against a
function from the store before to the store after, and `IpamRefinement` shows that these functions
compute on strings what an allocator on integer sequences computes. `IpamCluster` and `IpamSafety`
prove what holds over every interleaving of calls by any number of hosts. An operation is one atomic
step; the mutex of the program lives in one process and orders nothing between hosts, so atomicity
is an assumption. The store never fails, and an absent key reads as the empty string.

The central safety theorem (`ClusterSafety`) needs three conditions: at most 256 hosts; no host asks
for an address once network+255 is in its record; a base address with a zero among its first three
octets, which masks 8 and 16 always give. Without the second, `ExhaustionCollides` gives a run in which
two hosts of a pool of adjacent blocks hold one address, and `StaysInBlockIff` shows the guard to be exact for the next address.
The other two are exact for guarded runs (`SafeIff`); `TooManyHostsCollide` and
`LastOctetPoolCollides` are the guarded runs that fail.

**IPv4 frames** (`Bytes`, `Checksum`, `IPFrame`, `TunLoops`, `TunDevice`). The incremental parser,
the printer and the header checksum (format: section 3.1 of RFC 791; checksum: sections 1 and 4.1 of
RFC 1071), and the two forwarding loops around them. `TunDevice` holds the imperative code over a
growable FIFO buffer; `IPFrame` and `TunLoops` hold what it is proved against: parsing and printing
invert each other, and as long as no frame is rejected the loops do not depend on how the stream is
cut. A frame whose length field is shorter than its header makes the program panic after the bytes
were read; the model keeps that as an outcome of its own, `Panic`, after which the loop forwards
nothing more.

**Port range allocator** (`PortAllocator`). The wrap-around scan, the channel operations and the
release as a class, and the filler, the 16-slot channel and any number of clients as a step system
in which reserving a port and sending it are separate steps. Each uninterrupted call of the class is
proved to be the matching step or steps. The random start is any number below the size.

**Pipe listener** (`PipeListener`). Any number of concurrent calls of `Close`, `DialContext` and
`Accept`; every load, lock, check, channel close, store, unlock, send and receive is a step. The
class `Listener` holds the uninterrupted calls, each proved to be one schedule of these steps.

**Tunnel identities** (`EdgeTunnel`). One node with its `nodePeerMap`, `relayMap` and relay flags as
a class, and a network of any number of nodes with discovery streams in flight. The derivation of a
peer ID from a name is any partial function. Nodes are honest about their own name, and the ID at
the other end of a stream is the authenticated one.

## Where the code differs from its comments or its purpose

- The pool comment speaks of 255 networks; the code makes 256 (`PoolIsNetworks`).
- "currentNetwork always ends in .0" fails with mask 24 when no earlier octet is 0: the pool then
  counts through the last octet and its networks overlap (`LastOctetPoolCollides`). With a 0 in an
  octet under the mask, the pool counts outside the subnet (`PoolFitsIff`).
- After 256 registrations the pool is refilled and networks are handed out again (`SharedNetworkIff`).
- The 255th address of a host lies in the next block (`Overflow`), and released addresses below the
  maximum are not used again even then (`LeavesFreeBlock`). In the last block of the address space
  the loop of `UnusedIP` never ends (`TerminationIff`, `OverflowDiverges`).
- `Set.IPs` compares new addresses with the stored ones but not with each other (`AppendedNoDup`, `DuplicateRecorded`).
- The service is meant to be built once but is built on every call; that is harmless
  (`ReinitHarmless`, `PathSettles`).
- The checksum folds its carry only once (`ChecksumIff`, `CarryIsLost`).
- Rejecting a frame throws away everything buffered, so that after a bad frame the cut into chunks
  does matter (`SplitChunkIff`, `ChunkingIff`, `RejectionForgets`).
- `Release` does not check that the caller holds the port, which can then be handed out twice
  (`ReleaseKeepsIff`, `StrayRelease`).
- The scan reports exhaustion as -1, which a negative base makes an ordinary port; drawing it loses it
  (`ConservationIff`, `LostPort`).
- Neither side of a discovery compares the name in the message with the peer ID (`MappedKeepsIff`),
  and the caller may finish before the handler has recorded it (`CompletionMayPrecede`).

## Model

| member | source | states |
|---|---|---|
| `GoStrings.SplitJoin` | cnis/vlhostcni/pkg/ipam/ipam.go:560-574 | splitting a joined list returns the list if and only if it is non-empty and no field holds the separator |
| `GoStrings.JoinSplit` | cnis/vlhostcni/pkg/ipam/ipam.go:236-245 | joining what was split returns the string, for every string |
| `InetAddr.QuadRoundTrip` | cnis/vlhostcni/pkg/utils/ip_trans.go:9-18 | converting an integer to text and back gives it modulo 2^32 |
| `InetAddr.QuadCanonical` | cnis/vlhostcni/pkg/utils/ip_trans.go:9-18 | every text accepted as an address is the one that printing its value gives |
| `InetAddr.QuadInjective` | cnis/vlhostcni/pkg/utils/ip_trans.go:9-12 | two integers print alike if and only if they agree modulo 2^32 |
| `InetAddr.QuadLayout` | cnis/vlhostcni/pkg/utils/ip_trans.go:9-12 | the text is the four bytes in base ten, the most significant first, between dots |
| `InetAddr.MalformedIsZero` | cnis/vlhostcni/pkg/utils/ip_trans.go:14-18 | text that no address prints as counts as 0 |
| `InetAddr.GetMaxIP` | cnis/vlhostcni/pkg/utils/ip_trans.go:20-34 | the result is the entry of the largest value, the first one among equals |
| `IpamRecord.AppendIPs` | cnis/vlhostcni/pkg/ipam/ipam.go:192-210 | the loop of Set.IPs computes the record string that the next two rows speak about |
| `IpamRecord.AppendedEntries` | cnis/vlhostcni/pkg/ipam/ipam.go:179-214 | Set.IPs keeps all entries in place and adds behind them exactly the given addresses that were missing |
| `IpamRecord.AppendedNoDup` | cnis/vlhostcni/pkg/ipam/ipam.go:194-210 | the new record has no duplicates if and only if the old one had none and the missing addresses are pairwise different |
| `IpamRecord.DuplicateRecorded` | cnis/vlhostcni/pkg/ipam/ipam.go:194-210 | a concrete record and call after which one address is recorded twice |
| `IpamRecord.ReleaseIPs` | cnis/vlhostcni/pkg/ipam/ipam.go:560-574 | the nested loops of Release.IPs compute the record string that the next row speaks about |
| `IpamRecord.ReleasedEntries` | cnis/vlhostcni/pkg/ipam/ipam.go:560-574 | exactly the given addresses disappear, the others keep their order, and the empty record stays empty |
| `IpamRecord.NextUnusedIP` | cnis/vlhostcni/pkg/ipam/ipam.go:475-487 | the proposed address is the text of network+2 or of the maximum plus 1, modulo 2^32 |
| `IpamRecord.ReservedOctet` | cnis/vlhostcni/pkg/ipam/ipam.go:160-177 | the gateway test holds exactly of addresses ending in .1, the reserved test exactly of those ending in .0 |
| `IpamRecord.AllocationResult` | cnis/vlhostcni/pkg/ipam/ipam.go:525-548 | on any record below the top address UnusedIP returns the first usable address from the proposal on and records the skipped ones and it, in order |
| `IpamRecord.TerminationIff` | cnis/vlhostcni/pkg/ipam/ipam.go:525-548 | UnusedIP ends if and only if the record is empty or its maximum is not 255.255.255.255, then within three iterations and never on .0 or .1 |
| `IpamRecord.AppendRefines` | cnis/vlhostcni/pkg/ipam/ipam.go:179-214 | appending on the string is appending what the integer sequence lacks, on every sequence |
| `IpamRecord.ReleaseRefines` | cnis/vlhostcni/pkg/ipam/ipam.go:550-581 | releasing on the string is filtering the integer sequence |
| `IpamRecord.NextRefines` | cnis/vlhostcni/pkg/ipam/ipam.go:465-488 | proposing on the string is network+2 or maximum+1 on the integers, in whatever order they are recorded |
| `IpamRecord.AllocationRefines` | cnis/vlhostcni/pkg/ipam/ipam.go:525-548 | allocating on the string is allocating on the integers, on every sequence: same address, same record |
| `IpamStore.KeysWritten` | cnis/vlhostcni/pkg/ipam/ipam.go:106-121 | all keys written out; that of a record carries the prefix twice |
| `IpamStore.HostKeys` | cnis/vlhostcni/pkg/ipam/ipam.go:106-121 | host keys agree if and only if the hosts do, and meet the pool key only for a host named "pool" |
| `IpamStore.RecordKeys` | cnis/vlhostcni/pkg/ipam/ipam.go:106-121 | a record key determines host and network and is never a host key or the pool key |
| `IpamStore.PoolIsNetworks` | cnis/vlhostcni/pkg/ipam/ipam.go:262-284 | the generated pool string lists exactly the 256 addresses base + j * step, in order, with the step of the first zero octet |
| `IpamStore.NetworksDistinct` | cnis/vlhostcni/pkg/ipam/ipam.go:272-283 | two networks are equal if and only if their ranks agree modulo 256; otherwise their /24 blocks do not overlap, unless the pool counts the last octet |
| `IpamStore.PoolFitsIff` | cnis/vlhostcni/pkg/ipam/ipam.go:262-283 | all networks lie in the configured subnet if and only if the mask is not 24 and no octet under it is 0 |
| `IpamStore.ServiceConfigValid` | cnis/vlhostcni/pkg/ipam/ipam.go:630-665 | any subnet text and mask, malformed ones included, give a subnet that is an address with its host part cleared |
| `IpamStore.ServiceConfigChosen` | cnis/vlhostcni/pkg/ipam/ipam.go:630-665 | a mask in the text decides over the argument, which decides without one; the subnet is the aligned block of that size that holds the address asked for |
| `IpamStore.ExampleConfigs` | cnis/vlhostcni/pkg/ipam/ipam.go:630-665 | 10.244.0.0 without a mask stays as it is; 10.244.7.9/24 with another mask as argument gives 10.244.7.0 |
| `IpamStore.ReinitHarmless` | cnis/vlhostcni/pkg/ipam/ipam.go:217-285 | initialising a registered host again changes no key but the pool's, and that only by refilling it when empty |
| `IpamStore.PathSettles` | cnis/vlhostcni/pkg/ipam/ipam.go:106-117 | after getHostPath, every nested initialisation leaves the whole store as it is |
| `IpamService.Etcd.Get` | cnis/vlhostcni/pkg/etcd/client.go:147-162 | an absent key reads as the empty string |
| `IpamService.Etcd.Set` | cnis/vlhostcni/pkg/etcd/client.go:129-136 | exactly the one key changes |
| `IpamService.IpamService.constructor` | cnis/vlhostcni/pkg/ipam/ipam.go:630-665 | the branches on mask and slash build the configuration that ServiceConfigChosen pins down |
| `IpamService.IpamService.IPsPoolInit` | cnis/vlhostcni/pkg/ipam/ipam.go:252-285 | the search loop and the counting loop write the pool of PoolIsNetworks, or nothing when there is a pool |
| `IpamService.IpamService.NetworkInit` | cnis/vlhostcni/pkg/ipam/ipam.go:217-250 | a new host gets the head of the pool and the pool its tail; a registered one changes nothing; the result is what the store holds for the host |
| `IpamService.IpamService.GetIpamService` | cnis/vlhostcni/pkg/ipam/ipam.go:667-686 | effect of one call on the store: pool first, then the host |
| `IpamService.IpamService.GetHostPath` | cnis/vlhostcni/pkg/ipam/ipam.go:106-113 | runs the initialisation twice and returns the key of the host |
| `IpamService.IpamService.GetRecordPath` | cnis/vlhostcni/pkg/ipam/ipam.go:115-117 | runs the initialisation again and returns the key of the record |
| `IpamService.IpamService.SetIPs` | cnis/vlhostcni/pkg/ipam/ipam.go:179-214 | despite the nested initialisations only the record of the host is rewritten once the store is settled |
| `IpamService.IpamService.ReleaseIPs` | cnis/vlhostcni/pkg/ipam/ipam.go:550-581 | likewise with the filtered record |
| `IpamService.IpamService.NextUnusedIP` | cnis/vlhostcni/pkg/ipam/ipam.go:465-488 | the proposal is made from the record and network of the settled store, which it does not change |
| `IpamService.IpamService.UnusedIP` | cnis/vlhostcni/pkg/ipam/ipam.go:525-548 | the loop with its nested service calls has the one-step effect used in the runs: same address, same store |
| `IpamRefinement.InitRefines` | cnis/vlhostcni/pkg/ipam/ipam.go:667-686 | initialisation on the store is refilling the abstract pool and appending the host to the abstract list |
| `IpamRefinement.UnusedRefines` | cnis/vlhostcni/pkg/ipam/ipam.go:525-548 | UnusedIP on the store returns if and only if the host has not recorded 255.255.255.255, and then is the abstract allocation |
| `IpamRefinement.ReleaseKVRefines` | cnis/vlhostcni/pkg/ipam/ipam.go:550-581 | Release.IPs on the store is the abstract filter |
| `IpamCluster.StepKeeps` | cnis/vlhostcni/pkg/ipam/ipam.go:525-581 | every step of any host keeps the representation and the exact match of records and live addresses of all hosts |
| `IpamCluster.RunKeeps` | cnis/vlhostcni/pkg/ipam/ipam.go:179-285 | so does every run from the empty store |
| `IpamCluster.ReachableIsValid` | cnis/vlhostcni/pkg/ipam/ipam.go:179-214 | every reachable store meets the precondition of the methods of the service |
| `IpamCluster.HostView` | cnis/vlhostcni/pkg/ipam/ipam.go:465-488 | what a host sees of a reachable store: its record encodes an increasing sequence and its network is that of its rank |
| `IpamCluster.RecordHoldsLive` | cnis/vlhostcni/pkg/ipam/ipam.go:179-214 | after any run a record is strictly increasing and is the live addresses of the host plus .0 and .1 markers |
| `IpamCluster.NewAddressIsLargest` | cnis/vlhostcni/pkg/ipam/ipam.go:482-485 | after any run the next address exceeds every recorded one |
| `IpamCluster.NetworksOfRun` | cnis/vlhostcni/pkg/ipam/ipam.go:225-249 | after any run exactly the hosts that made a call are registered; in the order of their first calls they hold the networks of the pool in order, and the pool string is exactly the rest of the round |
| `IpamCluster.SharedNetworkIff` | cnis/vlhostcni/pkg/ipam/ipam.go:236-245 | after any run two registered hosts have the same network in the store if and only if their first calls were a multiple of 256 places apart in the order of first calls |
| `IpamCluster.DistinctIff` | cnis/vlhostcni/pkg/ipam/ipam.go:225-285 | after any run the registered hosts have pairwise different networks in the store if and only if they are at most 256 |
| `IpamCluster.NetworkPermanent` | cnis/vlhostcni/pkg/ipam/ipam.go:225-228 | no later steps of any hosts change the network of a registered host |
| `IpamSafety.GuardedKeeps` | cnis/vlhostcni/pkg/ipam/ipam.go:525-581 | in a guarded run every call returns and every recorded address stays in the block of its host |
| `IpamSafety.ClusterSafety` | cnis/vlhostcni/pkg/ipam/ipam.go:217-285 | in every guarded run of at most 256 hosts no address is live twice, on one host or on two, and each lies in [network+2, network+255] |
| `IpamSafety.SafeIff` | cnis/vlhostcni/pkg/ipam/ipam.go:217-285 | two or more hosts are safe in every guarded run if and only if the pool does not count through the last octet and they are at most 256 |
| `IpamSafety.LiveInSubnet` | cnis/vlhostcni/pkg/ipam/ipam.go:659-665 | under the condition of PoolFitsIff every live address belongs to the configured subnet |
| `IpamSafety.StaysInBlockIff` | cnis/vlhostcni/pkg/ipam/ipam.go:475-487 | the next address stays in the block if and only if network+255 is not recorded |
| `IpamSafety.Capacity` | cnis/vlhostcni/pkg/ipam/ipam.go:475-548 | from an empty record the k-th of 254 calls in a row returns network+1+k, and record string and live list grow by exactly these addresses, whatever other hosts did before |
| `IpamSafety.CapacityAbove` | cnis/vlhostcni/pkg/ipam/ipam.go:475-548 | from a record with maximum m, after any guarded run, calls in a row return m+1, m+2, ... up to network+255, whatever was released below m |
| `IpamSafety.LeavesFreeBlock` | cnis/vlhostcni/pkg/ipam/ipam.go:475-581 | a run after which 253 addresses of a block are free, one is used, and the next call returns network+258 |
| `IpamSafety.CapacityIsGuarded` | cnis/vlhostcni/pkg/ipam/ipam.go:475-548 | the 254 calls of Capacity satisfy the guard of ClusterSafety, after any guarded run |
| `IpamSafety.Overflow` | cnis/vlhostcni/pkg/ipam/ipam.go:475-548 | the 255th call returns network+258 and records network+256 and network+257 |
| `IpamSafety.OverflowDiverges` | cnis/vlhostcni/pkg/ipam/ipam.go:525-548 | in the last block of the address space the 255th call does not return |
| `IpamSafety.ExhaustionCollides` | cnis/vlhostcni/pkg/ipam/ipam.go:475-548 | a run without the guard in which two hosts hold the same address |
| `IpamSafety.LastOctetPoolCollides` | cnis/vlhostcni/pkg/ipam/ipam.go:263-283 | a guarded run of three calls with overlapping networks in which two hosts hold the same address |
| `IpamSafety.SharedNetworkCollides` | cnis/vlhostcni/pkg/ipam/ipam.go:252-285 | hosts with ranks equal modulo 256 are offered the same first address |
| `IpamSafety.TooManyHostsCollide` | cnis/vlhostcni/pkg/ipam/ipam.go:252-285 | a guarded run in which the 1st and the 257th host hold the same address |
| `Bytes.WordOfBytes` | tunvpn/util/byteutils.go:5-8 | reading a word at two bytes is shifting the first by eight and or-ing the second, on bit vectors |
| `Bytes.BytesOfWord` | tunvpn/util/byteutils.go:17-22 | writing a word gives its masked and shifted bytes, the high one first, on bit vectors |
| `Checksum.ToCheckSum` | tunvpn/util/ipframe.go:295-305 | the loop over 32 bits stores the complement of the halves of the unbounded word sum, added without carry |
| `Checksum.EveryWordCounts` | tunvpn/util/ipframe.go:298-302 | the word sum of zeros is 0, and replacing any aligned pair of bytes changes it by the difference of the two words |
| `Checksum.ChecksumOfHeader` | tunvpn/util/ipframe.go:295-305 | the checksum of one header with both addresses set |
| `Checksum.FoldIsRemainder` | tunvpn/util/ipframe.go:295-305 | folding all carries, as RFC 1071 wants, is the remainder modulo 65535 with 65535 for non-zero multiples |
| `Checksum.ChecksumIff` | tunvpn/util/ipframe.go:262-305 | for every header of up to 60 bytes the finished sum is 0xffff if and only if the halves add without carry; else the value is one more than that of RFC 1071 |
| `Checksum.CarryIsLost` | tunvpn/util/ipframe.go:295-305 | a concrete header whose checksum a receiver refuses |
| `IPFrame.ParseIff` | tunvpn/util/ipframe.go:88-184 | the parser finds a frame if and only if it is well-formed and the bytes at the front are its bytes, for any buffer |
| `IPFrame.ParsedFields` | tunvpn/util/ipframe.go:115-183 | every field of a parsed frame is the number in its bits of section 3.1 of RFC 791, read bit by bit |
| `IPFrame.PrintedFields` | tunvpn/util/ipframe.go:233-293 | every field of a well-formed frame, and the new checksum, is printed into those bits |
| `IPFrame.OutcomeIff` | tunvpn/util/ipframe.go:90-131 | when the parser rejects, panics and waits, each if and only if, by the first byte and the length field |
| `IPFrame.WaitingEnds` | tunvpn/util/ipframe.go:90-131 | whatever the parser waits with, some further bytes make it decide |
| `IPFrame.ParseAfterPrint` | tunvpn/util/ipframe.go:88-293 | parsing a printed well-formed frame followed by anything returns the frame with the checksum filled in and takes exactly its bytes |
| `IPFrame.PrintAfterParse` | tunvpn/util/ipframe.go:133-269 | printing a parsed frame returns the bytes taken except for the checksum, and all of them if and only if the checksum was already there |
| `IPFrame.PrintedIsStable` | tunvpn/util/ipframe.go:88-293 | parse then print is idempotent |
| `IPFrame.PrintedChecksumIff` | tunvpn/util/ipframe.go:262-264 | a printed header verifies at a receiver if and only if its sum carries only once |
| `TunLoops.RejectionIff` | tunvpn/tun/tun.go:222-239 | a loop with an empty buffer throws a chunk away without a trace if and only if it is empty or has four bytes and does not begin with 0x45 to 0x4f |
| `TunLoops.RejectedTail` | tunvpn/tun/tun.go:222-239 | in any buffer: rejection happens if and only if such bytes follow the frames that could be forwarded, which are forwarded |
| `TunLoops.RejectedThenFrames` | tunvpn/tun/tun.go:226-229 | what follows a rejected chunk is handled as if the loop had just started |
| `TunLoops.SplitChunkIff` | tunvpn/tun/tun.go:220-239 | cutting a chunk in two changes nothing if and only if the first part is not rejected or the second is empty or itself rejected |
| `TunLoops.RejectionForgets` | tunvpn/tun/tun.go:226-229 | five concrete bytes that leave different buffers when read at once and in two parts |
| `TunLoops.ChunkingIff` | tunvpn/tun/tun.go:208-242 | a stream gives the same frames and the same state under every cut if and only if it is not rejected before its last byte has arrived |
| `TunLoops.ChunkingIndependence` | tunvpn/tun/tun.go:208-242 | in particular a stream that is never rejected does not depend on the cut |
| `TunLoops.ReceiveFrames` | tunvpn/tun/tun.go:208-242 | the same for the whole loop on any chunks |
| `TunLoops.LoopSettles` | tunvpn/tun/tun.go:236-236 | everything a loop forwards is a whole frame that a second loop would not change, on any input |
| `TunLoops.RelayIsTransparent` | tunvpn/tun/tun.go:208-286 | end to end: what one loop forwards passes the other loop byte for byte, however it is cut, and leaves nothing behind |
| `TunDevice.FrameObject.ToBytes` | tunvpn/util/ipframe.go:233-270 | the appended and patched bytes are the print the round trips speak about, and only the checksum field of the object changes |
| `TunDevice.ParseIPFrame` | tunvpn/util/ipframe.go:88-184 | result, error and remaining bytes in all five outcomes, and each error if and only if its first bytes are there; a rejection takes nothing from the buffer |
| `TunDevice.ParseOptions` | tunvpn/util/ipframe.go:153-163 | the array filled line by line holds the options of the header |
| `TunDevice.OptionsToBytes` | tunvpn/util/ipframe.go:272-293 | the loop prints the options one after the other, as OptionAt finds them |
| `TunDevice.TunIf.NextFrame` | tunvpn/tun/tun.go:222-239 | one round of the inner loop: it takes one frame off what is to be drained, or ends it in the right error |
| `TunDevice.TunIf.ForwardFrames` | tunvpn/tun/tun.go:222-239 | the inner loop drains the buffer, ends in the right error, and takes each target from the frame it sends |
| `TunDevice.TunIf.TunReceiveLoop` | tunvpn/tun/tun.go:208-242 | what goes into the pipe over any chunks, and what stays buffered |
| `TunDevice.TunIf.TunWriteLoop` | tunvpn/tun/tun.go:245-286 | the socket is asked to send every frame to the address in bytes 16 to 19 of itself, over any packets, whether or not sends fail |
| `TunDevice.TunIf.Write` | tunvpn/tun/tun.go:102-134 | the frames of one packet are sent up to the first failing send, which is returned; without one the error is nil exactly when no frame was broken, and an unfinished rest is lost |
| `PortAllocator.ScanComplete` | libp2p/test/port/port_allocator.go:114-139 | the scan fails if and only if all bits are set, from every random start; otherwise it finds a clear bit in range |
| `PortAllocator.ScanTakesNext` | libp2p/test/port/port_allocator.go:118-138 | the scan takes the clear bit that comes first after its random start, wrapping around |
| `PortAllocator.RangeAllocator.constructor` | libp2p/test/port/port_allocator.go:77-90 | a new allocator is the start of the step system |
| `PortAllocator.RangeAllocator.NextFreePort` | libp2p/test/port/port_allocator.go:114-139 | -1 with all bits set and nothing changed, or a port whose bit was clear and is the only one set |
| `PortAllocator.RangeAllocator.FillPortsOnce` | libp2p/test/port/port_allocator.go:102-109 | one round of the filler is a Reserve and a Send step; it fails exactly on a full bitset or on drawing the port -1 |
| `PortAllocator.RangeAllocator.AllocateNext` | libp2p/test/port/port_allocator.go:141-148 | returns the oldest buffered port, which leaves the channel and becomes held, as a Take step, or none as a Timeout step |
| `PortAllocator.RangeAllocator.Release` | libp2p/test/port/port_allocator.go:150-158 | is a Release step; out of range it clears nothing |
| `PortAllocator.RunConserves` | libp2p/test/port/port_allocator.go:94-158 | in every run in which clients give back only what they hold, the set bits are the disjoint union of buffered, in-flight and held ports |
| `PortAllocator.ConservationIff` | libp2p/test/port/port_allocator.go:77-139 | all runs conserve the ports if and only if -1 is not a port of the range |
| `PortAllocator.PortConservation` | libp2p/test/port/port_allocator.go:94-158 | over all runs no port is held twice, the next port to be handed out is held by nobody, and at most 17 are reserved and not held |
| `PortAllocator.PortsInOrder` | libp2p/test/port/port_allocator.go:102-148 | over all runs the ports returned, followed by the channel, are the ports sent, in order; held ports are among those returned |
| `PortAllocator.SendIff` | libp2p/test/port/port_allocator.go:77-109 | over all runs the filler can send if and only if fewer than 16 ports wait, and a client can take if and only if one does |
| `PortAllocator.ExhaustionIff` | libp2p/test/port/port_allocator.go:102-139 | with nothing buffered or in flight the scan fails if and only if clients hold every port |
| `PortAllocator.ReleaseKeepsIff` | libp2p/test/port/port_allocator.go:150-158 | a release keeps the conservation if and only if the port is out of range, held, or not reserved |
| `PortAllocator.StrayRelease` | libp2p/test/port/port_allocator.go:94-158 | a run from the start in which a port that nobody holds is given back and two clients end up holding it |
| `PipeListener.CloseOnce` | netconn/pkg/common.go:41-53 | the channel is closed at most once, at most one call returns nil, and once any call has returned exactly one closed it |
| `PipeListener.CloseProgress` | netconn/pkg/common.go:41-53 | no call of Close is stuck: it can move, or the holder of the lock can |
| `PipeListener.DialAcceptConservation` | netconn/pkg/common.go:22-81 | accepts return the successful dials in send order, each at most once; successful dials are accepted plus queued, at most ten queued, also across Close |
| `PipeListener.CloseUnblocks` | netconn/pkg/common.go:39-53 | once a Close has returned no Accept and no dial in its select blocks; Accept can still return a connection exactly while one is queued |
| `PipeListener.SelectsIff` | netconn/pkg/common.go:30-37 | in every reachable state: Accept takes exactly while a connection is queued, a dial sends exactly while fewer than ten are, and both see the close exactly after the channel is closed |
| `PipeListener.RefusedMeansClosed` | netconn/pkg/common.go:60-80 | no dial is refused before the channel is closed |
| `PipeListener.DialsAfterClose` | netconn/pkg/common.go:60-80 | whatever happens after a Close has returned, every dial that has sent had sent or was in its select by then, and no dial gets to its select any more |
| `PipeListener.Listener.constructor` | netconn/pkg/common.go:22-27 | a new listener is the start of the step system |
| `PipeListener.Listener.Close` | netconn/pkg/common.go:41-53 | an uninterrupted call is the seven-step schedule; it fails exactly when done was set |
| `PipeListener.Listener.DialContext` | netconn/pkg/common.go:60-81 | an uninterrupted call is a schedule of three steps, for each case select may pick; only success touches the queue |
| `PipeListener.Listener.Accept` | netconn/pkg/common.go:30-37 | is one step, taking the oldest connection or reporting the close |
| `EdgeTunnel.GenerateRelayMap` | libp2p/test/udp/tunnel/util.go:155-180 | the nested loops compute the map RelayEntries speaks about |
| `EdgeTunnel.RelayEntries` | libp2p/test/udp/tunnel/util.go:155-180 | a name is in the map if and only if a listed node of that name has an ID and only good addresses; its entry is that of the last such node, with every address converted in order |
| `EdgeTunnel.GeneratedHonest` | libp2p/test/udp/tunnel/util.go:155-180 | every generated relay entry carries the ID derived from its name |
| `EdgeTunnel.Filter` | libp2p/test/udp/tunnel/util.go:182-203 | the filter loops compute the list KeptExactly speaks about |
| `EdgeTunnel.KeptExactly` | libp2p/test/udp/tunnel/util.go:182-203 | a filter keeps each address its test does not name as often as it occurs, nothing else, and in the given order |
| `EdgeTunnel.MergedExactly` | libp2p/test/udp/tunnel/util.go:62-67 | merging keeps the old addresses in place and adds each new one exactly once |
| `EdgeTunnel.NewEdgeTunnel` | libp2p/test/udp/tunnel/module.go:94-260 | there is a tunnel if and only if the name has an identity, and it starts with right identities and flags |
| `EdgeTunnel.NewNodeStarts` | libp2p/test/udp/tunnel/module.go:113-249 | it starts with nobody mapped, as a relay if and only if its file lists it with good addresses, and with the relay service if it is a server as well |
| `EdgeTunnel.EdgeTunnel.constructor` | libp2p/test/udp/tunnel/module.go:94-249 | the initial state: identity from the name, an empty node map, the generated relays, the relay service only on listed servers |
| `EdgeTunnel.EdgeTunnel.DiscoveryReply` | libp2p/test/udp/tunnel/tunnel.go:122-194 | a discovery maps the replied name to the dialled ID, unless that is the own ID or the reply is no success |
| `EdgeTunnel.EdgeTunnel.DiscoveryStreamHandler` | libp2p/test/udp/tunnel/tunnel.go:200-236 | answers a CONNECT with its own name and maps the asked name to the remote ID; anything else changes nothing |
| `EdgeTunnel.EdgeTunnel.GetProxyStream` | libp2p/test/udp/tunnel/tunnel.go:251-268 | cached or derived target and new cache; by NetworkIdentity that is always the derived one |
| `EdgeTunnel.EdgeTunnel.NodeNameFromPeerID` | libp2p/test/udp/tunnel/tunnel.go:481-488 | in any map order: a found name has that ID, and not found means that no name has it |
| `EdgeTunnel.EdgeTunnel.RefreshRelayMap` | libp2p/test/udp/tunnel/tunnel.go:536-551 | filtered and merged addresses under the old ID, or a new entry, as RefreshAddsPublic judges them |
| `EdgeTunnel.EdgeTunnel.FindRelays` | libp2p/test/udp/tunnel/tunnel.go:512-528 | a round over any peers keeps all identities right, loses no relay, ID or address, lists every peer with addresses whose ID is mapped, and nobody else |
| `EdgeTunnel.EdgeTunnel.DoReload` | libp2p/test/udp/tunnel/tunnel.go:662-692 | relay map and service flags in all branches, failures included, as ReloadKeeps and ReloadDecidesService judge them |
| `EdgeTunnel.MappedKeepsIff` | libp2p/test/udp/tunnel/tunnel.go:190-193 | the maps stay right if and only if the name in the message is the one the ID was derived from |
| `EdgeTunnel.RefreshAddsPublic` | libp2p/test/udp/tunnel/tunnel.go:536-551 | a refresh forgets no address, adds exactly the missing public, direct ones, and touches no other relay; a new relay gets the ID of the peer and exactly these addresses |
| `EdgeTunnel.ReloadKeeps` | libp2p/test/udp/tunnel/tunnel.go:662-692 | a reload keeps identities right and the two relay flags consistent, also when starting or closing the service fails |
| `EdgeTunnel.ReloadDecidesService` | libp2p/test/udp/tunnel/tunnel.go:662-692 | the relay map is that of the new file alone; a server runs the service if and only if it is listed and ran or could start it, or is not listed and could not close it; isRelay changes only with it |
| `EdgeTunnel.RunKeeps` | libp2p/test/udp/tunnel/tunnel.go:122-268 | every history keeps the invariant of all nodes and of all streams in flight |
| `EdgeTunnel.NetworkIdentity` | libp2p/test/udp/tunnel/tunnel.go:166-268 | in every history of any number of nodes each mapped name and each relay carries the ID derived from the name, and a proxy stream goes there |
| `EdgeTunnel.MappingsArePermanent` | libp2p/test/udp/tunnel/tunnel.go:190-265 | a mapping once made is never lost or changed by any later events |
| `EdgeTunnel.HandshakeIsMutual` | libp2p/test/udp/tunnel/tunnel.go:122-236 | in every history each end of a discovery that has finished knows the other end by name |
| `EdgeTunnel.HandshakeCompletes` | libp2p/test/udp/tunnel/tunnel.go:122-236 | from any state two nodes of different IDs can meet if the listener is a server, and then know each other |
| `EdgeTunnel.CompletionMayPrecede` | libp2p/test/udp/tunnel/tunnel.go:222-235 | a history in which the caller has finished and the handler does not know it yet |

## Left out

- Failures of etcd, which can stop an operation between two writes, TLS and the client singletons: the store is a map that never fails.
- Races between processes inside one IPAM operation, and the locks `lock`/`unlock`: each operation is atomic.
- InetAddr.InetIP2Int: text is an IPv4 dotted quad or invalid (value 0); IPv4-mapped IPv6 text, which Go's net.ParseIP also accepts, is not modelled.
- InetAddr.QuadCanonical: likewise about dotted quads only.
- IpamService.Etcd.Get: the error return is left out, because the store never fails.
- IpamService.Etcd.Set: the error return is left out, because the store never fails.
- IpamService.IpamService.UnusedIP: its precondition leaves out exactly the calls that never return; TerminationIff is about those.
- IpamService.IpamService.SetIPs: proved as a single call, but runs contain no direct call of Set.IPs by clients, only the ones inside UnusedIP.
- IpamStore.RecordKeys: host names with a slash, or named "pool", are excluded wherever keys must differ.
- Release.Pool: it writes to a key named by the value of the pool, outside the life cycle of addresses.
- The release in the CNI command, which passes addresses with a "/24" suffix that no record holds.
- Gateway, CIDR, NodeIp, HostNetwork, AllUsedIPs, node listing, netlink, bridge and route set-up: queries and foreign calls.
- TunDevice.ByteBuffer: the buffer library is not part of the repository; the class states what the program uses of it.
- TunDevice.TunIf.TunReceiveLoop: device reads, blocking on the pipe and logs are not modelled; the chunks are what the reads return.
- The command tunvpn/main.go, which forwards its whole 65536-byte array instead of the bytes read.
- The cool-down of the filler, the wall-clock timeout and the function that makes a new allocator per call: timers and wrappers.
- PipeListener.Listener.Close: the class covers uninterrupted calls; concurrent ones are the step system on values. The same holds of the port allocator.
- EdgeTunnel.NewEdgeTunnel: only identity, relay map, node map and relay service; the disabled tunnel, libp2p options and their failures, PSK, NAT, MaxCandidates and bootstrap are left out.
- EdgeTunnel.EdgeTunnel.GetProxyStream: the stream, its handshake and the circuit addresses in the peer store are library calls.
- EdgeTunnel.EdgeTunnel.FindRelays: sending relays to the peer source channel and querying the DHT are left out.
- EdgeTunnel.EdgeTunnel.DoReload: an unreadable file changes nothing; a file without the edgeTunnel section, on which the program dereferences nil, is not modelled.
- Go data races on `nodePeerMap` and `relayMap`, and the sharing of relay entries through pointers: events are atomic and entries are values.
- Key generation, the limits of streams, skel, adapter, vxlan and the test CNI: library wrappers.
