# CNI plugins: a verified model

This project models five parts of a collection of CNI network plugins in Dafny and proves what
they promise over every input, every table and every run:

1. **host-local address management**: address arithmetic on byte strings, ranges and range sets,
   configuration checks, the round-robin iterator, the store of reserved addresses, the allocator,
   and `cmdAdd`/`cmdDel` with rollback;
2. **portmap** as a small compiler from port mappings to iptables rules, its chains set up and torn
   down for many containers, and what the installed rules do to a packet;
3. **DHCP leases**: the lease times, the exponential backoff, the maintenance state machine, and the
   option parsers;
4. **village-ipam**: many clients assigning and deleting addresses through one shared ConfigMap;
5. **bridge address reconciliation** (`ensureAddr`).

Check everything with `dafny verify dfyconfig.toml`.

## How it is built

Code that changes state is a method or a class, proved against a function on values; lemmas then
say what that function means. The files, from the bottom up:

| files | content |
|---|---|
| `Wrappers`, `Bytes`, `Cidr`, `Masks` | big-endian bytes and the numbers they denote; Go's `net.IP` and mask operations bit by bit; `pkg/ip/cidr.go` |
| `Ranges`, `RangeMeaning`, `RangeSets`, `RangeInputs` | `range.go`, `range_set.go`, `config.go`; what they accept and produce, as intervals of numbers; inputs on which they fall short |
| `Ring`, `RangeIterator`, `IteratorCorners` | the addresses of a good range set as positions on a circle; the iterator on any set; it walks that circle, and where it goes on other accepted sets |
| `DiskStore`, `Allocator`, `AllocatorRuns` | the file store, `Get`/`Release` on any set and by positions, runs of them |
| `AllocatorExhaustion`, `AllocatorCorners` | how a good set fills up; what `Get` does on other accepted sets |
| `HostLocal`, `HostLocalOutcome`, `HostLocalRuns` | `cmdAdd`/`cmdDel` on any configuration; the outcome in good sets; a rollback that loses entries, other containers in between |
| `IPTables`, `PortmapChain`, `PortmapChainLaws` | the nat table, `chain.go`, laws of `setup` and `teardown` |
| `PortmapRules`, `PortmapMeaning`, `PortmapForward` | rule generation, what one container's rules do to a packet, `forwardPorts`/`unforwardPorts` |
| `PortmapRuns`, `PortmapPackets`, `PortmapHooks`, `PortmapJourneys` | the table after runs over many containers, what a packet meets then, packets at the kernel's hooks, all of it from an untouched table on |
| `DhcpOptions`, `DhcpLease` | options 3, 33, 51, 58, 59, 121; the lease |
| `Village`, `Bridge` | the ConfigMap client; `ensureAddr` |

## Where the code differs from what is said about it

The model follows the code.

- **Range end.** A good set is an accepted one without the exceptions of the next two entries
  (`Ring.CanonicalSetIsGood`). With two or more ranges, a search in it that begins after a last reserved
  address equal to its range's end remembers the wrong range as its start, so its stop test never
  succeeds. In a good set `Get` does not end exactly when, besides, the container holds nothing in the
  set, no address is requested and every address that is not its own range's gateway is reserved
  (`AllocatorRuns.GetEndsExactly`). Filling an empty store reaches this case whenever the last
  allocatable address ends its range, as in every set of several plain subnets
  (`AllocatorExhaustion.FillingGetsStuckExactly`, `AllocatorExhaustion.SubnetsGetStuck`).
- **Leading zero bytes.** `intToIP` drops them, so the default start of a subnet such as `0.1.0.0/16`
  is three bytes long (`RangeMeaning.StartInSubnetExactly`, `RangeMeaning.StartLengthExact`). Three
  things follow. The family check compares the lengths of starts, and so lets families mix
  (`RangeSets.FamilyCheckExactly`, `RangeInputs.MixedFamiliesPass`). The overlap check misses overlaps,
  exactly where `RangeSets.OverlapFoundExactly` says, which in IPv4 is where the starts are not equally
  long; two sets it lets pass are in `RangeInputs.ZeroNetworksEscapeTheCheck`, and two ranges that
  escape it because one ends in the IPv4-mapped block are in `RangeInputs.MappedEndsEscapeTheCheck`.
  And the iterator leaves the subnet and does not come back: on `0.1.0.0/16` alone the first `Get`
  reserves `?01` and no later one without request ends (`AllocatorCorners.FirstGetIsTheLast`; in general
  `AllocatorCorners.ZeroNetworkSearch`, `AllocatorCorners.StraySearch`, `IteratorCorners.OtherFamilyWalk`).
- **Start after end.** `Canonicalize` accepts such a range in exactly two cases
  (`RangeMeaning.CanonicalizeAccepts`): an IPv4 start equal to the broadcast address with omitted end
  (`RangeInputs.BroadcastStartIsAccepted`), and an end equal to the network address with omitted start
  below a leading zero byte (`RangeInputs.NetworkEndIsAccepted`). In the first case the iterator hands
  out the broadcast address and the addresses after it, none of which is in the range, and never comes
  back (`IteratorCorners.BroadcastStartWalk`, `IteratorCorners.BroadcastStartNeverEnds`,
  `AllocatorCorners.BroadcastStartGet`).
- **Rollback** releases by container, once per address reserved. It restores the owner map exactly if
  the container held nothing before (and, from two range sets on, no old-style entry), and never
  restores the last reserved addresses (`HostLocalOutcome.RollbackExact`,
  `HostLocalOutcome.AddInGoodSets`). A run that loses an old-style entry is `HostLocalRuns.LoseOldEntry`.
- **T2.** The code falls back to 85/100 of the lease time; section 4.4.5 of RFC 2131 says 0.875. The
  multiplication overflows above 108510259 seconds (`DhcpLease.DefaultRebindingExactly`).
- **Renewal.** `renew` ignores the error of `commit`. A server that answers every renewal without lease
  time keeps the interface up for ever (`DhcpLease.LeaselessRenewalsNeverEnd`). An acquire with such an
  answer fails, but without the backoff, so it need not take any time (`DhcpLease.LeaselessAcquireTakesNoTime`).
- **Routes.** RFC 3442 has static routes and router ignored when option 121 is present; the code ignores
  them when option 121 yields a route (`DhcpOptions.RouterIgnoredExactly`).
- **Comments** are to be trimmed to the 255 characters iptables allows. A trimmed comment has 256, so the
  limit is kept exactly by comments that need no trimming (`PortmapRules.TrimCommentExactly`): those of
  containers whose network name and id together have at most 235 characters
  (`PortmapRules.DnatCommentFits`; `PortmapRules.LongCommentBreaksTheLimit` is an input).
- **forwardPorts** says it first tears the container's chain down, but does not. What the chain held stays
  in front, so a packet meets the older mappings first (`PortmapChainLaws.SetupOverStale`,
  `PortmapPackets.StaleMappingsFirst`; `PortmapPackets.StaleMappingWins` is an input). The chain is as
  after a clean setup exactly when it held a beginning of that.
- **village-ipam** writes the key `<nil>` when a pool is exhausted. It is a separate key of the model,
  and statements about owners speak of real addresses. On `0.0.0.0/0` with every address taken its
  search does not end (`Village.FindFreeRounds`). An IPv6 pool around the IPv4-mapped block is searched
  only up to that block, which it does not contain (`Village.ContainsExactly`).

## Assumptions

- The store's lock is mutual exclusion: operations of the allocator happen one after the other.
- Ids and interface names are not empty, are trimmed and contain no line break, so an entry's content
  determines both. A canonical address is printed to one file name, and reading it back gives its 16-byte
  form; bytes that are no address are printed as a question mark and hexadecimal digits, which reads as none.
- Different containers have different portmap chain names, other than the plugin's own.
- Listing a chain and parsing a listed rule gives the rule back. A rule is accepted when its chain and
  its target exist; a chain is deletable when it is empty and no rule leads to it.
- The API server rejects an update made from a version that is no longer current.
- The random jitter is at least -1 s and below 1 s; a timer fires when it is due.
- The kernel refuses to add an IPv6 address it has, or an IPv4 address it has with the same prefix length.

## Model

| member | source | states |
|---|---|---|
| Cidr.Inc | plugins/ipam/village-ipam/client.go:121-128 | the in-place carry loop leaves in the buffer what Incremented gives, for every length including zero |
| Cidr.IncrementedValue | plugins/ipam/village-ipam/client.go:121-128 | for every byte length n, the carry adds one modulo 256^n |
| Cidr.NextIPAgreesWithInc | pkg/ip/cidr.go:23-26 | on canonical addresses NextIP gives the same bytes as the carry loop if and only if the carried result has a non-zero first byte; as a number it is always the successor |
| Cidr.NextIPFamily | pkg/ip/cidr.go:51-53 | the successor has the same length if and only if it fits and reaches into the first byte; it is then canonical |
| Cidr.PrevUndoesNext | pkg/ip/cidr.go:29-32 | PrevIP undoes NextIP if and only if the address has a non-zero first byte and is not the last of its family |
| Cidr.CmpIsLexicographic | pkg/ip/cidr.go:38-42 | within a family Cmp is the lexicographic order of the bytes and is zero only on equal addresses |
| Cidr.CanonicalizeIdempotent | plugins/ipam/host-local/backend/allocator/range.go:144-153 | canonicalizing accepts exactly 4- and 16-byte addresses and yields a fixed point: 4 bytes, or 16 bytes outside the IPv4-mapped block |
| Cidr.CanonicalOfTo16 | plugins/ipam/host-local/backend/disk/backend.go:88-95 | the 16-byte form read back from a file canonicalizes to the address that was written |
| Masks.MaskLengthExact | plugins/ipam/host-local/backend/allocator/range.go:34-37 | the mask length test accepts exactly the masks that consist of leading ones, and reads back how many |
| Masks.MaskedValue | plugins/ipam/host-local/backend/allocator/range.go:44-47 | masking byte by byte subtracts the value's remainder by the block size |
| Masks.BroadcastValue | plugins/ipam/host-local/backend/allocator/range.go:156-160 | or'ing with the complemented mask byte by byte gives the last number of the block |
| Masks.ContainsIsBlockTest | plugins/ipam/host-local/backend/allocator/range.go:103-106 | the byte-wise network test compares the quotients by the block size |
| Ranges.ComputeLastIP | plugins/ipam/host-local/backend/allocator/range.go:156-166 | the loop builds the subnet's last address, less one for IPv4 |
| RangeMeaning.LastIPValue | plugins/ipam/host-local/backend/allocator/range.go:156-166 | the default end is network + 2^h - 2 for IPv4 and network + 2^h - 1 for IPv6, without byte underflow |
| Ranges.Canonicalize | plugins/ipam/host-local/backend/allocator/range.go:27-88 | canonicalizing one range in place, with every error path and what it leaves behind, and no other range touched |
| RangeMeaning.CheckSubnetExact | plugins/ipam/host-local/backend/allocator/range.go:28-47 | the subnet checks pass exactly for networks of at least four addresses whose host part is clear |
| RangeMeaning.CanonicalizeAccepts | plugins/ipam/host-local/backend/allocator/range.go:27-88 | for every range: accepted exactly when the subnet is good, the given ends lie in it in the order Cmp sees and the gateway is readable; the stored ends, their numbers and the gateway exactly; the start is at most the end if and only if neither the start is the broadcast address with the end omitted nor the end is the network address below a leading zero byte with the start omitted |
| RangeMeaning.CanonicalizeRejects | plugins/ipam/host-local/backend/allocator/range.go:27-88 | for every range, the error is the first complaint in the order of the checks, read off the input: an unreadable subnet, a mask without two host bits, the other family, host bits, an unreadable gateway or start, a start outside the subnet or after the given end, an unreadable end, an end outside the subnet or before a readable default start |
| RangeMeaning.CanonicalizeLeaves | plugins/ipam/host-local/backend/allocator/range.go:27-88 | what it leaves in the range, rejected or not: each field in its stored form from the stage on that reads it, and as configured before |
| RangeMeaning.StartInSubnetExactly | plugins/ipam/host-local/backend/allocator/range.go:61-71 | an accepted range's start lies in the subnet if and only if it was given or the network's first byte is non-zero |
| Ranges.ContainsIsInterval | plugins/ipam/host-local/backend/allocator/range.go:91-124 | a well-formed range contains exactly the addresses of its family between its ends, in either written form |
| Ranges.OverlapsExact | plugins/ipam/host-local/backend/allocator/range.go:127-137 | for non-empty well-formed ranges the four-endpoint test is true exactly when some address is in both, and is symmetric |
| RangeSets.RangeFor | plugins/ipam/host-local/backend/allocator/range_set.go:30-42 | finds the first range containing the address, or reports that none does |
| RangeSets.SetsOverlap | plugins/ipam/host-local/backend/allocator/range_set.go:45-54 | true exactly when some range of one set overlaps some range of the other |
| RangeSets.CanonicalizeSet | plugins/ipam/host-local/backend/allocator/range_set.go:58-88 | rewrites the ranges in place and succeeds exactly on non-empty sets of acceptable ranges without overlap whose stored starts have one length; a failure names the first fault in reading order |
| RangeSets.AcceptedSetExactly | plugins/ipam/host-local/backend/allocator/range_set.go:58-88 | acceptance of a set read off the configured ranges: each acceptable on its own, all with starts of one length, no two overlapping |
| RangeSets.OneFault | plugins/ipam/host-local/backend/allocator/range_set.go:58-88 | a set has at most one fault in this sense, and has one only if it is not acceptable, so the error is determined |
| RangeSets.FamilyCheckExactly | plugins/ipam/host-local/backend/allocator/range_set.go:64-75 | the family check passes two accepted ranges if and only if their stored starts are equally long, which without leading zero bytes means that they are of one family |
| RangeSets.CanonicalizeArgs | plugins/ipam/host-local/backend/allocator/config.go:100-104 | succeeds exactly when every requested address is readable, and leaves their canonical forms |
| RangeSets.Gather | plugins/ipam/host-local/backend/allocator/config.go:106-116 | runtime sets first, then the legacy single range as a set of its own, then the other sets: array by array in this order, and no array twice |
| RangeSets.GatheredByIndex | plugins/ipam/host-local/backend/allocator/config.go:106-116 | the gathered sets by index: result k is runtime set k, the next one is the single range if there is one, the configured sets follow in order, and there are no more |
| RangeSets.CanonicalizeSets | plugins/ipam/host-local/backend/allocator/config.go:122-135 | succeeds exactly when every set is acceptable; then all are canonical and the counts are those of the families; a failure names the first bad set and its fault |
| RangeSets.CountsExact | plugins/ipam/host-local/backend/allocator/config.go:131-144 | neither count exceeds one if and only if no two sets are of one family |
| RangeSets.FindOverlap | plugins/ipam/host-local/backend/allocator/config.go:146-154 | succeeds exactly when no two sets have overlapping ranges; otherwise it names the first such pair |
| RangeSets.LoadIPAMConfig | plugins/ipam/host-local/backend/allocator/config.go:100-154 | succeeds exactly on acceptable configurations, and then yields, index by index, the canonical forms of the runtime sets, the legacy range and the configured sets; a failure names the first fault |
| RangeSets.AcceptedExactly | plugins/ipam/host-local/backend/allocator/config.go:100-154 | a configuration is accepted if and only if the requested addresses have 4 or 16 bytes, there is a set, every set is acceptable, no two sets have overlapping ranges, and, for an old version, no two sets have first starts that are both, or both not, four bytes long |
| RangeSets.OneConfigFault | plugins/ipam/host-local/backend/allocator/config.go:100-154 | a configuration has at most one fault in the order of the checks, and has one only if it is not acceptable, so the error with its indices is determined |
| RangeMeaning.StartLengthExact | plugins/ipam/host-local/backend/allocator/range.go:61-71 | the stored start has the length of the network if it was given, else the length of network + 1 without leading zero bytes |
| RangeMeaning.EndInSubnetExactly | plugins/ipam/host-local/backend/allocator/range.go:73-85 | an accepted range's end lies in the subnet if and only if it is not the default end of an IPv6 subnet in the IPv4-mapped block |
| RangeSets.OverlapFoundExactly | plugins/ipam/host-local/backend/allocator/range.go:127-137 | for any two accepted ranges with a common address the check finds the overlap if and only if their stored starts have the same length and it is that of an address, or the end of one is an address that does not lie behind the other's end; for IPv4, and away from the IPv4-mapped block, only the lengths matter |
| RangeSets.OverlapsOfNonEmpty | plugins/ipam/host-local/backend/allocator/range.go:127-137 | for two accepted ranges of one family that hold an address the check is true if and only if they share an address and it finds overlaps such as theirs, so it is never true without cause |
| RangeSets.EveryAddressInOneRange | plugins/ipam/host-local/backend/allocator/config.go:146-154 | in an accepted configuration two ranges that share an address, of one set or of several, are one and the same if the check finds overlaps such as theirs |
| RangeSets.OneRangeWithoutZeros | plugins/ipam/host-local/backend/allocator/config.go:122-154 | so without leading zero bytes every address lies in at most one range of one set |
| RangeSets.RangeForIsOrderIndependent | plugins/ipam/host-local/backend/allocator/range_set.go:30-42 | in an accepted set RangeFor finds the same range however the ranges are listed, unless the two it finds are a pair whose overlap the check does not find; for IPv4 without exception |
| RangeInputs.ZeroNetworksEscapeTheCheck | pkg/ip/cidr.go:51-53 | a concrete accepted configuration below 0.0.0.0/8 with an address in two sets |
| RangeInputs.MappedEndsEscapeTheCheck | plugins/ipam/host-local/backend/allocator/range.go:143-166 | in IPv6, two ranges with equally long starts and an address in both, because one ends in the IPv4-mapped block, are accepted as two sets and as one |
| RangeInputs.BroadcastStartIsAccepted | plugins/ipam/host-local/backend/allocator/range.go:61-85 | 10.0.0.0/24 with start 10.0.0.255 is accepted and ends at 10.0.0.254 |
| RangeInputs.NetworkEndIsAccepted | plugins/ipam/host-local/backend/allocator/range.go:61-85 | 0.1.0.0/16 with end 0.1.0.0 is accepted, with start 65537 after end 65536 |
| RangeInputs.MixedFamiliesPass | plugins/ipam/host-local/backend/allocator/range_set.go:64-75 | 10.0.0.0/24 and the IPv6 subnet ::b00:0/104 are accepted as one set, and the latter on its own counts as an IPv4 set |
| Ring.CanonicalSetIsGood | plugins/ipam/host-local/backend/allocator/range_set.go:58-88 | an accepted set, outside the two corner cases, consists of non-empty, pairwise disjoint ranges of one family whose addresses have no leading zero byte |
| Ring.SubnetAlone | plugins/ipam/host-local/backend/allocator/range.go:49-87 | a subnet configured alone is accepted and offers all its addresses but the network (and, in IPv4, the broadcast) address; its first one is the gateway, the only one |
| Ring.SubnetsTogether | plugins/ipam/host-local/backend/allocator/range_set.go:58-88 | any list of plain subnets of one family without common address is accepted as one set, which is good, and no range of it ends with its gateway |
| Ring.GatewayAsConfigured | plugins/ipam/host-local/backend/allocator/range.go:49-57 | in the canonical form of an accepted set, outside the two corner cases, an address is its range's gateway if and only if it was configured as that, or, with none configured, it is the one after the network address |
| Ring.ContainsIsPosition | plugins/ipam/host-local/backend/allocator/range.go:91-124 | a range contains exactly the addresses at its own positions of the circle |
| Ring.AddressInjective | plugins/ipam/host-local/backend/allocator/range_set.go:77-85 | different positions hold different addresses |
| Ring.Successor | plugins/ipam/host-local/backend/allocator/allocator.go:204-214 | stepping to the next number, or from a range's end to the next range's start, is one position on, wrapping around |
| RangeIterator.RangeIter.FromStart | plugins/ipam/host-local/backend/allocator/allocator.go:180-184 | begins at the first range of any set |
| RangeIterator.RangeIter.After | plugins/ipam/host-local/backend/allocator/allocator.go:168-179 | begins at an address found in a range of any set |
| RangeIterator.RangeIter.Step | plugins/ipam/host-local/backend/allocator/allocator.go:188-220 | on any set, one move of the cursor: to the first address, from a range's end to the next range's start, else to NextIP, with the stop test |
| RangeIterator.RangeIter.Next | plugins/ipam/host-local/backend/allocator/allocator.go:188-228 | on any set and whenever its recursion ends: moves over gateways until the stop test succeeds or an address is reached, which it returns with its range's mask and gateway |
| RangeIterator.FirstOnCircle | plugins/ipam/host-local/backend/allocator/allocator.go:180-184 | in a good set an iterator that begins at the first range will return to its start |
| RangeIterator.AfterOnCircle | plugins/ipam/host-local/backend/allocator/allocator.go:168-179 | in a good set an iterator that begins after the last reserved address returns to its start exactly when the next address is in the same range |
| RangeIterator.MoveOnCircle | plugins/ipam/host-local/backend/allocator/allocator.go:188-220 | in a good set each move is one position on; the stop test succeeds exactly when a full round is done and the walk can return to its start |
| RangeIterator.NextOnCircle | plugins/ipam/host-local/backend/allocator/allocator.go:188-228 | in a good set Next ends unless the walk cannot return and every address is a gateway; it answers the next address of the walk, and after the last one None, or, if the walk cannot return, the walk over again |
| RangeIterator.WalkExact | plugins/ipam/host-local/backend/allocator/allocator.go:186-228 | the walk has every address that is not its own range's gateway exactly once, in cyclic order from its first position |
| RangeIterator.WalkEmpty | plugins/ipam/host-local/backend/allocator/allocator.go:223-225 | the walk is empty exactly when every address is its own range's gateway |
| IteratorCorners.ZeroNetworkWalk | plugins/ipam/host-local/backend/allocator/allocator.go:188-228 | if the default start of the first range is no address, the cursor goes to it, then to the one byte 1, and stays there; the stop test succeeds there only for the network 0 |
| IteratorCorners.StrayWalk | plugins/ipam/host-local/backend/allocator/allocator.go:188-228 | from any address that is not its range's end and whose successor is no address the cursor goes to that successor, then to the one byte 1, and stays there; it comes back to its start only if the walk began with the one byte 1 |
| IteratorCorners.ZeroByteStrays | pkg/ip/cidr.go:23-26 | for IPv4 addresses with a zero first byte the successor is no address if and only if the address is not 0.255.255.255 |
| IteratorCorners.BroadcastStartWalk | plugins/ipam/host-local/backend/allocator/allocator.go:188-228 | in any set whose first range starts at the broadcast address with omitted end the cursor goes to that address, which is not in the range, and then through the addresses after it, which are not in the subnet, up to 255.255.255.255 |
| IteratorCorners.BroadcastStartNeverEnds | plugins/ipam/host-local/backend/allocator/allocator.go:188-228 | and then over five bytes to the one byte 1, without ever coming back to its start |
| IteratorCorners.OtherFamilyWalk | plugins/ipam/host-local/backend/allocator/allocator.go:188-228 | if an IPv6 subnet's default start has four bytes, the cursor goes through IPv4 from there on, never into the subnet, and never comes back |
| DiskStore.Store.Reserve | plugins/ipam/host-local/backend/disk/backend.go:59-85 | reserves exactly if the address has no file, then writes owner and last reserved address; otherwise changes nothing |
| DiskStore.SameFile | plugins/ipam/host-local/backend/disk/backend.go:60-64 | two addresses share a file if and only if they are equal as addresses, in whatever form |
| DiskStore.ReadBack | plugins/ipam/host-local/backend/disk/backend.go:88-95 | the name of an address's file reads back as that address in its 16-byte form |
| DiskStore.Store.LastReservedIP | plugins/ipam/host-local/backend/disk/backend.go:88-95 | the 16-byte form of the range set's last reserved address, if there is one |
| DiskStore.Store.ReleaseByKey | plugins/ipam/host-local/backend/disk/backend.go:138-158 | the walk that deletes as it goes removes all and only the files with the content, in any order, and says whether there were any |
| DiskStore.Store.ReleaseByID | plugins/ipam/host-local/backend/disk/backend.go:162-173 | removes the new-style entries, or, when there were none, the old-style ones |
| DiskStore.Store.GetByID | plugins/ipam/host-local/backend/disk/backend.go:176-202 | exactly the addresses whose file names container and interface, or in the old style the container alone |
| DiskStore.ReleasedTimesExact | plugins/ipam/host-local/backend/disk/backend.go:162-173 | what any number of releases in a row leaves: the second one takes the old-style entries the first one left |
| Allocator.EndlessExactly | plugins/ipam/host-local/backend/allocator/allocator.go:168-184 | in a good set a search cannot return to its start if and only if the set has several ranges and the last reserved address ends one |
| Allocator.IPAllocator.GetIter | plugins/ipam/host-local/backend/allocator/allocator.go:150-186 | on any set: the cursor stands at the last reserved address, in the first range containing it, or before the first address if there is none |
| Allocator.IPAllocator.HoldsOne | plugins/ipam/host-local/backend/allocator/allocator.go:79-85 | finds out whether some file of the container, of the new style or the old, is that of an address of this set |
| Allocator.IPAllocator.GetThis | plugins/ipam/host-local/backend/allocator/allocator.go:51-73 | on any set: a requested address is granted exactly when it is readable, in some range, not the gateway of the first such range, and free; otherwise nothing changes |
| Allocator.IPAllocator.Search | plugins/ipam/host-local/backend/allocator/allocator.go:87-111 | on any set and whenever it ends: reserves and returns the address at the first cursor of the walk that is free and no gateway, or reports exhaustion and changes nothing |
| Allocator.IPAllocator.SearchMoves | plugins/ipam/host-local/backend/allocator/allocator.go:91-105 | on any set, the loop cut off after any number of cursor moves: it has reserved, or is exhausted, or has not ended, exactly as the walk of cursors says |
| Allocator.IPAllocator.Get | plugins/ipam/host-local/backend/allocator/allocator.go:44-121 | on any set and whenever it ends: result, owner map and last reserved addresses, for every error |
| Allocator.DuplicateExactly | plugins/ipam/host-local/backend/allocator/allocator.go:79-85 | on any set an unrequested Get is refused as a duplicate, and then changes nothing, if and only if some file that names container and interface, or in the old style the container alone, is that of an address of the set |
| Allocator.SearchEndsOnCircle | plugins/ipam/host-local/backend/allocator/allocator.go:87-111 | in a good set the search ends if and only if it can return to its start or some address is free, and it finds the first free address in cyclic order, or none |
| Allocator.GetRequestedOnCircle | plugins/ipam/host-local/backend/allocator/allocator.go:51-73 | in a good set a requested address is granted if and only if it has a position there that is no gateway's and its address is free; which error it gets otherwise |
| Allocator.GetAdds | plugins/ipam/host-local/backend/disk/backend.go:59-85 | on any set a Get that succeeds adds one entry under a free key and remembers it, and one that fails changes nothing |
| Allocator.IPAllocator.Release | plugins/ipam/host-local/backend/allocator/allocator.go:124-129 | releases everything of the container, and leaves the last reserved addresses |
| AllocatorRuns.ChoiceIsFirstFree | plugins/ipam/host-local/backend/allocator/allocator.go:87-111 | an unrequested Get takes the first free address in cyclic order; it finds none exactly when every address that is not its own range's gateway is reserved |
| AllocatorRuns.AnswerOfItsRange | plugins/ipam/host-local/backend/allocator/allocator.go:107-121 | in a good set an answer carries the mask and the gateway of the one range that contains its address, which is not that gateway, and the version of the address |
| AllocatorRuns.GetEndsExactly | plugins/ipam/host-local/backend/allocator/allocator.go:168-220 | in a good set, the one case in which Get does not end, as a condition on configuration and store |
| AllocatorExhaustion.LastGrantGetsStuck | plugins/ipam/host-local/backend/allocator/allocator.go:168-220 | in a set of several ranges, once a range's last address is granted as the last free one, no later unrequested Get of a container holding nothing ends, until a release |
| AllocatorExhaustion.FillingGetsStuckExactly | plugins/ipam/host-local/backend/allocator/allocator.go:75-111 | from an empty store, as many containers as there are allocatable addresses fill the set, and the next Get does not end if and only if the set has several ranges and its last allocatable address ends one |
| AllocatorExhaustion.SubnetsGetStuck | plugins/ipam/host-local/backend/allocator/allocator.go:75-111 | so any set of two or more plain subnets, once filled from an empty store, leaves every further container without an answer |
| AllocatorCorners.ZeroNetworkSearch | plugins/ipam/host-local/backend/allocator/allocator.go:87-111 | what a search comes to on any set whose first range has a default start that is no address: that start, then the one byte 1, whichever is free and no gateway first; otherwise it ends only for the network 0 |
| AllocatorCorners.FirstGetIsTheLast | plugins/ipam/host-local/backend/allocator/allocator.go:44-121 | on an IPv4 subnet alone below a leading zero byte the first Get without request reserves ?01, and no such Get ends from then on, of any container, although only one address was handed out |
| AllocatorCorners.StraySearch | plugins/ipam/host-local/backend/allocator/allocator.go:87-111 | the same exact account for a search from any address that is not its range's end and whose successor is no address, such as a given start or a last reserved address below a leading zero byte |
| AllocatorCorners.BroadcastStartSearch | plugins/ipam/host-local/backend/allocator/allocator.go:87-111 | on a set whose first range starts at the broadcast address a search from the beginning ends if and only if some cursor of its walk is free and no gateway |
| AllocatorCorners.BroadcastStartGet | plugins/ipam/host-local/backend/allocator/allocator.go:87-111 | and it hands out the first free address from the broadcast address on, which is not in the range |
| AllocatorCorners.OtherFamilySearch | plugins/ipam/host-local/backend/allocator/allocator.go:87-111 | the same condition where an IPv6 subnet's default start has four bytes |
| AllocatorRuns.OwnerKept | plugins/ipam/host-local/backend/disk/backend.go:59-85 | on any set and over every run of Get and Release an address keeps its owner until that owner's release |
| AllocatorRuns.OnlyAllocatableReserved | plugins/ipam/host-local/backend/allocator/allocator.go:44-129 | every address a run adds to the store lies in exactly one range of the set and is not that range's gateway |
| AllocatorRuns.Sweep | plugins/ipam/host-local/backend/allocator/allocator.go:145-149 | in a run of unrequested Gets and Releases everything behind the last reserved address has been reserved at some moment since |
| AllocatorRuns.Fairness | plugins/ipam/host-local/backend/allocator/allocator.go:145-149 | between two grants of the same address every other address that is not its own range's gateway was reserved at some moment |
| HostLocalOutcome.ConfigIsGood | plugins/ipam/host-local/backend/allocator/config.go:122-154 | accepted configurations, outside the two corner cases, meet what cmdAdd needs: good sets without common address |
| HostLocalOutcome.OutcomeUnique | plugins/ipam/host-local/main.go:98-104 | the addresses cmdAdd takes are determined by configuration, store and the set of requests, whatever order the request map is walked in |
| HostLocal.CollectRequests | plugins/ipam/host-local/main.go:85-91 | the request map holds each requested address once |
| HostLocal.PickRequest | plugins/ipam/host-local/main.go:96-104 | finds a request that lies in the set if there is one, with the map's order left open |
| HostLocal.ServeSet | plugins/ipam/host-local/main.go:93-118 | on any configuration, one round: some request that lies in the set, or none exactly when none does, and the Get for it |
| HostLocal.RollBack | plugins/ipam/host-local/main.go:109-111 | as many releases as allocators were used; the last reserved addresses stay |
| HostLocalOutcome.RollbackExact | plugins/ipam/host-local/main.go:109-111 | rolling back restores the owner map if and only if nothing was reserved, or the container had no new-style entry and, from two sets on, no old-style entry |
| HostLocal.CmdAdd | plugins/ipam/host-local/main.go:85-130 | on any configuration and whenever every Get it can come to ends: for some choice of requests, the rounds' addresses and store if every set was served and every request used; else the first failing round's error, or the error for unused requests, with one release for every set served |
| HostLocalOutcome.AddInGoodSets | plugins/ipam/host-local/main.go:85-130 | in good sets without common address: on success one address per set in order, every request served, owners and last addresses written accordingly; on failure rolled back by as many releases as sets were served, and the failing set had no address to take; for a container holding nothing, failure leaves the owner map unchanged and happens only if no successful outcome exists |
| HostLocalOutcome.AddEndsExactly | plugins/ipam/host-local/main.go:93-118 | there cmdAdd ends, whatever order its map is walked in, if and only if the search ends in every set all of whose predecessors can be served |
| HostLocalRuns.FailOutsideRequest | plugins/ipam/host-local/main.go:120-129 | with two or more sets, a request outside of all of them fails after every set was served, and no entry of the container is left, of either style |
| HostLocalRuns.LoseOldEntry | plugins/ipam/host-local/main.go:120-129 | one such run: the store holds an old-style entry of the container, at an address in no set, and afterwards does not |
| HostLocalRuns.AllAmongOthers | plugins/ipam/host-local/main.go:93-118 | whatever other containers do between its calls, a container that held nothing holds exactly what its Gets were granted |
| HostLocalRuns.NothingAmongOthers | plugins/ipam/host-local/main.go:107-112 | and once it releases after a failure it holds nothing, whatever others do |
| HostLocalRuns.AddAmongOthers | plugins/ipam/host-local/main.go:85-130 | a whole cmdAdd with others' operations before each of its Gets and Releases: a container that held nothing then holds exactly the granted addresses, different ones, one for each set and of it in good sets, every request among them; or, after a failure, nothing |
| HostLocal.CmdDel | plugins/ipam/host-local/main.go:149-163 | one release per range set |
| IPTables.NatTable.IsReferenced | pkg/utils/iptables.go:90-104 | whether some rule of the table leads to the chain, which decides if it can be deleted |
| IPTables.NatTable.EnsureChain | pkg/utils/iptables.go:28-46 | creates a missing chain and leaves an existing one alone |
| IPTables.NatTable.ClearChain | pkg/utils/iptables.go:108-121 | leaves the chain empty, creating it if missing |
| IPTables.NatTable.DeleteRule | pkg/utils/iptables.go:68-86 | removes the first occurrence; a missing rule or chain is no error |
| IPTables.NatTable.DeleteChain | pkg/utils/iptables.go:90-104 | succeeds exactly when the chain is missing, or empty and unreferenced |
| PortmapChain.InsertUnique | plugins/meta/portmap/chain.go:106-120 | adds the rule at the end or the head unless the chain has it already |
| PortmapChain.Chain.Setup | plugins/meta/portmap/chain.go:38-65 | the loops' effect on the table, also when they stop at a failure |
| PortmapChain.Chain.DeleteJumps | plugins/meta/portmap/chain.go:77-99 | deleting the listed rules one by one removes all and only the jumps to the chain, although the first equal rule goes each time |
| PortmapChain.Chain.Teardown | plugins/meta/portmap/chain.go:69-102 | the effect on the table, and whether the chain could be deleted |
| PortmapChain.Chain.Check | plugins/meta/portmap/chain.go:123-153 | succeeds exactly when the chain, its rules and all entry rules are there |
| PortmapChainLaws.SetupInstalls | plugins/meta/portmap/chain.go:38-65 | check succeeds after a successful setup |
| PortmapChainLaws.SetupSucceedsExactly | plugins/meta/portmap/chain.go:38-65 | setup succeeds if and only if each rule is there already or has an existing target, and the entry chains exist, unless no rule is to lead there |
| PortmapChainLaws.SetupOfInstalled | plugins/meta/portmap/chain.go:38-65 | setting up a chain that check accepts changes nothing |
| PortmapChainLaws.SetupIdempotent | plugins/meta/portmap/chain.go:37-65 | setup twice is setup once |
| PortmapChainLaws.MergeIsFreshExactly | plugins/meta/portmap/chain.go:106-120 | adding rules to a chain gives what adding them to an empty chain gives if and only if it held a beginning of that |
| PortmapChainLaws.SetupOverStale | plugins/meta/portmap/portmap.go:108-114 | what the chain held stays in front; the chain is as after a clean setup if and only if it held a beginning of that |
| PortmapChainLaws.TeardownFirstIsFresh | plugins/meta/portmap/portmap.go:109-110 | with the announced teardown the chain would be as after a clean setup |
| PortmapChainLaws.SetupFrame | plugins/meta/portmap/chain.go:38-65 | setup leaves every chain but its own and its entry chains untouched, even when it fails |
| PortmapChainLaws.TeardownExact | plugins/meta/portmap/chain.go:69-102 | teardown succeeds exactly when only entry chains lead to the chain, and then removes the chain and the jumps to it and nothing else |
| PortmapChainLaws.TeardownIdempotent | plugins/meta/portmap/chain.go:67-102 | a successful teardown repeated succeeds and changes nothing |
| PortmapChainLaws.TeardownUndoesSetup | plugins/meta/portmap/chain.go:38-102 | teardown after a successful setup restores the table if the chain was absent and unreferenced |
| PortmapRules.GroupByProto | plugins/meta/portmap/utils.go:63-78 | each protocol that occurs, with its host ports in order |
| PortmapRules.PortsInOrder | plugins/meta/portmap/utils.go:63-78 | the ports of a protocol are in the order of the mappings |
| PortmapRules.SplitPortList | plugins/meta/portmap/utils.go:83-99 | the accumulator loop cuts the list into pieces of fifteen |
| PortmapRules.ChunksExact | plugins/meta/portmap/utils.go:80-99 | pieces have one to fifteen ports, and put together they are the list |
| PortmapRules.SortStringsExact | plugins/meta/portmap/portmap.go:199-203 | sorting the distinct protocols gives a strictly ascending list of exactly those |
| PortmapRules.SortedListUnique | plugins/meta/portmap/portmap.go:199-203 | so the order in which the protocol map is walked does not matter |
| PortmapRules.CollectProtos | plugins/meta/portmap/portmap.go:199-203 | the map's keys, each once, strictly ascending |
| PortmapRules.TrimCommentExactly | plugins/meta/portmap/utils.go:101-108 | the trimming keeps a comment within 255 characters if and only if it had no more before: a trimmed comment has 256 |
| PortmapRules.DnatCommentFits | plugins/meta/portmap/portmap.go:188-188 | the comment of a container's rules is within 255 characters if and only if network name and container id together have at most 235; it then carries both whole |
| PortmapRules.LongCommentBreaksTheLimit | plugins/meta/portmap/portmap.go:188-188 | a network name of 172 characters and a container id of 64 give a comment of 256 |
| PortmapRules.FillEntryRules | plugins/meta/portmap/portmap.go:195-221 | appends the entry rules: sorted protocols, at most fifteen ports each, the family's own conditions |
| PortmapRules.EntryRulesListPorts | plugins/meta/portmap/portmap.go:204-221 | the entry rules list each protocol's ports in the order of the mappings, each as often as it is mapped |
| PortmapRules.EntryRulesAscend | plugins/meta/portmap/portmap.go:199-221 | for any ascending list of protocols, the protocols of the rules ascend |
| PortmapRules.AddMapping | plugins/meta/portmap/portmap.go:229-289 | appends one mapping's rules, marks before the translation to the container, which is the last; appends nothing exactly if the host address is of the other family |
| PortmapRules.FillDnatRules | plugins/meta/portmap/portmap.go:186-290 | the entry rules are appended, the chain rules replaced by those of all mappings in order |
| PortmapMeaning.RuleBaseExact | plugins/meta/portmap/portmap.go:247-254 | a mapping is not skipped and its base matches hold of a packet if and only if protocol and host port agree and the host address, if there is one, is of the container's family and is 0.0.0.0, :: or the packet's destination |
| PortmapMeaning.MappingMeans | plugins/meta/portmap/portmap.go:256-288 | walking one mapping's rules is scanning that mapping, mark included |
| PortmapMeaning.DnatRulesMean | plugins/meta/portmap/portmap.go:223-289 | walking the chain rules of any list of mappings gives the target and mark of the first mapping that fits |
| PortmapMeaning.DnatRuleTargets | plugins/meta/portmap/portmap.go:190-289 | every chain rule translates to the container, at the port of one of its mappings, or, only with masquerading, jumps to the user's mark chain if one is given, else to the plugin's |
| PortmapMeaning.MergeKeepsMeaning | plugins/meta/portmap/chain.go:106-120 | leaving out rules that are already there does not change what a packet meets |
| PortmapMeaning.InstalledRulesMean | plugins/meta/portmap/chain.go:45-50 | the chain as installed, duplicates dropped, means the scan of the mappings |
| PortmapMeaning.EntryRulesExact | plugins/meta/portmap/portmap.go:195-221 | some entry rule matches a packet exactly when it meets the family's conditions and goes to a mapped port of its protocol; grouping, sorting and splitting do not change this |
| PortmapMeaning.ContainerMeans | plugins/meta/portmap/portmap.go:186-290 | entry rules and chain of a container together treat every packet as the scan of its mappings does |
| PortmapMeaning.ForwardByIndex | plugins/meta/portmap/portmap.go:186-290 | what such a scan does in full: an admitted packet is translated by the first fitting mapping of the container's family, with the mark exactly for hairpin traffic and, in IPv4, from 127.0.0.1 |
| PortmapMeaning.NoForward | plugins/meta/portmap/portmap.go:186-290 | a packet that fits no mapping is left alone |
| PortmapForward.GenToplevelDnatChain | plugins/meta/portmap/portmap.go:162-172 | the chain for local destinations, entered from PREROUTING and OUTPUT |
| PortmapForward.GenSetMarkChain | plugins/meta/portmap/portmap.go:295-309 | the chain that sets the mark bit and returns |
| PortmapForward.GenMarkMasqChain | plugins/meta/portmap/portmap.go:313-335 | the chain that masquerades marked packets, prepended to POSTROUTING |
| PortmapForward.GenDnatChain | plugins/meta/portmap/portmap.go:176-182 | an empty chain entered from the top-level chain |
| PortmapForward.ForwardPorts | plugins/meta/portmap/portmap.go:56-117 | sets up mark chain, masquerade chain, top-level chain and the container's chain in this order, stopping at the first failure; the first two only when the plugin marks by itself |
| PortmapForward.ForwardTouches | plugins/meta/portmap/portmap.go:71-116 | forwardPorts leaves every chain alone but the container's, the top-level chain, PREROUTING and OUTPUT, and, if it is to masquerade and the user gave no mark chain, POSTROUTING and the two mark chains |
| PortmapForward.MarkChainComesFirst | plugins/meta/portmap/portmap.go:71-87 | the mark chain has to be there first: without it the setup of a masqueraded container's chain fails if and only if some mapping yields rules |
| PortmapForward.ForwardIsUp | plugins/meta/portmap/portmap.go:102-116 | once the shared chains are installed, forwardPorts only sets up the container's own chain |
| PortmapForward.SharedChainsReady | plugins/meta/portmap/portmap.go:71-106 | on a table without the plugin's chains, the setup order succeeds and leaves a mark chain that marks and an empty top-level chain |
| PortmapForward.UnforwardPorts | plugins/meta/portmap/portmap.go:365-391 | tears the container's chain down, then, ignoring failure, the chain of an older version |
| PortmapRuns.RunHolds | plugins/meta/portmap/chain.go:38-102 | after any run of setups and teardowns, also of containers set up again with other mappings, the top-level chain is its base followed by the entry rules of the standing setups in order, each chain holds its setups' rules in order, both without repetitions, every other chain is as before, and no step failed |
| PortmapPackets.ChainMeans | plugins/meta/portmap/portmap.go:223-289 | a chain set up several times means the scan of all its setups' mappings, oldest first |
| PortmapPackets.RunMeans | plugins/meta/portmap/portmap.go:186-290 | after any run a packet walking the top-level chain meets the base rules and then the first standing setup that lists it and whose chain has a fitting mapping |
| PortmapPackets.ApartForward | plugins/meta/portmap/portmap.go:186-290 | where every standing container was set up once, each decides by its own mappings alone |
| PortmapPackets.StaleMappingsFirst | plugins/meta/portmap/portmap.go:108-114 | after a second setup without teardown a packet meets the first setup's mappings before the second's |
| PortmapPackets.StaleMappingWins | plugins/meta/portmap/portmap.go:108-114 | one such run: 8080 to 80, then 8080 to 81, and port 80 is reached |
| PortmapHooks.SharedSetup | plugins/meta/portmap/portmap.go:71-106 | on a table the plugin never touched: one jump at the end of PREROUTING and of OUTPUT, one at the head of POSTROUTING, and the shared chains installed |
| PortmapHooks.SharedInRun | plugins/meta/portmap/chain.go:38-102 | containers coming and going leave the hooks and shared chains as they are |
| PortmapHooks.ForwardInRun | plugins/meta/portmap/portmap.go:56-117 | so at every moment of a run forwardPorts is the setup of the container's own chain |
| PortmapHooks.PacketAtHook | plugins/meta/portmap/portmap.go:162-172 | a packet entering PREROUTING or OUTPUT meets the older rules and then, if it is for a local address, the standing setups in order |
| PortmapHooks.PacketAtPostrouting | plugins/meta/portmap/portmap.go:313-335 | a marked packet is masqueraded before any other rule of POSTROUTING sees it; an unmarked one meets the older rules only |
| PortmapHooks.DeciderDecides | plugins/meta/portmap/portmap.go:186-290 | the oldest setup with a fitting mapping in the first chain that lists the packet and has one decides, with its address, its port and its mark |
| PortmapHooks.Journey | plugins/meta/portmap/portmap.go:184-290 | a packet to a host port is translated by the deciding setup and masqueraded on its way out exactly when that setup asks for it: hairpin traffic, and local traffic in IPv4 |
| PortmapJourneys.ReadyAfterShared | plugins/meta/portmap/portmap.go:71-106 | on a table the plugin never touched, setting up the shared chains succeeds and leaves it ready for every container it does not know |
| PortmapJourneys.FirstForwardPorts | plugins/meta/portmap/portmap.go:56-117 | the first forwardPorts on such a table sets up the shared chains and then the container's own |
| PortmapJourneys.JourneyFromScratch | plugins/meta/portmap/portmap.go:56-290 | the journey of a packet from an untouched table on, through the shared setup and any coming and going of containers |
| DhcpOptions.ParseCIDRRoutes | plugins/ipam/dhcp/options.go:65-105 | the re-slicing loop computes the recursive reading of descriptors; nil for a malformed option |
| DhcpOptions.ParseEncoded | plugins/ipam/dhcp/options.go:65-105 | parsing an encoding followed by at most four bytes gives the routes back |
| DhcpOptions.EncodeParsed | plugins/ipam/dhcp/options.go:65-105 | re-encoding an accepted option gives back all but fewer than five bytes of it |
| DhcpOptions.RejectedExactly | plugins/ipam/dhcp/options.go:71-85 | an option is rejected exactly when a descriptor that is reached is wider than 32 or cut short |
| DhcpOptions.ParseRoutes | plugins/ipam/dhcp/options.go:43-63 | the destination and router pairs in order, with classful masks |
| DhcpOptions.DefaultMaskIsClassful | plugins/ipam/dhcp/options.go:36-41 | the mask of a destination is that of /8, /16 or /24, by the leading bits 0, 10 and 11 |
| DhcpOptions.StaticRoutesByIndex | plugins/ipam/dhcp/options.go:43-63 | the i-th route is read from the i-th eight bytes: a destination with its classful mask and a router |
| DhcpOptions.Routes | plugins/ipam/dhcp/lease.go:315-336 | option 121 alone if it yields a route, else static routes and then the default route |
| DhcpOptions.RoutesByIndex | plugins/ipam/dhcp/lease.go:325-335 | where option 121 yields none, the routes of a lease one by one: the pairs of option 33, then 0.0.0.0/0 through the router exactly if option 3 has four bytes |
| DhcpOptions.RouterIgnoredExactly | plugins/ipam/dhcp/lease.go:318-333 | the router makes no difference, and neither do static routes, if and only if option 121 yields a route |
| DhcpOptions.DurationExact | plugins/ipam/dhcp/options.go:116-127 | four bytes of seconds never overflow the 64-bit nanosecond count |
| DhcpLease.DefaultRebindingExactly | plugins/ipam/dhcp/lease.go:168-172 | the 64-bit default is 85 per cent of the lease time if and only if the lease time is at most 108510259 s; it is never above the lease time |
| DhcpLease.LongLeaseRebindsEarly | plugins/ipam/dhcp/lease.go:168-172 | a lease of 120000000 s gets a negative rebinding time, -82467440737095516 ns |
| DhcpLease.CommittedTimes | plugins/ipam/dhcp/lease.go:160-188 | the three times exactly, but for a T2 whose default overflows: the server's T2 if it is at most the lease time, else 85 per cent; the server's T1 if it is at most T2, else half the lease time; T1 and T2 are at most the lease time; unless the default overflows, T1 is after T2 if and only if the server's T2 is below half the lease time and its T1 missing or later than T2 |
| DhcpLease.BackoffRetry | plugins/ipam/dhcp/lease.go:343-369 | the loop of tries with doubling delays, up to the delay's bound |
| DhcpLease.BackoffFailure | plugins/ipam/dhcp/lease.go:343-369 | giving up takes five failed tries and at least 119 s and less than 129 s besides the tries |
| DhcpLease.BackoffAnswers | plugins/ipam/dhcp/lease.go:343-369 | an attempt ends with the first try that is answered, after the tries before it and their pauses of 4, 8, 16 and 32 s with jitter |
| DhcpLease.AnsweredExactly | plugins/ipam/dhcp/lease.go:124-278 | renewing gets an answer if and only if the client opens and one of five tries is answered, acquiring if and only if besides the link comes up |
| DhcpLease.AnswerTakes | plugins/ipam/dhcp/lease.go:124-278 | the answer is the first one, and the attempt takes opening, the tries before it with their pauses, and its own try |
| DhcpLease.DHCPLease.Commit | plugins/ipam/dhcp/lease.go:160-188 | sets the three times from the reply, or changes nothing if it has no lease time |
| DhcpLease.DHCPLease.Renew | plugins/ipam/dhcp/lease.go:251-278 | succeeds with any acknowledgement, whether or not it sets the times |
| DhcpLease.DHCPLease.Acquire | plugins/ipam/dhcp/lease.go:124-158 | succeeds exactly if an acknowledgement with a lease time came |
| DhcpLease.DHCPLease.Maintain | plugins/ipam/dhcp/lease.go:190-243 | the loop is the state machine, for any course of events; the interface is brought down in one place only; the next rows say what the state machine does |
| DhcpLease.PhaseFollowsClock | plugins/ipam/dhcp/lease.go:190-243 | along every run, renewals and rebindings included, in which no renewal is answered without lease time: bound not after T1, renewing from T1 on and not after both T1 and T2, rebinding only after T2, down only after the expiry |
| DhcpLease.FailingRunInTime | plugins/ipam/dhcp/lease.go:160-243 | so at the end of any failing run from a commit on, under the committed times |
| DhcpLease.AfterRenewal | plugins/ipam/dhcp/lease.go:205-216 | at any moment of a run: a failed renewal is followed by rebinding if and only if the clock has passed T2, else by another renewal; an answered one by the bound phase under the answer's times, or the old ones if it has no lease time |
| DhcpLease.AfterRebinding | plugins/ipam/dhcp/lease.go:218-231 | at any moment of a run: rebinding succeeds exactly with an answer that names a lease time; otherwise the interface goes down if and only if the clock has passed the expiry |
| DhcpLease.AfterSleep | plugins/ipam/dhcp/lease.go:196-242 | at any moment of a run: while bound the client sleeps until T1 unless a stop request comes no later, which is honoured when it comes |
| DhcpLease.DownOnlyAfterExpiry | plugins/ipam/dhcp/lease.go:205-231 | while no renew or acquire succeeds, for whatever reason, the interface goes down only strictly after the expiry and at most one renew and one acquire attempt later |
| DhcpLease.FailedAttemptTakes | plugins/ipam/dhcp/lease.go:343-369 | with clients that open, each attempt without reply advances the clock by at least 119 s |
| DhcpLease.SilenceLasts | plugins/ipam/dhcp/lease.go:343-369 | so along any run without replies 119 s are a least time of every attempt |
| DhcpLease.LeaselessAcquireTakesNoTime | plugins/ipam/dhcp/lease.go:142-157 | an acquire that fails on an acknowledgement without lease time need not take any time: any number of them can leave machine and clock where they were |
| DhcpLease.GoesDown | plugins/ipam/dhcp/lease.go:190-243 | if no renew or acquire succeeds and every attempt takes some least time, the interface does go down, within a number of rounds bounded by the time left |
| DhcpLease.FailureEndsTheLease | plugins/ipam/dhcp/lease.go:160-243 | both together, from any commit on |
| DhcpLease.LeaselessRenewalsNeverEnd | plugins/ipam/dhcp/lease.go:276-277 | a server that answers every renewal without lease time keeps the machine between bound and renewing with the old times; it never rebinds and the interface is never brought down |
| DhcpLease.LeaselessRenewalOutlivesTheLease | plugins/ipam/dhcp/lease.go:276-277 | the clock can pass the expiry meanwhile |
| Village.GetMin | plugins/ipam/village-ipam/client.go:112-119 | the network address, or the next one if its last byte is zero, in a fresh buffer |
| Village.ContainsIsInPool | plugins/ipam/village-ipam/client.go:80-80 | as far as the search reaches, the loop's membership test is the interval test on numbers |
| Village.ContainsExactly | plugins/ipam/village-ipam/client.go:80-80 | for every pool that can be parsed: an address of its length is contained if and only if its number is in the block and it is IPv4-mapped exactly if the network is |
| Village.FindFree | plugins/ipam/village-ipam/client.go:80-87 | for every pool that can be parsed, and unless it is 0.0.0.0/0 with every address taken: the loop that counts up in place ends with the lowest free address from the minimum on (0.0.0.0 last in 0.0.0.0/0), or none |
| Village.FindFreeRounds | plugins/ipam/village-ipam/client.go:80-87 | on the pool 0.0.0.0/0 with every address taken the loop has not ended after any number of rounds |
| Village.AllTaken | plugins/ipam/village-ipam/client.go:80-87 | there the loop ends if and only if some IPv4 address is not in the map |
| Village.FreeIsUnowned | plugins/ipam/village-ipam/client.go:80-87 | what is found is the lowest free address; nothing is found exactly when the pool is exhausted |
| Village.FreeIsGranted | plugins/ipam/village-ipam/client.go:80-87 | where an address of the pool is free the search finds that one or a lower one, and that one if all lower ones are taken |
| Village.Assign | plugins/ipam/village-ipam/client.go:68-98 | one address from every pool in order, later pools seeing what earlier ones took, whenever each of its searches ends |
| Village.AssignedExactly | plugins/ipam/village-ipam/client.go:68-98 | the map afterwards, key by key: the old entries, the granted addresses and, for an exhausted pool, the nil key, the new ones for the container; only the nil key can change hands |
| Village.Delete | plugins/ipam/village-ipam/client.go:160-165 | the rebuilt map has exactly the entries of other containers |
| Village.AssignKeepsOwners | plugins/ipam/village-ipam/client.go:68-98 | assigning takes no real address from anyone |
| Village.AssignedBelong | plugins/ipam/village-ipam/client.go:82-97 | every granted address belongs to the container afterwards |
| Village.RunConsistent | plugins/ipam/village-ipam/client.go:50-106 | over all interleavings a client's copy of the current version is the current content |
| Village.WriteCommitsExactly | plugins/ipam/village-ipam/client.go:48-175 | whatever other clients do in between, a write takes effect if and only if none of theirs has since the read, except that DeleteIp fails on a missing map |
| Village.OwnerStep | plugins/ipam/village-ipam/client.go:48-175 | a step of any client changes the owner of a real address only by a DeleteIp of that owner |
| Village.OwnerKept | plugins/ipam/village-ipam/client.go:48-175 | over every run of any number of clients an address keeps its owner until such a DeleteIp commits |
| Village.GrantsLowestFree | plugins/ipam/village-ipam/client.go:48-110 | a committed AssignIp grants the lowest address free in the ConfigMap at that moment, which nobody owned, and grants none exactly when the pool is exhausted |
| Village.DeleteFrees | plugins/ipam/village-ipam/client.go:148-175 | a committed DeleteIp takes exactly the container's entries out of the ConfigMap and leaves every other with its owner |
| Village.NothingUntilAssigned | plugins/ipam/village-ipam/client.go:48-175 | over every run of any number of clients, after its DeleteIp a container owns nothing until an AssignIp for it commits |
| Village.FreedIsGranted | plugins/ipam/village-ipam/client.go:48-175 | what was freed is granted again: the next committed AssignIp gets an address of that pool no higher than the freed one, and one the deleted container owned if the pool was exhausted |
| Bridge.CoversExactly | pkg/bridge/bridge.go:155-155 | one of two subnets contains the other's address exactly when their prefix blocks have a common address; an address conflicts in IPv4 always, in IPv6 exactly then |
| Bridge.BridgeLink.EnsureAddr | pkg/bridge/bridge.go:137-178 | the loop over the listed addresses that deletes from the link as it goes; the other family is untouched |
| Bridge.EnsuredExactly | pkg/bridge/bridge.go:137-178 | on any list, tidy or not: only the addresses in front of the requested one matter; if one conflicts it refuses, or by force gives up exactly those; the others keep their order, and the requested one is added if it was not there |
| Bridge.KeptExact | pkg/bridge/bridge.go:155-158 | forcing gives up exactly the conflicting addresses |
| Bridge.EnsureKeepsTidy | pkg/bridge/bridge.go:137-178 | keeps at most one IPv4 address and pairwise disjoint IPv6 blocks; success means the address is present; refusal happens exactly without force, when it is absent and another address conflicts, and changes nothing |
| Bridge.AlwaysTidy | pkg/bridge/bridge.go:137-178 | over any sequence of calls on a bridge that began empty |

## Left out

- RangeIterator.RangeIter.Next: requires that the source's recursion ends, which in a good set it does exactly as RangeIterator.NextOnCircle says.
- Allocator.IPAllocator.Get: requires that the call ends. When it does is stated exactly for good sets, for subnets whose default start is no address of their family, and for ranges that start at the broadcast address, on searches from the first range; searches that change between such ranges and others of the same set are not worked out.
- HostLocal.CmdAdd: requires that every Get it can come to ends, and describes the call with no other container's operation in between; HostLocalRuns.AddAmongOthers says what holds with those. Printing the result, DNS settings and routes are not modelled.
- DiskStore.Store.ReleaseByKey: the directory also holds a lock file and the files of the last reserved addresses; an id equal to one of their contents is not modelled. Files that cannot be read, written or removed are not modelled either.
- `FindByID`, `cmdCheck` and `Store.Release` of the host-local plugin: simple searches.
- JSON, environment arguments and CNI version tables: the configuration starts decoded, with the requested addresses in one list, and whether its version knows only one address per family is a parameter.
- Rules as strings, their parsing in `teardown`, and the derivation of chain names: rules are structured and the name is a field of the configuration. Comments are counted in characters; what iptables does with one that is too long is not modelled.
- A host address that cannot be parsed: iptables would refuse the rule; here it matches no packet.
- The `route_localnet` setting, connection tracking, which of the two iptables commands is usable, and iptables failures other than a missing or busy chain or a missing rule.
- `checkPorts`: one existence test and one check per family; it reports success when the container's chain is missing.
- `Stop` of a lease: the swap of the flag and the wait for the goroutine; a stop request is an event of the maintenance loop. `release`, `AcquireLease`, the packet exchange and the subnet mask option are left out too.
- DhcpLease.DHCPLease.Maintain: runs for as many rounds as the world provides, since the source's loop need not end.
- Village.FindFree: requires that the loop ends, that is, not 0.0.0.0/0 with every address taken.
- Village.Assign: requires the same of each of its searches; in runs of several clients such a call counts as one that grants nothing, while the source never comes to write. The interface list, gateways and address versions of the result, and ranges that cannot be parsed, are left out.
- `Check` of the village-ipam client, and the controller, which is a stub.
- Bridge.BridgeLink.EnsureAddr: netlink errors, link-local addresses the kernel adds, and the hardware address set at the end.
- All other plugins (bandwidth, tuning, vrf, sbr, firewall, static, sample) and the creation of interfaces: mostly kernel calls.
