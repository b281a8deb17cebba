# ConVirt: addresses and services

ConVirt manages virtual machines on many servers. This project models two parts of it in
Dafny and proves properties of them.

**Addresses** (`IPy.py`). A parser for the IPv4 and IPv6 notations, printers that should
invert it, conversion between prefix lengths and netmasks by bit loops, containment,
overlap and addition of networks, and the zones for reverse DNS. Integers are Python's
unbounded ones; `x >> n`, `x & y` and `x % y` are modelled as Python defines them, also
for negative numbers.

**Services and shared state.** The start order of services, the pool of worker threads,
the sweep that hands managed nodes to tasks, the batch loop of such a task under a
supervisor, the pool of node proxies, leased ports, the bounded caches, the scheduler of
interval tasks and the rewriter of configuration files. Code that runs in several threads
is a step relation whose runs interleave freely, with one inductive invariant; the other
code is written as methods and classes with the source's loops, each proved against a
specification whose own properties are lemmas.

| file | what it models |
|---|---|
| `PyText.dfy`, `Groups.dfy` | Python's split, join, int and str; numbers as lists of bytes or hextets |
| `Bits.dfy` | bit-and, bit counts, netmask to prefix length |
| `Notation.dfy`, `Address.dfy` | what the notations denote; parseAddress and intToIp |
| `Compressed.dfy`, `Refusals.dfy` | the notation with `::`; what the parser refuses, and digit strings |
| `Network.dfy` | networks as values: masks, alignment, order, containment, addition |
| `IPText.dfy`, `IPRoundTrip.dfy` | the class IPint; printing and constructing again |
| `ReverseDns.dfy` | reverseName and reverseNames for IPv4 |
| `ServiceOrder.dfy` | ServiceCentral._order and the start-up |
| `WorkerPool.dfy` | new_work and the worker threads |
| `PoolSweep.dfy`, `BatchTask.dfy` | get_sp_node_ids and the claims around it; the batch loop |
| `NodePool.dfy`, `PortLease.dfy`, `LruCache.dfy` | the shared pools and caches |
| `Scheduler.dfy` | interval tasks and their submission |
| `PyConfigFile.dfy` | reading and writing configuration files |

## Where the code does less than it seems to promise

Each of these is proved, with the exact condition under which the promise holds.

- A `::` that stands for one group, or for two groups at the start or the end, is refused,
  because the text then splits into eight parts (`Compressed.ParseGap`). The printer makes
  such texts: `0:0:3:4:5:6:7:8` is printed as `::3:4:5:6:7:8` (`Compressed.ParseCompressed`).
- A hextet of more than four digits, such as `00000`, is accepted and shifts everything
  before it (`Notation.LongHextetsShift`).
- A decimal number below 256 is read as the first byte of an address, and one of 32 digits
  as hexadecimal (`Notation.ParseDecimal`).
- A compressed network without a run of zeros prints its own suffix and the one asked for.
  With both it cannot be read back, in particular `strCompressed()` of such a network in
  the default style, which prints the prefix twice (`IPRoundTrip.CompressedNetworkRoundTrip`).
- The netmask 0.0.0.0 makes the constructor loop for ever (`Bits.ZeroMaskHangs`,
  `IPRoundTrip.NetmaskRoundTrip`); and any contiguous block of ones is accepted as a
  netmask, not only one at the top (`Bits.PrefixlenMeaning`).
- The documentation of the constructor (line 208 of `IPy.py`) offers first-last texts for
  IPv6; the code accepts IPv4 ends only, whichever version is asked for, and the model
  follows the code (`IPRoundTrip.RangeText`).
- A first-last range whose size is not a power of two is accepted if its first address is
  aligned, and then stands for more addresses than it names (`IPRoundTrip.RangeIsSmallestBlock`).
- Adding networks does not check that they are neighbours, and guesses the version of the
  result from its size (`Network.AddIsUnion`); the guard on short prefixes compares a
  method with a number and never fires (`Network.AddGuard`).
- The reverse name of an IPv4 network whose prefix ends inside one of the first three
  bytes names a wrong range, unless that byte ends at 255 (`ReverseDns.RangeLabelRight`);
  below 8 bits the name has an empty label (`ReverseDns.NameLabels`).
- A worker that has finished its job and reset its flag before `new_work` sets `_busy` is
  never used again; one that has finished the job but not yet reset the flag is
  (`WorkerPool.MarkingLoses`, `WorkerPool.LostMeaning`, `WorkerPool.DoneJobKeepsWorker`).
- A call of the sweep over pools does not end if some node is pending and no pool yields
  any (`PoolSweep.SweepNeverEnds`). With a positive batch limit, a cycle can come to that
  exactly if, at its start, a managed node is eligible that no pool can yield
  (`PoolSweep.StuckExactly`).
- `get_node` may return None, or a node already cleaned up, exactly if `clear_node` is called
  for the same key by another thread (`NodePool.FailsExactly`); it happens at the second
  unlocked read and nowhere else (`NodePool.UnusableOnlyUnlocked`).
- Writing a configuration whose options contain `computed_options` loses that option
  (`PyConfigFile.PyConfig.Write`).
- A cache outgrows its limit if two entries were last used at the same time
  (`LruCache.RoomExactlyIfDistinct`).

## Model

| member | source | states |
|---|---|---|
| `Address.ParseAddress` | convirt/src/convirt/core/utils/IPy.py:968-1061 | For every text, the branches and list edits of the code give the value and version, or the error, that the reading rules of the notations give |
| `Address.InsertZeros` | convirt/src/convirt/core/utils/IPy.py:1012-1021 | Removing doubled empty parts and inserting '0' one by one yields eight parts in which the gap is replaced by exactly the missing zeros |
| `Address.ParseEight` | convirt/src/convirt/core/utils/IPy.py:1024-1033 | The hextet loop accepts exactly the lists of hextets in range and returns their number; the first bad part decides the error |
| `Address.IntToIp` | convirt/src/convirt/core/utils/IPy.py:1064-1093 | Byte and digit loops from the right give the dotted quad, or the eight four-digit groups, of the number; negative, too large and unknown-version inputs are errors |
| `Notation.ParseDotted` | convirt/src/convirt/core/utils/IPy.py:1039-1049 | Reading inverts printing for all 2^32 IPv4 addresses |
| `Notation.ParsePartial` | convirt/src/convirt/core/utils/IPy.py:1039-1049 | Two to four decimal bytes are the upper bytes of an IPv4 address, the missing ones are zero |
| `Notation.ParseHexNumber` | convirt/src/convirt/core/utils/IPy.py:986-993 | Reading inverts hex() behind 0x for every number of 128 bits; the size decides the version |
| `Notation.ParsePureHex` | convirt/src/convirt/core/utils/IPy.py:1035-1037 | Any 32 hexadecimal digits denote their value as an IPv6 address |
| `Notation.ParseDecimal` | convirt/src/convirt/core/utils/IPy.py:1035-1061 | A decimal number up to 128 bits is read back to itself if and only if it is 0, or at least 256 and not of 32 digits |
| `Notation.ParseFull` | convirt/src/convirt/core/utils/IPy.py:995-1033 | Reading inverts both uncompressed IPv6 notations for all 2^128 addresses |
| `Notation.ParseMixed` | convirt/src/convirt/core/utils/IPy.py:1000-1006 | Six hextets and a dotted quad denote the 96 upper bits and the quad as the 32 lower ones, for every spelling of the hextets (section 2.2 of RFC 4291) |
| `Notation.ParseColonJoin` | convirt/src/convirt/core/utils/IPy.py:1026-1033 | Eight hextets of one to four hexadecimal digits of either case denote the number of the eight groups |
| `Notation.LongHextetsShift` | convirt/src/convirt/core/utils/IPy.py:1028-1033 | Hextets of more than four digits are accepted too; the text then denotes its groups if and only if only zeros stand before each of them |
| `Refusals.HexNumber` | convirt/src/convirt/core/utils/IPy.py:986-993 | A hexadecimal number behind 0x is accepted if and only if it has at most 128 bits |
| `Refusals.DigitString` | convirt/src/convirt/core/utils/IPy.py:1035-1061 | What every string of decimal digits denotes: 32 digits are hexadecimal, at most three below 256 a first byte, other numbers up to 128 bits themselves, larger ones an error |
| `Refusals.DottedNumbers` | convirt/src/convirt/core/utils/IPy.py:1039-1049 | Two or more decimal numbers separated by dots are accepted if and only if they are at most four and none is above 255 |
| `Refusals.TripleColonRefused` | convirt/src/convirt/core/utils/IPy.py:996-998 | Every text with three colons in a row is refused |
| `Refusals.WrongCountRefused` | convirt/src/convirt/core/utils/IPy.py:1007-1025 | Without '::', fewer than eight hextets and more than eight raise the two errors for that |
| `Refusals.HextetsInRange` | convirt/src/convirt/core/utils/IPy.py:1026-1033 | Eight hexadecimal numbers separated by colons are accepted if and only if none exceeds 16 bits |
| `Refusals.TwoGapsRefused` | convirt/src/convirt/core/utils/IPy.py:1007-1025 | A text with two '::' is refused, whatever hextets stand around them |
| `Refusals.TailMustBeV4` | convirt/src/convirt/core/utils/IPy.py:1000-1006 | If a text has colons and dots, what follows the last colon has to be an IPv4 address |
| `Compressed.ParseGap` | convirt/src/convirt/core/utils/IPy.py:1007-1033 | For any hextets on both sides of '::' the missing groups are zero; the text is refused, and with which error, if and only if one group is missing, or two at an end, or too few |
| `Compressed.ParseMixedGap` | convirt/src/convirt/core/utils/IPy.py:1000-1033 | The same with a dotted quad at the end, which counts as two groups |
| `Compressed.FillGapParts` | convirt/src/convirt/core/utils/IPy.py:1019-1021 | Reading the parts around a gap puts back exactly as many zeros as are missing, where they were |
| `Compressed.FirstMaximum` | convirt/src/convirt/core/utils/IPy.py:427-431 | The first maximum of the run lengths is the start and the length of the first longest run of zeros |
| `Compressed.PrintCompressed` | convirt/src/convirt/core/utils/IPy.py:423-443 | Deleting the zeros of the longest run and inserting the empty parts prints the notation in which '::' stands for exactly that run, and nothing is cut without a run of two |
| `Compressed.ParseCompressed` | convirt/src/convirt/core/utils/IPy.py:995-1033 | Compressed text is read back to its hextets if and only if the run cut out is not a pair touching an end; otherwise it is refused with the error for a needless '::' |
| `IPRoundTrip.CompressedRoundTrip` | convirt/src/convirt/core/utils/IPy.py:408-445 | For every 128-bit value: compressing and parsing gives the value and version 6 unless a pair of zeros at an end was cut out, and then an error |
| `IPText.IPint.Init` | convirt/src/convirt/core/utils/IPy.py:200-304 | The constructor sets the three fields to the network that the specification denotes, or raises the matching error; only the netmask 0.0.0.0 is excluded, on which it does not return; what the specification denotes is said by the lemmas of IPRoundTrip |
| `IPText.IPint.ParseRange` | convirt/src/convirt/core/utils/IPy.py:255-267 | Both ends must be IPv4 and in order; the number of free bits is the bit length of their difference |
| `IPText.ConstructedIsAligned` | convirt/src/convirt/core/utils/IPy.py:303-304 | Every network read from a text is in range and aligned to its prefix length |
| `IPRoundTrip.IntegerIsOneAddress` | convirt/src/convirt/core/utils/IPy.py:231-244 | An integer is accepted if and only if the version asked for is none, 4 or 6; the network is this one address, with all bits of its version as prefix, of the version asked for, or of 4 if and only if it is below 2^32 when none is |
| `IPRoundTrip.IntegerRoundTrip` | convirt/src/convirt/core/utils/IPy.py:231-244 | The object made from an integer in range is proper, and its default texts construct the same object again |
| `IPRoundTrip.CopyIsSame` | convirt/src/convirt/core/utils/IPy.py:246-249 | An object made from another one has the same address, prefix length and version, whatever version is asked for |
| `IPRoundTrip.PrintExactly` | convirt/src/convirt/core/utils/IPy.py:1064-1093 | Exactly the addresses within the range of version 4 or 6 are printed, and the text is parsed to the same address and version |
| `IPRoundTrip.UnsizedText` | convirt/src/convirt/core/utils/IPy.py:268-304 | An address without a size is accepted if and only if it is in the range of the version asked for, and stands for itself alone |
| `IPRoundTrip.SizedText` | convirt/src/convirt/core/utils/IPy.py:268-304 | An address with a prefix text is accepted if and only if the text reads as an integer and the network with that prefix is in range and aligned, and is that network |
| `IPRoundTrip.MaskedText` | convirt/src/convirt/core/utils/IPy.py:286-304 | An address with a netmask other than 0.0.0.0 is accepted if and only if the mask is a block of ones and the network with so many bits is in range and aligned |
| `IPRoundTrip.OtherMaskRefused` | convirt/src/convirt/core/utils/IPy.py:286-292 | A text with dots behind the slash that is no IPv4 address is refused |
| `IPRoundTrip.SeparatorsRefused` | convirt/src/convirt/core/utils/IPy.py:254-285 | A text with more than one dash, or with more than one slash, is refused |
| `IPRoundTrip.SuffixLaw` | convirt/src/convirt/core/utils/IPy.py:346-379 | For every style and request the full text is the address followed by nothing, by /mask with mask = 2^bits - size, by -last with last = ip + size - 1, or by /prefix |
| `IPRoundTrip.DefaultText` | convirt/src/convirt/core/utils/IPy.py:346-379 | In the default style without a request the suffix is /prefix, and nothing for a single address |
| `IPRoundTrip.DefaultRoundTrip` | convirt/src/convirt/core/utils/IPy.py:447-482 | The default texts, full and normal, of every aligned network of both versions are constructed again unchanged |
| `IPRoundTrip.DefaultCompressed` | convirt/src/convirt/core/utils/IPy.py:408-445 | The default compressed text is constructed again if and only if the network is IPv4, or a run is cut out that is no pair at an end, or nothing is cut out and it is a single address |
| `IPText.IPint.PrintPrefix` | convirt/src/convirt/core/utils/IPy.py:346-379 | The suffix is the prefix length, the netmask, the last address or nothing, by style and request, and never for a single address unless asked for by the style; also for the negative prefix lengths that addition leaves, which have no netmask |
| `IPText.IPint.StrCompressed` | convirt/src/convirt/core/utils/IPy.py:408-445 | The object prints the compressed text with its suffix, and the suffix twice when no run was cut out |
| `IPRoundTrip.PrefixRoundTrip` | convirt/src/convirt/core/utils/IPy.py:447-482 | Printed with /prefix, in full or in normal notation, every aligned network of both versions is constructed again unchanged |
| `IPRoundTrip.V6RoundTrip` | convirt/src/convirt/core/utils/IPy.py:346-379 | For every style and request, the full and the normal text of an IPv6 network are constructed again if and only if the suffix gives the size: a prefix, or nothing behind a single address |
| `IPRoundTrip.NetmaskRoundTrip` | convirt/src/convirt/core/utils/IPy.py:366-372 | Printed with /netmask, an IPv4 network is constructed again if and only if its prefix is at least 1; for prefix 0 the constructor does not return |
| `IPRoundTrip.RangeRoundTrip` | convirt/src/convirt/core/utils/IPy.py:373-374 | Printed as first-last, every IPv4 network is constructed again unchanged |
| `IPRoundTrip.CompressedNetworkRoundTrip` | convirt/src/convirt/core/utils/IPy.py:408-445 | For every style and request: a compressed IPv6 network is constructed again if and only if a run was cut out that is not a pair at an end and the suffix gives the size, or nothing was cut out and, of the two suffixes then printed, one is empty and the other gives the size |
| `IPRoundTrip.RangeText` | convirt/src/convirt/core/utils/IPy.py:254-304 | Every first-last text, for every version asked for, is accepted if and only if both ends are IPv4 addresses in order and the bits of last - first are zero in first; the result is that block |
| `IPRoundTrip.RangeIsSmallestBlock` | convirt/src/convirt/core/utils/IPy.py:255-304 | Every accepted first-last text gives the smallest power-of-two block that starts at first and contains last; it ends at last if and only if the size of the range is a power of two |
| `Bits.Count1Bits` | convirt/src/convirt/core/utils/IPy.py:1152-1158 | The shift loop returns the position of the highest one bit |
| `Bits.Count0Bits` | convirt/src/convirt/core/utils/IPy.py:1160-1173 | The shift loop returns the exact power of two that divides a positive number; negative numbers raise |
| `Bits.CheckNetmask` | convirt/src/convirt/core/utils/IPy.py:1208-1225 | For every mask and length on which the loops end, also negative ones, exactly the masks are accepted in whose lowest bits no zero follows a one |
| `Bits.CheckNetmaskHangs` | convirt/src/convirt/core/utils/IPy.py:1215-1219 | The first loop is never left if and only if the mask is 0 and the length is not positive |
| `Bits.ZeroMaskHangs` | convirt/src/convirt/core/utils/IPy.py:1242-1244 | The only caller passes 0 as the length of the mask 0, so it does not return |
| `Bits.OnesAtTopIsBlock` | convirt/src/convirt/core/utils/IPy.py:1242-1245 | With the length that the caller passes, a positive mask is accepted if and only if it is one block of ones |
| `Bits.PrefixlenMeaning` | convirt/src/convirt/core/utils/IPy.py:1236-1245 | A prefix length k is returned if and only if the mask is k ones in one block, anywhere in the word |
| `Bits.NetmaskErrors` | convirt/src/convirt/core/utils/IPy.py:1095-1127 | Which masks fail and how: a negative number, 0 by an endless loop, and every other number that is no block of ones |
| `Bits.NetmaskToPrefixlenOf` | convirt/src/convirt/core/utils/IPy.py:1236-1245 | The composed bit loops return that prefix length or one of the two errors |
| `Network.MaskFormulasAgree` | convirt/src/convirt/core/utils/IPy.py:551-566 | The formula of netmask() and that of _prefixlenToNetmask agree for all prefixes of both versions, and the mask is the address space minus the network's size |
| `Network.NetmaskInverse` | convirt/src/convirt/core/utils/IPy.py:1248-1258 | For IPv4 prefixes 1 to 32 the two conversions are inverse on the masks with the top bit set |
| `Network.CheckNetaddrMeaning` | convirt/src/convirt/core/utils/IPy.py:1228-1233 | The bit-and check on unbounded integers accepts exactly the aligned networks in range, and raises exactly for prefixes that do not fit |
| `Network.AlignmentChecksAgree` | convirt/src/convirt/core/utils/IPy.py:1176-1205 | The trailing-zero check decides divisibility by the network's size, and so agrees with the bit-and check on all addresses in range |
| `Network.CheckPrefixMeaning` | convirt/src/convirt/core/utils/IPy.py:1176-1206 | On all inputs: an error for an unknown version, None if and only if the prefix length does not fit, an error for a negative address, and otherwise whether the size divides the address |
| `Network.ContainsIsSubset` | convirt/src/convirt/core/utils/IPy.py:647-667 | `in` holds if and only if every address of the item is one of the network |
| `Network.NetworksAreLaminar` | convirt/src/convirt/core/utils/IPy.py:670-692 | Two aligned networks share an address if and only if one contains the other; overlaps is nonzero exactly then, and its sign tells which |
| `Network.AddIsUnion` | convirt/src/convirt/core/utils/IPy.py:952-966 | Adding equal-sized networks is symmetric; with the version kept, the result has exactly the addresses of both if and only if they are neighbours, and is a network if and only if the lower one is a lower half; the version is lost if and only if a low IPv6 address looks like IPv4, and then the prefix does not fit or the result is a network but not the union |
| `Network.AddGuard` | convirt/src/convirt/core/utils/IPy.py:956-957 | For all equal-sized networks of one version the sum has one prefix bit less, so it is not negative if and only if there was one to lose: the guard never fires, and two networks that fill the address space give prefix -1 of version 4 |
| `Network.CmpIsOrder` | convirt/src/convirt/core/utils/IPy.py:717-754 | Comparison is a transitive order by longer prefix, then address; it is 0 if and only if both agree in address and prefix length |
| `ReverseDns.ReverseNamesPartition` | convirt/src/convirt/core/utils/IPy.py:845-860 | Each address of an aligned IPv4 network is covered by exactly one listed zone, as a suffix of the labels of its own reverse name, and no zone covers another address |
| `ReverseDns.ReverseNamesOf` | convirt/src/convirt/core/utils/IPy.py:845-860 | The four loops over addresses, with names cut off by character counts, list exactly the zones of the partition in order |
| `ReverseDns.FewestZones` | convirt/src/convirt/core/utils/IPy.py:845-860 | The number of zones is 2 to the power (32 - prefix) mod 8, at most 128, and 256 for the whole address space |
| `ReverseDns.ZonesInOrder` | convirt/src/convirt/core/utils/IPy.py:845-860 | The zones are listed in the order of the addresses they cover |
| `ReverseDns.ReverseName` | convirt/src/convirt/core/utils/IPy.py:890-904 | The name of an aligned IPv4 network of any size is the one whose labels FirstLabel and OtherLabels give in numbers |
| `ReverseDns.NameLabels` | convirt/src/convirt/core/utils/IPy.py:894-904 | The labels of the name: a range label if the prefix ends inside a byte, the whole bytes backwards, in-addr and arpa; below 8 bits an empty label stands among them |
| `ReverseDns.FirstLabel` | convirt/src/convirt/core/utils/IPy.py:894-899 | For a prefix p inside a byte the number before the dash is ip / 2^(24 - 8 (p / 8)) mod 256, written out byte by byte; the one behind it is the last byte of the last address |
| `ReverseDns.EndByteRange` | convirt/src/convirt/core/utils/IPy.py:894-899 | That first number is the least value the byte takes over all addresses of the network, and the same byte of the last address the greatest |
| `ReverseDns.OtherLabels` | convirt/src/convirt/core/utils/IPy.py:894-904 | Behind it stand the whole bytes of the prefix from the last to the first, each given by its quotient of the address, then in-addr, arpa and the root |
| `ReverseDns.WholeByteCovers` | convirt/src/convirt/core/utils/IPy.py:891-904 | For a prefix of whole bytes the name is a label-wise suffix of the reverse names of exactly the network's addresses |
| `ReverseDns.WholeByteName` | convirt/src/convirt/core/utils/IPy.py:845-860 | For such a prefix reverseNames lists exactly the name of reverseName |
| `ReverseDns.RangeLabelRight` | convirt/src/convirt/core/utils/IPy.py:895-899 | With lo and hi the least and greatest values that the byte in which the prefix ends takes over all addresses of the network, the first label is lo-hi if and only if the prefix is longer than 24 or hi is 255 |
| `ReverseDns.ZoneMeaning` | convirt/src/convirt/core/utils/IPy.py:851-859 | A zone is a label-wise suffix of an address's reverse name if and only if the upper bytes agree |
| `ServiceOrder.Order` | convirt/src/convirt/core/services/core.py:308-323 | The rotating queue ends; it returns each service once, parents first, or raises if and only if no such order exists (self-dependencies aside) |
| `ServiceOrder.MutuallyBlocked` | convirt/src/convirt/core/services/core.py:312-314 | If every service left needs another one left, no order of all services puts parents first |
| `ServiceOrder.RotateStep` | convirt/src/convirt/core/services/core.py:315-322 | Moving a blocked service to the end keeps the bookkeeping: as many services at the end as the count says are blocked by others in the queue |
| `ServiceOrder.TakeStep` | convirt/src/convirt/core/services/core.py:317-320 | Taking an independent service keeps parents first, although its row as a parent is deleted from the dependencies |
| `ServiceOrder.RemoveDeps` | convirt/src/convirt/core/services/core.py:299-303 | Removing from the list while iterating over a copy leaves exactly the rows with another parent, in order |
| `ServiceOrder.EnabledParentsFirst` | convirt/src/convirt/core/services/core.py:187-188 | Skipping disabled services keeps parents first |
| `ServiceOrder.StartAll` | convirt/src/convirt/core/services/core.py:184-191 | Exactly the enabled services are started, once each, and never before an enabled parent |
| `WorkerPool.StepInv` | convirt/src/convirt/core/services/execution_service.py:44-132 | Every step of every thread keeps the protocol invariant: locks, flag, stored fields and the logs of accepted and run jobs belong together |
| `WorkerPool.RunOnceInOrder` | convirt/src/convirt/core/services/execution_service.py:105-132 | In every interleaving each worker has run the jobs handed to it in order, each once, except at most the newest |
| `WorkerPool.NoLostNotify` | convirt/src/convirt/core/services/execution_service.py:128-132 | Whenever notify is called, the worker is waiting and its four fields hold the job |
| `WorkerPool.NoOverwrite` | convirt/src/convirt/core/services/execution_service.py:123-127 | The fields of a worker are overwritten only when all jobs accepted for it have been read |
| `WorkerPool.NotBusyIsIdle` | convirt/src/convirt/core/services/execution_service.py:120-121 | A worker that is not marked busy, and that no caller has just woken, has no unfinished job |
| `WorkerPool.AllAcceptedAreRun` | convirt/src/convirt/core/services/execution_service.py:44-60 | When nothing can move any more, the multiset of runs is that of accepted jobs, worker by worker |
| `WorkerPool.RunsEnd` | convirt/src/convirt/core/services/execution_service.py:105-118 | Without new calls every run is bounded by the rank of its first state, so rest is reached |
| `WorkerPool.CallerNotStuck` | convirt/src/convirt/core/services/execution_service.py:44-60 | A caller inside new_work can always go on, at the latest after one step of the worker it has chosen |
| `WorkerPool.FirstFreeGetsJob` | convirt/src/convirt/core/services/execution_service.py:49-57 | In every run from the beginning of a call, with any steps of the workers between: the job goes, once, to the first worker whose flag was False when it was looked at, and nothing is accepted before |
| `WorkerPool.RefusedExactly` | convirt/src/convirt/core/services/execution_service.py:49-57 | A call that has ended was refused if and only if every worker was marked busy when it was looked at, or a flag was met that does not exist |
| `WorkerPool.NotRefused` | convirt/src/convirt/core/services/execution_service.py:49-57 | If a worker's flag is False when the call begins, no run ends the call without accepting the job, by that worker or one before it in the list |
| `WorkerPool.LeastFreeGetsJob` | convirt/src/convirt/core/services/execution_service.py:49-57 | If no worker moves meanwhile, the job goes to the worker of least index whose flag is False, and the call is refused if and only if all are busy |
| `WorkerPool.MarkingLoses` | convirt/src/convirt/core/services/execution_service.py:51-52 | Setting _busy after the hand-over loses the worker if and only if it has already reset the flag for its next wait; otherwise, also with the job finished, it has still to reset it |
| `WorkerPool.MarkedBecomesUsable` | convirt/src/convirt/core/services/execution_service.py:109-111 | In every run a worker marked in time stays as it is until it becomes usable again by its own step |
| `WorkerPool.RestComesLater` | convirt/src/convirt/core/services/execution_service.py:109-111 | No run comes to rest while a worker has still to reset its flag |
| `WorkerPool.LostMeaning` | convirt/src/convirt/core/services/execution_service.py:49-52 | Between calls a worker is lost if and only if no run makes it usable again |
| `WorkerPool.LostGetsNothing` | convirt/src/convirt/core/services/execution_service.py:49-54 | In every run a lost worker gets no job but the one in hand |
| `WorkerPool.DoneJobKeepsWorker` | convirt/src/convirt/core/services/execution_service.py:109-118 | A concrete interleaving: the job is finished before the marking and the worker is not lost |
| `WorkerPool.LostForever` | convirt/src/convirt/core/services/execution_service.py:49-54 | Every step of every thread keeps a lost worker lost, and enters at most the call in hand for it |
| `WorkerPool.AllLost` | convirt/src/convirt/core/services/execution_service.py:49-57 | Once all workers are lost, no later call is accepted in any run |
| `WorkerPool.FastJobLosesWorker` | convirt/src/convirt/core/services/execution_service.py:51-52 | A concrete interleaving: a pool of one worker runs its first job and never accepts another |
| `PoolSweep.CoveredSweepEnds` | convirt/src/convirt/web/convirt/convirt/model/AvailabilityWorker.py:92-131 | If every pending node has an availability row and is a target of a pool with children, the sweep ends |
| `PoolSweep.SweepNeverEnds` | convirt/src/convirt/web/convirt/convirt/model/AvailabilityWorker.py:101-115 | If a node is pending and no pool yields any, no number of rounds leaves the loop, from any sp_list |
| `PoolSweep.StuckExactly` | convirt/src/convirt/web/convirt/convirt/model/AvailabilityWorker.py:92-131 | Some course of a cycle runs into the endless sweep if and only if the batch limit is positive and, at its start, a managed node is eligible that no pool can yield |
| `PoolSweep.RunKeepsCycle` | convirt/src/convirt/web/convirt/convirt/model/WorkManager.py:176-196 | Every course of batches and finished tasks keeps the record of the cycle |
| `PoolSweep.OrderedQuery` | convirt/src/convirt/web/convirt/convirt/model/AvailabilityWorker.py:120-126 | The query returns distinct rows of lowest availability first, as many as there are up to the limit |
| `PoolSweep.Worker.GetSpNodeIds` | convirt/src/convirt/web/convirt/convirt/model/AvailabilityWorker.py:92-131 | The loop ends with at most one reset of sp_list; every node handed out is a target of the returned pool whose row has no owner and was not started in the cycle, least available first up to the limit, and the pool is the first in order that yields any; an empty result means that every managed node has an owner or was started in the cycle |
| `PoolSweep.Worker.Dispatch` | convirt/src/convirt/web/convirt/convirt/model/WorkManager.py:168-196 | Handing out a batch and entering its rows never repeats a node within the cycle; when the batch is empty, every node eligible at the start of the cycle was handed out |
| `PoolSweep.Worker.Finish` | convirt/src/convirt/web/convirt/convirt/model/WorkManager.py:104-118 | Releasing the rows of a finished task keeps the cycle's record, so its nodes are not handed out again |
| `PoolSweep.ClaimKeepsCycle` | convirt/src/convirt/web/convirt/convirt/model/WorkManager.py:68-89 | A claim keeps the record of the cycle: the other nodes are exactly as eligible as at its start |
| `PoolSweep.ReleaseKeepsCycle` | convirt/src/convirt/web/convirt/convirt/model/WorkManager.py:110-116 | Clearing the owner of the cycle's rows makes no handed node eligible and changes no other |
| `PoolSweep.NothingLeft` | convirt/src/convirt/web/convirt/convirt/model/CollectMetricsWorker.py:87-96 | If no node is pending, every managed node that was eligible at the start of the cycle has been handed out |
| `PoolSweep.PoolBatchMeaning` | convirt/src/convirt/web/convirt/convirt/model/AvailabilityWorker.py:105-126 | A batch in the fields of the rows: unowned, not started in the cycle, in order of availability, and a node of that kind is left out only if the limit is reached by nodes of no higher availability |
| `PoolSweep.OwnerStays` | convirt/src/convirt/web/convirt/convirt/model/AvailabilityWorker.py:107-124 | A claim never touches a row that has an owner; only its owner's end gives the node up |
| `PoolSweep.OwnerFinishesFirst` | convirt/src/convirt/web/convirt/convirt/model/WorkManager.py:104-196 | In every course of batches and ends, a node with an owner, also one from before the cycle, is handed out only after that owner has finished |
| `PoolSweep.OneUnfinishedTask` | convirt/src/convirt/web/convirt/convirt/model/WorkManager.py:104-196 | Between two batches with the same node the task of the first has finished, so no node is in two unfinished tasks |
| `BatchTask.StepInv` | convirt/src/convirt/core/services/tasks.py:459-486 | Every step of the task and of the supervisor keeps lists, index, fetched node and history consistent |
| `BatchTask.BatchConserved` | convirt/src/convirt/core/services/tasks.py:748-771 | In every interleaving the nodes taken followed by pending_nodes are node_ids, and completed_nodes are those taken that were found |
| `BatchTask.UndisturbedTakesAll` | convirt/src/convirt/core/services/tasks.py:752-771 | A loop that ends unmarked has taken every node and completed exactly those found |
| `BatchTask.RaisingQueryEnds` | convirt/src/convirt/core/services/tasks.py:752-772 | A query that raises ends the task from any state of the loop; the node just taken stays without an answer, is not put back into pending_nodes, and the lists are left as they are |
| `BatchTask.AtMostOneMore` | convirt/src/convirt/core/services/tasks.py:478-480 | After exc_node_ids is replaced at most one further node is taken, and one is taken if and only if it had been fetched before |
| `BatchTask.HandedListShrinksByOne` | convirt/src/convirt/core/services/tasks.py:482 | The pending list given to the supervisor afterwards loses at most its first node |
| `BatchTask.CurrentIsLastFound` | convirt/src/convirt/core/services/tasks.py:752-764 | In every interleaving current_node is the node in work or the last one completed, and a hung task is left with it as its only id |
| `PyConfigFile.PyConfig.GetComputedOptions` | convirt/src/convirt/core/utils/utils.py:683-700 | The names treated as computed are the defaults, those named by the file and computed_options itself; asking grows the shared list but changes no answer |
| `PyConfigFile.PyConfig.Write` | convirt/src/convirt/core/utils/utils.py:809-873 | After writing, every option that is not computed has its value from memory, removed ones are gone and computed ones keep the file's value; only computed_options disappears when set |
| `PyConfigFile.ReflectsNames` | convirt/src/convirt/core/utils/utils.py:683-700 | Name by name: one listed by the defaults or by computed_options keeps the file's value, every other one has the value from memory |
| `PyConfigFile.LastAssignmentWins` | convirt/src/convirt/core/utils/utils.py:786-791 | Executing the lines binds a name if and only if some line assigns it, to the value of the last such line |
| `PyConfigFile.UnsignedMeaning` | convirt/src/convirt/core/utils/utils.py:834-836 | Exactly the lines that contain the signature are skipped, and none without a signature |
| `PyConfigFile.PyConfig.WriteAssignment` | convirt/src/convirt/core/utils/utils.py:843-862 | One assignment line is replaced, kept or dropped so that what the written part binds stays right |
| `PyConfigFile.PyConfig.WriteRest` | convirt/src/convirt/core/utils/utils.py:867-871 | The options without a line are appended, also customizable_options that its own line did not update, so the last assignment is the one from memory |
| `PyConfigFile.ReflectedOptions` | convirt/src/convirt/core/utils/utils.py:796-807 | Reading such a file gives exactly those options, except values of types that reading drops |
| `PyConfigFile.PyConfig.WriteAndRead` | convirt/src/convirt/core/utils/utils.py:765-873 | The round trip on the object: with any signature, full_edit or not, non-computed options come back as they were |
| `NodePool.StepInv` | convirt/src/convirt/core/utils/NodePool.py:38-118 | Every step of get_node and clear_node keeps every node private, pooled or cleaned up |
| `NodePool.NodesAccountedFor` | convirt/src/convirt/core/utils/NodePool.py:38-118 | In every interleaving no node is lost; when all threads are idle a node is pooled under its key if and only if it was not cleaned up |
| `NodePool.LockedReturnIsUsable` | convirt/src/convirt/core/utils/NodePool.py:72-82 | The locked path returns a pooled node that has not been cleaned up |
| `NodePool.OneNodePerKey` | convirt/src/convirt/core/utils/NodePool.py:38-118 | In every run that clears other keys only, all calls for one key return one and the same node, and it has not been cleaned up |
| `NodePool.UnusableOnlyUnlocked` | convirt/src/convirt/core/utils/NodePool.py:51-82 | None or a cleaned node is returned only by the second unlocked read, and there if and only if the entry is gone or the owner of the lock has cleaned the node and not yet cleared its entry |
| `NodePool.FailsExactly` | convirt/src/convirt/core/utils/NodePool.py:51-53 | Some run that clears only the given keys returns None for a key, and some such run returns a node already cleaned up, if and only if two threads are at work and the key is one of those |
| `NodePool.CleanedReturned` | convirt/src/convirt/core/utils/NodePool.py:113-116 | The interleaving in which the cleaned node is returned, with any number of further threads |
| `PortLease.NodeCache.ClearPortsCache` | convirt/src/convirt/web/convirt/convirt/model/NodeCache.py:113-128 | Exactly the leases older than the interval at the moment they are looked at go; other hosts keep theirs |
| `PortLease.NodeCache.GetFreePort` | convirt/src/convirt/web/convirt/convirt/model/NodeCache.py:57-64 | The lowest port of [start, end) that is not in use, None if and only if there is none |
| `PortLease.NodeCache.GetPort` | convirt/src/convirt/web/convirt/convirt/model/NodeCache.py:33-54 | The port granted is the lowest neither in use nor leased; the grant is recorded, other hosts' leases stay, used_ports grows by the leases; and over any run two grants of one port on one host are more than the interval apart |
| `PortLease.LeaseGranted` | convirt/src/convirt/web/convirt/convirt/model/NodeCache.py:46-48 | A grant of a port without a lease keeps all grants of one port on one host spaced |
| `LruCache.CheckCacheLimit` | convirt/src/convirt/web/convirt/convirt/model/GenericCache.py:23-45 | A full cache loses its least recently used entries down to limit - 1 if all access times differ; otherwise one per distinct time above that number |
| `LruCache.RoomExactlyIfDistinct` | convirt/src/convirt/web/convirt/convirt/model/GenericCache.py:31-42 | A full or outgrown cache has room afterwards if and only if no two entries were last used at the same time |
| `LruCache.OldestGone` | convirt/src/convirt/web/convirt/convirt/model/GenericCache.py:36-42 | Deleting by the sorted access times removes no entry used later than one that stays |
| `LruCache.DistinctCount` | convirt/src/convirt/web/convirt/convirt/model/GenericCache.py:31-34 | With different access times the dictionary from time to key has an entry for each key |
| `LruCache.MetricCache.GetMetric` | convirt/src/convirt/web/convirt/convirt/model/MetricCache.py:25-50 | A stored value within its time is returned without a computation, otherwise the newly computed one; it was computed for the key at most CACHE_TIME ago; the cache stays within its limit, and a new key in a full cache costs exactly the least recently used entry |
| `LruCache.MetricCache.OnDeleteEntity` | convirt/src/convirt/web/convirt/convirt/model/GenericCache.py:91-99 | Exactly the entries of the entity go, and the cache keeps its promises |
| `LruCache.DiffList` | convirt/src/convirt/web/convirt/convirt/model/TopCache.py:35-38 | The list of stored entities that are not among the given ones is empty if and only if all are |
| `LruCache.StoreList` | convirt/src/convirt/web/convirt/convirt/model/TopCache.py:46-52 | Storing a queried list keeps the user's lists within the limit; at most one other list goes, the least recently used, and only if the cache was full |
| `LruCache.TopOfUser` | convirt/src/convirt/web/convirt/convirt/model/TopCache.py:34-68 | The list returned names only the given entities and was computed for the key at most CACHE_TIME ago; no empty list stays stored |
| `LruCache.TopCache.GetTopEntities` | convirt/src/convirt/web/convirt/convirt/model/TopCache.py:23-77 | The same on the object: all users' lists keep limit, expiry and non-emptiness, and the lists of other users do not change |
| `LruCache.TopCache.RemoveTopDetails` | convirt/src/convirt/web/convirt/convirt/model/GenericCache.py:104-115 | Of every user exactly the lists of the type that names the entities go |
| `Scheduler.TaskManager.SubmitTask` | convirt/src/convirt/core/services/task_service.py:205-220 | Of at most two tries for each second of the bound the first that is accepted hands the task over, once; False if and only if all are refused |
| `Scheduler.TaskManager.SubmitAsync` | convirt/src/convirt/core/services/task_service.py:194-203 | Either the pool takes the task once or one failed start is recorded |
| `Scheduler.TaskManager.Fire` | convirt/src/convirt/core/services/task_service.py:60-71 | A due row is submitted if and only if its task has no STARTED result at the check; otherwise nothing changes |
| `Scheduler.TaskManager.CheckIntervalTasks` | convirt/src/convirt/core/services/task_service.py:55-73 | Every row whose time had come when the pass began, one-shot or repeating, has one turn and is in the log once if its task had no STARTED result at that turn; a one-shot row is then gone, a repeating one waits its minutes times 60,000,000 microseconds; every other row stays as it was and is not submitted |
| `Scheduler.TaskManager.AddInterval` | convirt/src/convirt/web/convirt/convirt/model/services.py:567-576 | A new row without a time waits its interval, and raises if it has none; the history of submissions stays valid |
| `Scheduler.FiringKeepsSpaced` | convirt/src/convirt/core/services/task_service.py:58-69 | A submission of a due row begins at least an interval after the earlier ones of that row returned, and is the first one of a row that does not repeat |
| `Scheduler.FiringKeepsHistory` | convirt/src/convirt/core/services/task_service.py:60-69 | One firing keeps the record of a run: spacing, no STARTED task submitted, rows waiting, each submission handed over once or recorded as failed |
| `Scheduler.RateBound` | convirt/src/convirt/core/services/task_service.py:58-69 | In any run, n submissions of one row between two moments need n - 1 intervals between them, and more than one needs a repeating row |
| `Scheduler.RateInMinutes` | convirt/src/convirt/core/services/task_service.py:58-69 | The same in minutes, written as a number, and at most one submission of a row that does not repeat |
| `Scheduler.RoundGrows` | convirt/src/convirt/core/services/task_service.py:58-69 | A further submission in a pass leaves the earlier turns of the pass as they were |

## Left out

- IPText.IPint.Init: requires that the text is not one on which the constructor never returns; these are exactly the texts for which the specification has the result LoopsForever.
- IPText.IPint.PrintPrefix: is stated for prefix lengths up to the version's bits; an IPv6 sum taken for IPv4 may have a longer one, whose mask and last address the code computes with negative shifts or floating point.
- IPText.IPint.StrCompressed: has the same limit; lower-casing is left out, which changes nothing because the digits are printed in lower case.
- ReverseDns.ReverseName: covers all aligned IPv4 networks; the IPv6 reverse names are left out, which print unpadded digits.
- Numerals with blanks between sign and digits, with a second sign, or with non-ASCII digits are not part of the reading of numerals.
- The methods strHex, strDec, strBin and iptype, indexing and hashing of address objects are easy members.
- WorkerPool.RunsEnd: leaves out Worker.stop and the wait for worker threads during initialisation; a job that does not end is not modelled, an exception in a job is its end.
- get_running_tasks and the dictionary of running tasks: reports only.
- Services: executors, monitoring and restart of services, and services as processes.
- PoolSweep.Worker.GetSpNodeIds: requires that the sweep ends (SweepNeverEnds shows that it does not otherwise); pools, nodes and availability rows do not change during a cycle, queries do not raise, and an entity relation may name any target, as in the code.
- PoolSweep.Worker.Dispatch: leaves out the handling of hung tasks in WorkManager, which makes nodes eligible again on purpose, and the storing of sp_list for resumed work.
- BatchTask.StepInv: covers the batch loop of node availability; the log messages, the notification and the database update after a hang are left out.
- NodePool.StepInv: leaves out NodePool.cleanup, and the construction of the proxy itself, which either succeeds or raises; a cleaned node is only marked as such.
- PortLease.NodeCache.GetPort: other keys of the node cache and an error while reading the interval are left out; the clock does not run backwards.
- LruCache.MetricCache.GetMetric: assumes that each call has a later time than the one before, and a limit of at least 1; metrics and top lists are separate objects here, and clear_cache and delete_usercache are left out.
- LruCache.TopCache.GetTopEntities: the query is assumed to return rows of the given entities only; the clock advances between calls of all users.
- Scheduler.TaskManager.CheckIntervalTasks: submissions return normally; rows are not edited from outside; calendar tasks, submit_sync, resumed tasks and the update of the last run time are left out.
- Scheduler.TaskManager.Fire: the STARTED results are those at the moment of the check; another thread may start the task between the check and the submission.
- PyConfigFile.PyConfig.Write: lines are abstracted to comments, one-line assignments and other statements that bind no name; values print and read back as themselves; a signature ends with a line break; values set by arbitrary Python code and configurations given as a string are left out.
- PyConfigFile.PyConfig.GetComputedOptions: the list of default names is shared by all objects; effects of one object on another are visible only as the growth of that list.
- Purging of old tasks, mail, appliances, controllers, SSH and XML-RPC: input and output over libraries that are not part of this model.
