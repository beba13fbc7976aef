# device-discovery: a verified model of the core

`device-discovery` finds the device at the other end of an Ethernet cable: it sweeps the adapter's
subnet for SSH servers with a thread pool, falls back to watching the link at layer 2, reads the
device's interfaces from `ifconfig` or `ip -4 addr`, and prints a report. This project models the parts
of it that compute something and proves what they promise. `dafny verify dfyconfig.toml` checks all of it.

## How the source is modelled

- **Bytes and words.** A byte string is a Dafny `string`; a byte is the character with the same code,
  and what is proved holds for every character. `uint32_t` is the integer range below 2^32 with
  wrap-around written out (`SubnetEnumeration.WrapAdd`); `&`, `|`, `~` and `>>` are defined bit by bit in
  `Bits`. `inet_pton` and `inet_ntop` are real functions (`Ipv4`): the dotted quad of section 3.2.2 of
  RFC 3986.
- **The pool** is a step machine (`ThreadPoolProtocol`): a critical section is one step, every
  notification is a step of its own, workers may wake spuriously, and any number of submitters and
  shutdown callers may act between any two steps. `ThreadPool.ThreadPool` is the object itself; each of
  its methods is proved to be exactly one step and to keep the protocol's invariant, and `RunToReturn` and
  `Shutdown` run them on the object in an order left open. `ThreadPoolGuarantees` states what holds of runs.
  The mutex, the atomic release-and-sleep of `wait`, and `packaged_task` keeping exceptions in the future are
  taken as given.
- **The sweep** (`SubnetSweep`) is the caller's two loops as steps among those of the pool, of its other
  users and of a closing caller. A probe is an oracle from the address to a result or an exception. The
  reference is probing the addresses one by one.
- **The parsers** (`IfconfigParser`) are methods with the source's loops, each equal to a function on the
  text; `ParserProperties` states what holds on every text, `ParserMeaning` says what the result is without
  the parsers, `ParserRoundTrip` prints the three dialects and reads them back.
- **The JSON writer** (`Formatter`) has the source's loops; `JsonReader` is an independent reader for JSON
  strings, arrays and objects in any layout and member order; `JsonRoundTrip` connects them.
- **Subnets** (`InterfaceDiscovery`, `SubnetEnumeration`), **banners** (`SshDetector`) and the **layer-2 merge**
  (`ArpDiscovery`, `ArpDiscoveryProperties`) are methods proved equal to specification functions, whose
  meaning is then proved. Cache snapshots, captured packets and received chunks are arbitrary inputs; a
  deadline means that a loop may stop after any number of them. The adapter reader writes its masks with
  `netmask_from_prefix`, so a mask that is not contiguous reaches the enumeration only from other callers of
  the public functions.

## Where the code and its documentation differ

- `src/scanner/subnet_sweep.hpp:11-14` promises the hosts of the directly connected subnet. Under a mask
  that is not contiguous the loop also lists addresses of other subnets: `ExactlyTheSubnet` shows that the
  promise holds exactly for contiguous masks, `OtherMasksListForeigners` gives the foreign address.
- `src/scanner/ssh_detector.hpp:35` says control characters are removed; the code replaces them by question
  marks and cuts the text at the first CR or LF (`SanitizedCharacters`). `SanitizedAsDocumentedIff`: the two
  agree exactly when the first line is printable; `TabIsNotRemoved` is an input on which they do not.
- `src/threading/thread_pool.hpp:54` says that `shutdown` joins all workers and is idempotent; a second caller
  returns at once, while the first may still be joining (`LaterShutdownMayReturnEarly`). It returns on a pool
  that is shut down exactly when every worker has exited (`LaterShutdownKeepsPromiseIff`).
- The address check passes `c_str()`, so a NUL hides what follows it. Returned addresses are dotted quads on
  NUL-free text; `ValidMeansQuadWithoutNul` is the exact condition and `NulSurvives` the failing family.
- A first line longer than 512 bytes gives a banner that depends on how the stream was cut, unless it has only
  spaces from byte 512 to byte 638: `BannerIndependentIff` is the exact condition. The status never depends on it.

## Model

| member | source | states |
|---|---|---|
| ThreadPoolGuarantees.NoLostWakeUps | src/threading/thread_pool.cpp:17-46 | in every run of any number of workers and submitters, while a worker sleeps the queued tasks are at most the notifications still to be sent plus the awake workers heading for the queue; after the stop nobody sleeps once `notify_all` was sent |
| ThreadPoolGuarantees.TakenInOrderAndRunOnce | src/threading/thread_pool.cpp:17-36 | accepted tasks are the dequeued ones followed by the queue; each dequeued task is running on exactly one worker or finished exactly once, never both |
| ThreadPoolGuarantees.DrainedWhenShutdownReturns | src/threading/thread_pool.cpp:38-52 | when the closing call returns, the queue is empty, every worker has exited and the finished tasks are the accepted ones, each once |
| ThreadPoolGuarantees.LaterShutdownKeepsPromiseIff | src/threading/thread_pool.cpp:38-52 | a later call returns at once and changes nothing; the queue is drained, all workers gone and every accepted task run exactly once at that moment if and only if every worker has exited, for which the return of the first call is enough |
| ThreadPoolGuarantees.LaterShutdownMayReturnEarly | src/threading/thread_pool.cpp:39-45 | with any number of workers, a run after which a second call returns while an accepted task has not started and no worker has exited |
| ThreadPoolGuarantees.ClosedAfterStop | src/threading/thread_pool.hpp:43-47 | after the stop flag no run of any length accepts another task |
| ThreadPoolGuarantees.PoolStepsDecreaseMeasure | src/threading/thread_pool.cpp:17-52 | after the stop every step of the pool, spurious wake-ups included, decreases the work left; before it every step but a spurious wake-up does |
| ThreadPoolGuarantees.ShutdownIsBounded | src/threading/thread_pool.cpp:38-52 | in every run after the stop, whatever refused submissions and later shutdown calls come in between, the pool takes no more steps than its work left |
| ThreadPoolGuarantees.ShutdownNeverStuck | src/threading/thread_pool.cpp:38-52 | until the closing call has returned some step other than a spurious wake-up can be taken |
| ThreadPoolGuarantees.ShutdownCompletes | src/threading/thread_pool.cpp:38-52 | every run after the stop, whoever calls in between, has a bounded number of pool steps, and if no further one but a spurious wake-up is possible the closing call has returned on a drained pool without workers |
| ThreadPoolGuarantees.ShutdownReturns | src/threading/thread_pool.cpp:38-52 | from every reachable state after the stop there is a run of the pool's own steps to the return of the join loop |
| ThreadPoolGuarantees.RunsAreBounded | src/threading/thread_pool.cpp:17-52 | in every run at all the pool takes no more steps than the work left at its start plus 4 per submission, 2 per spurious wake-up and three times the workers plus 2 per shutdown call |
| ThreadPoolGuarantees.UnfinishedWorkMoves | src/threading/thread_pool.cpp:17-36 | while an accepted task is unfinished the pool can make progress without a spurious wake-up |
| ThreadPoolGuarantees.RestMeansFinished | src/threading/thread_pool.cpp:17-36 | a pool that can only wake spuriously has finished everything it accepted |
| ThreadPoolGuarantees.TakenInTurn | src/threading/thread_pool.cpp:25-32 | nobody overtakes: in every run, whoever else submits, the task with k tasks accepted before it has been taken if and only if more than k tasks were taken |
| ThreadPoolGuarantees.QueueTakenInTurn | src/threading/thread_pool.cpp:25-32 | from any state on, as many takes as tasks are queued now suffice to take all that was accepted up to now |
| ThreadPoolProtocol.ReachableInvariant | src/threading/thread_pool.cpp:7-52 | every run from the constructor keeps wake-up accounting, life cycle and exactly-once execution |
| ThreadPoolProtocol.StepKeepsWakeUps | src/threading/thread_pool.cpp:21-32 | each single step keeps the wake-up count, which is inductive by itself |
| ThreadPoolProtocol.StepKeepsExactlyOnce | src/threading/thread_pool.cpp:30-35 | each single step keeps the order of the queue and the partition into running and finished tasks |
| ThreadPool.ThreadPool.constructor | src/threading/thread_pool.cpp:7-13 | starts as the protocol does, with the given number of workers but at least one, in a valid state |
| ThreadPool.ThreadPool.Submit | src/threading/thread_pool.hpp:42-49 | queues the task last, or refuses and changes nothing after the stop; equals the protocol's submit step |
| ThreadPool.ThreadPool.NotifyOne | src/threading/thread_pool.hpp:50 | wakes one sleeper if there is any, and equals that enabled protocol step |
| ThreadPool.ThreadPool.WorkerLoop | src/threading/thread_pool.cpp:19-32 | sleeps, exits or takes the first task exactly as queue and stop flag demand; the task taken was never taken before; equals the protocol's lock step |
| ThreadPool.ThreadPool.FinishTask | src/threading/thread_pool.cpp:33-35 | the task, unfinished before, is now finished exactly once and runs nowhere; equals the protocol's finish step |
| ThreadPool.ThreadPool.BeginShutdown | src/threading/thread_pool.cpp:39-45 | only the first caller sets the flag; equals the protocol's shutdown step |
| ThreadPool.ThreadPool.NotifyAll | src/threading/thread_pool.cpp:46 | nobody sleeps afterwards; equals the protocol's notify-all step |
| ThreadPool.ThreadPool.Join | src/threading/thread_pool.cpp:47-51 | passes only exited workers and returns after the last, on a drained pool with every accepted task finished exactly once; equals the protocol's join step |
| ThreadPool.ThreadPool.SomeoneActs | src/threading/thread_pool.cpp:17-52 | whichever thread acts next, the object takes an enabled step of the protocol, and until the closing call has returned some thread can act |
| ThreadPool.ThreadPool.RunToReturn | src/threading/thread_pool.cpp:17-52 | under every schedule of the threads after the stop the join loop ends, with all accepted tasks finished exactly once and no worker left |
| ThreadPool.ThreadPool.Shutdown | src/threading/thread_pool.cpp:38-52 | the first call returns on a drained pool without workers; a later one returns at once and changes nothing |
| SubnetSweep.SweepRefinesOneByOne | src/scanner/subnet_sweep.cpp:55-82 | for every address list, probe outcome, starting pool and interleaving the returned list is that of probing one by one and skipping failures, and holds the results with status `SshDetected` in address order; partial results agree at every moment; it throws only if the pool was stopped |
| SubnetSweep.FoundAreTheDetected | src/scanner/subnet_sweep.cpp:69-81 | a sweep that has returned found SSH servers only, each the answer of its address, in strictly increasing order of the addresses, and missed none |
| SubnetSweep.SweepNeverStuck | src/scanner/subnet_sweep.cpp:70-80 | neither loop blocks for good: until the end some step of the sweep or pool other than a spurious wake-up can be taken |
| SubnetSweep.SweepCompletes | src/scanner/subnet_sweep.cpp:55-82 | every run, whoever else uses or stops the pool, that no step of the sweep or pool but a spurious wake-up can continue, has returned the answer of probing one by one or has thrown on a stopped pool |
| SubnetSweep.SweepReachesEnd | src/scanner/subnet_sweep.cpp:55-82 | from every state reached there is a run of the sweep's and the pool's own steps to the end |
| SubnetSweep.SweepRunsAreBounded | src/scanner/subnet_sweep.cpp:55-82 | in every run, whoever else calls, the sweep and the pool take no more steps than the work left plus the credits of the others' calls and of the spurious wake-ups |
| SubnetSweep.FuturesAreNotOvertaken | src/scanner/subnet_sweep.cpp:70-73 | no future waits for later submissions: once as many tasks are taken as are queued now, every task the sweep has submitted is taken |
| SubnetSweep.StepKeepsSweep | src/scanner/subnet_sweep.cpp:60-80 | each step keeps futures, captured addresses and stored results matched to the address list, and the found list to the values of the futures read |
| SubnetSweep.CollectKeepsSweep | src/scanner/subnet_sweep.cpp:69-81 | one turn of the collecting step of the machine is one turn of the loop of `CollectFound` |
| SubnetSweep.CollectFound | src/scanner/subnet_sweep.cpp:69-81 | the collecting loop keeps exactly the outcomes with status `SshDetected`, in order, and drops failures |
| SubnetSweep.CollectingIsOneByOne | src/scanner/subnet_sweep.cpp:69-81 | collecting the outcomes of all addresses gives the sequential result |
| IfconfigParser.ParseIfconfigOutput | src/parser/ifconfig_parser.cpp:90-115 | the loop computes the parse function that all parser theorems are about, and never returns `lo` or `lo0` |
| IfconfigParser.ParseIpAddrOutput | src/parser/ifconfig_parser.cpp:117-145 | the same for `ip -4 addr` |
| IfconfigParser.ExtractInetAddress | src/parser/ifconfig_parser.cpp:42-70 | the token loop over the trimmed line finds what the first address marker of the untrimmed line announces |
| IfconfigParser.Append | src/parser/ifconfig_parser.cpp:72-84 | adds a new pair of non-empty texts at the end unless its name is `lo` or `lo0`, and changes nothing otherwise |
| IfconfigParser.BlankLine | src/parser/ifconfig_parser.cpp:96-98 | a line of white space changes nothing, in either parser |
| ParserMeaning.ParsedPairs | src/parser/ifconfig_parser.cpp:90-145 | for every text and both parsers the result holds exactly the pairs that some line gives, each once, in the order in which lines first give them; a line gives the address it announces to the name of the last line up to it that opens a block, never to `lo` or `lo0` |
| ParserMeaning.NameIff | src/parser/ifconfig_parser.cpp:27-37 | the name is what precedes the first at-sign, or without one the token but for one trailing colon |
| ParserMeaning.OpensIff | src/parser/ifconfig_parser.cpp:99-101 | which lines open a block: for `ifconfig` those that do not start with one of the six white-space characters |
| ParserMeaning.TextOpensIff | src/parser/ifconfig_parser.cpp:122-129 | for `ip` those that hold a colon and whose first character after blanks is a digit |
| ParserMeaning.AnnouncesIff | src/parser/ifconfig_parser.cpp:42-70 | the first mark on a line decides alone: the token after `inet` or the rest of an `addr:` token, without a second label and up to a slash, if the check sees a dotted quad in it |
| ParserMeaning.NoLoopback | src/parser/ifconfig_parser.cpp:72-76 | no pair of any text has the name `lo` or `lo0` |
| Text.TokensIff | src/parser/ifconfig_parser.cpp:45-48 | the tokens of a text are its maximal runs of characters other than the six of white space, in order |
| Text.LinesIff | src/parser/ifconfig_parser.cpp:90-95 | the lines of a text are its parts between line feeds, without an empty one at the end |
| Text.TrimMeaning | src/parser/ifconfig_parser.cpp:18-25 | trimming leaves the part from the first to the last character that is neither space, tab, carriage return nor line feed |
| ParserRoundTrip.PrintedThenParsed | src/parser/ifconfig_parser.cpp:90-145 | in net-tools, BusyBox and `ip` form, for any blocks, addresses and filler, parsing gives exactly the pairs in order, without loopback and repetitions |
| ParserRoundTrip.ReadIffPrinted | src/parser/ifconfig_parser.cpp:90-145 | in each dialect a pair is read if and only if a block of that name holds the address and the name is neither `lo` nor `lo0` |
| ParserRoundTrip.DialectsAgree | src/parser/ifconfig_parser.cpp:90-145 | the same device read in two dialects gives the same result |
| ParserRoundTrip.HeaderRead | src/parser/ifconfig_parser.cpp:99-104 | the line that opens a block sets the current name, in each dialect, with colon or peer stripped |
| ParserRoundTrip.EntryRead | src/parser/ifconfig_parser.cpp:105-112 | an indented line adds its address to the current block or nothing |
| ParserRoundTrip.NulSurvives | src/parser/ifconfig_parser.cpp:12-16 | for every address and every tail after a NUL, the parser returns a text that is no dotted quad |
| ParserProperties.ParsingIsCompositional | src/parser/ifconfig_parser.cpp:90-145 | parsing two texts joined at a block boundary is parsing the first, then the pairs of the second not yet present, in both parsers |
| ParserProperties.ParsersIgnoreLineEndings | src/parser/ifconfig_parser.cpp:90-145 | for every text, LF and CRLF give the same result in both parsers |
| ParserProperties.LineEndingsIgnored | src/parser/ifconfig_parser.cpp:90-145 | the same from every intermediate parser state |
| ParserProperties.ParsedIsSound | src/parser/ifconfig_parser.cpp:27-84 | for every text the pairs are distinct, names are non-empty, without at-sign and neither `lo` nor `lo0`, addresses pass the check and occur in the text |
| ParserProperties.ParsedAddressesAreQuads | src/parser/ifconfig_parser.cpp:12-16 | on NUL-free text every returned address is a dotted quad |
| ParserProperties.ValidMeansQuadWithoutNul | src/parser/ifconfig_parser.cpp:12-16 | what passes the check is a dotted quad if and only if it holds no NUL |
| Ipv4.NtopThenPton | src/network/interface_discovery.cpp:58-64 | reading a written address gives it back |
| Ipv4.PtonIffNtop | src/network/interface_discovery.cpp:83-91 | the accepted texts are exactly the written ones, one per address |
| Ipv4.PtonIffDottedQuad | src/network/interface_discovery.cpp:83-91 | the accepted texts are four decimal octets of at most 255 without leading zeros, joined by dots, and their value has the first octet on top |
| JsonRoundTrip.WrittenThenRead | src/output/formatter.cpp:84-109 | for every report a JSON reader recovers all five strings, the interfaces and the warnings |
| JsonRoundTrip.WritingIsInjective | src/output/formatter.cpp:84-109 | different reports are written differently |
| JsonRoundTrip.EscapingIsReversible | src/output/formatter.cpp:9-38 | for every value the escaped text is a string body of section 7 of RFC 8259, without control characters or bare quotes, and unescapes to the value |
| JsonRoundTrip.PlainIffUnchanged | src/output/formatter.cpp:9-38 | a value is written unchanged if and only if it holds no quote, backslash or control character |
| JsonRoundTrip.EscapesUsed | src/output/formatter.cpp:11-34 | the five short escapes, and four lower-case hexadecimal digits for the other control characters |
| JsonRoundTrip.TextOfReport | src/output/formatter.cpp:84-109 | the text of every report, line by line |
| JsonRoundTrip.TextsOfLists | src/output/formatter.cpp:92-106 | the text of an interface and how lists of none, one and two items are laid out |
| JsonRoundTrip.ArrayReads | src/output/formatter.cpp:92-106 | lists of any length, also empty, are read back item by item |
| JsonRoundTrip.ObjectReads | src/output/formatter.cpp:86-91 | a written object is read back member by member whatever follows it |
| Formatter.FormatJson | src/output/formatter.cpp:84-109 | the writing statements produce the text that the round trip is about |
| Formatter.WriteInterfaces | src/output/formatter.cpp:92-100 | the interface loop writes the separators and brackets of the array text |
| Formatter.WriteWarnings | src/output/formatter.cpp:101-106 | the warning loop does the same |
| Formatter.JsonEscape | src/output/formatter.cpp:9-38 | the character loop computes the escaping that is proved reversible |
| InterfaceDiscovery.PrefixLength | src/network/interface_discovery.cpp:115-125 | the loop from bit 31 counts the leading ones |
| InterfaceDiscovery.LeadingOnesMeaning | src/network/interface_discovery.cpp:115-125 | all bits above the count are set and the next one is clear |
| InterfaceDiscovery.UsableHostsByPrefix | src/network/interface_discovery.cpp:127-133 | for any mask with exactly p leading ones the count is 2^(32-p)-2, or 2 and 1 for p of 31 and 32 |
| InterfaceDiscovery.ParseIpv4 | src/network/interface_discovery.cpp:83-91 | succeeds exactly on dotted quads before the first NUL and writes the value only then |
| InterfaceDiscovery.PrefixThroughText | src/network/interface_discovery.cpp:52-65 | every prefix 0 to 32 survives being written as a netmask, parsed and counted |
| InterfaceDiscovery.NoNetmaskPast32 | src/network/interface_discovery.cpp:52-55 | the text is empty exactly for lengths above 32 |
| InterfaceDiscovery.MaskThroughPrefix | src/network/interface_discovery.cpp:115-125 | rebuilding a mask from its prefix length gives it back if and only if it is contiguous |
| InterfaceDiscovery.BroadcastFits | src/network/interface_discovery.hpp:25-27 | for any mask the bitwise broadcast is network plus complement and stays in 32 bits |
| SubnetEnumeration.EnumerateSubnetHosts | src/scanner/subnet_sweep.cpp:24-53 | the wrapping 32-bit loops terminate and list the texts of the specified addresses in order; nothing for a mask that is zero or lacks the required leading ones |
| SubnetEnumeration.ListedIff | src/scanner/subnet_sweep.cpp:24-53 | for every interface and limit, in terms of the mask's bits: an address is listed if and only if the mask is not zero and has the required leading ones, the address is not the own one, and it lies strictly between network and broadcast, or between them inclusively in a block of one or two |
| SubnetEnumeration.PointToPoint | src/scanner/subnet_sweep.cpp:31-41 | on /31 the list is the other address of the pair, on /32 it is empty |
| SubnetEnumeration.ExactlyTheSubnet | src/scanner/subnet_sweep.cpp:43-51 | for accepted prefixes up to 30 the list is exactly the addresses under the mask other than network, broadcast and own, if and only if the mask is contiguous |
| SubnetEnumeration.OtherMasksListForeigners | src/scanner/subnet_sweep.cpp:43-51 | every other mask makes the loop list an address of another subnet |
| SubnetEnumeration.ListIsIncreasing | src/scanner/subnet_sweep.cpp:24-53 | the list is strictly increasing and never holds the own address |
| SubnetEnumeration.ListedTexts | src/scanner/subnet_sweep.cpp:11-20 | a dotted text is listed exactly when its address is |
| SubnetEnumeration.SweepIsBounded | src/scanner/subnet_sweep.cpp:24-53 | for any mask at all and limits 0 to 30 there are at most 2^(32-limit)-2 addresses |
| SubnetEnumeration.DefaultSweepIsBounded | src/config.hpp:22-25 | the default limit means at most 1022 addresses |
| SubnetEnumeration.ListLength | src/network/interface_discovery.cpp:127-133 | for accepted contiguous masks the length is the usable host count, minus one exactly when the own address is usable, also for /31 and /32 |
| SubnetEnumeration.InnerRangeFits | src/scanner/subnet_sweep.cpp:43-46 | with a prefix up to 30 the range never reaches the top of the address space |
| SshDetector.ReadSshBanner | src/scanner/ssh_detector.cpp:61-102 | for any chunks: at most 512 successful reads and 639 bytes, ending at the first chunk that completes a line or 512 bytes; the result keeps the address, its status says whether the stream starts with `SSH-` or nothing came, its banner is the sanitised text read |
| SshDetector.StatusIndependentOfChunks | src/scanner/ssh_detector.cpp:61-102 | for every stream and every way to cut it, the status is that of the whole stream |
| SshDetector.BannerIndependentOfChunks | src/scanner/ssh_detector.cpp:61-102 | the banner is that of the stream's first line if that ends within 512 bytes or no more arrive |
| SshDetector.BannerIndependentIff | src/scanner/ssh_detector.cpp:61-102 | for every stream, all its cuts give the same banner if and only if the first line has nothing but spaces among bytes 512 to 638 |
| SshDetector.LongLineHasTwoBanners | src/scanner/ssh_detector.cpp:81-90 | any other stream, of whatever length, has two cuts of which one keeps at most 512 characters and the other more |
| SshDetector.SanitizeBanner | src/scanner/ssh_detector.cpp:39-59 | both loops compute the sanitising function |
| SshDetector.SanitizedCharacters | src/scanner/ssh_detector.cpp:39-59 | the result character by character: the first line, question marks for unprintables, trailing spaces gone |
| SshDetector.SanitizedAsDocumentedIff | src/scanner/ssh_detector.cpp:39-59 | for every text the result is the documented one, with unprintable characters removed, if and only if the first line has none |
| SshDetector.TabIsNotRemoved | src/scanner/ssh_detector.cpp:46-54 | a tab inside a line becomes a question mark where the documentation removes it |
| SshDetector.SanitizingKeepsVerdict | src/scanner/ssh_detector.cpp:35-59 | the result is printable, starts with `SSH-` if and only if the raw bytes do, and is a fixed point |
| ArpDiscovery.ObservationList.AddObservation | src/network/arp_discovery.cpp:65-78 | updates the list in place as the merge function says |
| ArpDiscovery.SelectNeighbourEntries | src/network/arp_discovery.cpp:193-207 | merges the reachable, resolved entries of the adapter in order |
| ArpDiscovery.CaptureLinkTraffic | src/network/arp_discovery.cpp:137-176 | merges the sources of well-formed packets other than the own address |
| ArpDiscovery.DiscoverLinkLayerHosts | src/network/arp_discovery.cpp:247-273 | runs the three phases in order on one list; an empty list keeps the capture error or else says that no station announced itself, any other list has no error |
| ArpDiscovery.MergedList | src/network/arp_discovery.cpp:65-78 | one entry per usable address in first-seen order, with the first non-zero MAC offered and the first source |
| ArpDiscovery.InterestingIff | src/network/arp_discovery.cpp:52-63 | for every text: accepted if and only if what the check sees is a dotted quad below 224.0.0.0 and the text is not `0.0.0.0` |
| ArpDiscovery.InterestingMeansUnicast | src/network/arp_discovery.cpp:50-63 | on NUL-free text the accepted addresses are exactly the dotted quads between 0.0.0.0 and 224.0.0.0 |
| ArpDiscoveryProperties.DiscoveredAddresses | src/network/arp_discovery.cpp:247-264 | the addresses found are exactly those that a snapshot or the traffic showed, minus the own and unusable ones, each once |
| ArpDiscoveryProperties.SelectedEntries | src/network/arp_discovery.cpp:193-207 | each selected observation has source `NeighbourCache` and the address and MAC of the adapter's first reachable and resolved entry for that address |
| ArpDiscoveryProperties.DiscoveredEntries | src/network/arp_discovery.cpp:247-264 | each entry found has the MAC of the first entry of the first snapshot that shows its address, else of the second snapshot, else none; its source is the cache, or the traffic if that showed it before the cache did |
| ArpDiscoveryProperties.DiscoveredInOrder | src/network/arp_discovery.cpp:247-264 | of two entries found, the earlier one was seen first, over the entries and packets of all phases in time order |
| ArpDiscoveryProperties.SourceAddress | src/network/arp_discovery.cpp:209-223 | the four bytes from offset 12 of a packet that starts with a complete IPv4 header of 20 to 60 bytes, nothing for any other packet |
| ArpDiscoveryProperties.OnlyZeroMacsChange | src/network/arp_discovery.cpp:69-75 | later observations only append entries and fill in zero MACs |
| ArpDiscoveryProperties.MacKnownIffOffered | src/network/arp_discovery.cpp:69-75 | an entry ends with a non-zero MAC if and only if some phase offered one |
| ArpDiscoveryProperties.SecondSnapshotResolves | src/network/arp_discovery.cpp:258-264 | every usable address of the second snapshot ends with a MAC that is neither empty nor all zeros |
| Sequences.DistinctKeepsFirstSeenOrder | src/network/arp_discovery.cpp:69-77 | what the duplicate-free list means: elements keep the order of their first occurrence |
| Sequences.DistinctParts | src/network/arp_discovery.cpp:249-264 | removing repetitions from the phases first makes no difference to the merged order |
| Bits.GapInRange | src/network/interface_discovery.hpp:25-27 | under a mask that is not contiguous, the range from network to broadcast holds a word that the mask sends elsewhere |
| Bits.SameBlock | src/network/interface_discovery.hpp:25 | under a contiguous mask, having the same network means lying in the same aligned block |
| Bits.BitMeaning | src/network/interface_discovery.cpp:117-119 | bit i of a word is the i-th binary digit of its value |
| Bits.AndByBit | src/network/interface_discovery.hpp:25 | the mask operator bit by bit |
| Bits.OrByBit | src/network/interface_discovery.hpp:27 | the same for the union of bits |
| Bits.NotByBit | src/network/interface_discovery.hpp:27 | the same for the complement in a word |

## Left out

- SubnetSweep.SweepRunsAreBounded: says nothing about fairness of the scheduler; that an enabled thread is run at some time, among endless calls by others, is not modelled.
- ThreadPool.ThreadPool.Shutdown: only threads that the stop leaves to act take turns during the call; refused submissions and later shutdown calls among them are covered by `ShutdownCompletes`.
- JsonReader: numbers, `true`, `false`, `null` and surrogate pairs are not read, since the report contains none.
- ThreadPool: steps below the mutex (memory order, the condition variable's own lock) and exceptions that are not `std::exception` are not modelled.
- The probe of one address and the port scanner (src/scanner/port_scanner.cpp, `probe_ssh`): sequences of system calls, here an oracle. It answers the same address the same way within one sweep.
- Opening sockets, reading the neighbour table and enumerating adapters: operating system calls, here arbitrary inputs. `permission_denied` and the texts of capture errors are inputs too.
- Wall-clock time: a deadline may end a loop after any number of turns.
- Vectors passed by reference to `append` and `extract_inet_address` are values that the methods return; the observation list and the pool are objects updated in place.
- `format_text`, the `to_string` functions, `format_mac`, `is_virtual_interface_name` and the flag filter of `filter_candidate_interfaces`: presentation and simple filters.
- Command line, exit codes, the SSH client and the Winsock wrapper: nothing of their own to prove.
