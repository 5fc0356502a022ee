# Retina in Dafny

A model of the parts of Retina whose correctness is hardest to see, with proofs of what they promise:

- **Capture filters.** A Capture's include/exclude entries, user expression, source and destination lists
  and selected pods are compiled into pcap-filter texts, spread over one job per node, and put together again
  in the capture workload. `PcapFilter` gives the target language a lexer, a parser with the precedence rules of
  pcap-filter(7) and a meaning over packets, and `PcapNesting` the shape of every text the parser can read;
  `CaptureFilters`, `CaptureText`, `CaptureMeaning`, `AddressClauses`,
  `CaptureTargets`, `CaptureJobs`, `CapturePipeline` and `CaptureTranslation` follow a Capture from its strings to
  the packets tcpdump keeps.
- **Trace scripts.** One address filter is compiled to byte tests and to byte-swapped 32-bit tests inside six
  bpftrace probes (`IpBytes`, `TraceScript`, `TraceMeaning`).
- **Host paths.** `Paths` and `HostPath` give lexical path resolution and what its checks decide.
- **Kernel versions.** `KernelVersion` parses releases and orders versions through their printed form.
- **Monitor agent.** `MonitorAgent` holds the sections under the lock, `MonitorRuns` all their interleavings.
- **Flow extensions.** `Float64` and `FlowExtensions` carry numbers through float64 and across enrichment.
- **Lazy log handler** and **CPU usage**: `LazyLog`, `CpuUsage`.

`GoStrings` and `Powers` hold the shared library functions.

What comes from outside is a parameter: net.ParseIP (any function whose accepted strings are spelt with hex digits,
dots and colons), the meaning of user primitives in pcap expressions, the netsh text of an address list, the
canonical form of a timestamp, the pods and nodes the API server lists (their addresses taken to be addresses), the
enricher's cache, the samples of getrusage, and what Go does with a float outside an integer's range. Ranging over a
Go map is an arbitrary choice in the methods.

Things the proofs brought out, where the code does less than its comments say:

- The include/exclude text is a pcap-filter expression exactly when every surviving entry is printable
  (`EntriesPrintable`). `*:*`, `ip:port` listed after the last `ip:*`, and a signed port such as `+80` pass validation
  and print an empty or signed port; tcpdump then rejects the text and the capture does not run. The map built
  from the entries means the right thing in all these cases, in any order.
- An IPv6 address starting with `::` is read as any address with any port.
- A trace filter with only unusable entries (IPv6 networks, which the command line accepts) filters nothing. A network
  such as `::ffff:1.2.3.0/120` makes the word filter pass nothing and the byte filter everything.
- User text is combined before anything has parsed it. The system filter stays a conjunct of whatever is run, for
  every text. The source and destination clause stays one exactly when the text combined with it is an expression of
  its own: `x)) or ((y` is not, and then the clause restricts `y` only (`ClausesStay`, `ClauseEscaped`).
- A flag at the very start of pcapFilter is not seen by the workload when source or destination addresses are listed,
  because the text is put in parentheses first (`CombinedFlag`).
- The monitor agent can enqueue on a closed listener: exactly when an event is sent after a closed listener was
  registered again on a running agent, or a stored one on a stopped agent (which closes it but leaves it stored),
  and the listener was not removed in between. Both happen in short runs from the initial state.
- The second traversal check and the escape check of the host path never fire; the second absolute-path check does.

## Model

| member | source | states |
|---|---|---|
| PcapFilter.LexConcat | crd/api/v1alpha1/capture_types.go:87-92 | texts separated by a delimiter are tokenised separately, so printed pieces can be read one by one |
| PcapFilter.EqualPrecedence | crd/api/v1alpha1/capture_types.go:87-92 | in the filter language linked there, `and` and `or` have equal precedence and associate to the left |
| PcapFilter.ParseConjunction | pkg/capture/crd_to_job.go:575-588 | for any two expressions, however they mix operators, `(a) and (b)` is exactly their conjunction |
| PcapFilter.ParseDisjunction | pkg/capture/crd_to_job.go:590-606 | `a or (b)` takes the whole unparenthesised `a` as left operand, even with `and` or `not` inside |
| PcapFilter.UnreadableStays | pkg/capture/crd_to_job.go:590-606 | nothing appended to an unreadable text makes it readable |
| PcapNesting.UnreadableConjunct | pkg/capture/provider/network_capture_unix.go:165-178 | no text in front of an unreadable one, well formed or not, makes their combination readable |
| PcapNesting.ConjunctStays | pkg/capture/crd_to_job.go:575-588 | for every text `a`, if `(a) and (b)` is read at all, then as a conjunction whose right side is `b` |
| PcapNesting.ClausesStay | pkg/capture/provider/network_capture_unix.go:165-178 | after both combinations the system filter is a conjunct for every user text, and the source/destination clause is one exactly when the inner combination is an expression of its own |
| PcapNesting.ClauseEscaped | pkg/capture/provider/network_capture_unix.go:165-178 | the user texts `x)) or ((y` are read with the clause on `y` only |
| CaptureFilters.EntryReadsBack | pkg/capture/crd_to_job.go:994-1003 | an `ip:port` entry is read back as that address and port with `*` as any, text after a second colon ignored |
| CaptureFilters.LeadingColonsReadAsAny | pkg/capture/crd_to_job.go:994-1003 | an entry starting with `::` is read as any address, any port |
| CaptureFilters.PortEntry | pkg/capture/crd_to_job.go:1004-1011 | an entry that is a number up to 65535 matches exactly the packets with that port at either end |
| CaptureFilters.AddressEntry | pkg/capture/crd_to_job.go:1004-1011 | an address with a dot matches exactly the packets with that address at either end |
| CaptureFilters.PlainEntryInvalid | pkg/capture/crd_to_job.go:1004-1024 | exactly which entries without a colon are malformed |
| CaptureFilters.PairEntry | pkg/capture/crd_to_job.go:994-1024 | exactly which entries with a colon are malformed, and exactly which packets the others match |
| CaptureFilters.DeleteEverywhere | pkg/capture/crd_to_job.go:1029-1031 | the nested deletion removes the port from every address's set and nothing else |
| CaptureFilters.InsertInto | pkg/capture/crd_to_job.go:1026-1053 | one turn of the loop is the insertion the lemmas are about |
| CaptureFilters.ListPorts | pkg/capture/crd_to_job.go:1057-1063 | each port set becomes a list without repetition, in some order |
| CaptureFilters.FilterToIPPortsMap | pkg/capture/crd_to_job.go:984-1066 | fails on the first malformed entry exactly when there is one; otherwise returns the port sets of all entries |
| CaptureFilters.PortSetsExact | pkg/capture/crd_to_job.go:1026-1055 | the map holds exactly the entries that no later wildcard absorbs |
| CaptureFilters.PortSetsMean | pkg/capture/crd_to_job.go:984-1066 | for every list the map matches exactly the packets some listed entry matches |
| CaptureFilters.PermutationInvariant | pkg/capture/crd_to_job.go:984-1066 | order and repetition of entries do not change what the map matches |
| CaptureText.PiecesUnique | pkg/capture/crd_to_job.go:908-938 | whatever order the maps are ranged over, the same pieces are printed in the same order |
| CaptureText.FilterGroup | pkg/capture/crd_to_job.go:904-941 | the group text is a function of the port sets alone |
| CaptureText.TcpdumpFiltersFromIncludeAndExcludeFilters | pkg/capture/crd_to_job.go:900-959 | the whole text is a function of the two port maps alone |
| CaptureMeaning.PieceTerm | pkg/capture/crd_to_job.go:915-934 | a printed piece is one term with its meaning, or unreadable when its port is not a bare number |
| CaptureMeaning.GroupTerm | pkg/capture/crd_to_job.go:936-941 | a printed group is one term, the disjunction of its pieces, or unreadable |
| CaptureMeaning.EntriesPrintableMap | pkg/capture/crd_to_job.go:908-934 | printability can be told from the list of entries, without building the map |
| CaptureMeaning.FilterTextCorrect | pkg/capture/crd_to_job.go:900-959 | the text parses exactly when all entries are printable, is empty exactly when there are none, and accepts exactly the packets some include entry and no exclude entry matches |
| CaptureMeaning.FilterTextUnreadable | pkg/capture/crd_to_job.go:900-959 | one unprintable entry spoils every text the filter becomes a part of |
| CaptureMeaning.PrintabilityDependsOnOrder | pkg/capture/crd_to_job.go:1039-1053 | `ip:port, ip:*` prints a usable text, `ip:*, ip:port` and `*:*` do not |
| CaptureMeaning.ObtainTcpdumpFilters | pkg/capture/crd_to_job.go:1068-1088 | succeeds exactly when no entry is malformed, with the text of the entries; otherwise names the first malformed entry, includes before excludes |
| AddressClauses.BpfDirectionalHostClause | pkg/capture/crd_to_job.go:559-573 | the loop builds the clause the lemmas are about |
| AddressClauses.ClauseCorrect | pkg/capture/crd_to_job.go:559-573 | the clause is absent exactly when no entry is an address, and otherwise accepts exactly the packets one of them touches in that direction |
| AddressClauses.CombineCorrect | pkg/capture/crd_to_job.go:575-588 | combining two optional expressions accepts exactly what both accept |
| AddressClauses.SourceDestinationCorrect | pkg/capture/crd_to_job.go:550-557 | with only addresses listed, none is skipped: source in the list (or no list) and destination in the list (or no list) |
| AddressClauses.UpdateTcpdumpFilterWithPodIPAddress | pkg/capture/crd_to_job.go:590-606 | the loop builds the text the lemmas are about |
| AddressClauses.WithPodAddressesCorrect | pkg/capture/crd_to_job.go:590-606 | the text accepts what the whole base filter accepts or what touches a pod of the node, either side omitted when absent |
| CaptureTargets.TargetsOnNode.AddPod | pkg/capture/crd_to_job.go:84-93 | appends the addresses to the node's target or creates it; other nodes unchanged |
| CaptureTargets.TargetsOnNode.CollectPods | pkg/capture/crd_to_job.go:860-870 | the loop groups the pods' addresses by node |
| CaptureTargets.TargetsOnNode.CollectNodes | pkg/capture/crd_to_job.go:817-819 | one interface target per listed node |
| CaptureTargets.TargetsOnNode.UpdateAllOS | pkg/capture/crd_to_job.go:774-776 | exactly the listed nodes among the targets get their system |
| CaptureTargets.IpsOnPartitions | pkg/capture/crd_to_job.go:84-93 | the per-node lists are the order-preserving partition of all listed addresses |
| CaptureTargets.NoneLostOrMoved | pkg/capture/crd_to_job.go:84-93 | on every node each address occurs as often as it was listed for that node |
| CaptureTargets.TargetsAreNodes | pkg/capture/crd_to_job.go:823-898 | a node is a target exactly when a selected pod runs on it, with exactly the addresses of its pods |
| CaptureJobs.RenderEnv | pkg/capture/crd_to_job.go:458-533 | the step-by-step edits of a private copy give the job environment the lemmas are about; the common map is only read |
| CaptureJobs.RenderJob | pkg/capture/crd_to_job.go:441-548 | fails exactly without nodes or with a bad timestamp; otherwise exactly one job per node with a file name of its own, each determined by its own target; the shared template and the shared common map stay as they were |
| CaptureJobs.JobEnvKeys | pkg/capture/crd_to_job.go:490-533 | the handoff key is never emitted, Linux jobs carry no NETSH_FILTER, others no TCPDUMP_FILTER, every other variable is the common one |
| CaptureJobs.JobVariables | pkg/capture/crd_to_job.go:535-539 | a container sees its job's environment, node name and timestamp |
| CaptureJobs.LinuxJobFilters | pkg/capture/crd_to_job.go:490-503 | the three filters a Linux container sees |
| CaptureJobs.FilenameRebuilt | pkg/capture/capture_manager.go:48-54 | the file name the workload rebuilds from its environment is the annotated one |
| CaptureJobs.JobFilenamesDiffer | pkg/capture/file/capture_filename.go:15-18 | the jobs of one capture have pairwise different file names |
| CapturePipeline.ValidateIPAddresses | pkg/capture/crd_to_job.go:717-726 | the first entry that is not an address, or none exactly when all are |
| CapturePipeline.ValidateFilters | pkg/capture/crd_to_job.go:702-712 | passes exactly when the lists hold addresses only and no raw filter is combined with them |
| CapturePipeline.ObtainCaptureJobPodEnv | pkg/capture/crd_to_job.go:1163-1197 | every filter variable of the common environment, and no other filter variable |
| CapturePipeline.PcapTextCorrect | pkg/capture/crd_to_job.go:1175-1185 | PCAP_FILTER accepts exactly what the user's expression and both address lists accept |
| CapturePipeline.TrimKeeps | pkg/capture/provider/network_capture_unix.go:127-163 | for every text, trimming changes neither its meaning nor whether it holds a flag, and does not empty an expression |
| CapturePipeline.TrimExactly | pkg/capture/provider/network_capture_unix.go:134-149 | trimming takes away the blanks at both ends, all of them and nothing else; only blanks become empty |
| CapturePipeline.FlagIsField | pkg/capture/provider/network_capture_unix.go:152-160 | the flag check holds exactly when some blank-separated field starts with a dash |
| CapturePipeline.CombinedFlag | pkg/capture/crd_to_job.go:575-588 | after combining with addresses exactly the flags inside the text are still seen, not one at its start |
| CapturePipeline.WorkloadOutcome | pkg/capture/provider/network_capture_unix.go:127-194 | for every pair of texts: when it is blank, when a flag is reported, when it is run, and with what |
| CapturePipeline.WorkloadRuns | pkg/capture/provider/network_capture_unix.go:224-237 | two well-formed texts without a flag are run as their conjunction |
| CapturePipeline.WorkloadRejects | pkg/capture/provider/network_capture_unix.go:180-194 | with an unreadable system filter nothing is run, whatever the user text |
| CapturePipeline.WorkloadStaysWithin | pkg/capture/provider/network_capture_unix.go:165-178 | whatever the user text, what is run keeps nothing the system filter rejects |
| CapturePipeline.CapturedPackets | pkg/capture/provider/network_capture_unix.go:209-241 | on a Linux node, for every well-formed user expression: refused exactly when a flag is seen, run exactly when moreover all entries are printable, a syntax error otherwise; what is run keeps exactly the packets the Capture requests there |
| CapturePipeline.CapturedWithin | pkg/capture/provider/network_capture_unix.go:209-241 | on a Linux node, for every user text: flags are refused, nothing is run with unprintable entries, nothing outside the entries and pods is kept, and nothing outside the address lists when PCAP_FILTER is an expression |
| CaptureTranslation.CalculateTargets | pkg/capture/crd_to_job.go:781-800 | the targets are the selected nodes or the nodes of the selected pods, with the addresses of their pods and their listed systems |
| CaptureTranslation.JobAsAsked | pkg/capture/crd_to_job.go:457-541 | each job's command, file name, node, time, name and options as its container sees them; NETSH_FILTER is the join of the groups of its pods, the sources and the destinations on Windows and absent on Linux, TCPDUMP_FILTER absent on Windows, and the handoff variable never seen |
| CaptureTranslation.TranslateCaptureToJobs | pkg/capture/crd_to_job.go:403-439 | every outcome exactly in its own case: invalid filters, no targets, a malformed entry, a bad timestamp, too many jobs (with their number), and otherwise one job per selected node, pods or nodes selected, each job as asked and each Linux job keeping exactly the requested packets |
| IpBytes.SwapLoad | shell/tracescript.go:616-620 | swapping the little-endian load of an address gives its network-order word |
| IpBytes.To4Exactly | shell/tracescript.go:522-526 | the 4-byte form of an address is exactly that of 4 bytes or of their mapped 16-byte form |
| IpBytes.WordsMasked | shell/tracescript.go:642-654 | masking the 32-bit word and comparing is masking and comparing every byte |
| IpBytes.PrefixIsInterval | shell/tracescript.go:542-549 | the mask test of a prefix of length 0 to 32 holds exactly on the numbers from net to net + 2^(32-len) - 1 |
| TraceScript.BuildTCPIPFilterCheckFromLocalVars | shell/tracescript.go:515-559 | the loops build the byte conditions of the usable entries, or nothing |
| TraceScript.BuildSkbIPFilterCondition | shell/tracescript.go:621-663 | the loops build the word conditions of the usable entries, or nothing |
| TraceScript.Generate | shell/tracescript.go:25-59 | an event is printed once exactly when its probe is enabled and the probe's body does not return early |
| TraceMeaning.FilterMeans | shell/tracescript.go:515-559 | exactly which address pairs each of the two filters passes |
| TraceMeaning.ProbesAgree | shell/tracescript.go:621-663 | without odd masks the byte filter and the word filter, hence all six probes, make the same decision on every pair |
| TraceMeaning.ProbesAgreeExactly | shell/tracescript.go:642-654 | with masks that are not 4 bytes long, exactly the pairs on which they still agree |
| TraceMeaning.MappedNetworkDisagrees | shell/tracescript.go:647-654 | for a mapped network with a 16-byte mask the word filter passes nothing and the byte filter everything |
| TraceMeaning.DecisionIsListed | shell/tracescript.go:551-558 | the decision is "no filter or a listed address" on all pairs exactly when no filter is configured or some entry is usable |
| TraceMeaning.PrefixEntryIsBlock | cli/cmd/bpftrace.go:90-99 | a prefix entry matches exactly the addresses of its block |
| TraceMeaning.ProbePrints | shell/tracescript.go:100-504 | a probe prints an event exactly when it is IPv4, passes the probe's own test and passes the filter |
| TraceMeaning.GenerateScript | shell/tracescript.go:25-59 | for every configuration the script reports every event its enabled probe is for and its filter passes exactly once, and no other; without odd masks all probes share one decision |
| TraceMeaning.TraceAddresses | cli/cmd/bpftrace.go:73-87 | with address filters only, in either form, an event is reported once exactly when its probe wants it and one of the addresses is at either end |
| Paths.CleanIdempotent | pkg/capture/hostpath_validation.go:59-60 | cleaning twice is cleaning once and keeps a path absolute or relative |
| Paths.CleanCongruent | pkg/capture/hostpath_validation.go:59-60 | cleaning a rooted path can be done on its front first |
| Paths.CleanName | pkg/capture/hostpath_validation.go:59-60 | a name stays, behind the cleaned path before it |
| Paths.CleanDots | pkg/capture/hostpath_validation.go:59-60 | "." and empty segments vanish, ".." takes away the name before it, and nothing from the root |
| HostPath.ParentSegment | pkg/capture/hostpath_validation.go:102-109 | a ".." between slashes of either kind is found exactly when some '/'-segment has it between backslashes |
| HostPath.SecondCheckSilent | pkg/capture/hostpath_validation.go:87-89 | the traversal check on the cleaned subpath never fires after the first |
| HostPath.ValidateDecides | pkg/capture/hostpath_validation.go:51-98 | for every subpath and base the outcome is decided by the segments alone; the second traversal check and the escape check are redundant |
| HostPath.AcceptedUnderBase | pkg/capture/hostpath_validation.go:91-97 | an accepted path is the base followed by the raw names in order, none empty, "." or "..", and its path relative to the base is the cleaned subpath |
| HostPath.PreCleaningIsHarmless | operator/config/config.go:63-70 | cleaning the base beforehand never changes the outcome, and a refused base is never accepted |
| HostPath.SecondAbsoluteCheckFires | pkg/capture/hostpath_validation.go:84-86 | `./\x` passes every earlier check and is rejected here |
| HostPath.DriveLetterRefused | pkg/capture/hostpath_validation.go:34-35 | a letter, a colon and a slash of either kind in front are refused as absolute whatever follows; without the slash they are not |
| HostPath.DefaultBase | pkg/capture/hostpath_validation.go:56-58 | no base means /var/log/retina/captures |
| KernelVersion.CompareIntIsNumeric | pkg/utils/kernel_version_linux.go:47-51 | comparing numbers by length and then digit by digit is comparing them as numbers |
| KernelVersion.ParsePrinted | pkg/utils/kernel_version_linux.go:62-64 | a printed version is valid exactly when no part is negative, and parses back to its parts |
| KernelVersion.AtLeastIsLexicographic | pkg/utils/kernel_version_linux.go:47-51 | on non-negative versions it is the lexicographic order of (major, minor, patch); a negative version is below every other |
| KernelVersion.ParsedIsNonNegative | pkg/utils/kernel_version_linux.go:66-95 | every parsed release has non-negative parts, so the invalid-semver error never occurs |
| KernelVersion.ParseRoundTrip | pkg/utils/kernel_version_linux.go:66-95 | "a.b.c" followed by nothing or by a suffix starting with "-", "+" or "." parses to (a, b, c) |
| KernelVersion.ParseTwoParts | pkg/utils/kernel_version_linux.go:83-88 | a two-part release has patch 0 |
| KernelVersion.ParsedExactly | pkg/utils/kernel_version_linux.go:66-95 | for every release, from the dot-separated parts before its first "-" or "+": exactly when each error is returned, and otherwise the version |
| MonitorAgent.Agent.NotifyAgentEvent | pkg/monitoragent/monitoragent_linux.go:215-221 | notifies each consumer once, in some order, and changes nothing else |
| MonitorAgent.Agent.SendToListeners | pkg/monitoragent/monitoragent_linux.go:201-213 | enqueues once on each listener, in some order, and changes nothing else |
| MonitorAgent.Agent.HasListeners | pkg/monitoragent/monitoragent_linux.go:193-199 | whether any listener is stored |
| MonitorAgent.Agent.SendEvent | pkg/monitoragent/monitoragent_linux.go:53-98 | uninterrupted: the notify section, then the send section unless there is no listener or the event cannot be encoded |
| MonitorAgent.Agent.RegisterNewListener | pkg/monitoragent/monitoragent_linux.go:100-127 | stores a supported listener on a running agent, closes any other |
| MonitorAgent.Agent.RemoveListener | pkg/monitoragent/monitoragent_linux.go:129-144 | removes and closes the listener |
| MonitorAgent.Agent.RemoveConsumer | pkg/monitoragent/monitoragent_linux.go:168-180 | removes the consumer and cancels the reader when no subscriber is left |
| MonitorRuns.RunKeepsInv | pkg/monitoragent/monitoragent_linux.go:53-221 | at every point of every interleaving, with any number of concurrent calls: each event notified once to exactly the consumers of its notify section, enqueued once to exactly the listeners of its send section, consumers first, only supported listeners stored |
| MonitorRuns.ConsumersExactly | pkg/monitoragent/monitoragent_linux.go:145-180 | in every run a consumer is registered exactly when it was added and not removed since |
| MonitorRuns.ListenersExactly | pkg/monitoragent/monitoragent_linux.go:100-144 | in every run a listener is stored exactly when it is supported, was registered before the stop and not removed since |
| MonitorRuns.ClosedExactly | pkg/monitoragent/monitoragent_linux.go:100-144 | in every run a listener is closed once for each removal and each refused registration |
| MonitorRuns.NotifiedExactly | pkg/monitoragent/monitoragent_linux.go:215-221 | once announced, an event has been notified for ever after once to exactly the consumers added and not removed by then |
| MonitorRuns.EnqueuedExactly | pkg/monitoragent/monitoragent_linux.go:201-213 | once sent, an event has been enqueued for ever after once on exactly the listeners accepted and not removed by then |
| MonitorRuns.SentOnlyIf | pkg/monitoragent/monitoragent_linux.go:53-98 | an event is sent only if there was a listener at its check and it could be encoded |
| MonitorRuns.StaleStep | pkg/monitoragent/monitoragent_linux.go:100-144 | a stored listener becomes a closed one exactly by registering a closed one again on a running agent or a stored one on a stopped agent, and stops being one exactly by its removal |
| MonitorRuns.StepKeepsOpen | pkg/monitoragent/monitoragent_linux.go:100-144 | a step keeps closed listeners out of the store exactly when it does not register a closed one on a running agent or a stored one on a stopped agent |
| MonitorRuns.StaleExactly | pkg/monitoragent/monitoragent_linux.go:100-144 | in every run a closed listener is stored exactly when some registration left it so and nobody removed it since |
| MonitorRuns.RunUsesOpen | pkg/monitoragent/monitoragent_linux.go:100-213 | in every run nothing is enqueued on a closed listener exactly when all stored listeners were open at every send section |
| MonitorRuns.RunNeverUsesClosed | pkg/monitoragent/monitoragent_linux.go:100-213 | in every run nothing is enqueued on a closed listener exactly when no event is sent after such a registration of a listener that was not removed in between |
| MonitorRuns.StoppedRegistrationIsUsed | pkg/monitoragent/monitoragent_linux.go:108-112 | a run from the initial state in which a listener registered again after the stop is closed and then used |
| MonitorRuns.RemovedRegistrationIsUsed | pkg/monitoragent/monitoragent_linux.go:114-117 | a run from the initial state in which a removed listener registered again is used although it was closed |
| MonitorRuns.StoppedAddsNone | pkg/monitoragent/monitoragent_linux.go:145-165 | after stopping no listener is added, and each consumer at most once for every registration call that made its check before |
| MonitorRuns.CancelledExactly | pkg/monitoragent/monitoragent_linux.go:176-179 | the reader is cancelled exactly by a consumer removal that leaves no subscriber |
| Float64.RoundIsNearest | pkg/utils/flow_utils.go:235-240 | the carried value is a float64, and no float64 is nearer |
| Float64.TieGoesToEven | pkg/utils/flow_utils.go:235-240 | a tie goes to the even significand |
| Float64.ExactIffRepresentable | pkg/utils/flow_utils.go:292-297 | an integer is carried unchanged exactly when a float64 represents it, in particular up to 2^53 |
| Float64.FirstInexact | pkg/utils/flow_utils.go:292-297 | 2^53 + 1 is carried as 2^53 |
| FlowExtensions.AddPacketSize | pkg/utils/flow_utils.go:407-412 | stores the size under its key unless zero or no struct |
| FlowExtensions.AddPreviouslyObservedBytes | pkg/utils/flow_utils.go:235-240 | stores the bytes under their key unless zero or no struct |
| FlowExtensions.AddPreviouslyObservedPackets | pkg/utils/flow_utils.go:255-260 | stores the packets under their key unless zero or no struct |
| FlowExtensions.AddPreviouslyObservedTCPFlags | pkg/utils/flow_utils.go:196-216 | stores all flag counts unless all are zero or no struct |
| FlowExtensions.AddTCPID | pkg/utils/flow_utils.go:292-297 | stores the id under its key unless zero or no struct |
| FlowExtensions.AddDNSInfo | pkg/utils/flow_utils.go:315-353 | stores the type of a query or response and a positive number of answers |
| FlowExtensions.AddDropReason | pkg/utils/flow_utils.go:427-433 | stores the drop reason |
| FlowExtensions.AddZones | pkg/utils/flow_utils.go:477-483 | stores both zones |
| FlowExtensions.SetExtensions | pkg/utils/flow_utils.go:156-162 | packs the fields unless there are none; the rest of the flow unchanged |
| FlowExtensions.GetExtensionsStruct | pkg/utils/flow_utils.go:166-175 | a fresh struct with the packed fields, or none |
| FlowExtensions.Enrich | pkg/enricher/enricher.go:108-166 | adds the zones of both ends, keeps every other extension and exports; a flow it does not handle keeps its extensions and is not exported |
| FlowExtensions.ObserveAndEnrich | pkg/enricher/enricher.go:152-165 | any additions, packing and enrichment on real objects give the extensions the lemmas are about |
| FlowExtensions.LastValueWins | pkg/utils/flow_utils.go:196-483 | after any sequence of additions every key holds the last value stored under it |
| FlowExtensions.KeysDiffer | pkg/utils/flow_utils.go:20-31 | the ten keys differ, so no addition disturbs a value of another kind |
| FlowExtensions.EnrichedLookup | pkg/enricher/enricher.go:152-165 | enrichment replaces the zones only |
| FlowExtensions.CountersReadBack | pkg/utils/flow_utils.go:242-425 | every uint32 getter returns, exactly, the last non-zero number among the calls of its own kind, whatever other values were added |
| FlowExtensions.TCPIDReadBack | pkg/utils/flow_utils.go:299-312 | the last TCP id added is read back exactly when a float64 represents it, in particular up to 2^53; 0 for a flow that is not TCP |
| FlowExtensions.FlagsReadBack | pkg/utils/flow_utils.go:218-232 | the flag counts read back are the last ones added that were not all zero |
| FlowExtensions.TextReadBack | pkg/utils/flow_utils.go:355-461 | the drop reason is that of the last AddDropReason call, the DNS type that of the last query or response |
| FlowExtensions.ZonesReadBack | pkg/utils/flow_utils.go:486-509 | the zones read back are the enricher's |
| FlowExtensions.ZoneExactly | pkg/enricher/enricher.go:226-241 | a zone is the cache's zone of the node of the endpoint behind the address, and unknown when any link is missing |
| FlowExtensions.NothingToRead | pkg/utils/flow_utils.go:242-509 | what every getter returns for a flow without extensions |
| LazyLog.LazyZapHandler.WithAttrs | pkg/log/zap.go:285-293 | itself for no attributes, else a new handler whose operations are a copy with one more, in an array of its own; nothing existing changes |
| LazyLog.LazyZapHandler.WithGroup | pkg/log/zap.go:295-303 | itself for no name, else a new handler whose operations are a copy with one more, in an array of its own; nothing existing changes |
| LazyLog.LazyZapHandler.Inner | pkg/log/zap.go:252-266 | nothing before the global logger exists, then the recorded operations replayed in order |
| LazyLog.ReplayIsEager | pkg/log/zap.go:252-303 | replaying what any chain of calls recorded is making the calls on the real handler |
| LazyLog.DeriveFamily | pkg/log/zap.go:285-303 | however handlers are derived from each other, each records exactly the calls that led to it, and no two share an array |
| LazyLog.Siblings | pkg/log/zap.go:252-303 | whenever they are asked, all handlers of any family behave as if their own calls had been made on the real handler |
| CpuUsage.PerfProfile.GetCPUUsage | pkg/telemetry/perf_unix.go:60-86 | reports the two deltas and stores the sample; on either error the stored sample is kept |
| CpuUsage.DeltaIsFloor | pkg/telemetry/perf_unix.go:74-78 | the shifted difference is exactly the floor of the true difference in seconds, never negative for growing samples |
| CpuUsage.TotalWithinOneSecondEach | pkg/telemetry/perf_unix.go:60-86 | over n reports the total is never above the true usage and less than n seconds below it |
| CpuUsage.ReportAll | pkg/telemetry/perf_unix.go:60-86 | the stored sample makes a run's reports the deltas of consecutive samples, across any failed calls in between |

## Left out

- Kubernetes, blob storage, S3 and exec clients: plumbing over libraries that are not part of this model.
- The job template (resources, tolerations, volumes, security context), output, duration, size and flag variables: data without a hard property; they appear as `options` and `template`.
- The check for running Windows captures and the other checks of validateCapture (duration, size, output, selectors): each is one comparison.
- netsh texts and how netsh combines them: a parameter of `CaptureJobs`.
- pcap-filter features the generator never prints (protocol and byte expressions, elided qualifiers): a user's primitive is an opaque run of words; blanks are space, tab, newline and carriage return (also for TrimSpace and Fields). A port is read in decimal; libpcap reads one with a leading zero in octal.
- The text of bpftrace scripts: the model stops at conditions and early returns; the printed lines are not modelled.
- Semver pre-releases and build metadata: never printed by kernelSemverFromParts.
- 64-bit overflow of second counters, and of the sums in `CpuUsage`.
- FlowExtensions.AddDNSInfo: only the extensions; the layer-7 record, types and reply mark it sets on the flow, and its check for a nil flow, are not modelled.
- FlowExtensions.AddDropReason: only the extensions; the verdict, description and event type it sets on the flow, and its check for a nil flow, are not modelled.
- FlowExtensions.Enrich: endpoints and workloads are not modelled; protobuf packing is taken to be lossless.
- The attribute slices passed to WithAttrs are values: a caller that changes one afterwards is not modelled.
- The logr sink: its names and values depend on zap and zapr code that is not part of this model.
- nil agents and nil subscribers of the monitor agent, the status it reports, and the content of payloads.
- filepath.Rel between paths that are not both absolute: the code never asks for it.
- Configuration, caches, plugins, hive cells, metrics, telemetry sending and the command line.
