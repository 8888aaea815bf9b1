# IGMPv3 host and router, and the Click library code under them: a verified model

The repository is a small IGMPv3 implementation: a host element that joins and
leaves multicast groups, a router element that listens to the hosts' reports
and decides where to forward, and the Click library code both are built on.
This project models the parts where most can go wrong and proves what they are
for.  Code that updates arrays, objects or loop variables is modelled that way
and proved against a specification function; the theorems are then about that
function.

- `Protocol`, `Client`, `ClientDB`, `Router`, `Reports`: the join and leave
  protocol, from the handlers through the report timers, the bytes on the wire
  and a network that loses, duplicates and reorders, to the router's forwarding
  decision.
- `Disagreement`: what happens outside the assumptions of `Protocol`.
- `Delivery`: the protocol's reports as packets, and their arrival at the router.
- `ReportBounds`: which packets the report parser reads past the end of, and
  which it reads as RFC 3376 lays them out.
- `QuickSort`: `click_qsort`, in place, with its explicit work stack.
- `Inodes`: the sorted directory table of ClickFS.
- `NameDB`, `NameTree`: the self-sorting name database and the context tree.
- `Quoting`: quoting, unquoting and splitting of configuration strings.
- `Options`: abbreviated long options on the command line.
- `Notifier`: derived activity signals.
- `Md5`, `Checksum`, `Crc32`: streaming digest, Internet checksum, table CRC.
- `Bytes`, `Collections`: byte strings and their order, small helpers.

## What the proofs found

- Host and router agree on a group of that host when its link is quiet on it
  (`Agreement`), given three things about that host and group alone: the host
  leaves the group alone while a report on it is being repeated, copies of older
  reports on it arrive before copies of newer ones, and some copy of the latest
  gets through.  None can be dropped: `RaceDisagrees`, `OvertakenDisagrees` and
  `LossDisagrees` lead to modes that differ until the host changes the group's
  mode again.
- Answers to queries do not repair such a difference, because they use the
  current-state record types and the router acts on TO_IN and TO_EX only
  (`SettledStep`).
- `groupQuerysSheduled` is never cleared, so the router asks about each group
  once in its life (`IGMPRouter.SendGroupQuery`, `AskedExactly`).
- A report decodes to itself if and only if it has fewer than 65536 records with
  fewer than 65536 sources each (`ReportRoundTrip`).
- The report parser does not look at the packet length.  It reads past the end
  exactly when an accepted packet's counts promise more than there is, or the
  packet has no full header (`OverrunIff`, `BareOverruns`); that is the outcome
  `Overrun` here.
- The report parser does not skip auxiliary data.  It starts every record where
  RFC 3376 puts it if and only if no record but the last has any
  (`StartsRightIff`, `DecodesRight`); otherwise it can decode a group nobody
  reported (`AuxiliaryMisread`).  This host never sends any
  (`GeneratedReadsRight`).
- `click_in_cksum` is right if and only if the sum of the 16-bit words fits 32
  bits (`CorrectIffFits`): always up to 131074 bytes, and at no greater length for
  all messages (`WrongWhenLonger`).  Independence of byte order ends there too
  (`ByteOrder`, `ByteOrderFails`); that a stored sum verifies does not
  (`StoredVerifies`).
- The 16-bit fields of the ClickFS table are exact up to 65536 entries and not
  beyond: `IndexedIff` and `RootExtentIff` are equivalences, and in `LargeTable`
  no lookup finds anything (`LostInLarge`).
- On the dash-skipping retry an abbreviation can fit several options, and the
  first in the list wins (`RetryTakesFirst`); `RetryOnlyMatch` says when just one
  fits.
- Two rival options called "no-" and nothing else have threshold zero, against
  the comparison's own assertion (`UsableIff`, `NoThreshold`).
- The documentation calls signal derivation commutative.  It is, except between
  two busy signals with different masks, such as `busy_signal()` and
  `overderived_signal()` (`CombineCommutes`, `BusyDoesNotCommute`); a sum is
  independent of the order exactly when no two such signals are in it
  (`OrderIndependentIff`).  The model follows the code.
- `NameInfo` documents a second database for the same context as an error; the
  code links it in below the first, where it takes precedence, and the model
  follows the code.

## Model

| member | source | states |
|---|---|---|
| `Protocol.Agreement` | elements/IGMPClient.cc:133-264 | for one host and one group, over every run in which that host schedules a report on the group only when none on it is still being sent, and of the copies about the group in flight one of the oldest report arrives first: whenever nothing about the group is pending or in flight on that link and not all copies of its latest report on the group were lost, the router's mode for that host and group (absent means INCLUDE) is the host's own; losses, duplicates, other groups and other hosts are unrestricted |
| `Protocol.InvariantNext` | elements/IGMPClient.cc:133-190 | each step that is careful about one host's group keeps the invariant for it: every report's copies add up, the latest report on the group tells the host's mode and is the only one still being sent, no copy in flight has been overtaken by a newer report, and the router's entry is what the newest report that arrived told |
| `Protocol.InvariantAlways` | elements/IGMPRouter.cc:75-152 | the invariant for one host and group holds in every state of every run careful about them |
| `Protocol.QuietAgrees` | elements/IGMPRouter.cc:75-108 | on a quiet link whose latest report on the group was not lost altogether, what the router knows is the host's mode |
| `Protocol.QuietArrived` | elements/IGMPClient.cc:174-190 | on a quiet link a report has arrived if and only if not all of its copies, duplicates included, were lost |
| `Protocol.NewestTold` | elements/IGMPRouter.cc:75-152 | for careless hosts too, under any loss and duplication: as long as no copy about one host's group arrives after a copy of a newer report on it, the router's entry is what the newest report that arrived told, and there is none if none arrived |
| `Protocol.AgreesIff` | elements/IGMPRouter.cc:75-152 | in those runs host and router agree if and only if the newest report that arrived told the host's mode |
| `Protocol.CopiesAccounted` | elements/IGMPClient.cc:97-190 | in every run on any network, of every report ever scheduled the copies still to send, in flight, lost and delivered are the robustness variable plus those the network added |
| `Protocol.ForwardingAgrees` | elements/IGMPRouterDB.cc:71-91 | in every run careful about one group, when nothing about it is pending or in flight on any link and every host's latest report on it got through, the router forwards the group to a subnet if and only if a host in the subnet has the group in EXCLUDE |
| `Disagreement.RaceDisagrees` | elements/IGMPClient.cc:231-264 | the host's part of the assumption is needed: from every state in which the invariant for the host and group holds and a report on the group is pending, a handler call that changes its mode has a continuation of firings and in-order deliveries alone to a settled state in which the two modes differ, and they go on differing in every later state until a handler changes the host's mode for that group again |
| `Disagreement.OvertakenDisagrees` | elements/IGMPRouter.cc:75-108 | and the network's part: with a copy in flight about the group that tells another mode than the host's, and none still to send, there is an order in which everything in flight arrives that leads to such a lasting difference |
| `Disagreement.LossDisagrees` | elements/IGMPClient.cc:97-190 | so is the bound on losses: from every settled state in which the modes agree, a mode change of which all copies are lost leads to a settled state in which they differ, and go on differing until the host's mode changes again |
| `Disagreement.SettledStep` | elements/IGMPRouter.cc:119-152 | once no mode change of the group is pending or in flight, every step of any host, the network or a querier other than a mode change of that host and group keeps it so and changes neither side's mode: query answers use record types the router does not act on, so they repair nothing |
| `Disagreement.SettledForGood` | elements/IGMPRouter.cc:119-152 | from such a state the two sides differ in every state of every continuation without a mode change if and only if they differ now |
| `Protocol.ExcludeWasAsked` | elements/IGMPRouter.cc:75-90 | under arbitrary loss, duplication and reordering, every EXCLUDE entry at the router belongs to a host that asked to exclude that group earlier in the run |
| `Protocol.AskedIsHistory` | elements/IGMPClient.cc:231-264 | the set of (host, group) pairs in that statement is exactly the exclude calls that occurred in the run so far |
| `Delivery.ReportDecodes` | elements/reportigmp.cc:106-161 | a report recorded in any run, arbitrary loss and reordering included, decodes from its bytes to itself if and only if it has fewer than 65536 records: the records the protocol sends carry no sources |
| `Delivery.HeardFromBytes` | elements/ProcessReport.cc:27-69 | what the router hears from such a report's bytes has the effect of the report: an overlong query answer decodes to its first records, and they have no effect either |
| `Delivery.ReportsFit` | elements/reportigmp.cc:40-58 | every report of every run is of that kind: no sources, and a state change on one group or no state change at all |
| `Delivery.Arrive` | elements/IGMPRouter.cc:119-152 | handing the router the packet that a deliverable copy stands for changes its databases exactly as the delivery step of the network model says, for reports with counts that fit and for every report a run can send, query answers of 65536 records and more included |
| `Client.CopiesConserved` | elements/IGMPClient.cc:97-190 | in every run of handler calls, queries and timer firings, copies sent plus copies still to send equal the robustness variable times the reports scheduled |
| `Client.FiringSendsOne` | elements/IGMPClient.cc:174-190 | one firing of any timer sends exactly one copy of that timer's report and lowers the number outstanding by one |
| `Client.DrainedIffNoTimers` | elements/IGMPClient.cc:174-190 | nothing is outstanding exactly when no timer is pending |
| `Client.Drain` | elements/IGMPClient.cc:174-190 | firing until no timer is left takes exactly the outstanding number of firings and does not touch the modes |
| `Client.ResponseTells` | elements/reportigmp.cc:40-58 | a query response names every group once with its mode: read back, it is the host's group-to-mode map |
| `Client.ResponseDecodes` | elements/reportigmp.cc:40-161 | on the wire, the response decodes to that map if and only if there are fewer than 65536 groups |
| `Client.IsIncludeOrExclude` | elements/reportigmp.cc:40-58 | the response lists each group of the table exactly once, in some order, with the current-state type of its mode |
| `Client.IGMPClient.constructor` | elements/IGMPClient.cc:8-30 | a host starts with the modes of the database it is given, no timers and nothing sent or scheduled |
| `Client.IGMPClient.IncludeWithExclude` | elements/IGMPClient.cc:133-148 | a recorded group moves to EXCLUDE, and one TO_EX report is scheduled with the full number of copies either way |
| `Client.IGMPClient.ExcludeWithInclude` | elements/IGMPClient.cc:157-172 | a recorded group moves to INCLUDE, and one TO_IN report is scheduled with the full number of copies either way |
| `Client.IGMPClient.IncludeSourcesHandler` | elements/IGMPClient.cc:196-229 | a group not yet in INCLUDE, known or not, is set to INCLUDE with one TO_IN report; a group already in INCLUDE is untouched |
| `Client.IGMPClient.ExcludeSourcesHandler` | elements/IGMPClient.cc:231-264 | a group not yet in EXCLUDE, known or not, is set to EXCLUDE with one TO_EX report; a group already in EXCLUDE is untouched |
| `Client.IGMPClient.RespondToQuery` | elements/IGMPClient.cc:97-127 | schedules one report that answers the query with the modes at that moment |
| `Client.IGMPClient.HandleSendReportTimer` | elements/IGMPClient.cc:174-190 | sends one copy and removes the timer with its last one |
| `ClientDB.IGMPClientDB.GetRecord` | elements/IGMPClientDB.cc:211-219 | finds the one record of the group if and only if there is one |
| `ClientDB.IGMPClientDB.RecordExists` | elements/IGMPClientDB.cc:202-210 | whether the group has a mode |
| `ClientDB.IGMPClientDB.AddRecord` | elements/IGMPClientDB.cc:220-227 | appends the record unconditionally; one record per group survives exactly if the group was new, as the callers make sure, and then the mode map gains that group |
| `ClientDB.IGMPClientDB.SetMode` | elements/IGMPClientDB.cc:255-265 | updates the mode map at that group and nothing else, or reports -1 and changes nothing |
| `ClientDB.IGMPClientDB.GetMode` | elements/IGMPClientDB.cc:271-275 | the mode map at the group |
| `ClientDB.IGMPClientDB.AcceptFromSource` | elements/IGMPClientDB.cc:228-254 | refused without a record; otherwise EXCLUDE accepts the sources not listed and INCLUDE those listed |
| `ClientDB.IGMPClientDB.GetMulticastFiltermodeTable` | elements/IGMPClientDB.cc:277-285 | the table is the mode map |
| `Router.EntryIsLast` | elements/IGMPRouter.cc:75-152 | after any sequence of records from any clients, the router's entry is the last TO_IN or TO_EX that client sent for that group |
| `Router.ForwardingRule` | elements/IGMPRouterDB.cc:71-91 | a group's packet goes to a subnet if and only if some client in the prefix had TO_EX as its last TO_IN or TO_EX record for the group |
| `Router.ForwardAfter` | elements/IGMPRouter.cc:119-152 | a new router fed any list of packets, malformed ones included, forwards exactly if some client in the prefix had TO_EX as its last TO_IN or TO_EX among the records that decode |
| `Router.AskedExactly` | elements/IGMPRouter.cc:42-65 | a group is on the list of groups asked about exactly if it was before or a TO_IN record names it |
| `Router.TimedMore` | elements/IGMPRouter.cc:42-65 | adding a new group with its query timers keeps the list duplicate-free and the timers at the robustness variable for each listed group |
| `Router.Tell` | elements/IGMPRouter.cc:75-108 | finding or creating the record and setting its mode is one update of the client's mode map |
| `Router.IGMPRouterDB.AddDb` | elements/IGMPRouterDB.cc:44-53 | a new client gets an empty database of its own, a known one is refused with -1 and nothing changes |
| `Router.IGMPRouterDB.AcceptFromSource` | elements/IGMPRouterDB.cc:55-69 | exactly the clients whose entry for the group is EXCLUDE |
| `Router.IGMPRouterDB.AcceptFromSourceAsClient` | elements/IGMPRouterDB.cc:71-91 | true exactly if a client matching the prefix has an EXCLUDE entry for the group |
| `Router.IGMPRouter.SendGroupQuery` | elements/IGMPRouter.cc:42-65 | a group already asked about gets no more timers; a new one is appended with as many timers as the robustness variable |
| `Router.IGMPRouter.ToEX` | elements/IGMPRouter.cc:75-90 | the client's entry for the group becomes EXCLUDE, all other entries stay |
| `Router.IGMPRouter.ToIN` | elements/IGMPRouter.cc:91-108 | the client's entry for the group becomes INCLUDE and the group is asked about |
| `Router.IGMPRouter.ProcessRecords` | elements/IGMPRouter.cc:119-152 | the record loop folds the records into the databases in order and asks about the groups left |
| `Router.IGMPRouter.ProcessReportPacket` | elements/IGMPRouter.cc:119-152 | a packet has the effect of the records it decodes to, from the client in its IP header; one that does not decode changes nothing |
| `Reports.ReportRoundTrip` | elements/reportigmp.cc:106-161 | decoding a generated report gives the same types, groups and sources in order if and only if the record count and all source counts are below 65536 |
| `Reports.GeneratedAccepted` | elements/ProcessReport.cc:16-69 | for every list of records the generated checksum verifies and the type is accepted, so only the counts can go wrong |
| `Reports.ParsedCountsFit` | elements/ProcessReport.cc:27-69 | whatever is decoded has 16-bit counts, the reason the round trip cannot hold beyond them |
| `ReportBounds.OverrunIff` | elements/ProcessReport.cc:27-69 | for every packet, the parser reads past the end if and only if the packet is shorter than its header, or it is accepted and the records with the counts they state end beyond it |
| `ReportBounds.BareOverruns` | elements/ProcessReport.cc:27-69 | such packets exist: eight bytes with a valid checksum and a count of one are accepted and read past their end |
| `ReportBounds.StartsRightIff` | elements/ProcessReport.cc:49-66 | the parser starts every record where section 4.2 of RFC 3376 puts it if and only if every record but the last has auxiliary data length zero, because it does not skip that data |
| `ReportBounds.ReadsRight` | elements/ProcessReport.cc:49-66 | then the records are those of the RFC's layout whenever that layout fits the packet |
| `ReportBounds.DecodesRight` | elements/ProcessReport.cc:27-69 | every packet whose RFC layout fits, with auxiliary data in the last record at most, decodes to what the RFC says |
| `ReportBounds.AuxiliaryMisread` | elements/ProcessReport.cc:27-69 | an accepted packet with one word of auxiliary data in its first record, of which the parser decodes the second record's group as 4.0.0.0 instead of 239.0.0.2 |
| `ReportBounds.GeneratedReadsRight` | elements/reportigmp.cc:106-161 | the packet this host generates, with counts that fit, decodes under the RFC's layout to the records it was given |
| `Reports.GeneratePacket` | elements/reportigmp.cc:106-161 | the buffer writes with a running offset produce exactly the report format with the checksum in place |
| `Reports.SumSizes` | elements/reportigmp.cc:97-104 | the sizes add up to the bytes the records take |
| `Reports.ProcessReport.VerifyChecksum` | elements/ProcessReport.cc:16-25 | compares the stored sum with the sum over the packet with that field zero, and leaves it zero |
| `Reports.ProcessReport.Process` | elements/ProcessReport.cc:27-69 | appends the decoded records, or nothing when the packet is refused or would be read past its end |
| `QuickSort.ClickQsort` | click/lib/glue.cc:548-664 | for every pure comparator, consistent or not, and every count a size type can hold: terminates, stays in bounds, never trips the stack assertion and only permutes the range; for a total preorder the range ends up sorted |
| `QuickSort.StackFits` | click/lib/glue.cc:546-598 | while the range at stack level i has at most n / 2^i elements, the fixed stack has room for two more ranges, for every n the size type can hold |
| `QuickSort.PushedHalving` | click/lib/glue.cc:645-660 | pushing the larger part first keeps that bound at every level, for every split |
| `QuickSort.PushedWork` | click/lib/glue.cc:645-660 | replacing a range by its two parts lowers the work left, for every comparator |
| `QuickSort.Split` | click/lib/glue.cc:593-632 | the two scans meet with equal elements at both ends, smaller ones left and larger ones right, permuting only the range |
| `QuickSort.Gather` | click/lib/glue.cc:634-643 | exchanging the equal runs to the middle gives smaller, equal, larger, permuting only the range |
| `QuickSort.Partition` | click/lib/glue.cc:579-643 | pivot choice, scans and exchange together leave smaller, equal, larger around some pivot |
| `QuickSort.InsertionSort` | click/lib/glue.cc:569-577 | sorts short ranges for a total preorder, and only permutes for any comparator |
| `QuickSort.Med3` | click/lib/glue.cc:517-527 | the middle one of three elements |
| `QuickSort.SwapRuns` | click/lib/glue.cc:529-541 | exchanges two disjoint runs and nothing else |
| `QuickSort.Step` | click/lib/glue.cc:560-662 | one round of the work loop keeps the invariant: everything outside the stacked ranges is in place |
| `Inodes.ClickIno.TruePrepare` | click/lib/ino.cc:84-173 | for distinct valid names and any table size: a strictly sorted table without duplicates of exactly the names and all their ancestor directories, each `skip` the number of descendants modulo 65536, the descendants directly after the entry, every element number on exactly one entry, and each `xindex` slot below 65536 the last entry with that slot's number modulo 65536 |
| `Inodes.AddDirectories` | click/lib/ino.cc:123-144 | exactly the missing ancestors are appended, each once |
| `Inodes.ScanAssertion` | click/lib/ino.cc:150-162 | the prefix assertion of the counting loop never fails |
| `Inodes.DescendantsContiguous` | click/lib/ino.cc:150-162 | between a directory and one of its descendants there are only descendants |
| `Inodes.ClosedIsTable` | click/lib/ino.cc:123-149 | the sorted closure of a list of valid names under ancestors is a well-formed directory table |
| `Inodes.FillSkips` | click/lib/ino.cc:150-162 | every entry's `skip` is its number of descendants modulo 65536 |
| `Inodes.ExtentIff` | click/lib/ino.cc:150-162 | a directory's `skip` spans its descendants if and only if there are fewer than 65536 of them, and never too many |
| `Inodes.RootExtentIff` | click/lib/ino.cc:150-162 | the root's does if and only if the table has at most 65536 entries |
| `Inodes.LargeTable` | click/lib/ino.cc:84-173 | 65536 element names make a table in which every `skip` is zero although all the names are in it, and `xindex` misleads |
| `Inodes.FillXindex` | click/lib/ino.cc:164-166 | each slot ends with the last entry written to it, in 16 bits, or keeps its start value, for every table size |
| `Inodes.IndexedIff` | click/lib/ino.cc:164-166 | `xindex` leads every element number back to its entry if and only if the table has at most 65536 entries |
| `Inodes.SortEntries` | click/lib/ino.cc:120-121 | the entries after the root are permuted into strictly increasing name order |
| `Inodes.NameSearch` | click/lib/ino.cc:176-190 | binary search on the names after a shared prefix finds the joined name exactly if a scan of the range would |
| `Inodes.SearchRangeIff` | click/lib/ino.cc:192-198 | the range a lookup searches holds every name below the directory if and only if `skip` spans its descendants |
| `Inodes.ClickIno.ElementNameSearch` | click/lib/ino.cc:192-198 | for every table size: finds the joined name exactly if it is in the searched range, and when `skip` spans the directory a miss means it is nowhere in the table |
| `Inodes.ClickIno.LostInLarge` | click/lib/ino.cc:192-198 | in that table a lookup of any component, from the root or from any element, returns -1 |
| `Inodes.ClickIno.CountSubdirectories` | click/lib/ino.cc:226-229 | for every table size: the count is the number of direct children in the directory's `skip` range plus the stops the walk makes among the descendants of a child whose own `skip` wrapped; it is the number of all direct children if and only if those stops are as many as the children beyond the range, and without such a child if and only if none lies beyond the range, as is always so when `skip` spans the directory |
| `Inodes.CountChildren` | click/lib/ino.cc:226-229 | the same for any table with such skips and any entry in it |
| `Inodes.ClickIno.DotDot` | click/lib/ino.cc:294-311 | for every table size the parent is in the table, so the assertion of the lookup never fails, and the number returned is that of the name without its last component; up to 65536 entries that number leads back to it |
| `Inodes.ClickIno.DownAndUp` | click/lib/ino.cc:192-311 | for every table size: looking up a component without a slash whose number leads back to its entry, and then "..", gives the number of the directory's entry; up to 65536 entries it leads back to where it started if and only if the component has no slash |
| `Inodes.ClickIno.XIndex` | click/lib/ino.cc:164-166 | the entry looked up is in the table, and up to 65536 entries it is the one with that element number |
| `NameDB.Replay` | click/lib/nameinfo.cc:188-277 | any interleaving of definitions and queries is answered as by a plain map |
| `NameDB.DynamicNameDB.Find` | click/lib/nameinfo.cc:188-220 | linear or binary, sorting or not: the index of the name if it is defined, a new last entry if asked to create it, and no other change to the map |
| `NameDB.DynamicNameDB.Sort` | click/lib/nameinfo.cc:230-255 | names and values move together: the map is unchanged, and the database counts as sorted only in sorted order |
| `NameDB.DynamicNameDB.Query` | click/lib/nameinfo.cc:257-266 | the value in the map, and the map is unchanged |
| `NameDB.DynamicNameDB.Define` | click/lib/nameinfo.cc:268-277 | one update of the map; the empty name is refused |
| `NameDB.BinarySearch` | click/lib/nameinfo.cc:194-205 | on sorted names, finds the name exactly if it is there |
| `NameDB.LinearSearch` | click/lib/nameinfo.cc:206-209 | finds the name exactly if it is there |
| `NameDB.Rearranged` | click/lib/nameinfo.cc:230-255 | rearranging names and value bytes by one permutation keeps the map |
| `NameTree.QueryAfter` | click/lib/nameinfo.cc:333-510 | after any sequence of installs, a query returns the value from the longest installed context that is a prefix of the asked one and defines the name, the latest install for that context first |
| `NameTree.AnswersUnique` | click/lib/nameinfo.cc:496-510 | there is at most one such answer |
| `NameTree.SiblingsPrefixFree` | click/lib/nameinfo.cc:333-410 | in a tree of true contextual parents, no sibling's context is a prefix of another's |
| `NameTree.InstallParents` | click/lib/nameinfo.cc:381-405 | giving the new database the closest one as parent and adopting the databases inside it makes every parent pointer right again |
| `NameTree.AdoptedLinked` | click/lib/nameinfo.cc:381-405 | the rewired child and sibling pointers spell out exactly the children of each database |
| `NameTree.ParentIsNext` | click/lib/nameinfo.cc:496-510 | following a parent pointer skips no applicable database |
| `NameTree.ContextTree.Closest` | click/lib/nameinfo.cc:362-373 | the walk ends at the most specific database that applies |
| `NameTree.ContextTree.Install` | click/lib/nameinfo.cc:431-450 | the tree stays well formed and gains exactly the new database, for a new context or a repeated one, where the source's assertion that children have longer contexts holds |
| `NameTree.ChildLonger` | click/lib/nameinfo.cc:431-450 | every child of the database found for a repeated context has a longer context: the assertion of that branch never fails |
| `NameTree.ContextTree.Query` | click/lib/nameinfo.cc:496-510 | the value of the most specific applicable database that defines the name, or none |
| `NameTree.QueryWithFallback` | click/lib/nameinfo.cc:496-510 | the router's own tree decides if it can, otherwise the global one |
| `Quoting.QuoteRoundTrip` | click/lib/confparse.cc:570-682 | for every byte string and either newline setting, unquoting the quoted string gives it back |
| `Quoting.ArgvecRoundTrip` | click/lib/confparse.cc:696-813 | for every list of strings, joining the quoted strings and splitting gives the same quoted list |
| `Quoting.ArgumentsRoundTrip` | click/lib/confparse.cc:570-813 | splitting and then unquoting gives back each of the original strings |
| `Quoting.CpQuote` | click/lib/confparse.cc:628-682 | the run-flushing loop writes each byte by its own escape, in order, between double quotes |
| `Quoting.CpUnquote` | click/lib/confparse.cc:570-615 | the loop with its quote state computes the unquoting function of the round trip |
| `Quoting.PartialUncomment` | click/lib/confparse.cc:374-423 | the comment-removing scan computes the text and stopping position of the splitting function |
| `Quoting.ProcessBackslash` | click/lib/confparse.cc:476-558 | appends the bytes an escape denotes and stops after it |
| `Quoting.SkipBackslash` | click/lib/confparse.cc:287-307 | stops where the escape ends |
| `Quoting.SkipDoubleQuote` | click/lib/confparse.cc:319-333 | stops after the quote that closes the string, over all escapes |
| `Quoting.SkipComment` | click/lib/confparse.cc:269-285 | stops after the comment, with the same answer at an unterminated end |
| `Quoting.CpArgvec` | click/lib/confparse.cc:696-710 | appends the arguments the splitting function gives |
| `Quoting.CpUnargvec` | click/lib/confparse.cc:799-813 | the arguments with comma and space between them |
| `Options.FindPlain` | click/lib/clp.c:812-958 | for distinct positive options with distinct long names and no preferred-match flag, in any order: the first pass finds option i if and only if the text before any '=' is its name or a nonempty prefix of its name and of no other's |
| `Options.FindPrefixOpt` | click/lib/clp.c:917-958 | for all options, the first pass returns the first one the text selects; the dash-skipping retry happens exactly if none is selected and none is ambiguous, and returns the first option it matches far enough |
| `Options.VerdictMeaning` | click/lib/clp.c:879-915 | with the computed thresholds, a positive comparison means the text tells the option from every rival, a negative one that it is an ambiguous prefix |
| `Options.MinDifferentChars` | click/lib/clp.c:344-357 | the least length at which a prefix of one name is no longer a prefix of the other |
| `Options.CompareOptions` | click/lib/clp.c:375-430 | taking in one more option, empty names included, makes the threshold right for it too, for both signs and for short-option clashes |
| `Options.CheckOptions` | click/lib/clp.c:812-818 | every option's thresholds are right against all options |
| `Options.Argcmp` | click/lib/clp.c:879-915 | the pointer loop computes the comparison verdict, dash skipping included |
| `Options.PlainSelectionUnique` | click/lib/clp.c:917-949 | a text selects at most one plain option |
| `Options.VerdictWithDashes` | click/lib/clp.c:1725-1726 | what matches without dash skipping matches to the same length with it, as the caller asserts |
| `Options.RetryIsSound` | click/lib/clp.c:899-907 | with dash skipping, the part of the argument consumed is the part of the name consumed with some dashes dropped |
| `Options.RetryMatchesIff` | click/lib/clp.c:879-915 | the retry matches a name exactly if the nonempty text spells the start of the name with at most the last dash of each run of dashes left out |
| `Options.RetryOnlyMatch` | click/lib/clp.c:917-958 | the option the retry returns is the only one that matches if and only if the text spells the start of no other eligible name in that way |
| `Options.RetryHasText` | click/lib/clp.c:917-958 | when the retry runs and any option is eligible the text is not empty, so the two equivalences above cover every retry |
| `Options.RetryTakesFirst` | click/lib/clp.c:917-958 | for the options "a-bc" and "ab-c" in either order, with the thresholds the option check computes, the argument "abc" goes to the retry and the first in the list is returned although the text spells the start of both |
| `Options.UsableIff` | click/lib/clp.c:896-898 | the comparison's own assertion of a positive threshold holds for every option considered if and only if no eligible option called "no-" and nothing else has a rival called the same |
| `Options.NoThreshold` | click/lib/clp.c:375-430 | two options called "no-" and nothing else, for which the option check computes threshold zero |
| `Notifier.OrderIndependentIff` | click/lib/notifier.cc:117-135 | every order of adding the signals gives the same sum if and only if no two busy ones among them differ |
| `Notifier.DerivedIsUnion` | click/lib/notifier.cc:117-192 | without busy signals the sum denotes exactly the union of the non-idle ones, or idle if there are none |
| `Notifier.DerivedBusy` | click/lib/notifier.cc:117-135 | with busy signals the sum is the first of them |
| `Notifier.DerivedActive` | click/include/click/notifier.hh:132-150 | the derived signal is active exactly when one of the signals it was derived from is, whatever the words hold |
| `Notifier.CombineAssociative` | click/include/click/notifier.hh:139-150 | derivation is associative, idle and busy signals included |
| `Notifier.CombineCommutes` | click/include/click/notifier.hh:139-150 | derivation commutes exactly unless both signals are busy and differ |
| `Notifier.BusyDoesNotCommute` | click/include/click/notifier.hh:288-298 | the busy and the overderived signal do not commute |
| `Notifier.CanonicalUnique` | click/lib/notifier.cc:149-200 | two sorted arrays of nonzero masks that denote the same set are the same array |
| `Notifier.NotifierSignal.HardDeriveOne` | click/lib/notifier.cc:149-192 | adds one basic signal's bits to the set; the array stays strictly sorted with nonzero masks and at least two entries |
| `Notifier.NotifierSignal.AddAssign` | click/lib/notifier.cc:117-135 | the set afterwards is the sum of the two, also when a signal is added to itself |
| `Notifier.NotifierSignal.Assign` | click/lib/notifier.cc:137-147 | a copy with an array of its own |
| `Notifier.NotifierSignal.IsActive` | click/include/click/notifier.hh:306-320 | some bit of the set is set |
| `Notifier.NotifierSignal.Equals` | click/include/click/notifier.hh:386-396 | decides equality of the sets, single words and arrays alike |
| `Notifier.HardEquals` | click/lib/notifier.cc:194-200 | the walk stays in both arrays and decides their equality |
| `Notifier.SameInAnyOrder` | click/lib/notifier.cc:117-200 | basic signals accumulated in two orders compare equal |
| `Md5.DigestInPieces` | click/lib/md5.cc:318-388 | for every message, every compression function and every cut into appends that the source's signed `offset + length` can hold, the result is the digest of the whole message padded as in sections 3.1 and 3.2 of RFC 1321 |
| `Md5.Md5State.Append` | click/lib/md5.cc:329-365 | the state keeps standing for the message: full blocks folded in, the tail in the buffer, the bit count modulo 2^64 |
| `Md5.Md5State.Finish` | click/lib/md5.cc:367-388 | padding and length are appended and the digest is that of the padded message |
| `Md5.FoldAppend` | click/lib/md5.cc:346-364 | folding a longer message is folding its old tail with the new bytes |
| `Md5.AddBitsIsSum` | click/lib/md5.cc:340-344 | the two counter words with the carry test hold the sum modulo 2^64 |
| `Md5.OffsetFromCount` | click/lib/md5.cc:334-383 | the block offset and the padding length can be read off the low word alone |
| `Md5.PaddedLength` | click/lib/md5.cc:367-388 | padding ends on a block boundary and adds at least nine and at most 72 bytes |
| `Md5.TwoWords` | click/lib/md5.cc:379-381 | the bytes taken from the two words by shifts are the eight bytes of the count, least significant first |
| `Checksum.CorrectIffFits` | click/lib/in_cksum.c:20-51 | for every message an `int` length can hold, the result is the one's-complement checksum of RFC 1071 if and only if the word sum fits 32 bits |
| `Checksum.CorrectWhenShort` | click/lib/in_cksum.c:20-51 | up to 131074 bytes it always fits |
| `Checksum.WrongWhenLonger` | click/lib/in_cksum.c:20-51 | the bound is sharp: at every greater length an `int` can hold, the result for a message of 0xff bytes is wrong |
| `Checksum.WrapMatters` | click/lib/in_cksum.c:33-47 | the wrapped accumulator gives the right sum exactly when nothing was lost or the lost carries cancel modulo 65535 |
| `Checksum.FoldTwiceIsFull` | click/lib/in_cksum.c:44-49 | two fold steps are as good as folding until no carry is left, for every 32-bit sum |
| `Checksum.StoredVerifies` | click/lib/in_cksum.c:20-51 | storing the result in an aligned zero word makes the checksum of the whole message zero, at every length, even where the checksum itself is wrong |
| `Checksum.ByteOrder` | click/lib/in_cksum.c:20-51 | summing in the other byte order swaps the bytes of the result if and only if the carries lost in the two orders cancel modulo 65535 and both kept sums or neither are zero |
| `Checksum.ByteOrderWhenShort` | click/lib/in_cksum.c:20-51 | up to 131074 bytes it always does |
| `Checksum.ByteOrderFails` | click/lib/in_cksum.c:20-51 | a message of 131588 bytes for which it does not |
| `Checksum.ReferenceByteOrder` | click/lib/in_cksum.c:20-51 | the checksum of RFC 1071 itself is independent of byte order, as its section 2 states, at every length |
| `Checksum.ClickInCksum` | click/lib/in_cksum.c:20-51 | the loop and folds compute the sum modulo 2^32, folded twice and complemented |
| `Crc32.FeedIsRemainder` | click/lib/crc32.c:45-59 | bit by bit, the register holds the remainder of dividing the message times x^32, start value added, by the polynomial over GF(2) |
| `Crc32.LookUp` | click/lib/crc32.c:64-82 | one table look-up does the work of eight message bits, for every register and byte |
| `Crc32.CrcTable.Generate` | click/lib/crc32.c:45-59 | every entry is eight register steps from its byte |
| `Crc32.CrcTable.Update` | click/lib/crc32.c:64-82 | the table-driven loop, filling the table on first use, computes the bit-serial CRC of the data |
| `Crc32.UpdateDivides` | click/lib/crc32.c:45-82 | the table-driven result is the remainder of the division |
| `Crc32.CrcConcat` | click/lib/crc32.c:64-82 | updating in pieces is updating over the concatenation |
| `Crc32.ResidueZero` | click/lib/crc32.c:64-82 | a message followed by its CRC, most significant byte first, leaves zero, for every start value |
| `Crc32.FeedLinear` | click/lib/crc32.c:45-82 | the CRC of a difference is the difference of the CRCs |
| `Crc32.BurstDetected` | click/lib/crc32.c:45-82 | any change confined to 32 consecutive bits of a message changes the CRC |
| `Crc32.FourBytesDetected` | click/lib/crc32.c:64-82 | so does any change confined to four consecutive bytes |
| `Inodes.EntryCompareIsTotalPreorder` | click/lib/ino.cc:76-82 | the comparison given to the sort is a total preorder, so the sort delivers sorted entries |

## Left out

- Timers: real time and the random delays are left out; a pending timer may fire at any step.
- Packets: pools, cloning, headroom and buffer sharing are left out; a packet is an array of bytes, and the byte order of the machine is a parameter.
- Click plumbing: configuration, ports, handler registration, `ProcessQuery`, the classifiers and `SetIPSrc` are left out as framework glue.
- Source lists: `addSources`, `removeSources` and the `vectors` helpers are left out, because neither the handlers nor report processing reach them; records carry an empty source list, except in the packet format, where they are arbitrary.
- `groupAndSourceQuery`, `allow` and `block` are stubs in the source.
- Allocation failure: left out everywhere, including the overderived signal it produces in `NotifierSignal`, and so is the capacity doubling of growing arrays.
- Element width: `click_qsort` exchanges elements by longs or by bytes depending on alignment; here an exchange is one step on typed elements.
- `NameInfo::uninstalldb`, `revquery` and the vector of name types are left out; a tree holds the databases of one type.
- `md5_process`: the compression of one block is a parameter, so the theorems hold for every compression function.
- Command line: the "no-" prefix loop around `find_prefix_opt`, UTF-8 names and the short options themselves are left out.
- Inode lookups: the other terms of `nlink`, the file system calls and handler files are left out; they add no hard property.
- QuickSort.ChoosePivot: states only that the pivot lies in the range, because the result does not depend on which element is chosen; `Med3` states the median property.
- QuickSort.ClickQsort: the comparator is a pure function of the two elements; one that keeps state between calls is not covered.
- Inodes.ClickIno.TruePrepare: says nothing about `xindex` slots from 65536 on, which the source never writes; in the source they hold whatever was in memory, here zero.
- Inodes.ClickIno.DownAndUp: beyond 65536 entries it does not say that a component with a slash leads elsewhere, because two entries can then have the same number.
- Options.FindPrefixOpt: requires the positive thresholds that the comparison asserts; `UsableIff` says which option lists have them.
- Md5.Md5State.Append: a negative length, which the source ignores, cannot be written here; offset plus length must fit an `int`, because the source's signed sum overflows beyond that; and the signed `nbytes << 3`, which overflows from 2^28 bytes on, is taken as wrapping to 32 bits.
- Protocol.Agreement: gives agreement on a quiet link; it does not say when the link becomes quiet, since the network may delay a copy for ever.
