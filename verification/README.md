# A Dafny model of RedBPF

RedBPF compiles, loads and talks to eBPF programs. This project models the parts of it whose
correctness cannot be read off one function, and proves what they promise for every input and every
run.

- **BTF transformer** (`BtfTypes`, `BtfNames`, `BtfChars`, `BtfParse`, `BtfFormat`, `BtfGraph`,
  `BtfRenumber`, `BtfFilter`, `BtfReader`, `BtfPipeline`, `BtfRefilter`, `BtfLimits`). A `.BTF`
  section is parsed into numbered records that refer to each other, names are sanitised in place in a
  shared string table, rejected types and all their dependants are removed by a worklist over a
  possibly cyclic graph, survivors are renumbered, the header is rebalanced, and a section of the old
  length is printed back into the ELF file. `BtfFormat` and `BtfChars` tie the model to the bytes of a section and to the characters of a
  name; `BtfLimits` holds concrete inputs on which an intended property fails.
- **Perf ring buffer** (`PerfRing`). A byte ring shared by the kernel and `PerfMap::read`, with
  counters that run freely modulo 2^64, refines a FIFO queue of records.
- **Loader** (`Relocation`, `PerCpu`, `Descriptors`). Patching of 64-bit loads, packing of per-CPU
  values, and the lifetime of probe descriptors.
- **Probes and bindings** (`PortKnock`, `ProbePair`, `Bitfield`, `Accessors`). The port-knock filter,
  the entry/return handlers emitted by the macros, the bit-field container, and the accessor
  generator.

Code that updates things in place is a class or a method with loops (`BTF`, `PerfMap`,
`ModuleBuilder`, `Filter`, `Probe`, ...), proved equal to a function of the old state; the properties
are lemmas about those functions. `Bytes` and `Arith` hold the little-endian words and the division
facts the models share.

Conventions. A returned error is an `Err` with its own constructor; `Err(Fault)` stands for a panic, an
overflow of checked arithmetic, or a raw read outside its slice, so no theorem silently relies on
undefined behaviour. Multi-byte words are little-endian. The ring counters wrap, because the kernel's do.

Where the code and what it is meant to do part ways, the code is modelled and the exact condition proved:

- `tc_legacy_fix_btf_section` succeeds on a section that parses if and only if its header length is 24
  and its strings lie after its types (`BtfPipeline.LegacyFixExact`). `parse_raw` checks neither:
  `BtfLimits.LongHeaderShrinks`, `BtfLimits.ShortHeaderBloats`, `BtfLimits.OverlappingStringsRefused`
  and `BtfLimits.OverlappingStringsFault` are sections that parse and cannot be fixed.
- `fix_name_str_section` writes one byte per character, so a multi-byte character leaves bytes behind. One
  fix yields a valid name if and only if the bytes left over are valid (`BtfNames.FixExact`). Over the
  whole table a name ends valid if and only if the fixes of the names that share its string leave it
  valid (`BtfParse.SharedNamesExact`); when no multi-byte name shares a string with another name, that is
  if and only if the bytes its own fix leaves over are valid (`BtfParse.FixNamesExact`).
  `BtfLimits.MultiByteSection` is a concrete failure, and `BtfLimits.SharedNameBroken` one in which a valid
  ASCII name is broken by the fix of a multi-byte name that ends in it. If the names are all ASCII they
  are all sanitised, whatever the strings that name no type hold.
- Fixing twice is not always fixing once: it is if and only if the fixes of its string leave each kept
  name valid and the dangling ids are closed (`BtfRefilter.LegacyFixIdempotent`);
  `BtfLimits.DanglingMoves` and `BtfLimits.SharedNameBroken` are sections on which it is not. For ASCII
  names and references that stay inside the section it always is.
- The knock filter lets a target SYN of an unknown source through when its table is full. A target SYN is
  blocked if and only if access was not earned and fewer than 1024 sources had come before one of the
  SYNs of its source (`PortKnock.TargetBlockedExactly`); `PortKnock.FullTableLetsThrough` is a flood
  after which a stranger gets through.

## Model

| member | source | states |
|---|---|---|
| BtfTypes.FromWordsOfPayload | redbpf/src/btf.rs:947-1000 | a record is recovered from its own info word and payload words, for all 16 kinds |
| BtfTypes.PayloadOfFromWords | redbpf/src/btf.rs:735-795 | a record read from payload words has exactly those words |
| BtfTypes.EncodeLength | redbpf/src/btf.rs:884-901 | `byte_len`, computed from the info word, is the number of bytes the record prints to |
| BtfTypes.RefsAreRefWords | redbpf/src/btf.rs:477-513 | the ids `filter` follows are exactly those in the type-id words of the encoding, by kind |
| BtfTypes.OnlyRefWordsChange | redbpf/src/btf.rs:567-631 | rewriting the references of a record changes no other word of it |
| BtfTypes.RefsLens | redbpf/src/btf.rs:567-631 | references can be set and read back; restoring them restores the record |
| BtfNames.FixedShape | redbpf/src/btf.rs:1229-1251 | a fixed name is no longer than the raw one, ASCII, and every character is allowed at its place |
| BtfNames.FixedIdentity | redbpf/src/btf.rs:1229-1251 | a name is left alone exactly when it already obeys its rule |
| BtfChars.ValidNameChars | redbpf/src/btf.rs:1229-1251 | a valid name holds letters, digits and `_`, and `.` if dotted, and does not start with a digit |
| BtfChars.FixedAsciiChars | redbpf/src/btf.rs:1229-1251 | an ASCII name is fixed byte by byte: those characters stay, all others become `_` |
| BtfChars.FixedUtf8 | redbpf/src/btf.rs:1229-1251 | a UTF-8 name is fixed character by character, one byte for each |
| BtfChars.CharLenUtf8 | redbpf/src/btf.rs:1280-1289 | lossy decoding takes a well-formed character as one |
| BtfChars.CharLenMaximal | redbpf/src/btf.rs:1280-1289 | it takes ill-formed bytes in maximal beginnings of a character |
| BtfChars.StringInTable | redbpf/src/btf.rs:1280-1289 | a name is what stands between its offset and the next NUL |
| BtfNames.FixNameStrSection | redbpf/src/btf.rs:1003-1008 | overwrites exactly the bytes of the fixed name in the table |
| BtfNames.FixExact | redbpf/src/btf.rs:1003-1008 | after one fix the name is the fixed name plus the uncovered old bytes; valid if and only if those are |
| BtfNames.MultiByteNameStaysInvalid | redbpf/src/btf.rs:1003-1008 | a concrete two-byte character whose fix leaves an invalid name |
| BtfNames.FixElsewhere | redbpf/src/btf.rs:1003-1008 | a fix changes no string that ends elsewhere in the table |
| BtfNames.FixDegrades | redbpf/src/btf.rs:798-858 | a fix moves no NUL, adds no non-ASCII byte, and writes only `_` or destroys a non-ASCII byte for good |
| BtfNames.DegradesTransitive | redbpf/src/btf.rs:798-858 | any number of fixes keeps these guarantees |
| BtfNames.DegradesAntisymmetric | redbpf/src/btf.rs:798-858 | no later fix undoes an earlier one |
| BtfNames.PaddingKeepsNames | redbpf/src/btf.rs:641-645 | zero padding after the table changes no name that can be read |
| BtfParse.ParseTypesExact | redbpf/src/btf.rs:334-347 | parsing accepts exactly the concatenations of well-formed records with readable names |
| BtfFormat.RecordFromBytes | redbpf/src/btf.rs:702-708 | kind from the low five bits of byte 7, number of rows from bytes 4 and 5, and the three common words, for every record |
| BtfFormat.RowsFromBytes | redbpf/src/btf.rs:738-795 | each row and each field of the payload is the little-endian word at its place |
| BtfFormat.NamingByKind | redbpf/src/btf.rs:798-858 | by kind number, which records must have a name, which lose it and which may have a dotted one |
| BtfFormat.ParseTypeExact | redbpf/src/btf.rs:731-858 | from the bytes: the exact error of a record, or its kind, payload and name offset and what its name does to the table |
| BtfFormat.FirstErrorDecides | redbpf/src/btf.rs:334-347 | the first record that cannot be read decides the error |
| BtfParse.FixNamesFacts | redbpf/src/btf.rs:798-858 | over all names, however they overlap: the table is unchanged iff all names were valid; if the names are ASCII (the rest of the table need not be), all are valid at the end |
| BtfParse.FixNamesExact | redbpf/src/btf.rs:798-858 | after all fixes a name that shares its string with no other record, or only among ASCII names, is valid iff the bytes its own fix does not reach are allowed |
| BtfParse.FixNamesLocal | redbpf/src/btf.rs:798-858 | what becomes of the names in one string depends only on the records that share it, on every input |
| BtfParse.SharedNamesExact | redbpf/src/btf.rs:798-858 | for every record on every input, a name is valid at the end iff it is after fixing just the names that share its string |
| BtfParse.ReparseTypes | redbpf/src/btf.rs:334-347 | parsing printed records gives the same records back |
| BtfParse.ParseRawParsed | redbpf/src/btf.rs:205-242 | what every accepted section satisfies: sizes add up, records are consistent and named |
| BtfFormat.HeaderFromBytes | redbpf/src/btf.rs:209 | each header field is at its place in the first 24 bytes |
| BtfFormat.ParseRawExact | redbpf/src/btf.rs:205-242 | from the bytes: the exact error of the header, the error of the types, or the contents |
| BtfParse.DumpExact | redbpf/src/btf.rs:149-203 | dump of a parsed section fails iff strings overlap types; the length-mismatch errors cannot occur |
| BtfParse.ReparseDump | redbpf/src/btf.rs:149-242 | parsing a dump gives back header and types, and the strings iff all names are valid |
| BtfParse.DumpParse | redbpf/src/btf.rs:149-242 | for every section that parses, dumping restores the bytes iff the layout is printable, gaps are zero, nameless kinds are nameless and names are valid |
| BtfReader.ReadType | redbpf/src/btf.rs:731-858 | reads one record, fixing its name in the table it is given, with every error case |
| BtfReader.ReadTypes | redbpf/src/btf.rs:334-347 | the cursor loop: records numbered from 1 in order, table fixed in place |
| BtfReader.WriteSection | redbpf/src/btf.rs:149-203 | prints header, gap, records, gap and strings, with every error case |
| BtfGraph.BuildLinks | redbpf/src/btf.rs:476-513 | the map lists under each id exactly the types that refer to it |
| BtfGraph.RemoveDependents | redbpf/src/btf.rs:515-536 | the worklist terminates by (keys, stack), removes the id and leaves no referrer of a removed id |
| BtfGraph.RemoveRejected | redbpf/src/btf.rs:515-536 | exactly the ids from which no chain reaches a rejected type remain, on every graph |
| BtfGraph.SurvivorsLargestClosed | redbpf/src/btf.rs:476-536 | the survivors are the largest reference-closed set of accepted types |
| BtfRenumber.AssignNewIds | redbpf/src/btf.rs:537-549 | every surviving id is mapped to its rank, from 0 if void is present, else from 1 |
| BtfRenumber.KeptConsecutive | redbpf/src/btf.rs:537-561 | kept types are renumbered 1, 2, 3, ... in their old order |
| BtfRenumber.NewIdOutside | redbpf/src/btf.rs:537-549 | void stays 0 and a dangling id stays beyond the kept types |
| BtfRenumber.NewIdIncreasing | redbpf/src/btf.rs:537-549 | new ids keep the order of the old ones, so no two ids become one |
| BtfRenumber.CompactIdentity | redbpf/src/btf.rs:537-549 | renumbering changes nothing iff the ids have no gaps |
| BtfFilter.FilterKeepsSurvivors | redbpf/src/btf.rs:476-561 | a type is kept iff it reaches no rejected type; the kept type at position j gets id j + 1 |
| BtfFilter.FilterIsomorphism | redbpf/src/btf.rs:537-634 | each reference points to what its target became, through one order-preserving map that also keeps dangling ids distinct; all other data is unchanged |
| BtfFilter.FilterAccepts | redbpf/src/btf.rs:515-561 | no rejected type survives |
| BtfFilter.VoidSurvives | redbpf/src/btf.rs:537-538 | id 0 is never removed |
| BtfPipeline.FilterRecords | redbpf/src/btf.rs:466-634 | the filter code computes the filtered records; the inconsistency error never occurs |
| BtfPipeline.RenumberAll | redbpf/src/btf.rs:563-634 | rewrites all references, and fails exactly if one has no new id |
| BtfPipeline.BTF.Filter | redbpf/src/btf.rs:466-649 | in-place filter: new header, types and padded strings, ids again 1..n |
| BtfPipeline.BTF.Dump | redbpf/src/btf.rs:149-203 | prints the object's current section |
| BtfPipeline.ParseSection | redbpf/src/btf.rs:205-242 | parses into a fresh valid object, or returns the error |
| BtfPipeline.FilterConserves | redbpf/src/btf.rs:636-647 | end of strings, gap before them, all other header fields and every readable name are conserved and the strings grow by zeros; it faults iff the string offset underflows, which needs overlapping strings |
| BtfPipeline.FilterKeepsParsed | redbpf/src/btf.rs:466-649 | a filtered section is again one that parsing accepts, and each kept name is valid iff it was before |
| BtfPipeline.TcLegacyFixBtfSection | redbpf/src/btf.rs:1310-1343 | the whole fix as it runs, on the ELF bytes and the place of the section |
| BtfPipeline.LegacyFixExact | redbpf/src/btf.rs:1310-1343 | on a parsing section, success iff header length 24 and strings after types; otherwise exactly which error, "bloated" and "shrunk" from the header length, a fault or a refused offset from overlapping strings |
| BtfPipeline.LegacyFixReparses | redbpf/src/btf.rs:1310-1343 | same length, only the section differs, and it parses to the filtered, renumbered types; to the filtered strings too iff the fixes of its string leave each kept name valid. When no multi-byte name shares a string with another name, that is iff each name's own fix suffices; for ASCII names it always is |
| BtfPipeline.FilteredLegacyOnly | redbpf/src/btf.rs:1321-1329 | only records of kinds 1 to 13 are left |
| BtfPipeline.KeptExactly | redbpf/src/btf.rs:1321-1329 | a type is kept iff no chain of references from it reaches a record of kind 14, 15 or 16 |
| BtfPipeline.LegacyFixFailsEarly | redbpf/src/btf.rs:1314-1320 | no section, a section outside the file, and a section that does not parse, each with its error |
| BtfPipeline.ParsedNamesObey | redbpf/src/btf.rs:798-858 | after parsing, a name obeys its rule iff the fixes of its string leave it valid; if no multi-byte name shares that string, iff its own fix suffices; all names do when they are all ASCII |
| BtfPipeline.FilteredNamesObey | redbpf/src/btf.rs:1310-1343 | the names left after the filter are all valid iff the fixes of its string leave each kept name valid; when no multi-byte name shares a string with another name, iff each name's own fix suffices |
| BtfRefilter.FilterIdempotent | redbpf/src/btf.rs:466-649 | filtering twice is filtering once iff no dangling id of removed types is smaller than one a kept type mentions |
| BtfRefilter.FixBytesIdempotent | redbpf/src/btf.rs:1310-1343 | a fixed section can be fixed again, and stays the same iff the names left are valid and the dangling ids closed |
| BtfRefilter.LegacyFixIdempotent | redbpf/src/btf.rs:1310-1343 | fixing a fixed ELF file changes nothing iff, in the original bytes, the fixes of its string leave each kept name valid and the dangling ids are closed; when no multi-byte name shares a string with another name, each name's own fix decides; always for ASCII names and references inside the section |
| BtfLimits.LongHeaderShrinks | redbpf/src/btf.rs:1310-1343 | a section with header length 25 that parses and whose fix fails as "shrunk" |
| BtfLimits.ShortHeaderBloats | redbpf/src/btf.rs:1310-1343 | a section with header length 23 that parses and whose fix fails as "bloated" |
| BtfLimits.OverlappingStringsRefused | redbpf/src/btf.rs:149-203 | a parsing section with overlapping strings whose string offset `dump` refuses |
| BtfLimits.OverlappingStringsFault | redbpf/src/btf.rs:636-647 | a parsing section with overlapping strings whose string offset underflows |
| BtfLimits.MultiByteSection | redbpf/src/btf.rs:798-858 | a section that parses and whose sanitised name is still invalid |
| BtfLimits.SharedNameBroken | redbpf/src/btf.rs:798-858 | a fixable section in which the fix of one name breaks a valid ASCII name it ends in, though each own fix suffices; a second fix changes the result |
| BtfLimits.DanglingMoves | redbpf/src/btf.rs:537-634 | a fixable section whose fixed form is changed by a second fix |
| PerfRing.Advance | redbpf/src/perf.rs:322-333 | a free-running counter and its place in the ring advance together across both wrap-arounds |
| PerfRing.PushRefines | redbpf/src/perf.rs:317-333 | a kernel push appends one record to the pending ones |
| PerfRing.ReadRefines | redbpf/src/perf.rs:317-351 | a read stays inside the ring, copies the first pending record byte for byte and keeps the rest |
| PerfRing.StartFifo | redbpf/src/perf.rs:319-328 | an empty ring at any aligned counter value holds no record |
| PerfRing.RunFifo | redbpf/src/perf.rs:317-363 | over every interleaving, records read then pending equal records pushed |
| PerfRing.NextExactly | redbpf/src/perf.rs:317-333 | a well-formed record is pushed iff it leaves the ring short of full; a read takes the first pending record iff there is one |
| PerfRing.PerfMap.Read | redbpf/src/perf.rs:317-363 | one call takes the first pending record and reports a sample, a loss or nothing by its type |
| PerfRing.ReadMessages | redbpf/src/load/map_io.rs:33-52 | returns the payloads of exactly the samples consumed, in order |
| PerfRing.DrainedExactly | redbpf/src/load/map_io.rs:33-52 | everything is consumed if all records are samples or losses, else it stops just past the first other one |
| PerfRing.WrittenRead | redbpf/src/perf.rs:245-257 | a record written byte by byte is well formed, reported by its type, and its message comes out as it went in |
| PerfRing.DrainReturnsSent | redbpf/src/load/map_io.rs:33-52 | draining a ring returns the messages that were sent, in order, up to the first record of another type |
| Relocation.ModuleBuilder.ApplyRel | redbpf/src/lib.rs:1678-1702 | patches the code in place; a failed call leaves it untouched for the fallback |
| Relocation.ModuleBuilder.ApplyRelWithSymmap | redbpf/src/lib.rs:1705-1720 | the fallback by symbol value |
| Relocation.ModuleBuilder.ToModule | redbpf/src/lib.rs:1556-1569 | the relocation loop with its fallback |
| Relocation.StepExact | redbpf/src/lib.rs:1557-1569 | one relocation succeeds iff its symbol resolves and its load lies inside the program |
| Relocation.StepErrorExactly | redbpf/src/lib.rs:1557-1569 | refused iff the symbol exists and resolves to no map; every other failure is a fault |
| Relocation.LoadsIffAll | redbpf/src/lib.rs:1557-1569 | a module loads iff every relocation could be done alone on the original code |
| Relocation.LoadErrorExactly | redbpf/src/lib.rs:1557-1569 | the first relocation that cannot be carried out decides the error |
| Relocation.LoadDenotes | redbpf/src/lib.rs:1676-1702 | each load, the 8-byte instruction its offset points into, denotes its symbol's map, plus original immediate and symbol value for section data; other fields unchanged |
| Relocation.LoadFrame | redbpf/src/lib.rs:1557-1569 | instructions no relocation touches are unchanged |
| Relocation.LoadOrderIndependent | redbpf/src/lib.rs:1557-1569 | any order of disjoint relocations loads alike and gives the same code |
| PerCpu.RoundUpLeast | redbpf/src/lib.rs:2273-2279 | for every power-of-two unit, the least multiple not below the size |
| PerCpu.PackValues | redbpf/src/lib.rs:2842-2853 | fills the buffer: each value at its slot, zeros elsewhere |
| PerCpu.UnpackPack | redbpf/src/lib.rs:2832-2888 | get after set returns the same values, for every size and CPU count |
| PerCpu.PackPadding | redbpf/src/lib.rs:2842-2853 | the rest of each slot is zero |
| PerCpu.BaseMonotone | redbpf/src/lib.rs:2842-2853 | slots do not overlap |
| PerCpu.PerCpuMap.SetValues | redbpf/src/lib.rs:2832-2863 | stores the packed buffer, or refuses a wrong number of values and leaves the map alone |
| PerCpu.PerCpuMap.GetValues | redbpf/src/lib.rs:2865-2888 | unpacks what the map holds |
| Descriptors.Probe.AttachProbe | redbpf/src/lib.rs:793-814 | attach: records the descriptor on success, closes it on failure |
| Descriptors.Probe.DetachProbe | redbpf/src/lib.rs:832-838 | detach: drops the matching points, closing their descriptors |
| Descriptors.Probe.DropProbe | redbpf/src/lib.rs:760-776 | drop: closes the descriptor of every point |
| Descriptors.RunConserves | redbpf/src/lib.rs:793-954 | over every call sequence and kernel answer, a descriptor is open exactly while recorded |
| Descriptors.DropClosesAll | redbpf/src/lib.rs:760-776 | after the drop every opened descriptor was closed as often as opened, never twice in a row |
| Descriptors.AttachExact | redbpf/src/lib.rs:870-921 | an attach succeeds iff program, symbol, event, attachment and enabling all do, and then appends its point; a failed one leaves points and open descriptors as they were |
| Descriptors.DetachExact | redbpf/src/lib.rs:938-954 | exactly the points of the key go, all others stay |
| Descriptors.DetachKeepsOrder | redbpf/src/lib.rs:938-954 | the points that stay keep their order |
| PortKnock.Filter.Probe | redbpf-tools/probes/src/knock/main.rs:29-114 | one packet updates its source's entry and the events, with every branch |
| PortKnock.BufferedRecord | redbpf-tools/probes/src/knock/main.rs:96-104 | the buffer holds the last, possibly unfinished chunk of the knocks, and after it what was knocked there before |
| PortKnock.BufferedComplete | redbpf-tools/probes/src/knock/mod.rs:11-22 | the buffer is complete iff the knocks form whole chunks and the last one is the sequence |
| PortKnock.RunAgrees | redbpf-tools/probes/src/knock/main.rs:49-114 | after every run, entry, buffer and "allowed" events agree with the source's packets; at most one "allowed" |
| PortKnock.TargetBlockedExactly | redbpf-tools/probes/src/knock/main.rs:49-92 | a target SYN is blocked iff access was not earned and fewer than 1024 sources had come before one of the source's SYNs |
| PortKnock.VerdictExactly | redbpf-tools/probes/src/knock/main.rs:29-114 | every verdict for every packet after every run: blocked iff a TCP SYN for the target of a source with a place and without access |
| PortKnock.EventsExactly | redbpf-tools/probes/src/knock/main.rs:66-113 | each packet adds exactly the event that the packets so far call for, with the knocked sequence |
| PortKnock.TableExactly | redbpf-tools/probes/src/knock/main.rs:49-59 | after every run the table holds exactly the sources with fewer than 1024 others before one of their SYNs |
| PortKnock.FullTableLetsThrough | redbpf-tools/probes/src/knock/main.rs:49-59 | after SYNs of 1024 sources, a source that never knocked reaches the target |
| PortKnock.AccessPermanent | redbpf-tools/probes/src/knock/main.rs:62-65 | access once earned is kept |
| ProbePair.Handlers.OnEnter | redbpf-macros/src/lib.rs:380-387 | stores the parameters unless the map is full |
| ProbePair.Handlers.OnExit | redbpf-macros/src/lib.rs:389-403 | takes the parameters out and passes them on |
| ProbePair.CallsMatch | redbpf-macros/src/lib.rs:376-406 | a return calls the function iff the thread's previous event is a stored entry, which it closes, with its parameters |
| ProbePair.InnermostReported | redbpf-macros/src/lib.rs:376-406 | of the stored calls exactly the innermost are reported |
| ProbePair.RoomStores | redbpf-macros/src/lib.rs:376-387 | an entry is stored whenever fewer than 10240 threads have an entry as their last event |
| ProbePair.AllStoredExactly | redbpf-macros/src/lib.rs:376-406 | no entry of a run is lost iff never more than 10240 threads wait for a return |
| ProbePair.UncrowdedReported | redbpf-macros/src/lib.rs:376-406 | in such a run, a return is reported iff it closes an innermost call |
| Bitfield.BitfieldUnit.SetFieldBit | redbpf/src/sys/perf.rs:62-76 | sets or clears one bit of the storage |
| Bitfield.BitfieldUnit.GetField | redbpf/src/sys/perf.rs:79-93 | the loop that accumulates a field |
| Bitfield.BitfieldUnit.SetField | redbpf/src/sys/perf.rs:96-106 | the loop that writes a field |
| Bitfield.SetBits | redbpf/src/sys/perf.rs:96-106 | setting a field writes exactly its own bits |
| Bitfield.GetAfterSet | redbpf/src/sys/perf.rs:79-106 | a field reads back the value modulo its width |
| Bitfield.GetUnaffected | redbpf/src/sys/perf.rs:79-106 | disjoint fields keep their values |
| Bitfield.BitIsDigit | redbpf/src/sys/perf.rs:49-59 | bit i is binary digit i % 8, lowest first, of byte i / 8 |
| Bitfield.SetAsNumber | redbpf/src/sys/perf.rs:96-106 | setting the whole storage to a number stores its base-256 digits, lowest first |
| Bitfield.PackedFields | redbpf/src/sys/perf.rs:2102-2152 | after `new_bitfield_1` every getter returns its packed value |
| Bitfield.RecordLayouts | redbpf/src/sys/perf.rs:1206-2335 | the four packed records (event attributes 1206-1358, mmap page 1539-1575, memory source 2102-2152, branch entry 2296-2335) lay out their fields without overlap or gap |
| Accessors.GenerateAccessors.VisitField | cargo-bpf/src/accessors.rs:112-135 | appends the field's accessors and restores the prefix |
| Accessors.GenerateAccessors.VisitStruct | cargo-bpf/src/accessors.rs:91-110 | records the accessors of a listed struct and empties the working lists |
| Accessors.FieldClasses | cargo-bpf/src/accessors.rs:69-88 | by its first letters a field is looked into, left out, or gets an accessor |
| Accessors.VisitSound | cargo-bpf/src/accessors.rs:112-135 | every accessor's path resolves step by step to its field |
| Accessors.VisitComplete | cargo-bpf/src/accessors.rs:112-135 | every reachable field that is not excluded is collected with its path |
| Accessors.VisitInOrder | cargo-bpf/src/accessors.rs:112-135 | fields are visited in the order of their declaration |
| Accessors.VisitOkExactly | cargo-bpf/src/accessors.rs:57-67 | the visit goes through iff every anonymous member reached has a known type |
| Accessors.UniqueNames | cargo-bpf/src/accessors.rs:160-190 | of the accessors of one name the first is kept |
| Accessors.AccessorsExact | cargo-bpf/src/accessors.rs:90-194 | exactly the reachable field names get an accessor, one each: that of the first field visited with the name, with a path to it |

## Left out

- PerfRing.PerfMap.Read: one atomic step; in the code the record type is read again after the space is released, so a producer between the two is not modelled, nor are memory fences.
- PerfRing.PushRefines: the kernel side is its contract (record sizes positive multiples of 8, ring never full), not its code.
- BtfParse.FixNamesExact: for a multi-byte name whose string other names share, the outcome depends on all the fixes of that string; SharedNamesExact decides it by those alone.
- PerfRing.Advance: that the ring size is a multiple of 8 that divides 2^64 is what the kernel guarantees of its page-sized rings and is assumed.
- ProbePair.Handlers.OnEnter: an insertion fails only for a new key in a full map; other kernel failures are not modelled.
- BtfFilter.FilterIsomorphism: the `f` of `filter` is a pure predicate, not a stateful closure.
- Bitfield.BitfieldUnit.GetField: the 64-bit value is a natural number, its `|=` and `&` written as sums and quotients of powers of two; the storage bytes use bit operations.
- Relocation.ModuleBuilder.ApplyRel: the addend sum is a fault when it leaves 32 bits, as with overflow checks.
- The raw copies of names that parsing keeps for look-ups (`name_raw`), and with them `fix_datasection`, `get_map_type_ids` and `find_type_id`: they look types up by name in a parsed section, or fill in section sizes and variable offsets from the ELF file, and the fix of the section calls none of them.
- The p0f TCP option scanner: a bounded scanner whose properties are bounds checks of one loop.
- ELF, TOML and Rust syntax parsing, which are other libraries: sections, symbols and items are given data.
- System calls, ioctl, mmap, BTF and program loading, libbpf and LLVM: foreign effects; the kernel appears as a ring, a table, a log of descriptors or an answer.
- The knock filter without a configured sequence, and non-IP packets: error paths that pass the packet on.
- `calc_lat_pct`, the command line, the async loader, `cpus.rs`, `uname.rs`, `symbols.rs`, `net.rs`, thin map wrappers, logging and `Debug` output.
