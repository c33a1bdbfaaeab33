# DumpCard in Dafny

DumpCard dumps the file system of the Calypso applications on a contactless card. It selects
the first application whose DF name starts with a fixed AID, then the next one, and so on
until no application answers. For each application it does three things:

- it walks the elementary files (EFs) of the application with SELECT FILE FIRST_EF / NEXT_EF
  until the card answers "file not found";
- it prepares one READ RECORD per record of every readable EF;
- it recovers the raw File Control Parameters (FCPs) from the audit trace of the transaction,
  by keeping the responses to SELECT FILE commands (INS 0xA4, P1 0x02) without their status word.

This project models these steps as pure functions and short methods over an abstract card,
and proves what each step yields.

The card is an oracle:

- its applications come in the order in which they answer FIRST / NEXT occurrence selection;
- each application has its EFs, in the order in which they answer FIRST_EF / NEXT_EF;
- each application has the audit trace that its dump transaction records.

Modules, one per file:

- `Optional` (`optional.dfy`): `Option`, the stand-in for a reference that may be null.
- `Apdu` (`apdu.dfy`): bytes, and the ISO/IEC 7816-4 layout the dump reads. This covers the
  INS and P1 positions of the command header (section 5.1) and the two-byte status word
  SW1-SW2 of a response (section 5.1.3).
- `FcpExtractor` (`fcp_extractor.dfy`): `extractFcps`. It has a recursive reference
  definition, the extractor's loop as a method, and lemmas. The lemmas show which pairs of
  the trace contribute, in which order, and what each FCP is.
- `CardModel` (`card_model.dfy`): EF headers and file identities. It also holds the card's
  answer to SELECT FILE with FIRST_EF / NEXT_EF.
- `RecordReader` (`record_reader.dfy`): the readability rule, and the READ RECORD plan of a
  file as a function and as the source's loop.
- `Discovery` (`discovery.dfy`): `getFileData` as one step function, and
  `discoverFileStructure` as the loop over it. It also covers the operations the walk hands to
  the card transaction, and what a complete walk issues.
- `DumpCard` (`dump_card.dfy`): `getApplicationData` and the FIRST / NEXT application loop of
  `main`.

The walk keeps the discovered files as a set of identities (SFI, LID), plus the files
themselves in discovery order. The card's file collection after the t-th EF selection is the
card's first t + 1 EFs. The source picks the first file of that collection that it does not
know yet. The model iterates the collection in card order. `Discovery.FirstNewIgnoresIterationOrder`
shows that any iteration order picks the same file, as long as the walk is consistent.

When the card has selected an EF but no unknown file is left, the source adds `null` to its
set and then dereferences it, so the run dies with an exception. The model makes this an
explicit outcome, `NoNewFile`. On a card with distinct EF identities this outcome cannot
occur. When it does occur, the dump of all applications stops there (`DumpAll` returns
`aborted`).

## Model

| member | source | states |
|---|---|---|
| Apdu.StripStatusWord | src/main/java/org/calypsonet/keyple/tools/DumpCard_Pcsc.java:186-187 | The kept body is two bytes shorter than the response, and the body followed by the response's last two bytes is the response. |
| Apdu.StripStatusWordRoundTrip | src/main/java/org/calypsonet/keyple/tools/DumpCard_Pcsc.java:187 | Stripping the status word from any body followed by a two-byte status word gives the body back. |
| FcpExtractor.FcpsFrom | src/main/java/org/calypsonet/keyple/tools/DumpCard_Pcsc.java:182-190 | From an even index i, at most one FCP comes out per command/response pair (2 * count <= entries left + 1), and no FCP is empty. |
| FcpExtractor.SourcesFrom | src/main/java/org/calypsonet/keyple/tools/DumpCard_Pcsc.java:183-186 | The indices of the contributing commands are even, are SELECT EF commands (byte 1 = 0xA4, byte 2 = 0x02) with a response longer than 2 bytes, and are strictly increasing. |
| FcpExtractor.SourcesComplete | src/main/java/org/calypsonet/keyple/tools/DumpCard_Pcsc.java:182-186 | No such command at or after the scan start is missed. |
| FcpExtractor.FcpsMatchSources | src/main/java/org/calypsonet/keyple/tools/DumpCard_Pcsc.java:182-190 | The k-th FCP is the response following the k-th contributing command, minus its last two bytes. So exactly the matching pairs contribute, in trace order. |
| FcpExtractor.SingleSelectRoundTrip | src/main/java/org/calypsonet/keyple/tools/DumpCard_Pcsc.java:184-188 | A trace of one SELECT EF command answered by an FCP plus a status word yields exactly that FCP. |
| FcpExtractor.ShortResponseSkipped | src/main/java/org/calypsonet/keyple/tools/DumpCard_Pcsc.java:186 | A response of 2 bytes or fewer contributes nothing and is not an error, whatever the command. |
| FcpExtractor.FcpsFromAppend | src/main/java/org/calypsonet/keyple/tools/DumpCard_Pcsc.java:182-190 | Traces made of whole pairs can be extracted piecewise: the FCPs of a concatenation are the FCPs of its parts, in order. |
| FcpExtractor.ExtractFcps | src/main/java/org/calypsonet/keyple/tools/DumpCard_Pcsc.java:180-192 | The source's loop computes the reference extraction. It steps over the command (the `i++` inside `get`) and then over the response. It reads `cmd[2]` only after `cmd[1]` matched, and reads the response only for a match. |
| CardModel.IdSet | src/main/java/org/calypsonet/keyple/tools/DumpCard_Pcsc.java:150-160 | The identity of every file of the list is in its identity set. |
| CardModel.IdSetWitness | src/main/java/org/calypsonet/keyple/tools/DumpCard_Pcsc.java:150-160 | Each member of the identity set is the identity of some file of the list. |
| CardModel.IdNotInIdSet | src/main/java/org/calypsonet/keyple/tools/DumpCard_Pcsc.java:150-160 | An identity that no file of the list has is not in its identity set. |
| CardModel.DistinctIdsCount | src/main/java/org/calypsonet/keyple/tools/DumpCard_Pcsc.java:150-160 | Files with pairwise distinct identities have as many identities as files. |
| CardModel.SelectEf | src/main/java/org/calypsonet/keyple/tools/DumpCard_Pcsc.java:143-149 | FIRST_EF is refused exactly on a DF without EFs. NEXT_EF is refused exactly when every EF has been walked. A selection that succeeds designates an existing EF. |
| RecordReader.RecordReads | src/main/java/org/calypsonet/keyple/tools/DumpCard_Pcsc.java:164-166 | For n records there are max(n, 0) reads, and the read at position i reads record i + 1 alone, with SFI 0 and the given record size. |
| RecordReader.ReadPlan | src/main/java/org/calypsonet/keyple/tools/DumpCard_Pcsc.java:162-167 | No reads for a BINARY file, none when access-condition byte 0 is 1, and otherwise the i-th read (from 1) has first = last = i, SFI 0 and the file's record size, one per declared record. |
| RecordReader.PrepareReads | src/main/java/org/calypsonet/keyple/tools/DumpCard_Pcsc.java:162-167 | The source's loop over `i` prepares exactly the read plan. |
| Discovery.FileOps | src/main/java/org/calypsonet/keyple/tools/DumpCard_Pcsc.java:162-169 | Nothing is issued for an unreadable file. A readable file with N records gets N prepared reads, the i-th (from 0) reading record i + 1 alone with SFI 0 and the file's record size, followed by one exchange with the card. |
| Discovery.FirstNew | src/main/java/org/calypsonet/keyple/tools/DumpCard_Pcsc.java:150-158 | The file found is the first file of the collection whose identity is unknown: every earlier one is known. No file is found only when every file is known. |
| Discovery.GetFileData | src/main/java/org/calypsonet/keyple/tools/DumpCard_Pcsc.java:139-171 | The step answers "no more files" exactly when the selection is refused, and then only the selection is added to the issued operations. After a selection that succeeds, the EFs walked are those up to the one just selected. The known set never shrinks. A failed step changes no known file. When a file is found, it is exactly one file whose identity was unknown: the first unknown one among the EFs walked. Its identity is added, and its reads are issued after the selection. |
| Discovery.StepAtEnd | src/main/java/org/calypsonet/keyple/tools/DumpCard_Pcsc.java:143-149 | Once every EF has been walked, the next step answers "no more files". |
| Discovery.NextIsFirstNew | src/main/java/org/calypsonet/keyple/tools/DumpCard_Pcsc.java:150-158 | In a consistent walk, the file recovered after the next selection is the EF just selected, or none when its identity is already known. |
| Discovery.StepRepeats | src/main/java/org/calypsonet/keyple/tools/DumpCard_Pcsc.java:143-161 | When the next EF repeats a known identity, the step selects it and recovers no file. |
| Discovery.StepDiscovers | src/main/java/org/calypsonet/keyple/tools/DumpCard_Pcsc.java:143-170 | When the next EF is new, the step records exactly that EF and issues its selection and its reads. |
| Discovery.RecordNextKeepsConsistent | src/main/java/org/calypsonet/keyple/tools/DumpCard_Pcsc.java:159-160 | Adding the next EF, when new, keeps the discovered files equal to the EFs walked so far, each once. |
| Discovery.StepKeepsInvariant | src/main/java/org/calypsonet/keyple/tools/DumpCard_Pcsc.java:125-128 | Each step of the loop keeps the walk invariant: a walk that is going has recorded the EFs walked, one per selection; a finished walk has recorded all of them; a failed walk stopped at the first repeated identity. |
| Discovery.FinalStepKeepsInvariant | src/main/java/org/calypsonet/keyple/tools/DumpCard_Pcsc.java:143-149 | The refused selection after the last EF ends the walk with every EF recorded and the complete log issued. |
| Discovery.RepeatStepKeepsInvariant | src/main/java/org/calypsonet/keyple/tools/DumpCard_Pcsc.java:150-161 | A step on a repeated identity leaves a walk that stopped at the first repetition. |
| Discovery.NewStepKeepsInvariant | src/main/java/org/calypsonet/keyple/tools/DumpCard_Pcsc.java:150-170 | A step on a new identity leaves a walk that is still going, one EF further. |
| Discovery.RecordNextKeepsLog | src/main/java/org/calypsonet/keyple/tools/DumpCard_Pcsc.java:159-169 | Recording a new EF and issuing its block keeps the walk state of a going walk. |
| Discovery.DiscoverFileStructure | src/main/java/org/calypsonet/keyple/tools/DumpCard_Pcsc.java:118-129 | The walk terminates, and its result satisfies `WalkResult`. It fails exactly when two EFs share an identity. It then stops at the first EF that repeats one. Its known set is then the identities of the EFs before it. It has made one selection per EF before it, plus the one that selected the repeat, and it has issued the preamble, the blocks of those earlier EFs and that last selection. Otherwise the discovered files are the card's EFs in card order, with as many identities as EFs, after |EFs| + 1 selections. The operations issued are then the preamble, one block per EF and the final refused selection. |
| Discovery.WalkOutcome | src/main/java/org/calypsonet/keyple/tools/DumpCard_Pcsc.java:125-128 | A stopped walk failed exactly when the EFs do not have distinct identities. A walk that ended normally has recorded every EF. |
| Discovery.RepeatedIdentity | src/main/java/org/calypsonet/keyple/tools/DumpCard_Pcsc.java:150-161 | An EF whose identity repeats one of the EFs before it makes the card's identities not distinct. |
| Discovery.CompleteDiscovery | src/main/java/org/calypsonet/keyple/tools/DumpCard_Pcsc.java:124-128 | A consistent walk over every EF has recorded the EFs exactly, with distinct identities and one identity per EF. |
| Discovery.FirstNewIgnoresIterationOrder | src/main/java/org/calypsonet/keyple/tools/DumpCard_Pcsc.java:151-158 | Any iteration order of the card's file collection recovers the same new file: the EF just selected. |
| Discovery.ReadOpsContent | src/main/java/org/calypsonet/keyple/tools/DumpCard_Pcsc.java:164-167 | The reads issued for a plan contain no selection, and their reads are the plan. |
| Discovery.FileBlockSelections | src/main/java/org/calypsonet/keyple/tools/DumpCard_Pcsc.java:143-169 | The block of the i-th EF holds one selection, FIRST_EF for the first EF and NEXT_EF after it. |
| Discovery.FileBlockReads | src/main/java/org/calypsonet/keyple/tools/DumpCard_Pcsc.java:162-168 | The reads in the block of an EF are that EF's read plan. |
| Discovery.BlocksSelections | src/main/java/org/calypsonet/keyple/tools/DumpCard_Pcsc.java:125-127 | The blocks of the first n EFs hold n selections: FIRST_EF once, then NEXT_EF. |
| Discovery.BlocksReads | src/main/java/org/calypsonet/keyple/tools/DumpCard_Pcsc.java:125-167 | The reads in the blocks of the first n EFs are those EFs' read plans, in card order. |
| Discovery.FramedContent | src/main/java/org/calypsonet/keyple/tools/DumpCard_Pcsc.java:121-149 | The preamble and the final selection add one selection on each side of the EF blocks (CURRENT_DF first) and no read. |
| Discovery.WalkLogSelections | src/main/java/org/calypsonet/keyple/tools/DumpCard_Pcsc.java:121-149 | A walk whose last selection is the (n + 1)-th selects CURRENT_DF, then FIRST_EF once, then NEXT_EF n times. |
| Discovery.WalkLogReads | src/main/java/org/calypsonet/keyple/tools/DumpCard_Pcsc.java:143-168 | Such a walk reads exactly the read plans of the first n EFs, in card order. So a walk stopped at a repeated identity has read nothing of the EF it selected last. |
| Discovery.CompleteWalkSelections | src/main/java/org/calypsonet/keyple/tools/DumpCard_Pcsc.java:121-128 | A complete walk selects CURRENT_DF, then FIRST_EF once, then NEXT_EF once per EF: |EFs| + 2 selections. |
| Discovery.CompleteWalkReads | src/main/java/org/calypsonet/keyple/tools/DumpCard_Pcsc.java:118-171 | The reads of a complete walk are the read plans of the card's EFs, in card order: none for an unreadable file, one per record for the others. |
| DumpCard.FirstMatch | src/main/java/org/calypsonet/keyple/tools/DumpCard_Pcsc.java:95-103 | The application selected is the first one at or after the start whose DF name starts with the AID; none when no later application matches. |
| DumpCard.SelectApplication | src/main/java/org/calypsonet/keyple/tools/DumpCard_Pcsc.java:95-102 | FIRST answers with the first application whose DF name starts with the AID. NEXT answers with the first such application after the current one. Every application skipped does not match, and there is no answer exactly when none is left. |
| DumpCard.MatchesFrom | src/main/java/org/calypsonet/keyple/tools/DumpCard_Pcsc.java:95-100 | The list of matching applications holds only matching applications, each once, in card order. |
| DumpCard.MatchesFromComplete | src/main/java/org/calypsonet/keyple/tools/DumpCard_Pcsc.java:95-100 | No matching application is missing from that list. |
| DumpCard.FirstMatchHeadsMatches | src/main/java/org/calypsonet/keyple/tools/DumpCard_Pcsc.java:69-103 | A selection finds nothing exactly when no match is left. Otherwise it finds the first match left, and NEXT then continues with the matches after it. |
| DumpCard.GetApplicationData | src/main/java/org/calypsonet/keyple/tools/DumpCard_Pcsc.java:91-111 | The result is null exactly when no application answers the selection. Otherwise the selected application is dumped, holding its EFs in card order and the FCPs of its audit trace. When its EFs repeat an identity, there is no dump. |
| DumpCard.DumpAll | src/main/java/org/calypsonet/keyple/tools/DumpCard_Pcsc.java:69-78 | The loop terminates. It reports "no match" exactly when no application matches. It shows the matching applications in card order, each once, each with its dump. It stops early only at the first matching application whose EFs repeat an identity. |
| DumpCard.ProgressStart | src/main/java/org/calypsonet/keyple/tools/DumpCard_Pcsc.java:69-73 | The loop starts with nothing shown. The FIRST selection finds no application exactly when no application matches the AID. |
| DumpCard.ProgressStep | src/main/java/org/calypsonet/keyple/tools/DumpCard_Pcsc.java:75-78 | Showing a dump and selecting NEXT moves on to the next match and keeps the loop state. |
| DumpCard.ProgressExit | src/main/java/org/calypsonet/keyple/tools/DumpCard_Pcsc.java:71-78 | When the loop stops, either every match was shown, or the first match not shown has EFs that repeat an identity. |
| DumpCard.SelectionAdvances | src/main/java/org/calypsonet/keyple/tools/DumpCard_Pcsc.java:75-78 | When the matches not yet shown are the matches left, the next selection answers with the first of them, or with nothing exactly when none is left. |

## Left out

- PC/SC plugin registration, reader configuration, the card-presence check and `System.exit`
  (DumpCard_Pcsc.java:52-63, 82): these are transport and process control.
- `displayApplicationData` (DumpCard_Pcsc.java:194-293) and all logging: only formatting and
  output. The model's `shown` sequence stands for what is displayed.
- The Keyple selection and transaction API is foreign code and becomes the card oracle.
  - Selection by DF name with FIRST / NEXT is modelled as prefix matching over the card's
    applications in card order.
  - A NEXT with no current selection starts over. `main` never issues one.
- How `processCommands` turns the issued operations into APDUs, and so the audit trace, is not
  modelled. Each application's audit trace is given with the application. The walk's issued
  operations are modelled as a log of its own.
- Card errors other than "file not found" (a failing READ RECORD, a failing CURRENT_DF
  selection): the only handler in the code is the `SelectFileException` catch at
  DumpCard_Pcsc.java:146, so any other card error ends the whole run. The model has no
  such errors.
- `NoNewFile`: when no new file is found, the code adds `null` and dereferences it
  (DumpCard_Pcsc.java:159-161), which ends the whole run. The model makes this an explicit
  outcome: the walk fails, having issued what the code issued before the dereference, and
  `DumpAll` aborts.
- Three preconditions stand in for Java exceptions that the model does not reproduce:
  - `FcpExtractor.WellFormed`: every command of the audit trace has the bytes the filter
    reads (INS, and P1 when INS is 0xA4), and a SELECT EF command is never the last entry.
    Otherwise `cmd[1]`, `cmd[2]` or `auditData.get(i)` would throw
    (DumpCard_Pcsc.java:183-185).
  - `Discovery.AllInspectable`: a file that is not BINARY has at least one
    access-condition byte. Otherwise `getAccessConditions()[0]` would throw
    (DumpCard_Pcsc.java:163).
  - `DumpCard.Dumpable` asks both of these only of the applications the AID selects,
    since the others are never inspected.
  - These preconditions are stronger than what the dump tool needs on its failure path.
    `AllInspectable` also covers the EF that repeats an identity and every EF after it,
    whose headers the dump tool never reads because the null dereference comes first.
    `Dumpable` also covers the audit trace of a matching application whose walk fails, and
    every matching application after it, which the dump tool never reaches.
- `HashSet` iteration order and `ElementaryFile` equality belong to library code. Files are
  identified by (SFI, LID), and the file collection is iterated in card order. The lemma
  `Discovery.FirstNewIgnoresIterationOrder` shows that the order does not change the file
  recovered.
- The rest of the card's object model is not modelled: record contents, shared references,
  key indexes and the other header fields. Only the EF type, the access-condition bytes, the
  record count and the record size matter to the walk.
- `ApplicationData.java` is mirrored by the `ApplicationData` datatype. It holds the DF name
  and files, standing in for the `CalypsoCard`, and the FCP list.
- Java `int` arithmetic needs no wrap-around: the loop counter `i + 1` never exceeds the
  record count.
- The hard-coded AID `315449432E` is a parameter of `DumpAll`.
