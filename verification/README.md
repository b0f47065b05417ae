# Verified models of libisofs

libisofs builds ISO 9660 images (ECMA-119) with Rock Ridge and AAIP extensions, and reads them back.
This Dafny project models the parts where two or more of its functions have to agree with each other,
and proves that they do. `dafny verify dfyconfig.toml` verifies everything.

Code which updates its data in place is modelled by classes and by methods with loops. Each of these
methods is proved against a function of its inputs or of the old state, and the lemmas are about these
functions. Numbers are unbounded; where the width of a C type matters, the range is part of the model.

| Part | Files | Main results |
|---|---|---|
| Relocation of deep directories | `EcmaTree.dfy`, `Relocation.dfy` | `reorder_tree()` ends, moves no directory twice, gets each directory to level 8 or above and each path to 255 characters or less, and leaves the tree as seen by a Rock Ridge reader unchanged |
| Name mangling | `Mangling.dfy` | sibling names become unique and sorted, unique names stay, new names fit the limit of their group, directories fit theirs under an exact condition, the "extension too long" error is not reachable |
| AAIP encoder | `AaipFormat.dfy`, `AaipEncoder.dfy` | both passes agree byte by byte; fields and payload partition the result |
| AAIP decoder | `AaipDecoder.dfy`, `AaipFifo.dfy`, `AaipMachine.dfy`, `AaipList.dfy`, `AaipTrack.dfy`, `AaipEndless.dfy`, `AaipRoundTrip.dfy` | for each split into chunks the decoder yields the encoded attributes, if and only if two conditions on the attributes hold; its loop ends if and only if no bytes are behind the last field; its ring buffer refines the simple fifo which it replaces |
| ACL converter | `Acl.dfy`, `AclCodec.dfy` | access and default ACL survive encoding and decoding; counting passes predict exactly what writing passes produce |
| Directories, path tables, layout | `DirRecords.dfy`, `DirReader.dfy`, `DirTree.dfy`, `DirPlaces.dfy`, `PathTable.dfy`, `Layout.dfy`, `TreeReader.dfy` | the sizes and places which the layout pass computes are those of the bytes which the write pass produces; the whole tree gets read back from them; path tables are complete, rightly ordered, and with right parent numbers |
| File content | `FileExtents.dfy`, `IfsRead.dfy` | extents are proper, disjoint and inside the reserved range; exactly the reserved blocks get written; reading the sections of a file gives the content that was written; reading and seeking yield slices of it |
| Ring buffer between two threads | `RingBuffer.dfy`, `RingProtocol.dfy` | in each interleaving: no byte lost, no lost wakeup, no deadlock, end of file only after all bytes were delivered, each run ends |
| El Torito boot catalog | `ElTorito.dfy` | the catalog fits into a block, its checksum is right, the boot images get read back, and it is known for which images the parser looks behind its buffer |
| Search in the directory tree | `Find.dfy` | the lazy iterator yields exactly the matching nodes in preorder, each once |
| Numbers, common helpers | `IsoBytes.dfy`, `Common.dfy` | the encodings of ECMA-119, section 7 |

## What was found out about the code

- A name such as `system.user.x` loses both namespace texts in the encoder, because the loop at
  `libisofs/aaip_0_2.c:237-242` does not stop at a match. The decoder then yields `user.x`
  (`AaipFormat.NameRoundTrip`, `AaipFormat.NameRoundTripFails`).
- An empty value of the last attribute is not decoded (`AaipRoundTrip.DecodesAll`): its record is
  complete with its head, but it would only be counted when more bytes follow.
- For a name which is nothing but a namespace text, as `user.`, the encoder predicts three bytes more than
  it writes (`AaipEncoder.PredictionIsExact`). Thus the value gets in place of the name, an empty component in
  place of the value, and a stray byte shifts all that follows (`AaipEncoder.BareInPayload`).
- With bytes behind the last AAIP field in the same chunk, the loop in `aaip_submit_data()` does not end. For
  any state and any bytes this happens if and only if the framing by fields leaves such bytes
  (`AaipEndless.EndlessIff`, `AaipEndless.EndlessRuns`), so on the output of the encoder with any bytes behind it
  (`AaipEndless.EndlessOnTrack`, `AaipEndless.EndlessFromStart`). The methods of the model return `ENDLESS` there.
- In a group of equal names that is led by a file, ISO level 1 can give a directory a name of 9 characters:
  `Mangling.MixedGroup` is such a run. A renamed directory fits its limit if and only if the new name of the first
  node in its group does (`Mangling.DirectoryFits`), which is so with equal limits, or if the group is led by a
  directory without extension (`Mangling.GuardedFits`).
- ACL qualifiers of more than 127 bytes do not survive, since the reader advances twice per qualifier record
  (`Acl.SingleEntryRoundTrip`).
- `aaip_decode_acl()` deviates from its description: when counting, it does not ignore the size of the text
  buffer but adds it to the result, and when writing, it returns the number of bytes left rather than the
  number of bytes written (`AclCodec.DecodeAcl`). Its caller `iso_decode_acl()` is not affected.
- `aaip_encode_both_acl()` in counting mode does not include the length of the access ACL
  (`AclCodec.EncodeBothAcl`).
- After a valid seek the cached block of a file in the image is the right one if and only if the seek succeeded
  (`IfsRead.IfsFileSource.Seek`). Reading goes on nevertheless: `IfsRead.StaleRead` is a run which yields a byte of
  another block. Reading is right if and only if it begins at a block start, or the cache happens to have the right
  bytes (`IfsRead.ServedRight`).
- The catalog parser looks at the byte behind its buffer if and only if there are 32 boot images of which no two
  neighbours, the first one aside, are in the same section (`ElTorito.LookBehind`). The result does not depend on
  that byte (`ElTorito.CatalogRoundTrip`).

## Model

| member | source | states |
|---|---|---|
| `Relocation.Ecma119Image.MaxChildNameLen` | libisofs/ecma119_tree.c:935-943 | the longest name among the entries of a directory |
| `Relocation.Ecma119Image.CreatePlaceholder` | libisofs/ecma119_tree.c:900-932 | a new node with the name of the directory, pointing to it, and nothing else changes |
| `Relocation.Ecma119Image.Reparent` | libisofs/ecma119_tree.c:952-985 | the directory is replaced by a placeholder at its index and appended to the target's list; the assertion failure is not reachable |
| `Relocation.Ecma119Image.Relocate` | libisofs/ecma119_tree.c:1017-1046 | relocation keeps the run invariant; a directory moved to the root will be met again, one moved to a named directory has its final place at level 3 |
| `Relocation.Ecma119Image.Settle` | libisofs/ecma119_tree.c:1010-1047 | before the loop over its children a directory has its final level and path length within the limits, or will be met again by the root |
| `Relocation.Ecma119Image.ReorderTree` | libisofs/ecma119_tree.c:1003-1061 | recursion and loop over a growing list terminate by the measure "directories not yet relocated, levels left"; afterwards all directories below have got their final place |
| `Relocation.Ecma119Image.RelocateDeepDirectories` | libisofs/ecma119_tree.c:1271-1277 | from any tree: each directory gets to level 8 or above, each path to 255 characters or less, the logical child list of each directory is its original one, each relocated directory has exactly one placeholder, at its original index |
| `EcmaTree.LogicalChildrenPointwise` | libisofs/ecma119_tree.c:900-985 | a list with placeholders in place and relocated directories appended has the original list as its logical children |
| `EcmaTree.Tree.MovedIsTree` | libisofs/ecma119_tree.c:952-985 | after a relocation each node is still listed once, by its parent |
| `EcmaTree.Tree.MovedKeepsMeaning` | libisofs/ecma119_tree.c:952-985 | after a relocation each original entry is in its place or has a placeholder there |
| `EcmaTree.Tree.MovedPlaced` | libisofs/ecma119_tree.c:952-985 | a relocation does not change the level and the path length of directories which have their final place |
| `EcmaTree.Tree.MovedToRoot` | libisofs/ecma119_tree.c:1026-1034 | relocation to the root keeps the invariant and relocates exactly one more directory |
| `EcmaTree.Tree.MovedToNamed` | libisofs/ecma119_tree.c:1036-1043 | a directory moved to a named directory is at level 3 with a path length that is not more than the one which the code assumes |
| `EcmaTree.Tree.GrownMovesMore` | libisofs/ecma119_tree.c:976-983 | the number of directories that are not yet relocated never grows, and if it stays then no list changed |
| `EcmaTree.Tree.WorkAddsUp` | libisofs/ecma119_tree.c:1051-1060 | the effects of the children visited so far and of one more child add up |
| `EcmaTree.Tree.LoopReturns` | libisofs/ecma119_tree.c:1051-1060 | after the recursive call for a child the loop invariant holds for the next index, and the termination measure did not grow |
| `EcmaTree.Tree.PlacedByRank` | libisofs/ecma119_tree.c:1003-1061 | each directory reached from the root by the original tree has its final place after the run |
| `EcmaTree.Tree.EverythingPlaced` | libisofs/ecma119_tree.c:1003-1061 | after the run exactly the directories of the tree have a final place |
| `EcmaTree.Tree.LogicalTreeKept` | libisofs/ecma119_tree.c:899-1061 | placeholders replaced and relocated directories ignored, the child list of each directory is the original one |
| `EcmaTree.Tree.OnePlaceholder` | libisofs/ecma119_tree.c:899-985 | a relocated directory has exactly one placeholder, at its original position |
| `Mangling.SortByName` | libisofs/ecma119_tree.c:602-615 | the children get sorted and none gets lost |
| `Mangling.FillTable` | libisofs/ecma119_tree.c:640-652 | the table holds the multiset of all current names |
| `Mangling.FindGroupEnd` | libisofs/ecma119_tree.c:662-666 | finds the whole group of children with equal names |
| `Mangling.GroupUnique` | libisofs/ecma119_tree.c:662-670 | in sorted children a name is unique if and only if its group has one member |
| `Mangling.CandidatesFit` | libisofs/ecma119_tree.c:699-759 | the error about too long extensions is not reachable, and each candidate name fits the limit of the group |
| `Mangling.CandidateKind` | libisofs/ecma119_tree.c:699-759 | a renamed node takes the same branch in the next attempt, under the same limit |
| `Mangling.CandidatesDiffer` | libisofs/ecma119_tree.c:763-782 | different numbers give different names |
| `Mangling.AllTaken` | libisofs/ecma119_tree.c:771-782 | an attempt with d digits fails only if at least 10^d names are in the way |
| `Mangling.CandidateLength` | libisofs/ecma119_tree.c:690-759 | all candidate names of a group with a given number of digits have the same length |
| `Mangling.FoundLength` | libisofs/ecma119_tree.c:690-819 | the new names have the length which the first node gives them with the number of digits that succeeded |
| `Mangling.NextName` | libisofs/ecma119_tree.c:771-782 | the first unused candidate from a number on, or all of them are used |
| `Mangling.TryOne` | libisofs/ecma119_tree.c:763-809 | one node gets an unused name; the table stays the multiset of current names |
| `Mangling.TryDigits` | libisofs/ecma119_tree.c:690-809 | on success the group has unique names within its limit; on failure 10^digits is below twice the number of children; the table stays right in both cases |
| `Mangling.RenameGroup` | libisofs/ecma119_tree.c:690-819 | as TryDigits over all numbers of digits, with an attempt starting from the names of a failed one; failure means 10,000,000 is below twice the number of children |
| `Mangling.MangleGroup` | libisofs/ecma119_tree.c:654-821 | one more group is mangled, children behind it are unchanged |
| `Mangling.MangleGroups` | libisofs/ecma119_tree.c:654-821 | all groups are mangled; nothing changes if the names were distinct |
| `Mangling.AllMangled` | libisofs/ecma119_tree.c:624-835 | when each group has been handled, all names are pairwise distinct |
| `Mangling.NothingMangled` | libisofs/ecma119_tree.c:662-670 | without collisions nothing changes |
| `Mangling.MangleSingleDir` | libisofs/ecma119_tree.c:624-835 | success: names distinct and sorted, unique ones unchanged, changed ones within the limit of their group and as long as the candidates of its first node; untranslated names are never changed; too many files only for more than 5,000,000 children; the other error is not reachable |
| `Mangling.DirectoryFits` | libisofs/ecma119_tree.c:690-759 | a renamed directory fits the limit for directories if and only if the new name of the first node in its group does |
| `Mangling.SmallDirectoryFits` | libisofs/ecma119_tree.c:690-759 | with at most five children: if and only if the candidate which the original first node gets with one digit does |
| `Mangling.GuardedFits` | libisofs/ecma119_tree.c:690-759 | a renamed directory fits if both limits are equal, or if its group is led by a directory without extension |
| `Mangling.MixedGroup` | libisofs/ecma119_tree.c:624-835 | ISO level 1, a file and a directory both named ABCDEFGH: mangling succeeds, and the directory gets a name of 9 characters |
| `AaipFormat.NameRoundTrip` | libisofs/aaip_0_2.c:234-247 | a name is recovered from its short form if and only if no second namespace text was stripped |
| `AaipFormat.NameRoundTripFails` | libisofs/aaip_0_2.c:237-242 | "system.user.x" comes back as "user.x" |
| `AaipFormat.StripResult` | libisofs/aaip_0_2.c:236-242 | what is stripped from a name that begins by a namespace text |
| `AaipFormat.MatchedName` | libisofs/aaip_0_2.c:1679-1705 | what the short form of such a name gets expanded to |
| `AaipFormat.UnmatchedName` | libisofs/aaip_0_2.c:243-245 | a name without namespace text is recovered, also if it begins by a code that needs the escape marker |
| `AaipEncoder.PredictionIsExact` | libisofs/aaip_0_2.c:249-258 | the counted size of a pair is its written size, plus three for a bare namespace text |
| `AaipEncoder.BarePair` | libisofs/aaip_0_2.c:202-258 | for a bare namespace text the reserved bytes are the records of the value, of an empty component, and a stray byte |
| `AaipEncoder.BareInPayload` | libisofs/aaip_0_2.c:125-180 | what the first bare name does to the payload: the value in place of the name, an empty component in place of the value, and a stray byte ahead of all that follows |
| `AaipEncoder.PayloadIsStream` | libisofs/aaip_0_2.c:193-260 | the payload is the series of component records |
| `AaipEncoder.PositionsPartition` | libisofs/aaip_0_2.c:185-190 | head positions and payload positions partition the result, each payload position belongs to one payload byte |
| `AaipEncoder.FieldsAt` | libisofs/aaip_0_2.c:146-156 | each byte of the fields is a head byte or the payload byte for its position |
| `AaipEncoder.CountBytesOfFields` | libisofs/aaip_0_2.c:966-974 | counting by following the field lengths gives the length of the result |
| `AaipEncoder.EncodeByte` | libisofs/aaip_0_2.c:185-190 | the next payload byte is put at its position, all others keep theirs |
| `AaipEncoder.EncodeComp` | libisofs/aaip_0_2.c:193-219 | the records of a component follow the payload so far |
| `AaipEncoder.TranslateName` | libisofs/aaip_0_2.c:236-245 | the loop over the namespaces computes the split name |
| `AaipEncoder.EncodePair` | libisofs/aaip_0_2.c:226-260 | counting and writing of a pair agree with the predicted size |
| `AaipEncoder.CountPairs` | libisofs/aaip_0_2.c:111-117 | the total of the predicted sizes |
| `AaipEncoder.WritePairs` | libisofs/aaip_0_2.c:133-144 | the result holds the whole payload at its positions |
| `AaipEncoder.WriteHeads` | libisofs/aaip_0_2.c:146-157 | with the heads written the result is the series of fields |
| `AaipEncoder.Encode` | libisofs/aaip_0_2.c:100-182 | the result is the series of fields of the payload, with its number and its length |
| `AaipTrack.RecHeadStep` | libisofs/aaip_0_2.c:1208-1229 | consuming a record head keeps the decoder on the track of the encoded records |
| `AaipTrack.RecDataStep` | libisofs/aaip_0_2.c:1232-1262 | consuming record data keeps it on track |
| `AaipTrack.AaHeadStep` | libisofs/aaip_0_2.c:1265-1292 | consuming a field head keeps it on track, whichever part of the head came before |
| `AaipTrack.RecordsStep` | libisofs/aaip_0_2.c:1301-1308 | the loop over the records of a field keeps it on track |
| `AaipTrack.NothingToClose` | libisofs/aaip_0_2.c:1310-1348 | on track, the emergency closure at the end has nothing to close |
| `AaipTrack.SubmitStep` | libisofs/aaip_0_2.c:1371-1413 | a chunk is accepted completely, and the reply tells what can be fetched |
| `AaipTrack.FetchStep` | libisofs/aaip_0_2.c:1432-1474 | fetching takes out exactly the records up to the end of the component |
| `AaipTrack.AssembleAttrs` | libisofs/aaip_0_2.c:193-260 | assembling the records of encoded attributes yields the attributes with their names translated |
| `AaipEndless.EndlessRuns` | libisofs/aaip_0_2.c:1386-1399 | the outcome of endless work means that the loop still runs after any number of rounds |
| `AaipEndless.StuckForever` | libisofs/aaip_0_2.c:1386-1399 | with the payload of the last field used up, each round leaves the same bytes |
| `AaipEndless.EndlessIff` | libisofs/aaip_0_2.c:1386-1399 | for any state and any bytes: the loop does not end if and only if the framing by fields leaves bytes behind the last field, whatever the records are |
| `AaipEndless.EndlessOnTrack` | libisofs/aaip_0_2.c:1386-1399 | in each state which the decoder reaches on encoder output: the rest of the fields with further bytes behind it lets the loop run forever, and the rest alone does not |
| `AaipEndless.EndlessFromStart` | libisofs/aaip_0_2.c:1386-1399 | the same for a new decoder and all fields of a payload |
| `AaipEndless.SubmitEndless` | libisofs/aaip_0_2.c:1371-1413 | the exact condition for a submission not to return |
| `AaipRoundTrip.AdvanceStep` | libisofs/aaip_0_2.c:1527-1593 | advancing a pair keeps fetched, buffered and coming records equal to the encoded ones |
| `AaipRoundTrip.CollectChunk` | libisofs/aaip_0_2.c:1615-1713 | so does decoding a pair with a chunk of data |
| `AaipRoundTrip.HandleReply` | libisofs/aaip_0_2.c:1856-1950 | so does the loop of the list level, for each reply of the pair level |
| `AaipRoundTrip.SmallBuffer` | libisofs/aaip_0_2.c:1383-1384 | with all records fetched there is room for the next chunk, so that the buffer never is full |
| `AaipRoundTrip.DecodesAll` | libisofs/aaip_0_2.c:1785-1953 | for each split into chunks of 1 to 2048 bytes all attributes get decoded if the last value is not empty, and else the last one is missing |
| `AaipRoundTrip.RoundTrip` | libisofs/aaip_0_2.c:1785-1953 | for each such split the result is the encoded list if and only if the last value is not empty and no name lost a second namespace text |
| `AaipFifo.Appended` | libisofs/aaip_0_2.c:1068-1084 | writing behind the last byte of the ring appends to the fifo |
| `AaipFifo.Dropped` | libisofs/aaip_0_2.c:1127-1148 | moving the start of the ring drops bytes from the fifo |
| `AaipFifo.RingFifo.Address` | libisofs/aaip_0_2.c:1040-1061 | the one or two intervals of the ring are those of the fifo interval |
| `AaipFifo.RingFifo.Push` | libisofs/aaip_0_2.c:1068-1084 | appends |
| `AaipFifo.RingFifo.Read` | libisofs/aaip_0_2.c:1087-1100 | yields the interval of the content |
| `AaipFifo.RingFifo.SetByte` | libisofs/aaip_0_2.c:1103-1113 | changes one byte of the content |
| `AaipFifo.RingFifo.GetByte` | libisofs/aaip_0_2.c:1116-1124 | yields one byte of the content |
| `AaipFifo.RingFifo.Truncate` | libisofs/aaip_0_2.c:1284 | removes bytes at the end |
| `AaipFifo.RingFifo.Shift` | libisofs/aaip_0_2.c:1127-1142 | removes bytes at the start |
| `AaipFifo.ShiftFifo.Push` | libisofs/aaip_0_2.c:1158-1166 | appends |
| `AaipFifo.ShiftFifo.Read` | libisofs/aaip_0_2.c:1169-1174 | yields the interval of the content |
| `AaipFifo.ShiftFifo.SetByte` | libisofs/aaip_0_2.c:1177-1182 | changes one byte of the content |
| `AaipFifo.ShiftFifo.GetByte` | libisofs/aaip_0_2.c:1185-1188 | yields one byte of the content |
| `AaipFifo.ShiftFifo.Shift` | libisofs/aaip_0_2.c:1191-1197 | removes bytes at the start |
| `AaipFifo.RunBoth` | libisofs/aaip_0_2.c:1024-1205 | for each sequence of operations both variants give the same answers |
| `AaipMachine.EndFieldKeeps` | libisofs/aaip_0_2.c:1310-1348 | the emergency closure adds at most 259 bytes and leaves complete records |
| `AaipMachine.TakeOutKeeps` | libisofs/aaip_0_2.c:1447-1466 | fetching never reads or removes bytes behind the counted records |
| `AaipMachine.RoundStep` | libisofs/aaip_0_2.c:1301-1308 | each round keeps the buffer in order and either uses up bytes or completes a record |
| `AaipMachine.FinishStep` | libisofs/aaip_0_2.c:1309-1348 | at the end of a field the reserve of the buffer suffices, also for repeated closures |
| `AaipMachine.AaipState.constructor` | libisofs/aaip_0_2.c:983-1018 | the initial state |
| `AaipMachine.AaipState.ConsumeHead` | libisofs/aaip_0_2.c:1208-1229 | refines the function ConsumeRecHead, with all buffer accesses in range |
| `AaipMachine.AaipState.ConsumeData` | libisofs/aaip_0_2.c:1232-1262 | refines ConsumeRecData |
| `AaipMachine.AaipState.ConsumeFieldHead` | libisofs/aaip_0_2.c:1265-1292 | refines ConsumeAaHead |
| `AaipMachine.AaipState.EndRecord` | libisofs/aaip_0_2.c:1312-1330 | an incomplete record gets completed, or replaced by an empty one if its head is incomplete |
| `AaipMachine.AaipState.FinishField` | libisofs/aaip_0_2.c:1309-1348 | refines EndField |
| `AaipMachine.AaipState.ConsumeFieldData` | libisofs/aaip_0_2.c:1295-1350 | refines ConsumeAaData |
| `AaipMachine.AaipState.ConsumeFields` | libisofs/aaip_0_2.c:1386-1399 | refines SubmitLoop; the endless case is reported |
| `AaipMachine.AaipState.Status` | libisofs/aaip_0_2.c:1400-1412 | refines Reply |
| `AaipMachine.AaipState.SubmitData` | libisofs/aaip_0_2.c:1371-1413 | refines Submit, and does not return if and only if the chunk is accepted and has bytes behind the last field |
| `AaipMachine.AaipState.GatherRecs` | libisofs/aaip_0_2.c:1445-1461 | the loop over the records refines Gather |
| `AaipMachine.AaipState.FetchData` | libisofs/aaip_0_2.c:1432-1474 | refines Fetch and keeps the buffer in order |
| `AaipMachine.AaipState.ShiftOut` | libisofs/aaip_0_2.c:1127-1148 | refines ShiftRecs |
| `AaipList.LoopProgress` | libisofs/aaip_0_2.c:1856-1950 | without new data the loop of the list level goes on only with fewer records or with less shortage of buffer space |
| `AaipList.AttrDecoder.AdvanceByRecords` | libisofs/aaip_0_2.c:1527-1593 | refines Advance |
| `AaipList.AttrDecoder.BeginPair` | libisofs/aaip_0_2.c:1637-1644 | refines StartPair |
| `AaipList.AttrDecoder.CollectPair` | libisofs/aaip_0_2.c:1615-1713 | refines DecodePair |
| `AaipList.AttrDecoder.EnlargeBuffer` | libisofs/aaip_0_2.c:1735-1753 | enlarges the buffer that was too small by factor 1.5 |
| `AaipList.AttrDecoder.Decode` | libisofs/aaip_0_2.c:1785-1953 | refines DecodeAttrs; the loop terminates |
| `AaipList.DecodeStream` | libisofs/aaip_0_2.c:1785-1953 | feeding chunk after chunk to the object refines DecodeChunks |
| `AaipList.DecodeEncoded` | libisofs/aaip_0_2.c:1785-1953 | the object decodes what was encoded, in any chunks, under the condition of RoundTrip and not otherwise |
| `Acl.LineParsed` | libisofs/aaip_0_2.c:399-544 | a well-formed line is parsed to its entry, or refused if it repeats user::, group:: or other:: |
| `Acl.EncodeCanonical` | libisofs/aaip_0_2.c:374-571 | a well-formed text is encoded entry by entry if and only if no object entry comes twice |
| `Acl.DecodeCanonical` | libisofs/aaip_0_2.c:2103-2208 | the value of well-formed entries is decoded to their text and consumed completely |
| `Acl.DecodeAccess` | libisofs/aaip_0_2.c:2170-2173 | decoding of a combined value ends behind the switch mark with the access text |
| `Acl.SingleEntryRoundTrip` | libisofs/aaip_0_2.c:2057-2078 | an entry survives if and only if its qualifier has at most 127 bytes |
| `Acl.ReadSlack` | libisofs/aaip_0_2.c:2066-2075 | the reader needs room for the bytes which it skips by advancing twice |
| `AclCodec.PutQualifier` | libisofs/aaip_0_2.c:552-570 | writes all qualifier records or reports an overflow, exactly if they do not fit |
| `AclCodec.PutEntry` | libisofs/aaip_0_2.c:539-573 | counting and writing of an entry agree |
| `AclCodec.EncodeAclText` | libisofs/aaip_0_2.c:374-575 | for each text: the counted number is the length of the value, and writing yields the value if it fits and else an overflow |
| `AclCodec.EncodeAcl` | libisofs/aaip_0_2.c:292-325 | the prediction is always right: only repeated object entries lead to failure |
| `AclCodec.EncodeBothAcl` | libisofs/aaip_0_2.c:618-655 | the joint value of both ACLs, with each of them possibly missing; the odd length in counting mode |
| `AclCodec.WriteAclLine` | libisofs/aaip_0_2.c:2028-2054 | counts or writes a line, with a byte to spare for a zero |
| `AclCodec.ReadQualifierOf` | libisofs/aaip_0_2.c:2057-2078 | refines ReadQualifier |
| `AclCodec.DecodeAcl` | libisofs/aaip_0_2.c:2103-2208 | for each value: both passes read the same, writing fails only if text and final zero do not fit |
| `AclCodec.IsoDecodeAcl` | libisofs/node.c:2057-2080 | the counted size suffices for writing; the result string is the decoded text |
| `AclCodec.ConsumedInValue` | libisofs/aaip_0_2.c:2144-2146 | the reported consumption never exceeds the value, also for long qualifiers |
| `AclCodec.GetAclTexts` | libisofs/node.c:2107-2129 | both texts of a value, or the error for a bad one |
| `AclCodec.AclRoundTrip` | libisofs/aaip_0_2.c:618-655 | encoding both ACLs and reading both texts back returns the same texts |
| `IsoBytes.LsbRoundTrip` | libisofs/util.c:1478-1529 | a number that fits is read back from its little-endian form |
| `IsoBytes.MsbRoundTrip` | libisofs/util.c:1494-1540 | a number that fits is read back from its big-endian form |
| `IsoBytes.BbRoundTrip` | libisofs/util.c:1502-1552 | a number that fits is read back from its both-endian form |
| `DirRecords.RecordInBlock` | libisofs/ecma119.c:701-712 | each record lies inside of one block, as section 6.8.1.1 of ECMA-119 demands |
| `DirRecords.SizeOfExtent` | libisofs/ecma119.c:208-255 | the size of an extent depends on nothing but names, types, numbers of sections and SUSP lengths: it is the same before and after addresses and sizes are known |
| `DirRecords.AddedUp` | libisofs/ecma119.c:226-250 | adding up record by record, with the skip to the next block, gives the length of what gets packed |
| `DirRecords.CalcDirSize` | libisofs/ecma119.c:208-255 | from what the layout pass knows: the length of each extent that can be written afterwards |
| `DirRecords.WriteOneDirRecord` | libisofs/ecma119.c:378-449 | the record is put behind the others in the buffer, with zeros remaining behind it |
| `DirRecords.WriteSection` | libisofs/ecma119.c:684-713 | one more record in the buffer or in the next block |
| `DirRecords.WriteOneDir` | libisofs/ecma119.c:630-720 | the written blocks are the extent of the directory |
| `DirReader.RecordFields` | libisofs/fs_image.c:1524-1594 | name, extent, flags and SUSP data of a written record are found where the reader looks for them |
| `DirReader.OneRecordRead` | libisofs/fs_image.c:1541-1594 | a record of a section adds its extent to the file, the last one completes it with the summed size |
| `DirReader.CollectEntry` | libisofs/fs_image.c:2089-2146 | all sections of a file are reassembled to one file |
| `DirReader.CollectAll` | libisofs/fs_image.c:673-708 | all children are collected, in reverse order, each with all its sections |
| `DirReader.ReadPacked` | libisofs/fs_image.c:616-631 | the reader meets each packed record, wherever blocks end |
| `DirReader.ReadDir` | libisofs/fs_image.c:577-711 | the loop yields what the records in the extent say |
| `DirReader.DirRoundTrip` | libisofs/fs_image.c:598-709 | reading a written directory meets its records in order and yields its children |
| `DirReader.ReadBack` | libisofs/fs_image.c:577-711 | the reading loop on a written extent yields exactly the children with their sections and sizes |
| `DirTree.CountOfSubdirs` | libisofs/ecma119.c:258-300 | only subdirectories contribute to the number of directories and to the table size |
| `PathTable.AppendSubdirs` | libisofs/ecma119.c:837-842 | the subdirectories of a directory are appended in their order |
| `PathTable.Expand` | libisofs/ecma119.c:835-843 | one more directory is expanded, without exceeding the list |
| `PathTable.ExpandedAll` | libisofs/ecma119.c:814-843 | after as many rounds as there are directories the breadth-first list is complete, and its table size is the recursively computed one |
| `PathTable.PathList` | libisofs/ecma119.c:814-843 | the list is filled exactly, with all directories of the tree |
| `PathTable.HasParent` | libisofs/ecma119.c:835-843 | each directory but the root has its parent in the list before it |
| `PathTable.ParentHolds` | libisofs/ecma119.c:835-843 | the parent number of a directory is unique, and the directory is among the subdirectories of its parent |
| `PathTable.OneParent` | libisofs/ecma119.c:835-843 | no two list elements claim the same directory |
| `PathTable.OrderedByParent` | libisofs/ecma119.c:835-843 | section 6.9.1 of ECMA-119: parent numbers ascend, directories with the same parent are in child order |
| `PathTable.OrderedByLevel` | libisofs/ecma119.c:835-843 | section 6.9.1 of ECMA-119: levels ascend |
| `PathTable.ParentAhead` | libisofs/ecma119.c:776-779 | parent numbers never descend, and they are smaller than the number of the directory |
| `PathTable.FindParent` | libisofs/ecma119.c:776-779 | the search that goes on from the previous parent ends at the true parent |
| `PathTable.TableRecordFields` | libisofs/ecma119.c:781-792 | the record tells block, parent number and name in the byte order of its table |
| `PathTable.WriteRecord` | libisofs/ecma119.c:773-799 | one more record with the right parent number |
| `PathTable.WritePathTable` | libisofs/ecma119.c:758-811 | the records of all directories, filled up to a whole block |
| `Layout.TreeTarget.CalcDirPos` | libisofs/ecma119.c:258-276 | each directory is noted at its place in visiting order, with the size computed from its children; the blocks and directories are counted |
| `Layout.TreeTarget.CalcPathTableSize` | libisofs/ecma119.c:282-300 | the recursive table size |
| `Layout.TreeTarget.ComputeDataBlocks` | libisofs/ecma119.c:303-362 | directories, both tables and the tree end get their blocks without overlap |
| `Layout.TreeTarget.WriteOneDir` | libisofs/ecma119.c:630-730 | the bytes of the directory extent are put at the output position, they have the size which the layout pass computed, and the continuation area takes the blocks which were counted |
| `Layout.TreeTarget.WriteDirs` | libisofs/ecma119.c:733-755 | the bytes of each directory are in the output at its place in visiting order |
| `Layout.TreeTarget.WriteChildren` | libisofs/ecma119.c:744-753 | so are those of the directories below |
| `Layout.TreeTarget.WritePathTables` | libisofs/ecma119.c:814-857 | the bytes of both tables are in the output, one behind the other, with the blocks which were counted |
| `Layout.TreeTarget.WriteTable` | libisofs/ecma119.c:758-811 | one table with the blocks of all directories, at the output position |
| `Layout.TreeTarget.CheckTreeEnd` | libisofs/ecma119.c:960-970 | warns if and only if the end differs from the computed one |
| `Layout.TreeTarget.WriteData` | libisofs/ecma119.c:936-970 | each directory is in the output at the block which was assigned to it, where its record in the parent points, with the size that its records tell; both tables are at their blocks, and the warning does not come up |
| `DirPlaces.NotedRight` | libisofs/ecma119.c:264 | with distinct directories each noted block is the one that was meant for it |
| `DirPlaces.PlacesOfDirs` | libisofs/ecma119.c:258-276 | layout pass and write pass visit the directories in the same order |
| `DirPlaces.AllNotedRight` | libisofs/ecma119.c:258-276 | the block noted for each directory is its place |
| `DirPlaces.SizeAgrees` | libisofs/ecma119.c:208-255 | the size which the layout pass computes for a directory is the length of what the write pass produces from the entries with their final addresses and sizes |
| `DirPlaces.StoredIsInImage` | libisofs/ecma119.c:733-755 | what was written in visiting order is where the directory records say, with the size that they say |
| `Layout.TreeIsWritable` | libisofs/ecma119.c:773-799 | a proper tree fulfills all that the writing of the tables relies on |
| `TreeReader.ReadTree` | libisofs/fs_image.c:577-711 | reading recursively, each directory at the block which the record in its parent tells, yields the whole tree below |
| `TreeReader.LayOutWriteAndRead` | libisofs/ecma119.c:258-970 | layout, writing with all that was filled in after the layout, and reading from the first block on give the tree back, with all names, sections and sizes |
| `FileExtents.LastSectionSize` | libisofs/filesrc.c:108-114 | the final section of a file is not empty and fits into 32 bits |
| `FileExtents.RelativeSectionsProper` | libisofs/filesrc.c:303-326 | the sections sum up to the file size, fit into 32 bits, and all but the last are whole blocks and adjoin |
| `FileExtents.SectionPlace` | libisofs/filesrc.c:303-326 | where each section is, and that it stays inside of the blocks of its file |
| `FileExtents.AbsoluteProper` | libisofs/filesrc.c:373-378 | proper sections stay proper when they become absolute |
| `FileExtents.EmptyFileSection` | libisofs/filesrc.c:311-326 | an empty file has one empty section, at the shared block |
| `FileExtents.ExtentsProper` | libisofs/filesrc.c:290-381 | for each list of sizes and start which stay within 32-bit block addresses, with the block of empty files as the code chooses it: all sections proper, with 32-bit addresses in the reserved range behind that block, and those of different files disjoint |
| `FileExtents.CreateFileSrc` | libisofs/filesrc.c:104-123 | the section counting |
| `FileExtents.PlaceSections` | libisofs/filesrc.c:303-326 | the loop computes the relative sections |
| `FileExtents.FileSrcWriter.PlaceFile` | libisofs/filesrc.c:291-338 | one more file is placed behind the others |
| `FileExtents.FileSrcWriter.PreCompute` | libisofs/filesrc.c:239-343 | all files are placed one behind the other, behind the shared block |
| `FileExtents.FileSrcWriter.ComputeDataBlocks` | libisofs/filesrc.c:346-383 | the block of empty files gets chosen, all addresses become absolute, and the blocks are reserved |
| `FileExtents.WriteFileData` | libisofs/filesrc.c:430-611 | exactly the reserved number of blocks on each path: what could be read, then zeros |
| `FileExtents.WriteData` | libisofs/filesrc.c:658-710 | the blocks of all files, each file at the place which the layout pass has reserved |
| `FileExtents.ContentOfBlocks` | libisofs/filesrc.c:410-416 | block by block reading without error delivers the data, with zeros behind its end |
| `IfsRead.FindSection` | libisofs/fs_image.c:815-831 | the common loop finds the section of an offset |
| `IfsRead.FindBlock` | libisofs/fs_image.c:815-831 | the block of an offset |
| `IfsRead.FindAvailable` | libisofs/fs_image.c:837-856 | the bytes that can be taken from that block |
| `IfsRead.FindBlockOffset` | libisofs/fs_image.c:862-879 | the offset inside of that block |
| `IfsRead.LocateByte` | libisofs/fs_image.c:815-879 | block and block offset lead to the right byte of the concatenated sections |
| `IfsRead.SameBlock` | libisofs/fs_image.c:837-856 | the available bytes are in the same block, one behind the other |
| `IfsRead.NextBlockStart` | libisofs/fs_image.c:837-856 | behind the available bytes there is a block start or the end of the file |
| `IfsRead.Slice` | libisofs/fs_image.c:943-951 | the bytes copied from the cached block are those of the file |
| `IfsRead.IfsFileSource.ReadSome` | libisofs/fs_image.c:920-954 | one round copies the next bytes, from the cache inside of a block and from the medium at its start, and keeps a right cache right |
| `IfsRead.IfsFileSource.Read` | libisofs/fs_image.c:900-956 | up to the wanted number or the end of file: with a right cache the slice of the concatenated sections; with any cache first its bytes and then those of the file; an error only at a block which cannot be read |
| `IfsRead.IfsFileSource.Seek` | libisofs/fs_image.c:959-1015 | the new offset, the error cases, and that after a valid call the cache is right if and only if the call succeeds |
| `IfsRead.ServedRight` | libisofs/fs_image.c:900-956 | reading with any cache is right if and only if it begins at a block start, or the block can be read and the cache has its bytes where they get used |
| `IfsRead.StaleRead` | libisofs/fs_image.c:900-1015 | a run: after a failed seek reading yields a byte of another block instead of an error |
| `IfsRead.ContentRoundTrip` | libisofs/fs_image.c:900-956 | content stored in proper sections is read back |
| `IfsRead.WrittenIsStored` | libisofs/filesrc.c:658-710 | each written file is stored where the layout pass has put it |
| `IfsRead.FilesRoundTrip` | libisofs/filesrc.c:239-710 | after the layout and the writing of all files, reading the sections of a file gives what could be read from its input, with zeros for the rest |
| `IfsRead.UndisturbedFile` | libisofs/filesrc.c:239-710 | a file that could be read without error gives its data, truncated or padded to the size assumed by the layout pass |
| `RingBuffer.CopiedInWindow` | libisofs/buffer.c:181-188 | copying in changes no buffered byte |
| `RingBuffer.TakenWindow` | libisofs/buffer.c:236-243 | the bytes copied out are the oldest ones |
| `RingBuffer.PutAppends` | libisofs/buffer.c:181-188 | a round of writing appends its chunk |
| `RingBuffer.TakeRemoves` | libisofs/buffer.c:236-243 | a round of reading hands out the oldest bytes and keeps the others |
| `RingBuffer.Modulo` | libisofs/buffer.c:186 | the wrap-around of positions is the modulo operation |
| `RingBuffer.IsoRingBuffer.CopyIn` | libisofs/buffer.c:181-188 | the body of the write loop: which bytes, and the content afterwards |
| `RingBuffer.IsoRingBuffer.CopyOut` | libisofs/buffer.c:236-243 | the body of the read loop: which bytes, and the content afterwards |
| `RingBuffer.IsoRingBuffer.WriterClose` | libisofs/buffer.c:252-260 | sets the end state of the writer |
| `RingBuffer.IsoRingBuffer.ReaderClose` | libisofs/buffer.c:262-277 | sets the end state of the reader, but only once |
| `RingBuffer.IsoRingBuffer.GetBufStatus` | libisofs/buffer.c:315-337 | size, free bytes and the state codes as documented |
| `RingProtocol.NextKeepsInv` | libisofs/buffer.c:150-277 | each possible statement of either thread keeps the invariant |
| `RingProtocol.RunKeepsInv` | libisofs/buffer.c:150-277 | so does each interleaving |
| `RingProtocol.NeverBothCritical` | libisofs/buffer.c:161-247 | the threads are never in critical statements at the same time |
| `RingProtocol.BytesConserved` | libisofs/buffer.c:150-250 | delivered bytes followed by buffered bytes are the bytes copied in, and these are a prefix of what was submitted |
| `RingProtocol.EofMeansAllDelivered` | libisofs/buffer.c:218-230 | end of file is reported only after the writer closed and each byte was delivered |
| `RingProtocol.SleepsForAReason` | libisofs/buffer.c:163-179 | no lost wakeup: who sleeps while the mutex is free has a true wait condition, and never both sleep |
| `RingProtocol.NoDeadlock` | libisofs/buffer.c:150-277 | as long as not both are through, one of them can execute its next statement |
| `RingProtocol.MeasureDecreases` | libisofs/buffer.c:150-277 | each statement but a spurious wakeup brings the system closer to its end |
| `RingProtocol.RunsEnd` | libisofs/buffer.c:150-277 | the length of each run is bounded by the work and the number of spurious wakeups |
| `RingProtocol.RunKeepsOutcome` | libisofs/buffer.c:150-277 | what was issued and what is still to be issued stays the same in each run |
| `RingProtocol.CompleteTransfer` | libisofs/buffer.c:150-277 | after a complete transfer the reader has exactly what the writer submitted |
| `ElTorito.ChecksumValid` | libisofs/eltorito.c:866-885 | section 2.1 of "El Torito" 1.0: the 16-bit words sum up to 0 modulo 65536 |
| `ElTorito.EntryFields` | libisofs/eltorito.c:938-1014 | all fields of a section entry are read back |
| `ElTorito.HeaderFields` | libisofs/eltorito.c:888-904 | all fields of a section header are found at their places |
| `ElTorito.Catalog` | libisofs/eltorito.c:1036-1072 | the catalog of up to 32 images fits into 2048 bytes |
| `ElTorito.WriteValidationEntry` | libisofs/eltorito.c:866-885 | the validation entry with the right checksum, computed in 16-bit arithmetic |
| `ElTorito.LookAhead` | libisofs/eltorito.c:1050-1061 | the number of images with the same platform and id string |
| `ElTorito.WriteSection` | libisofs/eltorito.c:1049-1072 | one more section, with all its images |
| `ElTorito.CatalogOpen` | libisofs/eltorito.c:1017-1075 | the buffer holds the catalog, followed by zeros |
| `ElTorito.ReadEntriesBack` | libisofs/fs_image.c:2744-2772 | the entries of a section are read one by one |
| `ElTorito.ReadSectionsBack` | libisofs/fs_image.c:2734-2773 | all sections are read one by one, whatever is behind the buffer |
| `ElTorito.ReadElTorito` | libisofs/fs_image.c:2686-2773 | the parsing loops yield what the buffer says, and where they look last |
| `ElTorito.CatalogRoundTrip` | libisofs/fs_image.c:2715-2773 | the images are read back in order, and the last look for a section header is at the end of the catalog; the default entry has a 24-byte id and no selection criterion |
| `ElTorito.SectionsFull` | libisofs/eltorito.c:1049-1072 | the sections have their maximum size if and only if no two neighbours are in the same section |
| `ElTorito.LookBehind` | libisofs/fs_image.c:2736-2737 | the catalog fills its block, and the parser looks behind its buffer, if and only if there are 32 images of which the second to the last one each need a section of their own |
| `ElTorito.FullCatalog` | libisofs/fs_image.c:2736-2737 | 32 boot images for different platforms give a catalog that fills its block, with a look behind the buffer |
| `ElTorito.WriteAndRead` | libisofs/eltorito.c:1017-1075 | writing and parsing in place gives the images back, with a look behind the buffer exactly for a full catalog |
| `Find.FollowedByContents` | libisofs/find.c:56-96 | the search order is preorder: each node is directly followed by everything inside of it |
| `Find.FindIter.NextNested` | libisofs/find.c:61-72 | the nested search is asked first, and dropped without loss when it ends |
| `Find.FindIter.NextChild` | libisofs/find.c:80-95 | the next match among the children, or the first one inside of a directory that does not match |
| `Find.FindIter.GetNext` | libisofs/find.c:56-96 | fetches the first of the remaining matches and keeps the others; the recursion terminates |
| `Find.FindIter.UpdateNext` | libisofs/find.c:99-139 | a returned directory gets opened; nothing gets lost or repeated |
| `Find.FindIter.OpenCurrent` | libisofs/find.c:99-125 | a returned directory gets opened, and all that is owed remains to be fetched |
| `Find.FindIter.Next` | libisofs/find.c:142-157 | returns the next pending node, and the end exactly when nothing is pending |
| `Find.FindIter.HasNext` | libisofs/find.c:160-165 | tells whether something is pending |
| `Find.FindIter.FindChildren` | libisofs/find.c:238-290 | a new search has exactly the matching nodes below the directory pending |
| `Find.CollectAll` | libisofs/find.c:142-157 | calling until the end yields the filtered preorder sequence: each matching node below the directory, no other node, and no node object twice |

## Left out

- Name mangling of whole trees: `mangle_dir()` only repeats `mangle_single_dir()` for each directory. Uniqueness after the second mangling call is not stated, because the children of the relocation directory are not sorted again before it.
- Relocation.Ecma119Image.RelocateDeepDirectories: for names of at most 37 characters, without partition offset, and with an automatically created relocation directory starting empty. Nodes are identified by numbers, with the fields of all nodes in maps of one object.
- AaipRoundTrip.RoundTrip: for names with something behind the namespace text. What a bare namespace text does to the payload is stated by AaipEncoder.BareInPayload; what the decoder makes of the shifted records is not.
- AAIP: skipping of components and the state with invalid records, the count of ready bytes, memory limits and the growth of the list arrays, a pending pair after a refusal, the consumption count of `aaip_decode_attrs()`.
- AaipList.AttrDecoder.Decode: the original keeps its counters and its list in one struct; here the list level is an object with a reference to the object of the record level. Name and value buffers are sequences with a size.
- AaipMachine.AaipState.SubmitData: where the original loops forever, the method returns a code of its own. The state in that loop is not stated.
- Acl.DecodeCanonical: for qualifiers of at most 127 bytes. For longer ones SingleEntryRoundTrip shows that an entry is lost; inside of longer lists the skipped bytes might accidentally read as the wanted ones.
- ACL: numeric qualifiers, which need the user database, and the completion of ACL texts from permission bits. The decoder of the model returns a code of its own when it meets a numeric qualifier.
- Directory records: time stamps and the content of SUSP fields are given bytes. `rockridge.c` is not part of this model: the lengths of SUSP fields and of continuation areas are given, and the same for both passes.
- DirReader.ReadDir: for extents in which each record lies inside of its block. Rock Ridge interpretation of the records is not part of this model.
- Layout: the second tree for partitions, checksum tags, volume descriptors and the writers for padding.
- File content: externally appended partitions, files of older sessions, checksums, weight sorting.
- IfsRead.IfsFileSource.Read: for a regular file that is open. Which blocks can be read does not change while the file is open.
- ElTorito.CatalogRoundTrip: for boot images that are stored as files in the image, not for those in appended partitions or intervals. Boot info tables are not part of this model.
- ElTorito.ReadElTorito: for catalogs that end inside of the buffer. The model does not say what the parser finds behind it.
- Ring buffer: the statistics counters.
- Find.FindIter.Next: for a tree that does not change during the search. Taking and removing nodes, reference counts and the bookkeeping of the parent directory are not part of this model. A wildcard is given by the set of the names which match it.
- Failures of memory allocation, message reporting, and character set conversion everywhere.
