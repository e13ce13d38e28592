# Verified models of the coursework algorithms

The repository holds separate programs. Eight of them carry real algorithms, and each has a model here that keeps
the program's own state, branches and constants, together with proofs of what the program is for. A class that
updates its fields, a loop and an in-place array algorithm are a class, a loop and an array here as well; each is
proved against a specification function, and the properties of interest are lemmas about that function.

| modules | program | what is shown |
|---|---|---|
| `SkipListShape`, `SkipLists`, `Databases`, `Lexicographic` | the skip list and the key-value store that can use it in place of an ordered map | the 16 interleaved lists keep their shape under insert (equal keys included) and remove; insert, remove and find refine a finite map; in map mode every answer follows from the last put or delete of its key; two databases, one in each mode, give the same answers on every disciplined run; for a put over a bound key and for a delete of a missing one, it is stated exactly when they still do |
| `HttpFraming` | the HTTP proxy's incremental parser | for every cutting of a message into packets, the outcome is that of one packet if and only if the cuts are harmless, and then the parser is done after the last packet and never before |
| `DnsQuestions`, `DnsNames`, `DnsEncodedNames`, `DnsAnswers` | the DNS client | the question round trip on streams with the exact set of names it holds for; what the decoder of compressed names makes of any bytes, endless decodings included, and where that is what section 4.1.4 of RFC 1035 says; the walk over any bytes as answers, and over answers of any types up to where it leaves the records |
| `Vm`, `Assembler`, `VmPrograms` | the byte machine and its assembler | every program, written out, assembled and loaded, runs as an interpreter of the instruction list does; every run ends within 256^4 rounds or never; two of the programs that come with it compute, from text to result, what they are for |
| `Relations`, `QueryOperators`, `QueryRewrites`, `PlanRewrites` | the pull-based query operators | every tree of operators answers its relational meaning and then nothing; a sort's answers are in key order, spelled out in plain comparisons; for rewrites of trees, the exact inputs on which the iterators answer alike |
| `Reassembly` | the TCP payload reassembly | for any capture order and any retransmissions, the output is the stream behind the HTTP header, with the exact exception |
| `KvShell` | the key-value shell | in every session, a get is answered with the value last set, or what the data file said; after every command, a restart would read back the map in memory if and only if its bindings are storable |
| `Matrices` | the loop-reordered matrix multiply | both loop orders leave the same matrix, over any addition and multiplication, exactly when the shapes allow it |

`Options`, `Bytes`, `Decimal`, `Splitting` and `Pigeonholes` hold what several of them share: optional values, byte
arithmetic modulo 256, decimal numerals, putting sequences together and taking them apart, and the pigeonhole
principle.

## Where the code falls short of its intent

Each of these was found while proving the intended property. The models of `SkipList::remove` depart from the code in
the two places named first; everywhere else the code's behaviour is what is modelled, together with the condition
under which it meets the intent.

- `SkipList::remove` walks up from level 0, not from level 1 as its comment says, and so indexes its array at
  2^64 - 1 first. The model starts at level 1; `SkipLists.WalkUpStaysInBounds` shows what the literal loop does.
- `SkipList::remove` of an absent key erases the end iterator, which has no defined effect. The model leaves the list
  as it is and reports the fact; `Databases.DeleteAgreesIff` has it as the only disagreement of deletes.
- `SkipList::insert` never overwrites. A second put of a key takes effect only when the new tower is at least as tall
  (`SkipListShape.FindAfterSecondInsert`), and a delete brings the old value back
  (`Databases.DeleteRevivesOverwrittenValue`).
- `streamInHTTPMessage` shadows two variables, so a CRLF cut in two loses what its line said
  (`HttpFraming.CutLengthIsLost`, `HttpFraming.CutNullLineIsLost`, and exactly: `HttpFraming.CutIndependence`).
- The DNS question decoder turns every byte below 64 into a dot, so names with digits or hyphens do not survive
  (`DnsQuestions.NameRoundTrip`).
- `decodeDomain` masks the first octet with decimal 80, so it takes the length of a first label of 16 to 31 or of 48 to
  63 octets for a pointer, with the first octet of the label for its offset. What follows depends on what stands at that
  offset. If it is the last octet of the name or anything behind it, the name is never read right
  (`DnsNames.MisreadAhead`); if a name is read there that lies wholly before, that one is read instead, and two bytes
  are counted (`DnsNames.MisreadBefore`). In between, the name may even be read right by way of its surroundings
  (`DnsEncodedNames.DetourIsRead`).
- `decodeDomain` stops at the first zero octet, inside a label or not (`DnsNames.ClearNameIsReadIff`). So a question
  written by the encoder, with labels of 1 to 63 octets, has its name read back wherever it stands, if and only if no
  label holds a zero octet and the length of the first one is clear of the mask
  (`DnsEncodedNames.QuestionIsReadEverywhereIff`).
- `decodeDomain` follows only the low octet of a pointer's offset: with an offset of 256 or more it may read another
  name (`DnsNames.LongOffsetIsMisread`, and exactly, for one that is readable: `DnsNames.LongOffsetIsReadIff`). It reads
  the root name right only in front of another zero octet (`DnsNames.RootIsReadIff`), and never ends on pointers that
  lead round in a circle (`DnsNames.ManyPointersHaveNoEnd`).
- `decodeResourceRecord` does not skip the data of record types other than A/IN and CNAME: it moves on to the next
  record if and only if there are no such data (`DnsAnswers.OneAnswer`). The section loop then takes the data for the
  next record (`DnsAnswers.AnswerWalk`, `DnsAnswers.WalkSplits`); behind a name server record it reports a record that
  nobody sent (`DnsAnswers.TargetIsTakenForOwner`).
- A projection reports a tuple without any of the named fields as the end of the input
  (`QueryOperators.ProjectOfRows`). It therefore does not commute with a selection, even when the tested field is kept
  (`PlanRewrites.ProjectionHidesSelected`, and exactly: `PlanRewrites.SelectionCommutesWithProjection`).
- A sort throws on a tuple without the key, so selecting below it may avoid an exception that selecting above it meets
  (`PlanRewrites.SelectingBelowAvoidsThrow`, and exactly: `PlanRewrites.SelectionAndSortAgreeIff`).
- Reassembly drops a first segment whose sequence number is 0 (`Reassembly.ReassemblyIsRightIff`).
- The key-value shell loses every binding that is longer than its line buffer, or that is printed behind one that is
  (`KvShell.PrintParseIff`).
- `fast_matrix_multiply` swaps two of the dimensions. It stays inside its matrices and leaves the naive method's result
  if and only if there are no rows or `a_cols == b_cols` (`Matrices.FastIsNaiveIff`).

## Model

| member | source | states |
|---|---|---|
| SkipLists.LevelGenerator.ComputeLevel | storage-retrieval/skiplist/skiplist.h:14-17 | levels go round 1, 2, ..., maxLevel and never leave that range |
| SkipLists.SkipList.constructor | storage-retrieval/skiplist/skiplist.h:64-68 | a new list is a header of full height, holds no entry, and satisfies the invariant |
| SkipLists.SkipList.ComputeLevel | storage-retrieval/skiplist/skiplist.h:159-168 | the level is the configured generator's, or one more than the number of heads before the first tails, up to 16 |
| SkipLists.SkipList.Find | storage-retrieval/skiplist/skiplist.h:138-156 | in every reachable list the search, which resets its level at each node it moves to, answers the value of the first tallest node bound to the key, or nothing when there is none, within entries + 16 steps |
| SkipLists.SkipList.DescendToInsert | storage-retrieval/skiplist/skiplist.h:105-119 | after the descent every slot of `previousNodes` is non-null and is the last node of that level with a smaller key |
| SkipLists.SkipList.Splice | storage-retrieval/skiplist/skiplist.h:121-133 | exactly the new node's levels are hooked in behind the previous nodes, all other slots stay; the fallback to the header is never taken |
| SkipLists.SkipList.Insert | storage-retrieval/skiplist/skiplist.h:105-135 | the whole invariant is kept, equal keys included; the entries are the old ones with the new one in front of those not smaller; the node is appended to the owned nodes |
| SkipLists.SkipList.DescendToRemove | storage-retrieval/skiplist/skiplist.h:71-85 | as for insert: the last node with a smaller key, on each level and overall |
| SkipLists.SkipList.Bypass | storage-retrieval/skiplist/skiplist.h:86-98 | the walk-up from level 1 makes every pointer to the node skip it, on all 16 levels, and changes no other |
| SkipLists.SkipList.EraseNode | storage-retrieval/skiplist/skiplist.h:99-101 | exactly one owned node disappears, and it is not the header |
| SkipLists.SkipList.Remove | storage-retrieval/skiplist/skiplist.h:71-102 | the invariant is kept; the first entry of the key goes if there is one, and an absent key changes nothing |
| SkipLists.WalkUpStaysInBounds | storage-retrieval/skiplist/skiplist.h:86-97 | the indices of the walk-up are slots if and only if it starts above level 0; from 0 the first index is 2^64 - 1 |
| SkipLists.LinkedAfterInsert | storage-retrieval/skiplist/skiplist.h:121-133 | spliced pointers are, slot by slot, the next tall enough node of the longer chain |
| SkipLists.LinkedAfterRemove | storage-retrieval/skiplist/skiplist.h:86-98 | bypassed pointers are, slot by slot, the next tall enough node of the shorter chain |
| SkipLists.SkipList.LevelWalk | storage-retrieval/skiplist/skiplist.h:71-135 | in every reachable list, following one level from the header ends in null and visits exactly the subsequence of the level-0 walk that is tall enough |
| SkipLists.SkipList.LevelOrder | storage-retrieval/skiplist/skiplist.h:71-135 | each such walk starts at the header, visits no node twice, and is in key order |
| SkipLists.SkipList.NodesAreTheChain | storage-retrieval/skiplist/skiplist.h:71-135 | the level-0 walk visits exactly the owned nodes, each once, and slots at or above a node's level are null |
| SkipListShape.InsertRefinesMap | storage-retrieval/skiplist/skiplist.h:105-135 | inserting an absent key adds exactly that binding, for any level |
| SkipListShape.RemoveRefinesMap | storage-retrieval/skiplist/skiplist.h:71-102 | removing a key deletes exactly its binding |
| SkipListShape.FindRefinesMap | storage-retrieval/skiplist/skiplist.h:138-156 | find answers what the map binds, for any levels |
| SkipListShape.RemoveUndoesInsert | storage-retrieval/skiplist/skiplist.h:71-135 | a remove takes back the latest insert of its key, duplicates or not |
| SkipListShape.FindAfterSecondInsert | storage-retrieval/skiplist/skiplist.h:105-156 | after a second insert of a key, find gives the new value exactly when the new tower is at least as tall |
| SkipListShape.InsertKeepsSorted | storage-retrieval/skiplist/skiplist.h:105-135 | an insert keeps the entries in key order, with equal keys allowed |
| Databases.LexIsStrictTotalOrder | storage-retrieval/skiplist/skiplist.h:78-113 | the order of byte strings, by which keys are compared, is a strict total order |
| Databases.Database.Get | storage-retrieval/ldb-architecture-project-setup/level2db/level2db_database.cpp:6-19 | the answer of the chosen backend, which stays as it was |
| Databases.Database.Has | storage-retrieval/ldb-architecture-project-setup/level2db/level2db_database.cpp:21-26 | whether the chosen backend binds the key |
| Databases.Database.Put | storage-retrieval/ldb-architecture-project-setup/level2db/level2db_database.cpp:28-35 | the chosen backend takes the binding, the other one is not touched |
| Databases.Database.Delete | storage-retrieval/ldb-architecture-project-setup/level2db/level2db_database.cpp:37-48 | the chosen backend loses the binding; a missing key is an error in map mode and undefined in skip-list mode |
| Databases.StepAgreement | storage-retrieval/ldb-architecture-project-setup/level2db/level2db_database.cpp:6-48 | one disciplined operation gives the same answer and the same map in both modes |
| Databases.Perform | storage-retrieval/ldb-architecture-project-setup/level2db/level2db_database.cpp:6-48 | one operation, by name, steps the chosen backend |
| Databases.PerformAll | storage-retrieval/ldb-architecture-project-setup/level2db/level2db_database.cpp:6-48 | a run of operations on a database gets the answers of its backend, for the levels that were drawn |
| Databases.MapAnswersHistory | storage-retrieval/ldb-architecture-project-setup/level2db/level2db_database.cpp:6-48 | on every run in map mode, get answers the value last put unless it was deleted since, has tells whether there is one, and delete is done exactly when there is one |
| Databases.BackendAgreement | storage-retrieval/ldb-architecture-project-setup/level2db/level2db_database.cpp:6-48 | every run that puts only absent keys and deletes only present ones has the same answers in both models of a backend, however tall the nodes turn out |
| Databases.BothAnswerAlike | storage-retrieval/ldb-architecture-project-setup/level2db/level2db_database.cpp:6-48 | two databases, one in each mode, that hold the same bindings answer every such run alike |
| Databases.PutThenGetAgreesIff | storage-retrieval/ldb-architecture-project-setup/level2db/level2db_database.cpp:6-35 | a put and a get of its key agree in both modes if and only if no older, taller node holds a different value |
| Databases.DeleteAgreesIff | storage-retrieval/ldb-architecture-project-setup/level2db/level2db_database.cpp:37-48 | a delete agrees in both modes if and only if the key is there |
| Databases.DeleteRevivesOverwrittenValue | storage-retrieval/ldb-architecture-project-setup/level2db/level2db_database.cpp:6-48 | put over a bound key, then delete: skip-list mode answers the first value again, map mode answers not found |
| HttpFraming.ContentLengthReadsBack | networks/http-prework/main.go:136-140 | every declared length is read back from its header line, and the null line declares none |
| Decimal.DigitsInLetters | networks/http-prework/main.go:136-140 | the ten digits, and no other characters, are digits |
| Decimal.NumeralsInLetters | networks/http-prework/main.go:136-140 | the numerals of some numbers, in letters, written and read back |
| HttpFraming.CopyEndPos | networks/http-prework/main.go:187-192 | the end of the first CRLF, or of the packet when it has none |
| HttpFraming.StreamInHTTPMessage | networks/http-prework/main.go:160-208 | the loop over lines, the shadowed variables included, is the byte-at-a-time parser run over the packet |
| HttpFraming.FeedIsFlow | networks/http-prework/main.go:221-238 | feeding packets one by one is one flow over all their bytes that only knows where the cuts are |
| HttpFraming.CutIndependence | networks/http-prework/main.go:142-208 | for every message and every cutting into non-empty packets: same lengths, null-line flag and done flag as in one packet if and only if the cuts are harmless |
| HttpFraming.SparingIsHarmless | networks/http-prework/main.go:171-184 | cuts that spare the CRLF of the deciding Content-Length line, and without a body the null line, are harmless |
| HttpFraming.CutNullLineIsLost | networks/http-prework/main.go:174-184 | a cut inside the null line of any message without a body loses that line |
| HttpFraming.CutLengthIsLost | networks/http-prework/main.go:174-184 | a cut inside the CRLF of a lone header line loses its length |
| HttpFraming.WholeMessage | networks/http-prework/main.go:186-208 | a whole message in one packet yields its declared length, all of it received, and the null line |
| HttpFraming.TextIsHeader | networks/http-prework/main.go:186-192 | any text without a CRLF inside, with one behind it, is a header line |
| HttpFraming.UndeclaredMessageEnds | networks/http-prework/main.go:136-208 | header lines none of which begins with `Content-Length: `, and the null line, are a whole message: no length, no body, done |
| HttpFraming.DeclaredMessageEnds | networks/http-prework/main.go:136-208 | with such a line the message ends behind as many bytes of body as the first one says in decimal, and not after its head |
| HttpFraming.ExactFraming | networks/http-prework/main.go:154-208 | for harmless cuts the parser is done after the last packet and after no proper prefix of them |
| HttpFraming.ReadRequest | networks/http-prework/main.go:221-238 | the client loop stops at the first packet that leaves the parser done, and only then is it done; otherwise it stops when packets end |
| HttpFraming.ReadRequestFramesExactly | networks/http-prework/main.go:221-238 | when the packets of a message with harmless cuts come first, the loop ends done, having consumed them and nothing behind them |
| DnsQuestions.EncodeDNSQuestion | networks/dns-prework/dns.go:130-144 | the loop writes each label behind its length cut to a byte, then a zero, the type and the class |
| DnsQuestions.DecodeDomainName | networks/dns-prework/dns.go:177-196 | the bytes between the first one and the first zero, those below 64 as dots |
| DnsQuestions.DecodeDNSQuestion | networks/dns-prework/dns.go:250-258 | name, type and class at the positions the name's length gives, or the end of the buffer |
| DnsQuestions.DecodeQuestions | networks/dns-prework/dns.go:349-356 | the section loop reads each question from where the last one ended |
| DnsQuestions.NameRoundTrip | networks/dns-prework/dns.go:130-196 | an encoded name is read back as it was written if and only if it survives: it is empty, or no label holds a byte below 64 and the lengths, cut to a byte, are not 0 and, behind the first label, below 64 |
| DnsQuestions.QuestionRoundTrip | networks/dns-prework/dns.go:130-258 | decoding an encoded question, whatever follows it, gives the question and its exact length if and only if its name survives |
| DnsQuestions.QuestionStreamRoundTrip | networks/dns-prework/dns.go:351-356 | the section loop reads back any list of encoded questions whose names survive, and ends where they end |
| DnsNames.TextFits | networks/dns-prework/dns.go:210 | no name by the standard is longer than the bytes in front of its end, pointers and all, so the buffer of the size of the reply holds it |
| DnsNames.MaskFindsPointers | networks/dns-prework/dns.go:215 | at a readable name the mask 80 tells pointers from labels |
| DnsNames.MaskInBits | networks/dns-prework/dns.go:215-227 | the two masks as bitwise conjunctions with decimal 80 and hexadecimal 80 |
| DnsNames.FollowPointers | networks/dns-prework/dns.go:215-219 | on any bytes, so many rounds of the first loop: where the first label begins and how far it has counted, or that it ran off the buffer, or goes on |
| DnsNames.CopyLabels | networks/dns-prework/dns.go:221-242 | on any bytes, so many rounds of the second loop: the text in the buffer and how far it has counted, or that a buffer ended, or that it goes on |
| DnsNames.DecodeDomain | networks/dns-prework/dns.go:206-248 | on any bytes: text and byte count, or that a buffer ended, or that it goes on after so many rounds |
| DnsNames.ManyPointersHaveNoEnd | networks/dns-prework/dns.go:215-235 | 257 pointers in a row, in either loop, go round for ever |
| DnsNames.EnoughDecides | networks/dns-prework/dns.go:206-248 | on any bytes, the outcome after 257 rounds for each octet of the buffer and one more is the outcome after any larger number: what is endless by then never ends |
| DnsNames.ReadableIsRead | networks/dns-prework/dns.go:206-248 | a readable name is read as section 4.1.4 of RFC 1035 has it: its labels joined by dots, and exactly the wire bytes of its first segment |
| DnsNames.RestIsCopied | networks/dns-prework/dns.go:224-242 | behind the first label, dots and labels are written as the standard has them, through pointers to segments wholly before, and the first segment is counted |
| DnsNames.ClearNameIsReadIff | networks/dns-prework/dns.go:221-245 | a name by the standard whose first length octet is clear of the mask, with pointers below 256, is read right if and only if no label holds a zero octet |
| DnsNames.MisreadAhead | networks/dns-prework/dns.go:215-245 | a first length octet that meets the mask, followed by the position of the last octet of the name or a later one: if the decoding ends, the text is empty or too many bytes are counted, so it is never right |
| DnsNames.ReadBefore | networks/dns-prework/dns.go:215-245 | whatever meets the mask, rightly or not, and leads to a name that is read wholly before it: that name is read, and two bytes are counted |
| DnsNames.MisreadBefore | networks/dns-prework/dns.go:215-245 | so a first label of 16 to 31 or 48 to 63 octets that leads there is never read right |
| DnsNames.LongOffsetIsReadIff | networks/dns-prework/dns.go:218 | a pointer with an offset of 256 or more, whose low octet leads to a readable name wholly before it, is read right if and only if that name has the text of the one it denotes |
| DnsNames.LongOffsetIsMisread | networks/dns-prework/dns.go:218 | a buffer on which it has not |
| DnsNames.RootIsReadIff | networks/dns-prework/dns.go:221-245 | the root name is read right if and only if another zero octet follows |
| DnsAnswers.PrintAddress | networks/dns-prework/dns.go:278-286 | the four octets in decimal with dots between them |
| DnsAnswers.DottedQuadIsInjective | networks/dns-prework/dns.go:278-286 | different addresses are printed differently |
| DnsAnswers.AddressInLetters | networks/dns-prework/dns.go:278-286 | the printed address is the decimal numerals of the octets, in their order, with dots between them |
| DnsAnswers.DecodeResourceRecord | networks/dns-prework/dns.go:260-295 | on any bytes: name, fixed fields, data string and bytes taken, or that a buffer ended, or that a name does not end |
| DnsAnswers.DecodeFields | networks/dns-prework/dns.go:265-294 | the part of it behind the name |
| DnsAnswers.DecodeAnswers | networks/dns-prework/dns.go:358-363 | on any bytes: the loop collects the records in order, each from where the last one ended, or fails as the first failing record does |
| DnsAnswers.OneAnswer | networks/dns-prework/dns.go:260-295 | a record of any type laid out by section 4.1.3 of RFC 1035 is reported as meant; the decoder moves on to the next one if and only if it is an address, an alias, or without data, and otherwise to its data |
| DnsAnswers.WrittenAnswerIsLaidOut | networks/dns-prework/dns.go:260-295 | an answer written octet by octet, most significant first, with its owner written out, is laid out, whatever surrounds it |
| DnsAnswers.PointedAnswerIsLaidOut | networks/dns-prework/dns.go:260-295 | and so is one whose owner is a pointer to a readable name in front of it |
| DnsAnswers.AnswerWalk | networks/dns-prework/dns.go:358-363 | for every section of records of any types, with readable names compressed or not, the loop recovers every name, type, class, time to live and data string up to and including the first record whose data it does not skip; it ends where the section ends if there is none, and otherwise goes on at those data |
| DnsAnswers.WholeSectionIsRead | networks/dns-prework/dns.go:358-363 | a section of addresses, aliases and records without data is read as a whole, as it is meant and up to its end |
| DnsAnswers.WrittenSectionIsLaidOut | networks/dns-prework/dns.go:358-363 | answers written one after the other, whatever surrounds them, are such a section |
| DnsAnswers.WalkSplits | networks/dns-prework/dns.go:358-363 | a longer walk is the walk so far and then what the loop makes of the bytes at its end |
| DnsAnswers.TargetIsTakenForOwner | networks/dns-prework/dns.go:260-295 | behind a record whose data are one name, such as type S of lines 62-69, and in front of an owner that is a pointer, it reports that name as an owner, with a type of at least 0xC000 |
| DnsEncodedNames.EncodedNameIsDenoted | networks/dns-prework/dns.go:134-139 | what the encoder writes for labels of 1 to 63 bytes denotes those labels |
| DnsEncodedNames.PointerIsDenoted | networks/dns-prework/dns.go:215-235 | a pointer to a readable name wholly before it is readable as the same name, in two bytes |
| DnsEncodedNames.ClearQuestionIsReadIff | networks/dns-prework/dns.go:130-248 | the second decoder reads back the name of an encoded question, with labels of 1 to 63 octets and the first length clear of the mask, if and only if no label holds a zero octet |
| DnsEncodedNames.QuestionIsReadEverywhereIff | networks/dns-prework/dns.go:130-248 | with labels of 1 to 63 octets, it reads the name back wherever the question stands, if and only if no label holds a zero octet and the first length is clear of the mask |
| DnsEncodedNames.DetourIsRead | networks/dns-prework/dns.go:215-245 | a name with a first label of 16 octets and surroundings in which it is read right all the same |
| Vm.ExecuteInPlace | introduction-to-computer-systems/introduction-prework/vm.go:96-146 | an instruction with two operands changes registers and memory in place as its meaning says, or ends the run |
| Vm.Compute | introduction-to-computer-systems/introduction-prework/vm.go:81-148 | the loop over registers and memory, changed in place, is that many rounds of the step function, faults and register panics included |
| Vm.AddIsModular | introduction-to-computer-systems/introduction-prework/vm.go:106-109 | instruction 3 leaves the sum of the registers modulo 256, and nothing else but the program counter changes |
| Vm.SubIsModular | introduction-to-computer-systems/introduction-prework/vm.go:111-114 | instruction 4 leaves what gives the first register again when the second is added, modulo 256 |
| Vm.AddiIsModular | introduction-to-computer-systems/introduction-prework/vm.go:116-119 | instruction 5 adds its operand in the same way |
| Vm.SubiIsModular | introduction-to-computer-systems/introduction-prework/vm.go:121-124 | instruction 6 takes it away |
| Vm.LoadCopies | introduction-to-computer-systems/introduction-prework/vm.go:96-99 | instruction 1 copies the byte at the address into the register |
| Vm.StoreWritesZero | introduction-to-computer-systems/introduction-prework/vm.go:101-104 | instruction 2 writes address 0, and with any other address the run exits with -1 |
| Vm.BeqzMoves | introduction-to-computer-systems/introduction-prework/vm.go:131-136 | instruction 8 adds the offset to the program counter exactly when the register is zero, and then three |
| Vm.StopsByNumber | introduction-to-computer-systems/introduction-prework/vm.go:88-91 | 255 halts; an address below 8 exits with -1 and an unknown instruction with -2 |
| Vm.JumpGoes | introduction-to-computer-systems/introduction-prework/vm.go:126-129 | 7 goes to the address behind it |
| Vm.OperandsFollow | introduction-to-computer-systems/introduction-prework/vm.go:88-146 | the other seven take the two bytes behind them, unless those lie beyond the memory |
| Vm.StepFrame | introduction-to-computer-systems/introduction-prework/vm.go:51-71 | a round changes no memory byte but address 0, and an opcode below address 8 is a fault |
| Vm.RunFrame | introduction-to-computer-systems/introduction-prework/vm.go:51-148 | no run changes any other memory byte |
| Vm.CycleRunsForever | introduction-to-computer-systems/introduction-prework/vm.go:85-147 | a run whose state comes back never ends |
| Vm.EndsSoonOrNever | introduction-to-computer-systems/introduction-prework/vm.go:81-148 | a run that is still going after 256^4 rounds never ends |
| Vm.FuelDecides | introduction-to-computer-systems/introduction-prework/vm.go:81-148 | the verdict after 256^4 rounds is the verdict after any larger number |
| Assembler.Assemble | introduction-to-computer-systems/introduction-prework/vm_test.go:184-213 | the loop appends the bytes of one line after the other, or stops at the first line it rejects |
| Assembler.LineAssembles | introduction-to-computer-systems/introduction-prework/vm_test.go:163-210 | each of the nine instructions, written out, assembles to its encoding of 1, 2 or 3 bytes |
| Assembler.TextAssembles | introduction-to-computer-systems/introduction-prework/vm_test.go:184-213 | every program, written out one instruction a line, assembles to its code |
| Assembler.TrimDrops | introduction-to-computer-systems/introduction-prework/vm_test.go:186-188 | trimming takes off the white space in front and behind, and nothing else |
| Assembler.LooseLineAssembles | introduction-to-computer-systems/introduction-prework/vm_test.go:187-210 | a line may be indented, and end in white space |
| Assembler.LooseTextAssembles | introduction-to-computer-systems/introduction-prework/vm_test.go:186-212 | a text may stand between blank lines, as the texts of the tests do |
| Assembler.StopsIff | introduction-to-computer-systems/introduction-prework/vm_test.go:187-210 | the assembler stops at a line exactly when its first word is none of the nine, or an operand is missing or is no number |
| Assembler.AtoiReads | introduction-to-computer-systems/introduction-prework/vm_test.go:170-176 | a number is one decimal digit or more, perhaps behind a sign |
| Assembler.NumbersAreCut | introduction-to-computer-systems/introduction-prework/vm_test.go:163-176 | numbers are cut to a byte, negative ones as well, and a name that is no register is register 0 |
| Assembler.EndMatches | introduction-to-computer-systems/introduction-prework/vm.go:141-144 | behind the last instruction the machine stops with a fault: a zero opcode, or address 0 when the code fills the memory |
| Assembler.StillLoaded | introduction-to-computer-systems/introduction-prework/vm.go:63-71 | the only store that is allowed leaves the code alone |
| Assembler.StepMatches | introduction-to-computer-systems/introduction-prework/vm.go:81-148 | at every instruction, and at the end, one step of the machine on the bytes is one step of the interpreter on the instruction list, halts and faults included |
| Assembler.RunMatches | introduction-to-computer-systems/introduction-prework/vm.go:81-148 | whole runs of any length agree |
| Assembler.WellTargetedIff | introduction-to-computer-systems/introduction-prework/vm.go:126-136 | jumps and branches land where they must exactly when, modulo 256, the target of each jump and the address, size and offset of each branch come to where an instruction starts or the program ends |
| Assembler.AssembledProgramRuns | introduction-to-computer-systems/introduction-prework/vm_test.go:142-161 | every program over r1 and r2 that fits and whose jumps and branches land on instruction starts, assembled and loaded at address 8 behind any data, runs as the interpreter says |
| VmPrograms.LandsAt | introduction-to-computer-systems/introduction-prework/vm.go:126-136 | a jump or branch to the address where an instruction starts leads to that instruction |
| VmPrograms.DifferenceComputes | introduction-to-computer-systems/introduction-prework/vm_test.go:52-64 | the subtraction program, from its text through its bytes to its halt: x - y modulo 256 at address 0, for all x and y |
| VmPrograms.SumToComputes | introduction-to-computer-systems/introduction-prework/vm_test.go:106-123 | the program with the loop likewise: x (x + 1) / 2 modulo 256, for all x |
| Relations.ValueOrder | database-systems/single-table-queries-prework/core/tomekdb_sortiterator.cpp:47-52 | variants are totally ordered, by alternative and then by value |
| Lexicographic.LexMeans | storage-retrieval/skiplist/skiplist.h:78-113 | one string is smaller than another exactly when it has the smaller character at their first difference, or ends there |
| Relations.ValueLessMeans | database-systems/single-table-queries-prework/core/tomekdb_sortiterator.cpp:47-52 | integers by size come before doubles by size, and those before texts by their first difference |
| Relations.MatchesIff | database-systems/single-table-queries-prework/core/tomekdb_selectioniterator.cpp:52-81 | a tuple is selected exactly when the first field of the name is equal, not equal, greater or less, in that order |
| Relations.KeyIff | database-systems/single-table-queries-prework/core/tomekdb_sortiterator.cpp:16-46 | the sort key is the last field of the name |
| Relations.ComparatorIsStrictWeakOrder | database-systems/single-table-queries-prework/core/tomekdb_sortiterator.cpp:34-53 | the comparator is what `std::sort` demands, in both directions |
| QueryOperators.SelectionMatches | database-systems/single-table-queries-prework/core/tomekdb_selectioniterator.cpp:52-81 | the first field of the name decides, and a tuple without one is not selected |
| QueryOperators.SortKey | database-systems/single-table-queries-prework/core/tomekdb_sortiterator.cpp:16-46 | the last field of the name is the sort key, and there is none exactly when no field has the name |
| QueryOperators.Iterator.Next | database-systems/single-table-queries-prework/core/tomekdb_iterator.h:9-14 | whichever operator it is, `next` gives the first pending answer of the tree and leaves the others pending |
| QueryOperators.Iterator.ScanNext | database-systems/single-table-queries-prework/core/tomekdb_scaniterator.cpp:11-16 | one tuple after the other, then the end for ever |
| QueryOperators.Iterator.LimitNext | database-systems/single-table-queries-prework/core/tomekdb_limititerator.cpp:11-19 | the child's answers while the count lasts |
| QueryOperators.Iterator.SelectionNext | database-systems/single-table-queries-prework/core/tomekdb_selectioniterator.cpp:40-50 | the next answer of the child that is not a rejected tuple |
| QueryOperators.Iterator.ProjectionNext | database-systems/single-table-queries-prework/core/tomekdb_projectioniterator.cpp:16-35 | the child's next tuple with its fields in the order of the names asked for; nothing left is the end |
| QueryOperators.Iterator.Fill | database-systems/single-table-queries-prework/core/tomekdb_sortiterator.cpp:13-28 | one batch of the child's tuples is taken in, and a tuple without the key is an exception |
| QueryOperators.Iterator.FillAndSort | database-systems/single-table-queries-prework/core/tomekdb_sortiterator.cpp:13-54 | filling and sorting leaves the pending answers as they were, unless an exception or an empty batch is the answer |
| QueryOperators.Iterator.SortNext | database-systems/single-table-queries-prework/core/tomekdb_sortiterator.cpp:13-59 | the batch comes out sorted, and the child is not asked again |
| QueryOperators.SortOfRows | database-systems/single-table-queries-prework/core/tomekdb_sortiterator.cpp:13-59 | a sort over a relation gives the sorted relation when every tuple has the key, and throws otherwise |
| QueryOperators.SortAnswersInOrder | database-systems/single-table-queries-prework/core/tomekdb_sortiterator.cpp:13-59 | a sort answers with the tuples of its child, each as often as it was there; keys never decrease when ascending and never increase when descending, spelled out for integers, doubles and texts |
| Relations.ProjectKeepsExactly | database-systems/single-table-queries-prework/core/tomekdb_projectioniterator.cpp:20-28 | one name picks every field of that name, as often as the tuple has it, and nothing else |
| Relations.ProjectInOrder | database-systems/single-table-queries-prework/core/tomekdb_projectioniterator.cpp:20-28 | several names pick one after the other, and fields of one name keep their order |
| QueryOperators.ProjectOfRows | database-systems/single-table-queries-prework/core/tomekdb_projectioniterator.cpp:16-35 | a projection over a relation gives the projected relation if and only if no projected tuple is empty |
| QueryOperators.SelectOfRows | database-systems/single-table-queries-prework/core/tomekdb_selectioniterator.cpp:40-50 | a selection over a relation gives the selected relation |
| QueryOperators.AnswersAreDenotation | database-systems/single-table-queries-prework/core/tomekdb_sortiterator.cpp:13-59 | any tree of the five operators answers exactly its relational meaning, when sort keys exist and no projected tuple is empty |
| QueryOperators.Drain | database-systems/single-table-queries-prework/tests/tomekdb_tests.cpp:67-81 | pulling until the end gives that relation, and after it nothing comes for ever |
| PlanRewrites.SelectionCommutesWithProjection | database-systems/single-table-queries-prework/core/tomekdb_projectioniterator.cpp:16-35 | over any child, a selection and a projection in either order answer alike if and only if no tuple makes a difference: with the tested field kept, one that projects to nothing does; with the field dropped, one that is selected without projecting to nothing, or the other way round |
| PlanRewrites.SelectionCommutesWithKeptField | database-systems/single-table-queries-prework/core/tomekdb_projectioniterator.cpp:29-34 | over a child that gives a relation, with the field kept: if and only if no tuple of it projects to nothing |
| PlanRewrites.ProjectionHidesSelected | database-systems/single-table-queries-prework/core/tomekdb_projectioniterator.cpp:29-34 | two tuples on which they do not, and what is pulled until the end is not the same |
| PlanRewrites.PulledAlikeIff | database-systems/single-table-queries-prework/core/tomekdb_selectioniterator.cpp:40-50 | what is pulled until the end is the same in both orders if and only if no selected tuple comes behind one that projects to nothing |
| QueryRewrites.SelectCommutesWithProject | database-systems/single-table-queries-prework/core/tomekdb_selectioniterator.cpp:52-81 | of the relations alone: selection and projection commute if and only if the tested field is kept or nothing is selected |
| QueryRewrites.MatchesProjected | database-systems/single-table-queries-prework/core/tomekdb_projectioniterator.cpp:22-28 | a projected tuple matches exactly when the tested field is kept and the tuple matches, although fields change places |
| PlanRewrites.SelectionAndSort | database-systems/single-table-queries-prework/core/tomekdb_sortiterator.cpp:13-59 | a selection above a sort gives the selected tuples in sort order, or throws when any tuple lacks the key; below the sort likewise, or throws when a selected tuple lacks it |
| PlanRewrites.SelectionAndSortAgreeIff | database-systems/single-table-queries-prework/core/tomekdb_sortiterator.cpp:22-26 | the two agree, in tuples or in the exception, if and only if every tuple has the key or some selected one has not |
| PlanRewrites.SelectingBelowAvoidsThrow | database-systems/single-table-queries-prework/core/tomekdb_sortiterator.cpp:22-26 | an input on which they do not |
| PlanRewrites.LimitOfSort | database-systems/single-table-queries-prework/core/tomekdb_limititerator.cpp:11-19 | a limit over a sort answers with tuples none of which orders after one that was cut off, and with those that were cut off they are all; it throws without the key, unless the limit is 0 |
| QueryRewrites.InsertionSortIsASorter | database-systems/single-table-queries-prework/core/tomekdb_sortiterator.cpp:34-53 | a sort that the operators can be given exists |
| Reassembly.StrStrFindsFirst | networks/overview/parsecap.c:306 | the delimiter is found at its first place, and only in front of the first zero byte |
| Reassembly.Collect | networks/overview/parsecap.c:257-270 | the list built by pointer updates holds the payloads in capture order |
| Reassembly.Gather | networks/overview/parsecap.c:281-289 | walking the list fills the array with the payloads in order |
| Reassembly.ComparisonIsConsistent | networks/overview/parsecap.c:45-57 | the comparison function is what `qsort` demands |
| Reassembly.Sort | networks/overview/parsecap.c:290 | the array is sorted in place by the comparison function, nothing lost |
| Reassembly.WriteImage | networks/overview/parsecap.c:293-311 | repeated sequence numbers are skipped, and the first payload loses its header |
| Reassembly.Reassemble | networks/overview/parsecap.c:281-311 | list, array, sort and output together: on any capture of any segmentation, in any order with any repetitions, the image is what must come out |
| Reassembly.AnyOrderIsACapture | networks/overview/parsecap.c:257-270 | numbered segments in whatever order, each of them at least once, are such a capture |
| Reassembly.NextIsHere | networks/overview/parsecap.c:299-304 | in sorted order, the next payload is a repetition of the last segment or the next segment |
| Reassembly.ReassemblyIsStream | networks/overview/parsecap.c:281-311 | the sorted payloads of every such capture are written as the stream behind the first delimiter, each byte once; what happens with a first number of 0 or without a delimiter is stated too |
| Reassembly.ReassemblyIsRightIff | networks/overview/parsecap.c:293-311 | that output is the stream behind the header if and only if the first sequence number is not 0 or the first segment is all header |
| Reassembly.HeaderEndIsFirst | networks/overview/parsecap.c:305-309 | the delimiter found in the first segment is the first one of the stream |
| KvShell.SetIsRecognised | distributed-systems/kvstore/main.cpp:51-105 | a set command is recognised exactly when the input is the word, a legal key, an equals sign and a legal value, where legal is no space, equals sign or comma |
| KvShell.GetIsRecognised | distributed-systems/kvstore/main.cpp:51-105 | a get command is recognised exactly when the input is the word and a legal key |
| KvShell.QuitIsRecognised | distributed-systems/kvstore/main.cpp:69-105 | the shell quits exactly on `quit()`, and everything that is neither that nor a command is invalid |
| KvShell.BindingMeans | distributed-systems/kvstore/main.cpp:113-117 | a line is cut at its first zero character and split at its first comma; without one it is key and value |
| KvShell.ParsedIsClean | distributed-systems/kvstore/main.cpp:107-119 | whatever the file holds, no key that is read has a comma, and nothing that is read has a line break or a zero character |
| KvShell.PrintParseIff | distributed-systems/kvstore/main.cpp:38-119 | a printed map is read back as it was, whatever order it was enumerated in, if and only if every binding has no zero character and at most 1022 characters |
| KvShell.Shell.constructor | distributed-systems/kvstore/main.cpp:123-125 | a new shell holds what its data file says |
| KvShell.Shell.InitializeFromDataStore | distributed-systems/kvstore/main.cpp:107-121 | the loop over the lines, up to one that does not fit the buffer, gives the parsed map |
| KvShell.Shell.ProcessCommand | distributed-systems/kvstore/main.cpp:22-49 | get changes nothing and answers what is bound; set binds, and rewrites the file in the map's order of enumeration |
| KvShell.Shell.MainLoop | distributed-systems/kvstore/main.cpp:123-145 | the loop over the inputs is a session, answers included, up to the input that quits |
| KvShell.GetAnswersLastSet | distributed-systems/kvstore/main.cpp:22-145 | in every session, a get is answered with the value of the last set of its key in front of it |
| KvShell.GetAnswersFile | distributed-systems/kvstore/main.cpp:22-145 | and when there is none, with what the data file said at the start, or that the key is not found |
| KvShell.RestartConsistency | distributed-systems/kvstore/main.cpp:23-145 | from any data file whatever, after every command of every session, a restart would give the map in memory: always before the first set, and from then on if and only if every binding is storable |
| Matrices.MatrixMultiply | introduction-to-computer-systems/memory-hierarchy-prework/matrix-multiply.c:16-25 | each cell of the result is the sum of the products along `aCols`, added up from the left, and every other cell is as it was |
| Matrices.FastMatrixMultiply | introduction-to-computer-systems/memory-hierarchy-prework/matrix-multiply.c:27-42 | each of the cells it fills is the sum along `bCols` in the same order, and every other cell is as it was |
| Matrices.IdentityGivesBack | introduction-to-computer-systems/memory-hierarchy-prework/matrix-multiply.c:16-25 | on integers, multiplying by the identity from either side gives back the other factor |
| Matrices.FastStaysInsideIff | introduction-to-computer-systems/memory-hierarchy-prework/matrix-multiply.c:27-42 | on matrices of the naive method's shapes, the reordered loops stay inside if and only if they touch nothing or `aCols == bCols` |
| Matrices.InsideIsCovered | introduction-to-computer-systems/memory-hierarchy-prework/matrix-multiply.c:27-42 | and there, factors that will do for the naive method will do for the reordered loops |
| Matrices.FastIsNaiveIff | introduction-to-computer-systems/memory-hierarchy-prework/matrix-multiply.c:16-42 | in every arithmetic with more than one number, the reordered loops stay inside and leave what the naive method leaves, for all factors and all that was there before, if and only if there are no rows or `aCols == bCols` |
| Matrices.OneRowNoProducts | introduction-to-computer-systems/memory-hierarchy-prework/matrix-multiply.c:27-42 | one row, no products, one column: they stay inside and leave the cell as it was, where the naive method writes zero |

## Left out

- SkipLists.SkipList.Bypass: starts at level 1, as the comment in the source intends; from level 0 the first index is out of bounds, and nothing can be said of what follows.
- SkipLists.SkipList.Remove: starts its walk-up at level 1 in the same way, and answers false for an absent key where the source erases the end iterator.
- SkipLists.SkipList.ComputeLevel: `std::rand` is a coin flip that may come up either way; its distribution is not modelled.
- SkipLists.SkipList.Insert: memory exhaustion is not modelled.
- Databases.BackendAgreement: is about the two models of a backend; `Databases.BothAnswerAlike` is about databases.
- HttpFraming.ContentLengthReadsBack: `fmt.Sscanf` is a prefix followed by digits; signs, underscores, its leniency about spaces, and overflow of `int` are not modelled.
- HttpFraming.ReadRequest: packets are a sequence; sockets, forwarding and errors of `recv` are not modelled.
- DnsQuestions.EncodeDNSQuestion: names are byte sequences, as Go strings are.
- DnsNames.DecodeDomain: takes a number of rounds, because the loops of the source need not end; `DnsNames.EnoughDecides` shows how many are enough.
- DnsNames.MisreadAhead: with `DnsNames.MisreadBefore`, leaves open what is read when the octet behind a masked first length leads into the name, or before it to bytes that lead into it; either outcome is possible there, and which one depends on every octet passed.
- DnsEncodedNames.QuestionIsReadEverywhereIff: names with an empty label or one of more than 63 octets are not considered.
- DnsAnswers.AnswerWalk: sections hold readable names only; what the loop makes of other bytes is `DnsAnswers.DecodeAnswers`.
- Vm.Compute: takes a number of rounds, because the loop of the source need not end; `Vm.FuelDecides` shows how many are enough. The messages on the standard error stream are not modelled.
- Assembler.Assemble: `strings.TrimSpace` knows the ASCII white space only, and `strconv.Atoi` has no upper limit.
- Assembler.AssembledProgramRuns: jumps into the middle of an instruction are outside its assumptions, and registers are r1 and r2.
- QueryOperators.Iterator.Next: one class with a kind stands for the five classes behind the virtual interface; each operator owns its child, while the tests of the repository share one scan between operators; nothing is said about `next` after an exception.
- QueryOperators.Iterator.SortNext: `std::sort` is any function that gives a sorted permutation. An empty `d_tuples` makes the source ask its child again, and the model does the same.
- Relations.ValueOrder: doubles are reals, so there is no NaN, and integers are unbounded.
- QueryOperators.SelectionMatches: an invalid value of the comparison enumeration, which throws, cannot be expressed.
- QueryRewrites.SelectCommutesWithProject: is about relations; what the iterators do is `PlanRewrites.SelectionCommutesWithProjection`.
- Reassembly.Sort: an insertion sort stands for `qsort`.
- Reassembly.WriteImage: a missing delimiter, where the source computes with a null pointer, gives no result; failures of `write` are not modelled.
- KvShell.Shell.MainLoop: of what is printed, the kind and the value or key are modelled, not the wording.
- KvShell.RestartConsistency: inputs hold no line break, because `std::getline` delivers them; failures of the file system and the end of the standard input are not modelled.
- Matrices.FastMatrixMultiply: the factors are values, so a result matrix that shares memory with a factor is not covered; rounding is covered, since no law of arithmetic is used.
- The DNS header codec: fixed bit fields of twelve bytes, without a loop or state.
- `decompressDomainName`: nothing calls it.
- The response half of the proxy loop: it calls the modelled parser from a loop of the same form as the request half.
- `RangeScan` and the iterator of Level2DB: each call is one call of a library iterator.
- Parsing of the capture file in front of the reassembly: reads of fixed offsets from a file.
- `close` of the query operators: it does nothing but pass the call on.
- Printing, benchmarks, data generators and `ls`: what they do is output and operating system calls.
- The metrics exercise and the vector product: floating-point rounding is what they are about, and reals have none.
- The short assembly routines: the instruction set they are written for is not modelled.
