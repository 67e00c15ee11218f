# Score-P measurement core: a verified model

Score-P records what parallel programs do. This project models five parts of its
measurement core in Dafny and proves what they are for:

* **User topologies over all ranks** (`CommLocations`, `TopologyGroups`,
  `TopologyExchange`, `TopologyRerank`). Each rank names its topologies, lists the
  locations that have a coordinate in them, exchanges names and lists with all others,
  and merges them to groups. After unification every coordinate's rank is replaced by an
  index into such a group, which the Cube writer turns back. The exchange is written as
  the loops of the source, with one atomic step per collective and arbitrary bytes behind
  every rank's names; it is proved to compute one function of all ranks' definitions, and
  the meaning of that function is proved beside it: when the groups are exactly the
  locations with a coordinate, and when rank and thread survive.
* **Task stacks** (`TaskSpec`, `TaskStack`). The region stacks of a location's tasks are
  linked lists of 30-slot frames; frames and task objects go through free lists. The heap
  is proved to represent one mathematical stack per live task at every point of every
  run, with frames conserved; the recursive stack hash is a fold over the stack.
* **Jenkins' lookup3** (`MachineWords`, `JenkinsHash`). All variants, and the three
  alignment branches of one of them, refine one fold over 32-bit words; mixing is
  reversible.
* **Configuration values** (`CStrings`, `ConfigNumbers`, `ConfigSizes`, `ConfigAliases`,
  `ConfigTokens`, `ConfigQuote`, `ConfigBitset`, `ConfigWrap`, `ConfigBreaks`). Parsers
  and printers of numbers, sizes, sets and options, quoting for the shell, and the
  wrapping of help texts.
* **State machines around them** (`AlignedMemory`, `EventStream`, `LocationActivation`).
  Aligned memory with a hidden offset, the event stream of a program from begin to end,
  and the initialization of locations while their list grows.

Loops, in-place buffers, free lists and object fields are those of the source; each method
is proved against a function or a predicate, and what that promises is proved as lemmas.
32-bit and 64-bit unsigned numbers are bounded integers with their wrap-around written out.

## Where the code falls short of its intention

For each of these the model keeps the code as it is, shows an input for which the intention
is missed, and proves for all inputs exactly when it is met:

* Topology names travel without their last character, so two names that differ only there
  become one: `SentAlike`; `CollisionBreaksExactness` makes coordinates for any such pair,
  `GroupsExactIff`. On one rank a location can be lost: `CollisionLosesLocation`,
  `RoundTripOfNames`.
* `rank * max_locations_per_rank` is a 32-bit product: `SearchCanFail`, `SearchRange`.
* The overflow checks of numbers and sizes see only some wraps: `NumberTooLargeAccepted`,
  `NumberExactIff`, `SizeTooLargeAccepted`, `SizeExactIff`.
* A set whose first token is white space other than blanks is read forever: `TabIsBlocked`,
  `ParseEndsIff`.
* A set is printed greedily, and what is left over is lost: `GreedyLoses`,
  `BitsetLosslessIff`; for tables of separate or nested values also `NestedLosslessIff`.
* Line breaks and empty lines of a description that do not stand right behind a word are
  lost: `BreakLost`, `BreakPrintedIff`, `AllKeptIff`.
* A task completed on a non-empty stack loses its frames: `FrameLost`, `LeakIff`,
  `FramesConservedIff`.
* The hash of an empty stack is 0 and not that of the parent: `ParentHashLost`,
  `HashIsFoldIff`.
* A task that is created while the current one is completed, as happens for tasks run back
  to back, gets a parent hash of 0 instead of the hash of the stack it is meant to hang
  under: `BackToBack`, `ParentHashLostIff`; `ParentHashIff` if tasks also complete inside
  regions.
* The size of an aligned block plus its extra bytes can wrap: `RequestWraps`,
  `CellOutside`, `InsideIff`.
* The clock's readings for the begin, the first event and the end of the program are not
  compared: `ClockGoesBack`, `OrderedIff`.

## Model

| member | source | states |
|---|---|---|
| CommLocations.IdRoundTrip | src/measurement/scorep_location_management.c:417-443 | rank and thread packed into a global id are both read back from it; the thread is the upper half, the rank the lower one |
| CommLocations.GatherLocations | src/measurement/scorep_unify_helpers.c:134-213 | the array all ranks hold lists every rank's CPU locations; the total is its length, as a 32-bit number, and the maximum that of the counts per rank |
| CommLocations.LocationsOrdered | src/measurement/scorep_unify_helpers.c:177-213 | the array has the ids of CPU locations only, by rank and, within a rank, in the order of creation |
| CommLocations.CountIs | src/measurement/scorep_unify_helpers.c:142-153 | what a rank counts is the number of its CPU locations |
| CommLocations.SumAndMax | src/measurement/scorep_unify_helpers.c:163-174 | the total is the sum of the counts in 32-bit arithmetic, the maximum is one of them and at least as large as all |
| CommLocations.PositionHoldsId | src/measurement/scorep_unify_helpers.c:187-212 | a CPU location stands behind all those of lower ranks and the earlier ones of its own |
| CommLocations.PositionUnique | src/measurement/scorep_unify_helpers.c:187-212 | it stands nowhere else |
| CommLocations.SearchDown | src/measurement/SCOREP_Topologies.c:438-467 | the search downwards finds the highest match at or below its start, and fails only if there is none |
| CommLocations.SearchRange | src/measurement/SCOREP_Topologies.c:431-466 | the search meets the location exactly when the 32-bit start sum is not wrapped below it |
| CommLocations.SearchSucceeds | src/measurement/SCOREP_Topologies.c:930-984 | without a wrap the fatal case is never reached, for unequal counts per rank and non-CPU locations in between |
| CommLocations.SearchCanFail | src/measurement/SCOREP_Topologies.c:431-466 | with a wrap it can be: 2^20 + 1 ranks, one with 4096 threads |
| CommLocations.SearchHitsAtOnce | src/measurement/SCOREP_Topologies.c:921-936 | with equally many CPU-only locations on all ranks the start is the match |
| TopologyExchange.UniqueTopologies | src/measurement/SCOREP_Topologies.c:373-406 | the names without repeats in order of appearance, and for every user topology the place of its name |
| TopologyExchange.LocalGroups | src/measurement/SCOREP_Topologies.c:412-470 | each list holds just the location indices of the rank's coordinates in that topology, each once; no list grows beyond the row of the array it is stored in, and the fatal case is not reached |
| TopologyExchange.PackNames | src/measurement/SCOREP_Topologies.c:474-499 | the names stand one behind the other: every byte of a name but the last is sent as it is, and NUL for the last |
| TopologyExchange.ReadPacked | src/measurement/SCOREP_Topologies.c:571-574 | reading at the running offset gives each name up to but without its last character, whatever follows in the buffer |
| TopologyExchange.BuildGlobalNames | src/measurement/SCOREP_Topologies.c:548-596 | every rank arrives at the same list of names, and its map sends each rank's j-th topology to the place of its transmitted name; the array of names has room for all of them |
| TopologyExchange.RoomForRank | src/measurement/SCOREP_Topologies.c:550-594 | before a rank's names are unpacked there is room left for as many as any rank has |
| TopologyExchange.FillRows | src/measurement/SCOREP_Topologies.c:601-617 | the rows sent hold each member list at the place of its name, padded, a later list stored over an earlier one of the same transmitted name |
| TopologyExchange.MergeGroups | src/measurement/SCOREP_Topologies.c:625-670 | each group is the sorted union, without repeats, of the rows of all ranks for its name, and fits the array it is stored in |
| TopologyExchange.MergedBound | src/measurement/SCOREP_Topologies.c:655-659 | a location not merged yet still has room in the group |
| TopologyExchange.PreUnify | src/measurement/SCOREP_Topologies.c:370-670 | after the whole exchange every rank holds the final group of each of its topologies, independent of the bytes behind the names |
| TopologyExchange.GroupsAgree | src/measurement/SCOREP_Topologies.c:370-670 | ranks with a topology of the same name hold the same strictly increasing group; with distinct transmitted names it is the set of locations with a coordinate in it on any rank |
| TopologyGroups.FinalGroupElements | src/measurement/SCOREP_Topologies.c:625-670 | the final group is strictly increasing and is the union of what all ranks contribute |
| TopologyGroups.SentAlike | src/measurement/SCOREP_Topologies.c:496-498 | two names are sent as one exactly if they are equal or differ in their last character only |
| TopologyGroups.NamesOrder | src/measurement/SCOREP_Topologies.c:382-405 | the topologies of a rank are in the order in which their names first appear |
| TopologyGroups.MembersOrder | src/measurement/SCOREP_Topologies.c:445-457 | the members of a topology are in the order of their first coordinates |
| TopologyGroups.RowAt | src/measurement/SCOREP_Topologies.c:611-617 | what stands at a place of a rank's row comes from the last list that is sent under its name and reaches that place |
| TopologyGroups.FinalGroupIs | src/measurement/SCOREP_Topologies.c:601-670 | a location is in the final group exactly if some rank has it as the j-th member of a topology whose name is the group's or differs in the last character only, and no later such topology of that rank has more than j members |
| TopologyGroups.DistinctImpliesExact | src/measurement/SCOREP_Topologies.c:370-670 | if no two names in use differ in their last character only, the group is exactly the locations that have a coordinate in the topology |
| TopologyGroups.CollisionBreaksExactness | src/measurement/SCOREP_Topologies.c:496-498 | for any two names that differ only in their last character there are coordinates for which a group is wrong |
| TopologyGroups.GroupsExactIff | src/measurement/SCOREP_Topologies.c:370-670 | all groups are right for all coordinates if and only if no two names differ only in their last character |
| TopologyGroups.CollisionLosesLocation | src/measurement/SCOREP_Topologies.c:611-617 | two such names on one rank with two CPU locations can drop a location from the group of its own topology |
| TopologyGroups.LocationsKeptIff | src/measurement/SCOREP_Topologies.c:611-617 | every coordinate's location is in its own group, for all coordinates, if and only if no rank with several CPU locations has two such names |
| TopologyRerank.Rerank | src/measurement/SCOREP_Topologies.c:911-987 | one coordinate's rank becomes its index, directly or inside its group; MPI coordinates are left alone, and the fatal case is not reached |
| TopologyRerank.NewRankIs | src/measurement/SCOREP_Topologies.c:940-976 | that is the last place of the location in the group of a user topology, or the old rank if it is not there, and the location's index for process and platform topologies |
| TopologyRerank.PostUnify | src/measurement/SCOREP_Topologies.c:908-988 | the same for all coordinates, each from its own original rank |
| TopologyRerank.ReadersAre | src/measurement/SCOREP_Topologies.c:996-1070 | the readers go through the group for user topologies only, take the two halves of the id found, and fail for MPI topologies |
| TopologyRerank.RoundTripIff | src/measurement/SCOREP_Topologies.c:996-1070 | rank and thread are read back as recorded: always for process and platform coordinates, for user coordinates exactly when their location is in the group |
| TopologyRerank.AllRoundTripIff | src/measurement/SCOREP_Topologies.c:996-1070 | with the groups of the exchange, all user coordinates survive exactly when every group kept its own locations |
| TopologyRerank.RoundTripOfNames | src/measurement/SCOREP_Topologies.c:370-1070 | from exchange to Cube writer, all coordinates survive whatever they are if and only if no rank with several CPU locations has two names that differ only in the last character |
| TaskSpec.Interleaving | src/measurement/SCOREP_Task.c:182-239 | however tasks switch, a live task's stack is the replay of its own enters, exits and clears since its creation, and so is what a completed task has left behind |
| TaskSpec.RestStays | src/measurement/SCOREP_Task.c:153-169 | as long as no more is exited than was entered since, what was on the stack before stays in place |
| TaskSpec.ExitUndoesEnter | src/measurement/SCOREP_Task.c:153-356 | an exit undoes the enter it belongs to, whatever properly nested enters and exits lie between |
| TaskSpec.NeedWithout | src/measurement/SCOREP_Task.c:94-112 | the frames all stacks need can be summed starting with any task |
| TaskSpec.PeakOfStacks | src/measurement/SCOREP_Task.c:94-112 | if tasks complete on empty stacks, the peak is the largest number of frames the live stacks needed at any moment |
| TaskSpec.LeakIff | src/measurement/SCOREP_Task.c:223-230 | no frame is lost if and only if every completed task had an empty stack |
| TaskSpec.FrameLost | src/measurement/SCOREP_Task.c:223-230 | completing a task inside one region loses a frame |
| TaskStack.PushInFrame | src/measurement/SCOREP_Task.c:343-347 | storing behind the top slot pushes the region onto the stack the frames represent |
| TaskStack.PushNewFrame | src/measurement/SCOREP_Task.c:348-355 | a new frame on full ones pushes the region, and the older frames keep theirs |
| TaskStack.PopFrame | src/measurement/SCOREP_Task.c:158-164 | taking off a frame with one region pops it, and the list ends at the frame below |
| TaskStack.RepresentsIs | src/measurement/SCOREP_Task.c:43-52 | slot by slot: 30 regions to a frame, each frame linked to the one below, the index that of the top region, or 29 without a frame |
| TaskStack.TaskData.constructor | src/measurement/SCOREP_Task.c:121-141 | a new location has one implicit task, current, with an empty stack, generation 0 and the parent's fork hash |
| TaskStack.TaskData.AllocFrame | src/measurement/SCOREP_Task.c:94-112 | the frame comes from the free list, or is new only if that is empty, and is in no list afterwards |
| TaskStack.TaskData.RecycleFrame | src/measurement/SCOREP_Task.c:74-82 | the frame is on top of the free list and no task's stack changes |
| TaskStack.TaskData.Enter | src/measurement/SCOREP_Task.c:334-356 | the run goes on by one enter: the current task's stack grows by the region, all others stay, and frames are accounted for |
| TaskStack.TaskData.Exit | src/measurement/SCOREP_Task.c:153-169 | the run goes on by one exit: the current task's stack loses its top, and an emptied frame is recycled |
| TaskStack.TaskData.GetTopRegion | src/measurement/SCOREP_Task.c:287-292 | the top of the task's stack, or the invalid region if that is empty |
| TaskStack.TaskData.ClearStack | src/measurement/SCOREP_Task.c:314-325 | the task's stack is empty and all its frames are recycled |
| TaskStack.TaskData.Create | src/measurement/SCOREP_Task.c:182-220 | the task is the top of the free list, or new if that is empty; it was not live and starts empty; its parent hash is that of the current task's stack, live or completed, or 0 if the current task is completed and its object is the one used |
| TaskStack.TaskData.Complete | src/measurement/SCOREP_Task.c:223-230 | the task is no longer live and its object, which keeps its frames, is on top of the free list; the frames are counted as lost |
| TaskStack.TaskData.Switch | src/measurement/SCOREP_Task.c:232-239 | enters and exits now act on the given task, and no stack changes |
| TaskStack.TaskData.Separate | src/measurement/SCOREP_Task.c:74-112 | the frames of a live task are in no other task's list and not on the free list |
| TaskStack.TaskData.HoldsOwn | src/measurement/SCOREP_Task.c:74-366 | at any point of any run the frames of a task, live or completed and not used again, hold the replay of its own operations, apart from all other lists; without a frame the index is 29 |
| TaskStack.TaskData.NoFrameIff | src/measurement/SCOREP_Task.c:153-230 | a task, live or on the free list, has no frame if and only if its stack is empty |
| TaskStack.TaskData.FramesConservedIff | src/measurement/SCOREP_Task.c:74-230 | frames ever allocated are those in live stacks and on the free list, if and only if tasks were only completed on empty stacks |
| TaskStack.TaskData.FramesAtPeak | src/measurement/SCOREP_Task.c:74-356 | then they are as many as the live stacks needed at the worst moment of the run |
| TaskStack.TaskData.Aggregate | src/measurement/SCOREP_Task.c:383-402 | the recursion over the frames is the left fold of the hash over the stack, bottom to top, from the parent's hash |
| TaskStack.TaskData.GetRegionStackHash | src/measurement/SCOREP_Task.c:404-417 | the hash depends on the stack only, not on its frames; it is 0 for an empty stack |
| TaskStack.TaskData.ParentHashIff | src/measurement/SCOREP_Task.c:186-212 | a new task gets the hash it is meant to have if the current task is live, and if that is completed exactly when the hash is that of what is left of it |
| TaskStack.TaskData.ParentHashLostIff | src/measurement/SCOREP_Task.c:186-212 | as tasks complete on empty stacks, it gets that hash if and only if the current task is live or the hash is 0 |
| TaskStack.BackToBack | src/measurement/SCOREP_Task.c:186-230 | two tasks run one after the other inside a region: the first has a hash other than 0 for its parent, the second 0 |
| TaskStack.HashExtends | src/measurement/SCOREP_Task.c:383-417 | one more enter extends the hash by one step, also into a new frame; only for the first region does the parent's hash come in |
| TaskStack.HashIsFoldIff | src/measurement/SCOREP_Task.c:404-417 | the hash is the fold from the parent's hash if and only if the stack is not empty or the parent's hash is 0 |
| TaskStack.ParentHashLost | src/measurement/SCOREP_Task.c:407-410 | empty stacks under different parents have the same hash |
| JenkinsHash.RunMix | common/hash/jenkins_hash.h:114-122 | the assignments of the macro are one application of the mixing function |
| JenkinsHash.RunFinal | common/hash/jenkins_hash.h:149-158 | the same for the final mix |
| JenkinsHash.MixIs | common/hash/jenkins_hash.h:114-122 | the mixing function is the eighteen assignments of the macro with its six amounts, in additions, subtractions, rotations and exclusive ors |
| JenkinsHash.FinalIs | common/hash/jenkins_hash.h:149-158 | the final mix is the fourteen assignments of its macro with its seven amounts |
| JenkinsHash.RotIs | common/hash/jenkins_hash.h:68 | the macro moves the top k bits to the bottom and the others up |
| JenkinsHash.MixReversible | common/hash/jenkins_hash.h:70-122 | mixing has an explicit inverse on both sides |
| JenkinsHash.FinalReversible | common/hash/jenkins_hash.h:124-158 | so has the final mix |
| JenkinsHash.Lookup3Is | common/hash/jenkins_hash.c:78-103 | the reference adds three words to a, b and c and mixes, as long as more than three are left; the last one to three are added and closed by the final mix, and an empty key leaves the seed |
| JenkinsHash.SeedIs | common/hash/jenkins_hash.c:172-173 | the seed is 0xdeadbeef, the length and the first seed, modulo 2^32, in all three words, and the second seed in the last one as well |
| JenkinsHash.EmptyKeys | common/hash/jenkins_hash.c:567-572 | the three hashes of the empty key that the test driver of the source lists |
| JenkinsHash.WordsAre | common/hash/jenkins_hash.h:196-229 | a word is made of four bytes of the key, filled up with zeros: the first one lowest, or highest |
| JenkinsHash.HashWord | common/hash/jenkins_hash.c:70-103 | the primary hash of the reference fold over the words |
| JenkinsHash.HashWord2 | common/hash/jenkins_hash.c:114-149 | both hashes of the reference fold, for two seeds |
| JenkinsHash.HashLittle | common/hash/jenkins_hash.h:186-236 | the fold over the little-endian words of the bytes, the last one filled up with zeros |
| JenkinsHash.HashBig | common/hash/jenkins_hash.h:262-312 | the fold over the big-endian words of the bytes |
| JenkinsHash.HashLittle2Words | common/hash/jenkins_hash.c:175-225 | the branch that reads and masks whole words, also past the key, gives the fold over the key alone |
| JenkinsHash.HashLittle2Halves | common/hash/jenkins_hash.c:226-282 | so does the branch that reads 16 bits at a time |
| JenkinsHash.HashLittle2Bytes | common/hash/jenkins_hash.c:284-332 | and the branch that reads bytes |
| JenkinsHash.HashLittle2 | common/hash/jenkins_hash.c:162-336 | for every address and whatever lies around the key, both hashes are the same function of the key and the seeds |
| JenkinsHash.WordByteAgreement | common/hash/jenkins_hash.c:70-149 | hashing words and hashing their bytes, in either byte order, agree on both outputs |
| JenkinsHash.InjectiveInSeed | common/hash/jenkins_hash.h:186-236 | for a fixed non-empty key different initial states end in different states |
| JenkinsHash.InjectiveInBlock | common/hash/jenkins_hash.h:70-80 | keys that differ in one block of three words only end in different states |
| JenkinsHash.InjectiveInBytes | common/hash/jenkins_hash.h:186-236 | so do byte keys of one length that differ in one block of twelve bytes only, in particular all of at most twelve bytes |
| ConfigNumbers.ParseUInt64 | src/measurement/SCOREP_Config.c:1163-1209 | the decimal value modulo 2^64 of the digits after white space; a range error exactly when the value goes down at some digit, invalid exactly without digits |
| ConfigNumbers.ParseNumber | src/measurement/SCOREP_Config.c:1211-1246 | accepts just digits with white space around them, and what is stored when it does not |
| CStrings.ClassesAre | src/measurement/SCOREP_Config.c:1182-1186 | white space, digits and upper case, character by character |
| ConfigNumbers.SpacesAround | src/measurement/SCOREP_Config.c:1211-1246 | every number up to 2^64 - 1, printed and with any of the six white space characters around it, is accepted with its value |
| ConfigNumbers.PrintedDigits | src/measurement/SCOREP_Config.c:1753-1758 | a number is printed in decimal, digit by digit |
| ConfigNumbers.NumberFormIff | src/measurement/SCOREP_Config.c:1211-1246 | the text is a number in the grammar exactly when the parser's pointer walk consumes it |
| ConfigNumbers.CountsIff | src/measurement/SCOREP_Config.c:1185-1193 | the overflow check is silent exactly when no digit's step drops below the value before it, as an inequality on that value |
| ConfigNumbers.FittingNumber | src/measurement/SCOREP_Config.c:1163-1246 | every number that fits in 64 bits is accepted with its value |
| ConfigNumbers.NumberExactIff | src/measurement/SCOREP_Config.c:1185-1193 | a number is never accepted with a wrong value if and only if it fits or a wrap is seen at one of its digits |
| ConfigNumbers.NumberTooLargeAccepted | src/measurement/SCOREP_Config.c:1185-1193 | thirty quintillion does not fit and is accepted with another value |
| ConfigNumbers.NumberRoundTrip | src/measurement/SCOREP_Config.c:1753-1758 | a printed number is read as itself |
| ConfigSizes.ScaleFactor | src/measurement/SCOREP_Config.c:1275-1320 | the falling-through switch and the optional letter B consume just the suffix and give its power of 1024 |
| ConfigSizes.ParseSize | src/measurement/SCOREP_Config.c:1249-1347 | accepts exactly the sizes whose wraps are not seen, with number times unit modulo 2^64, and what is stored when it does not |
| ConfigSizes.SizeFormIff | src/measurement/SCOREP_Config.c:1249-1347 | the text is a size in the grammar, with that unit, exactly when the parser's pointer walk consumes it |
| ConfigSizes.FittingSize | src/measurement/SCOREP_Config.c:1249-1347 | every size that fits in 64 bits is accepted with its value |
| ConfigSizes.SizeOfUnit | src/measurement/SCOREP_Config.c:1268-1320 | for each of the six units, small letter or capital, with or without a blank before and a B behind it: the number times 1024, 1048576 and so on |
| ConfigSizes.SizeInBytes | src/measurement/SCOREP_Config.c:1268-1320 | without a unit, with or without a B, the number itself |
| ConfigSizes.SizeExactIff | src/measurement/SCOREP_Config.c:1335-1343 | a size is never accepted with a wrong value if and only if it fits or a wrap is seen at a digit or at the scaling |
| ConfigSizes.SizeTooLargeAccepted | src/measurement/SCOREP_Config.c:1335-1343 | one and a half times 2^54 kilobytes are accepted as 2^63 bytes |
| ConfigSizes.DumpSize | src/measurement/SCOREP_Config.c:1685-1703 | prints the reduced number and its unit |
| ConfigSizes.PrintedUnit | src/measurement/SCOREP_Config.c:1685-1703 | a multiple of a unit that no larger unit divides is printed with that unit's capital letter, any other number without one |
| ConfigSizes.LargestUnit | src/measurement/SCOREP_Config.c:1690-1696 | no other way to write the size with one of the units has a smaller number |
| ConfigSizes.SizeRoundTrip | src/measurement/SCOREP_Config.c:1249-1703 | every 64-bit size is read back from its printed form, also 0 |
| ConfigAliases.EqualIgnoringCase | src/measurement/SCOREP_Config.c:993-1019 | true exactly for texts of one length whose characters are, place by place, equal or a letter and its capital |
| ConfigAliases.StringInAliasList | src/measurement/SCOREP_Config.c:1400-1425 | true exactly if the value is one of the names between the slashes, ignoring case |
| ConfigAliases.InAliasesIs | src/measurement/SCOREP_Config.c:1400-1425 | a value is in the list exactly if it is one of its names, ignoring case |
| ConfigAliases.FirstAliasIs | src/measurement/SCOREP_Config.c:1613-1649 | the name that is printed is what comes before the first slash |
| ConfigAliases.AliasesJoin | src/measurement/SCOREP_Config.c:1400-1425 | joining the names of a list with slashes gives the list |
| ConfigAliases.AliasesWithoutSlash | src/measurement/SCOREP_Config.c:1400-1425 | no name has a slash in it |
| ConfigTokens.TrimString | src/measurement/SCOREP_Config.c:1373-1398 | the text at the returned position is the trimmed one; nothing outside the text is written, and nothing at all if it is blank |
| ConfigTokens.TrimIs | src/measurement/SCOREP_Config.c:1366-1398 | only white space is taken off, and none is left at the ends |
| ConfigTokens.NextEntry | src/measurement/SCOREP_Config.c:1450-1456 | one call of strtok and the trimming leave just the buffer, entry and position that are described for its contents |
| ConfigTokens.CutStep | src/measurement/SCOREP_Config.c:1450-1456 | these are the next token of the original value, trimmed, and a buffer whose rest still reads as the rest of the value; if nothing is left of the token, the buffer reads as the value cut off behind it |
| ConfigTokens.TokensCut | src/measurement/SCOREP_Config.c:1450 | a list is its tokens in order with blanks, commas, colons and semicolons between them, at least one between any two and none in a token |
| ConfigTokens.TokensOfJoined | src/measurement/SCOREP_Config.c:1450 | plain tokens joined by commas are cut up into just these |
| ConfigBitset.ParseBitset | src/measurement/SCOREP_Config.c:1427-1501 | none and no mean nothing, in any case of letters; otherwise the value is accepted exactly if every entry is known, and then a bit is in the result exactly if the last entry about it has no tilde |
| ConfigBitset.EntriesAre | src/measurement/SCOREP_Config.c:1450-1496 | entries are applied up to the first unknown one; a bit is in the result exactly if the last of them about it has no tilde, or none is about it and it was there before |
| ConfigBitset.InvertedRemoves | src/measurement/SCOREP_Config.c:1461-1481 | a known name behind a tilde, added to a list that is accepted, takes away the bits of its value |
| ConfigBitset.EntriesOf | src/measurement/SCOREP_Config.c:1450-1456 | the entries are the tokens without the white space around them, where anything is left |
| ConfigBitset.TakeTurn | src/measurement/SCOREP_Config.c:1449-1496 | the body of the loop over the buffer is one turn of the loop as described for all values |
| ConfigBitset.StartsOver | src/measurement/SCOREP_Config.c:1451-1459 | on a value whose first token is white space the loop is still about to start over on such a value after any number of turns |
| ConfigBitset.ParseEndsIff | src/measurement/SCOREP_Config.c:1449-1496 | the loop ends if and only if the first token is more than white space, and then with the entries applied in order |
| ConfigBitset.TabIsBlocked | src/measurement/SCOREP_Config.c:1451-1459 | a tab alone, or before a comma, is such a first token |
| ConfigBitset.DumpBitset | src/measurement/SCOREP_Config.c:1613-1649 | prints the quoted first names of the values taken greedily, with commas between them |
| ConfigBitset.ListTextReads | src/measurement/SCOREP_Config.c:1613-1649 | the shell reads the printed list as the plain names joined by commas |
| ConfigBitset.BitsetRoundTrip | src/measurement/SCOREP_Config.c:1427-1649 | printed, read by the shell and parsed, a set is itself without the greedy leftover |
| ConfigBitset.LeftoverIrreducible | src/measurement/SCOREP_Config.c:1622-1644 | no accepted value fits into what is left over |
| ConfigBitset.BitsetLosslessIff | src/measurement/SCOREP_Config.c:1427-1649 | the set comes back as it was if and only if it is made up of accepted values that do not overlap, where each other accepted value in the set overlaps one chosen before it |
| ConfigBitset.BackIsCovered | src/measurement/SCOREP_Config.c:1427-1649 | a set that comes back is the union of the accepted values that lie in it |
| ConfigBitset.NestedLosslessIff | src/measurement/SCOREP_Config.c:1427-1649 | for accepted values that lie apart, or later ones inside earlier ones, just these sets come back |
| ConfigBitset.GreedyLoses | src/measurement/SCOREP_Config.c:1620-1644 | a table and a set for which the printer loses a bit although other names would give the set |
| ConfigBitset.BitByBitLossless | src/measurement/SCOREP_Config.c:1613-1649 | nothing is left over if every bit of the set is an accepted value by itself |
| ConfigBitset.ParseOptionSet | src/measurement/SCOREP_Config.c:1503-1549 | the value of the first accepted option that goes by the trimmed name; 0 for a blank value, failure with 0 exactly for an unknown one |
| ConfigBitset.DumpOptionSet | src/measurement/SCOREP_Config.c:1651-1683 | prints the quoted first name of the first option with just these bits, or nothing |
| ConfigBitset.OptionRoundTrip | src/measurement/SCOREP_Config.c:1503-1683 | an accepted option comes back as itself, any other as 0 |
| ConfigQuote.QuotedLength | src/measurement/SCOREP_Config.c:1556-1571 | the length counted beforehand is that of the quoted string |
| ConfigQuote.PlainQuoted | src/measurement/SCOREP_Config.c:1552-1605 | a text without apostrophes and exclamation marks is put between apostrophes as it is |
| ConfigQuote.MarksEscaped | src/measurement/SCOREP_Config.c:1586-1594 | every exclamation mark stands outside of the apostrophes, behind a backslash |
| ConfigQuote.SingleQuote | src/measurement/SCOREP_Config.c:1552-1605 | the buffer allocated for that length is filled with the quoted string and its terminator, no byte more or less |
| ConfigQuote.QuotedReads | src/measurement/SCOREP_Config.c:1552-1605 | read by sections 2.2.1 and 2.2.2 of the POSIX.1-2017 Shell Command Language, a quoted string is the original wherever it stands in a word |
| ConfigQuote.QuoteRoundTrip | src/measurement/SCOREP_Config.c:1552-1605 | every string is read back from its quoted form |
| ConfigWrap.WrapLines | src/measurement/SCOREP_Config.c:650-759 | ends for every message and width, and prints the words laid out one by one, breaking a line exactly where the text asks for it or the next word does not fit, with a space for each no-break space (character 160) |
| ConfigWrap.BlanksAre | src/measurement/SCOREP_Config.c:684 | the white space that parts words, character by character |
| ConfigBreaks.TextOfWords | src/measurement/SCOREP_Config.c:684-726 | a message is its words in order with white space before, between and behind them, something between any two and none in a word |
| ConfigBreaks.WrappedEnds | src/measurement/SCOREP_Config.c:695-713 | the printed text begins with the first indentation, on a line of its own if that is negative, and the first word, and ends with a line break |
| ConfigBreaks.GapTexts | src/measurement/SCOREP_Config.c:716-733 | between two words stands a blank, or one or two line breaks and the indentation |
| ConfigWrap.WrappedReads | src/measurement/SCOREP_Config.c:671-759 | the wrapped text has the words of the message, in order and unchanged, no-break spaces included; breaks and empty lines right behind a word are kept, and no empty line is added |
| ConfigWrap.NotBrokenAt | src/measurement/SCOREP_Config.c:650-759 | no line is broken at a no-break space: the word it stands in is printed in one piece, with a space for it |
| ConfigWrap.LinesPrinted | src/measurement/SCOREP_Config.c:650-668 | lines are printed just where the wrapped text has them, with the same contents but for the no-break spaces |
| ConfigBreaks.BreakPrintedIff | src/measurement/SCOREP_Config.c:728-755 | between two words a line break is printed if and only if one stands right behind the first or the second does not fit, an empty line if and only if two stand right behind it |
| ConfigBreaks.AllKeptIff | src/measurement/SCOREP_Config.c:728-755 | all breaks and empty lines, wherever they stand between words, are kept at every width if and only if each comes right behind a word |
| ConfigBreaks.BreakLost | src/measurement/SCOREP_Config.c:728-740 | a line break behind a blank is lost, and so is an empty line with a blank in it |
| ConfigWrap.LineFits | src/measurement/SCOREP_Config.c:679-755 | no line exceeds its indentation and the columns, except by one word alone on it |
| AlignedMemory.PowerOfTwoTest | src/measurement/SCOREP_Memory.c:385-389 | the bit test finds exactly the powers of two |
| AlignedMemory.Heap.RefusedIff | src/measurement/SCOREP_Memory.c:373-389 | refused are just: no bytes, an alignment below the least one or above 65535, and one that is no power of two |
| AlignedMemory.OffsetFits | src/measurement/SCOREP_Memory.c:362-404 | the offset leaves room for its cell and fits in 16 bits |
| AlignedMemory.InsideIff | src/measurement/SCOREP_Memory.c:393-398 | the block lies inside what malloc was asked for if and only if the sum did not wrap |
| AlignedMemory.RequestWraps | src/measurement/SCOREP_Memory.c:393-398 | for eight bytes less than 2^64 at alignment 16, malloc is asked for nine bytes |
| AlignedMemory.CellOutside | src/measurement/SCOREP_Memory.c:393-404 | then the cell can lie outside of what malloc gave |
| AlignedMemory.NoByteToSpare | src/measurement/SCOREP_Memory.c:393-398 | for some raw address the block ends with the last byte asked for |
| AlignedMemory.Heap.AlignedMalloc | src/measurement/SCOREP_Memory.c:369-411 | the address is the least aligned one behind the cell, and of the memory only the cell is written; every block in use stays in place if the cell lies in the new region, as it does when the request does not wrap |
| AlignedMemory.Heap.Write | src/measurement/SCOREP_Memory.c:362-367 | a write inside a block disturbs no block and no cell |
| AlignedMemory.Heap.AlignedFree | src/measurement/SCOREP_Memory.c:414-428 | free is called with the address malloc answered with, after any run of allocations, writes and frees |
| AlignedMemory.Heap.BlocksApart | src/measurement/SCOREP_Memory.c:362-411 | blocks in use with their cells do not overlap |
| EventStream.Measurement.EnterRegionEvent | src/measurement/SCOREP_Events.c:156-226 | the enter is delivered and pushed with the clock's time, unless that went back |
| EventStream.Measurement.ExitRegionEvent | src/measurement/SCOREP_Events.c:286-350 | the exit is delivered and the region popped, unless the time went back |
| EventStream.Measurement.SetLastTimestamp | src/measurement/scorep_location_management.c:445-458 | times never go back; one that does ends the process |
| EventStream.Measurement.Enter | src/adapters/kokkos/scorep_kokkos_event.c:844-867 | a filtered region is pushed and not delivered, any other is both |
| EventStream.Measurement.Exit | src/adapters/kokkos/scorep_kokkos_event.c:872-898 | the top region is popped, and its exit delivered unless it is filtered |
| EventStream.Measurement.ExitAllRegions | src/measurement/SCOREP_Task.c:243-262 | the regions that are not filtered are exited from the top down, each at a reading of the clock of its own, until the stack is empty; the clock alone can stop this, by going back |
| EventStream.Measurement.LocationExitAllRegions | src/measurement/SCOREP_Task.c:264-285 | the same with one given time for all; ends the process exactly if a recorded region is open and the time goes back, otherwise the stack is empty |
| EventStream.Measurement.Initialize | src/measurement/SCOREP_RuntimeManagement.c:355-400 | the begin is delivered first and once only, however often initialization is called |
| EventStream.Measurement.StartFinalize | src/measurement/SCOREP_RuntimeManagement.c:923-944 | once only and not for an aborted application: the finalizing thread's regions are exited, which are the main location's only if it is the main thread |
| EventStream.Measurement.Finalize | src/measurement/SCOREP_RuntimeManagement.c:913-968 | the region events delivered are, in order, the exits of the finalizing thread's regions, the unfiltered enters and exits of subsystems and exit callbacks, and the exits of what is then open, the last ones all at the time of the end; with a clock that never goes back and has moved on since the begin, and no underflow, the end is reached |
| EventStream.Measurement.RecordAll | src/measurement/SCOREP_RuntimeManagement.c:945-965 | what is recorded during the finalization is delivered in order, each event at a reading of the clock of its own, and nothing else |
| EventStream.Measurement.EndEpoch | src/measurement/SCOREP_RuntimeManagement.c:402-426 | whatever is still open on the main location is exited at the time of the end; the end comes last, on an empty stack, after the begin; exactly when the process ends instead |
| EventStream.Measurement.StreamComplete | src/measurement/SCOREP_RuntimeManagement.c:402-968 | after the end the stream is a begin, balanced and properly nested region events in the order of their times, and the only end |
| EventStream.Measurement.StreamNested | src/measurement/SCOREP_Events.c:156-350 | at any time before, what is open in the stream is the stack without its filtered regions |
| EventStream.Measurement.SteadyInOrder | src/measurement/SCOREP_RuntimeManagement.c:386-425 | with a clock that never goes back the whole stream, begin and end included, is in the order of its times |
| EventStream.Measurement.OrderedIff | src/measurement/SCOREP_RuntimeManagement.c:386-425 | the whole stream is in the order of times if and only if there are no region events, or the first one's reading of the clock is not before that of the begin, nor that of the end before the last time stamp |
| EventStream.ClockGoesBack | src/measurement/SCOREP_RuntimeManagement.c:386-425 | a run with a clock that goes back after the begin comes to its end with a stream that is not in order |
| LocationActivation.Locations.Append | src/measurement/scorep_location_management.c:127-162 | the new location is the last of the list and the others keep their places |
| LocationActivation.Locations.CreateNonCpu | src/measurement/scorep_location_management.c:165-186 | while initialization is deferred the location is only listed; later it is initialized at once, and so is, recursively, whatever that creates |
| LocationActivation.Locations.CreateCpu | src/measurement/scorep_location_management.c:189-210 | a CPU location is only listed |
| LocationActivation.Locations.InitializeLocation | src/measurement/scorep_subsystem_management.c:194-220 | what is initialized is what was due next, and all that is asked for meanwhile is appended in order with its kind and parent, or initialized in its turn |
| LocationActivation.Locations.CallBack | src/measurement/scorep_subsystem_management.c:194-220 | the first location that is created has the kind and the parent the callback asked for, and is followed by what its own initialization leads to |
| LocationActivation.PlansInFull | src/measurement/scorep_location_management.c:165-186 | once initialization is immediate, what one initialization leads to is just all that it and the further initializations ask for |
| LocationActivation.Locations.ActivateInitLocations | src/measurement/scorep_location_management.c:252-282 | ends although the list grows, with every listed location initialized once in the order of creation and the CPU threads among them activated in that order; the locations added are those asked for, in order, with their kinds and parents |
| LocationActivation.Locations.ListedOnce | src/measurement/scorep_location_management.c:127-162 | no location is in the list twice |
| LocationActivation.Locations.InitializedOnce | src/measurement/scorep_location_management.c:165-186 | locations are initialized in the order of their creation, none of them twice, and only listed ones |
| LocationActivation.Locations.ParentFirst | src/measurement/scorep_location_management.c:165-282 | a parent is initialized before its children; the only parents that are not initialized here are CPU locations created after the activation |

## Left out

- Collectives are atomic steps over the states of all ranks; a local send buffer that is shorter than what is gathered is continued with arbitrary bytes.
- The hash table of strings, the definition manager and the unification engine: definitions are sequences, equal names have equal handles, and unification is taken to keep groups and coordinates.
- The three arrays of CPU locations that the source keeps for process, platform and user topologies have the same contents and are one array.
- The name handles, the packed names and the list of global names in the exchange are arrays of the source's lengths; the other C arrays are sequences that are proved to stay within those lengths. What happens to these in place is modelled as new values. `qsort` is the function that sorts.
- The 30 regions of a frame are part of the frame, so they are a sequence in one of its fields.
- TaskStack.TaskData.Create: the hash values of the regions on the stack that is hashed are a map, and a filtered region, which has none, must not be on that stack; the source would read past its region definitions.
- Enters, exits and clears while the current task is a completed one: the adapters switch to another task before they enter or exit again (for example src/adapters/opari2/openmp/SCOREP_Opari2_Openmp.c:245-250).
- Substrate data and substrate callbacks of tasks; tasks that move to another location.
- The big-endian build of `hashlittle2` and the code for VALGRIND and SELF_TEST in the hash.
- The byte order of `jenkins_hash` in the stack hash is the little-endian one.
- Characters are those of the "C" locale; NUL ends a string and is not part of it. Reading beyond a string's end is excluded by the terminator.
- Failing allocations and the messages for rejected values; output is the text printed.
- ConfigBitset.ParseBitset: requires that the first token is not blank, because the source does not end otherwise (`ParseEndsIff`); a 64-bit set of bits is the set of their numbers.
- ConfigBitset.BitsetRoundTrip: requires first names that are plain words, do not begin with a tilde, are not none or no, and find their own value; other tables are ambiguous.
- The HTML form of `wrap_lines`; booleans, strings and paths, which are passed on as they are.
- SCOREP_ROUNDUPTO and SCOREP_ALLOCATOR_ALIGNMENT are defined in files that are not part of this model: the former is the least multiple, the latter a parameter. Aborting when memory runs out.
- AlignedMemory.Heap.AlignedMalloc: says nothing about the blocks in use if a wrapped request left the cell outside of the new region (`CellOutside`), where the source writes to memory it does not own.
- EventStream: unwinding, sampling, metrics, several tasks on the main location, the streams of other locations, and recording switched off.
- EventStream.Measurement.EndEpoch: the check that the end is later than the begin is an assertion of the source; a build without assertions delivers the end in any case.
- EventStream.Measurement.Exit: an adapter exits only the region on top of the stack.
- The second argument of the initialization and activation functions is the location's parent, which is stated of the location itself.
- LocationActivation: the mutex around the list makes each append one step; the initialization of CPU locations created after activation belongs to the thread management.
- The manifest, name checks, environment access and subsystem tables, which are straight-line calls of other parts; clock interpolation, which is floating-point rounding; MPI, RMA and I/O event wrappers, which forward their arguments to the substrates.
