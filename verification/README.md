# SIR outbreaks on temporal networks: a Dafny model

The project models the parts of the temporal-network SIR simulation code that decide an outbreak:

- **`Pcg`**: the PCG-XSH-RR random number generator of `pcg_rnd.c`.
  - `pcg_32` is a 64-bit LCG step with a rotated xorshift output.
  - `pcg_32_bounded` is unbiased rejection sampling below a bound.
  - `pcg_16` returns the two halves of one 32-bit draw.
- **`Sampler`**: the recovery-time sampler `exptime`, with its short-circuit for the top draw.
- **`ContactFinder`**: `contagious_contact` of `tsir.c` and the skip table `rnd2inx` it reads.
  - For one edge, it finds the first contact later than the infection time.
  - It then skips ahead by a 16-bit draw's table entry.
  - It answers `END` when the edge has no later contact, and `NONE` when the skip runs past the last contact.
- **`EventHeap`** and **`Tsir`**: the event-driven simulator of `tsir.c`.
  - It keeps a 1-indexed binary min-heap of pending infection events keyed on node time.
  - `infect` takes the earliest event and draws the duration.
  - It then offers every susceptible neighbour the contagious contact, if that is earlier than both the recovery and the neighbour's current time.
  - `sir` seeds a random source and runs the heap dry, then cleans up.
  - `Tsir.Engine` is a class over the arrays of the C program.
- **`TsirRef`**: the straightforward reference simulator of `tsir_ref.c`.
  - It takes one pass over the time-ordered contact list, starting at `start_index(t0)`.
  - The pass stops at the first contact later than the extinction bound `tx`.
  - It is specified by the pure function `Scan` over a `Trial` value, and implemented by the class `RefSim`, whose methods are proved against `Scan`.
- **`NetworkFiles`** and **`NumberText`**: the two network writers `txt_ref` and `txt` of `tsir_compare.py`, and the text layout they share.
  - `txt` groups contacts by undirected edge.
  - It sorts the edges by `(-last time, number of contacts)` and writes each node's neighbour records.
  - Writing is proved against reading the text back.

Supporting modules:

- `Machine`: 32-bit unsigned arithmetic.
- `TemporalNetwork`: sorted time lists.
- `Counting`: the pigeonhole fact used to bound the processed list.

## Model

| member | source | states |
|---|---|---|
| Machine.Add32 | tsir.c:46 | unsigned addition wraps modulo 2^32: the result is `a + b` when that fits, `a + b - 2^32` otherwise |
| Pcg.Generator.Next32 | pcg_rnd.c:16-24 | the state advances by one LCG step (multiplier 6364136223846793005, increment 1442695040888963407) and the result is the output function of the old state |
| Pcg.OutputIsRotatedXorShift | pcg_rnd.c:21-23 | the output is the xorshifted high bits of the old state, rotated right by the top five state bits |
| Pcg.RotateFormulaIsRotation | pcg_rnd.c:23 | `(v >> rot) \| (v << (-rot & 31))` is a right rotation of `v` by `rot`, including `rot == 0` where the left shift is by 0 |
| Pcg.UnrotatedOutput | pcg_rnd.c:21-23 | when the top five bits of the state are zero, the output is the plain xorshifted value |
| Pcg.Threshold | pcg_rnd.c:29 | `-bound % bound` is below `bound` and leaves a count of accepted values that is a multiple of `bound` |
| Pcg.NoModuloBias | pcg_rnd.c:29-34 | counted one by one, the accepted 32-bit values (from the threshold up to `2^32 - 1`) give every result below `bound` exactly `(2^32 - threshold) / bound` times |
| Pcg.HitsWholeBlocks | pcg_rnd.c:29-34 | `q` runs of `bound` consecutive values hold `q` values of each residue |
| Pcg.HitsOneBlock | pcg_rnd.c:29-34 | `bound` consecutive values hold exactly one value of each residue |
| Pcg.BoundedDraw | pcg_rnd.c:28-35 | the bounded draw is below `bound` |
| Pcg.BoundedDrawAdvancesState | pcg_rnd.c:31-32 | the state after a bounded draw is the start state advanced once per draw the loop made |
| Pcg.BoundedDrawIsLastDraw | pcg_rnd.c:34 | the result is the last 32-bit draw reduced modulo `bound` |
| Pcg.BoundedDrawIsAccepted | pcg_rnd.c:31-32 | the last draw is at or above the threshold (when the loop ended within its fuel) |
| Pcg.BoundedDrawRejectsEarlierDraws | pcg_rnd.c:31-32 | every draw before the last one was below the threshold |
| Pcg.PowerOfTwoBoundNeverRejects | pcg_rnd.c:29-32 | for a power-of-two bound the threshold is 0, so one draw is made |
| Pcg.LastDrawState | pcg_rnd.c:31-32 | the state the accepted draw is taken from is the start state advanced one fewer times than the number of draws |
| Pcg.Generator.Bounded | pcg_rnd.c:28-35 | the result and the new state are those of `BoundedDraw` on the old state |
| Pcg.Generator.Next16 | pcg_rnd.c:39-49 | the result and the new cache are those of `Draw16`: a fresh 32-bit draw's low half, or the cached draw's high half |
| Pcg.TwoDraw16AreOneDraw32 | pcg_rnd.c:42-48 | two consecutive 16-bit draws from an empty cache consume one 32-bit draw, return its low then its high half, and leave the cache empty |
| Pcg.HalvesReassemble | pcg_rnd.c:44-48 | the two halves returned reassemble the 32-bit draw |
| Sampler.ExpDuration | tsir_ref.c:56-62 | the top draw 4294967295 gives duration 0; every other draw gives the converted logarithm |
| Sampler.Exptime | tsir_ref.c:56-62 | one 32-bit draw is consumed and the result is `ExpDuration` of it |
| Counting.DistinctValues | tsir.c:71 | a list of distinct nodes holds as many values as entries |
| Counting.DistinctBelow | tsir.c:71 | distinct nodes below `n` number at most `n` (so `g.i` never overflows) |
| TemporalNetwork.FirstAfter | tsir.c:21-25 | the index of the first time later than `now` (or the length): everything before it is at or before `now` |
| TemporalNetwork.FirstAfterSplits | tsir.c:21-25 | in a sorted list, every time from the first later index on is later than `now` |
| ContactFinder.Clamp | tsir.c:115 | a skip count is stored as itself or as `USHRT_MAX`, whichever is smaller |
| ContactFinder.FillSkipTable | tsir.c:110-117 | the table has 65536 entries, each the clamped scaled logarithm when beta < 1 and 0 otherwise |
| ContactFinder.ContactOutcome | tsir.c:15-34 | the finder answers `END`, `NONE` or one of the contact times |
| ContactFinder.EndIffNoLaterContact | tsir.c:18 | `END` exactly when every contact is at or before `now` |
| ContactFinder.NoneIffSkippedPastEnd | tsir.c:28-30 | with a later contact, `NONE` exactly when the first later index plus the skip reaches the end |
| ContactFinder.FoundContactIsLater | tsir.c:28-33 | a returned time is the contact `skip` places after the first later one, and is later than `now` |
| ContactFinder.ZeroSkipGivesFirstLater | tsir.c:117 | with a zero skip (beta >= 1) the finder returns the earliest contact later than `now` |
| ContactFinder.EndIsFinal | tsir.c:54 | with neighbour lists ordered by non-increasing last contact, once one list answers `END` every later list does too, so the `break` loses nothing |
| ContactFinder.ContactDraw | tsir.c:15-34 | the finder's answer and generator cache for a list and a cache: `END` exactly when no contact is later than `now`, and then no draw; otherwise one 16-bit draw, and a found time is one of the list's and later than `now` |
| ContactFinder.ContagiousContact | tsir.c:15-34 | `END` without a draw when the last contact is at or before `now`; otherwise one 16-bit draw, and the result is `ContactOutcome` with that draw's table entry |
| EventHeap.SwapKeepsSlots | tsir.c:61-65 | exchanging two live slots and their positions keeps slots and positions in agreement |
| EventHeap.UpStep | tsir.c:65 | one sift-up step moves the only possible order violation to the parent |
| EventHeap.UpDone | tsir.c:65 | a sift-up that stops at the root or below an earlier parent leaves the heap ordered |
| EventHeap.DownStep | tsir.c:43 | one sift-down step moves the only possible order violation to the child |
| EventHeap.DownDone | tsir.c:43 | a sift-down that stops at a slot no later than its children leaves the heap ordered |
| EventHeap.LowerKeepsOrderBelow | tsir.c:59-65 | an earlier time for a node on the heap can only break the order with its parent |
| EventHeap.OffHeapTimeKeepsOrder | tsir.c:46 | changing the time of a node off the heap keeps the heap ordered |
| EventHeap.AppendKeepsSlots | tsir.c:61-64 | appending a node at slot `nheap + 1` keeps slots and positions in agreement |
| EventHeap.RemoveRootKeepsSlots | tsir.c:43 | moving the last slot to the root and dropping the root's position keeps slots and positions in agreement |
| EventHeap.RootIsEarliest | tsir.c:40-43 | the root of an ordered heap holds the earliest time on the heap |
| EventHeap.RootBelow | tsir.c:40-43 | every slot's time is no earlier than the root's |
| Tsir.Engine.constructor | tsir.c:122-126 | every node starts with no time and no heap position; the heap and the processed list are empty |
| Tsir.Engine.Exchange | tsir.c:65 | the two slots and the two positions are exchanged |
| Tsir.Engine.SwapUp | tsir.c:65 | one sift-up step, keeping the heap's slots and moving the order violation up |
| Tsir.Engine.UpHeap | tsir.c:65 | after an earlier time at one slot, the heap is ordered again and no node joins or leaves it |
| Tsir.Engine.EarliestOfThree | tsir.c:43 | the slot among `k` and its live children with the earliest time |
| Tsir.Engine.SwapDown | tsir.c:43 | one sift-down step, keeping the heap's slots and moving the order violation down |
| Tsir.Engine.DownHeap | tsir.c:43 | after a later time at one slot, the heap is ordered again and no node joins or leaves it |
| Tsir.Engine.Detach | tsir.c:43 | the root node is taken off the heap and the last slot moves to the root |
| Tsir.Engine.DelRoot | tsir.c:40-43 | the earliest node (its time no later than any on the heap) leaves the heap, which stays ordered |
| Tsir.Engine.HeapHasRoom | tsir.c:62 | while one node is being processed, a node not on the heap has a free slot |
| Tsir.Engine.InfectedHasRoom | tsir.c:71 | a node not yet processed has a free entry in `g.i` |
| Tsir.Engine.Schedule | tsir.c:60-65 | the node's time becomes `t`, it is on the heap, the heap grows only when it was not on it, and the heap stays ordered |
| Tsir.Engine.Append | tsir.c:61-64 | the node gets time `t` and slot `nheap + 1`; every other position is unchanged |
| Tsir.Engine.Insert | tsir.c:60-65 | a node not on the heap is scheduled at `t` and sifted up; the heap grows by one |
| Tsir.Engine.Lower | tsir.c:60-65 | a node on the heap gets the earlier time `t` and is sifted up; no node joins or leaves |
| Tsir.Engine.Recover | tsir.c:46 | only the infected node's time changes, to its recovery time |
| Tsir.Engine.Record | tsir.c:71 | the node is appended to the processed list |
| Tsir.Pass | tsir.c:50-66 | one neighbour, as a value: a processed neighbour is skipped; the loop breaks exactly when the neighbour is unprocessed and its last contact is at or before `now` (`END`), and then nothing changes; otherwise at most that neighbour's time changes, to a time in `(now, recovery]` below its old time |
| Tsir.Sweep | tsir.c:49-68 | the neighbour loop from neighbour `i`, as a value, including the `break` at `END`: the times and generator cache it leaves |
| Tsir.SweepOnlyLowers | tsir.c:49-68 | the loop keeps the infector's time, never raises a time, and each changed time belongs to an unprocessed neighbour and lies in `(now, recovery]` |
| Tsir.SweepSchedules | tsir.c:53-60 | an unprocessed neighbour whose contagious contact is found and no later than the recovery ends the loop with a time no later than that contact |
| Tsir.Engine.NextContact | tsir.c:53 | the contact time and generator cache are `ContactDraw` of the neighbour's contact list, `now` and the old cache |
| Tsir.Engine.Offer | tsir.c:59-65 | the neighbour's time becomes `t` exactly when `t <= recovery` and `t` is below its old time, and nothing else changes; a scheduled neighbour is on the heap, which grows only when it was not, and the heap stays ordered |
| Tsir.Engine.Reach | tsir.c:52-65 | for an unprocessed neighbour: the stop flag, times and generator cache are those of `Pass` |
| Tsir.Engine.Consider | tsir.c:50-66 | the stop flag, times and generator cache are those of `Pass`, so a processed neighbour changes nothing |
| Tsir.Engine.ScanNeighbours | tsir.c:49-68 | the times and generator cache the loop leaves are `Sweep` from the first neighbour, and the heap stays ordered |
| Tsir.Engine.Process | tsir.c:45-71 | with a positive duration, recovery at `now + duration` and then the times and generator cache of `Sweep`; with zero duration no time and no draw changes; then the record |
| Tsir.Engine.Infect | tsir.c:39-72 | the earliest event's node is processed after one `exptime` draw: appended to `g.i`, its recovery and its neighbours' times as `Sweep` gives them, with the heap invariant kept |
| Tsir.Engine.Seed | tsir.c:84-87 | the source is the first bounded draw below `n`; its time is the second, below `dur`; it is the only heap entry |
| Tsir.Engine.Place | tsir.c:85-87 | the source gets time `t0` and heap slot 1 |
| Tsir.Engine.Unschedule | tsir.c:93 | every processed node loses its time and position; every other node keeps them |
| Tsir.Engine.Cleanup | tsir.c:93 | after a trial every node is unscheduled again, ready for the next |
| Tsir.Engine.Turn | tsir.c:90 | one turn of the `while (g.nheap)` loop processes one more node, and the first processed node is the source |
| Tsir.Engine.Sir | tsir.c:77-94 | the outbreak terminates with between 1 and `n` nodes processed, the first being the drawn source, and leaves the engine clean |
| TsirRef.StatesPartition | tsir_ref.c:18-20 | for `now < UINT_MAX`, every recovery time makes a node exactly one of S, I and R |
| TsirRef.Scan | tsir_ref.c:95-113 | the scan keeps the node count and stops at or after its start |
| TsirRef.ScanStep | tsir_ref.c:99-112 | a contact no later than `tx` is attempted and the scan goes on with the next |
| TsirRef.Start | tsir_ref.c:87-92 | the trial starts with the source infected until `tx`, every other node susceptible and `ni == 1` |
| TsirRef.StartIndexOf | tsir_ref.c:67-77 | the bisection result is an index into the contact list |
| TsirRef.StartIndexAt | tsir_ref.c:67-77 | the bisection lands on the first contact later than `now`, or on the last contact when none is later |
| TsirRef.StartIndexIsFirstLater | tsir_ref.c:67-77 | every contact before the start index is at or before `now`; the start contact is later when any is; otherwise the index is `nc - 1` |
| TsirRef.StartIndexLetsEarlierContactTransmit | tsir_ref.c:67-104 | a concrete list where the scan starts at a contact earlier than `t0` and that contact infects |
| TsirRef.FirstLaterIndex | tsir_ref.c:95 | the corrected start: at most the length of the list |
| TsirRef.CorrectedScanAgrees | tsir_ref.c:67-95 | whenever a contact is later than `t0`, the scan from the corrected start and the scan from `start_index` are the same |
| TsirRef.FirstLaterIndexSkipsEarlierContacts | tsir_ref.c:95 | the corrected start splits the list into contacts at or before `now` and later ones; it agrees with `start_index` whenever a later contact exists |
| TsirRef.ScanKeepsTxRising | tsir_ref.c:104-110 | the extinction bound `tx` never decreases during the scan |
| TsirRef.ScanStopsAtFirstLateContact | tsir_ref.c:99 | every contact the scan visits is at or before the final `tx`, and the contact it stops at is later |
| TsirRef.AttemptNeedsInfectiousAndSusceptible | tsir_ref.c:100-112 | a contact does nothing unless one end is infectious and the other susceptible; otherwise one draw; on success a second draw, one more infected node, and only the target's time changes |
| TsirRef.InfectedCount | tsir_ref.c:92-108 | the number of nodes not susceptible is at most `n` |
| TsirRef.InfectedCountGrows | tsir_ref.c:102-103 | infecting a susceptible node raises the count by one |
| TsirRef.ScanCountsInfected | tsir_ref.c:92-113 | when no recovery time wraps to `UINT_MAX`, `ni` equals the number of non-susceptible nodes throughout the scan |
| TsirRef.StartCountsSource | tsir_ref.c:91-92 | after seeding, `ni == 1` counts exactly the source |
| TsirRef.AllSusceptibleCountZero | tsir_ref.c:87 | after the reset no node is counted |
| TsirRef.RefSim.State | tsir_ref.c:25-36 | the trial value the fields hold |
| TsirRef.RefSim.constructor | tsir_ref.c:25-50 | the simulator holds the network, the parameters and one recovery time per node |
| TsirRef.RefSim.StartIndex | tsir_ref.c:67-77 | the loop returns `StartIndexOf`, the first later contact or the last one |
| TsirRef.RefSim.FirstLater | tsir_ref.c:95 | the corrected start index `FirstLaterIndex` |
| TsirRef.RefSim.TryTransmit | tsir_ref.c:101-104 | the new state is `Transmit` of the old: a draw, and on success the target's recovery time and a raised `tx` |
| TsirRef.RefSim.Visit | tsir_ref.c:96-112 | the new state is `Attempt` of the old for contact `i` |
| TsirRef.RefSim.Reset | tsir_ref.c:87 | every node is susceptible |
| TsirRef.RefSim.Spread | tsir_ref.c:95-113 | the loop leaves the state `Scan` computes from the old state |
| TsirRef.RefSim.Seed | tsir_ref.c:86-92 | `t0` is the first bounded draw, the source the second, `tx = t0 + exptime()` from the third; the trial is the source alone, infectious until `tx` |
| TsirRef.RefSim.Sir | tsir_ref.c:82-114 | the final recovery times, `ni` and generator state are those of `Scan` from the seeded trial, started at `start_index(t0)` |
| TsirRef.RefSim.CorrectedSir | tsir_ref.c:82-114 | the same trial with the scan started at the first contact later than `t0`, and no scan when there is none |
| NumberText.Decimal | tsir_compare.py:27-29 | `str(x)` is a non-empty run of digits without a leading zero |
| NumberText.DecimalRoundTrip | tsir_compare.py:27-29 | reading back the digits gives the number |
| NumberText.TextAppend | tsir_compare.py:29-31 | appending line by line writes the text of the concatenated lines |
| NumberText.ThreeNumbers | tsir_compare.py:27-29 | a three-number line is written as `str(x) + ' ' + str(y) + ' ' + str(z) + '\n'` |
| NumberText.TwoNumbers | tsir_compare.py:62 | a two-number line is written as `str(x) + ' ' + str(y) + '\n'` |
| NumberText.OneNumber | tsir_compare.py:64 | a one-number line is written as `str(x) + '\n'` |
| NumberText.SplitDigits | tsir_compare.py:27-29 | splitting off leading digits loses nothing and stops at a non-digit |
| NumberText.ReadLineOf | tsir_compare.py:27-29 | a written non-empty line reads back as the same numbers |
| NumberText.ReadTextOf | tsir_compare.py:27-31 | a text written from non-empty lines reads back as the same lines |
| NetworkFiles.Rows | tsir_compare.py:28-29 | one `u v t` line per contact, in order |
| NetworkFiles.RowsStep | tsir_compare.py:28-29 | each loop iteration appends the next contact's line |
| NetworkFiles.TxtRef | tsir_compare.py:25-31 | `IndexError` exactly when there are no contacts (`a[-1,2]`); otherwise the header `n nc tmax` followed by one line per contact |
| NetworkFiles.RefLinesReadBack | tsir_compare.py:25-31 | the written file reads back as `n`, the last time and the contacts |
| NetworkFiles.ReadContactsOf | tsir_compare.py:28-29 | the contact lines read back as the contacts |
| NetworkFiles.Key | tsir_compare.py:44-47 | the edge key is the contact's endpoints, smaller first |
| NetworkFiles.Find | tsir_compare.py:49 | the first entry with the key, or the end when there is none |
| NetworkFiles.GroupGroupsContacts | tsir_compare.py:38-52 | the grouped table has one entry per distinct edge, with normalised endpoints, and each entry's times are the edge's contact times in input order |
| NetworkFiles.TimesOfFromContacts | tsir_compare.py:49-52 | every filed time comes from a contact of that edge |
| NetworkFiles.ContactsAreFiled | tsir_compare.py:49-52 | every contact's time is filed under its edge |
| NetworkFiles.TimesOfSorted | tsir_compare.py:50 | for time-ordered input, each edge's times are sorted |
| NetworkFiles.InsertByKeyPermutes | tsir_compare.py:59 | inserting keeps the multiset of edges |
| NetworkFiles.InsertByKeySorted | tsir_compare.py:59 | inserting into a sorted list keeps it sorted by the key |
| NetworkFiles.SortByKeySortsAndPermutes | tsir_compare.py:59 | the sort is a permutation ordered by `(-last time, number of contacts)` |
| NetworkFiles.TimeLines | tsir_compare.py:63-64 | one line per time, in order |
| NetworkFiles.BlockLinesAppend | tsir_compare.py:60-70 | a node's text grows by each record's lines |
| NetworkFiles.NodesFromAppend | tsir_compare.py:73-74 | the node blocks grow one node at a time |
| NetworkFiles.NeighboursSymmetric | tsir_compare.py:60-70 | `w` is written with times `t` under `v` exactly when `v` is written with `t` under `w` |
| NetworkFiles.NeighbourFromEdge | tsir_compare.py:60-70 | every record of a node comes from an edge touching it, with that edge's times |
| NetworkFiles.RecordsOrdered | tsir_compare.py:59-70 | a node's records inherit the sorted order: non-increasing last time |
| NetworkFiles.NeighboursByLastContact | tsir_compare.py:59-70 | a node's contact lists are ordered by non-increasing last contact |
| NetworkFiles.EarlierRecordNotLater | tsir_compare.py:59-70 | every record before the last edge's has a last time no earlier than the last edge's |
| NetworkFiles.Tabulate | tsir_compare.py:38-52 | the loop builds `Group(a)` |
| NetworkFiles.WriteRecord | tsir_compare.py:61-64 | one node's degree grows by one and its text by the record line and the time lines; other nodes are unchanged |
| NetworkFiles.WriteEdge | tsir_compare.py:60-70 | succeeds exactly when both endpoints index `ntxt`, then both nodes have the edge's records |
| NetworkFiles.Emit | tsir_compare.py:59-70 | succeeds exactly when every edge's endpoints are below `n`, then every node's degree and text are those of its records |
| NetworkFiles.Assemble | tsir_compare.py:72-74 | the file is the header `n tmax` followed by each node's degree and records |
| NetworkFiles.ContactHasEdge | tsir_compare.py:38-59 | every contact's edge is among the sorted edges |
| NetworkFiles.EdgeHasContact | tsir_compare.py:38-59 | every sorted edge comes from some contact |
| NetworkFiles.EdgesInRangeIffContactsInRange | tsir_compare.py:38-70 | all edge endpoints are below `n` exactly when all contact endpoints are |
| NetworkFiles.Txt | tsir_compare.py:36-76 | `IndexError` exactly when there are no contacts or some endpoint is not below `n`; otherwise the text of `TxtOf` |
| NetworkFiles.SortedEdgeIsEntry | tsir_compare.py:59 | every sorted edge is an entry of the table |
| NetworkFiles.RecordHoldsEdgeTimes | tsir_compare.py:38-70 | every record of node `v` holds exactly the contact times of that edge, non-empty, and sorted when the input is time-ordered |
| NetworkFiles.TxtOrdersNeighbours | tsir_compare.py:59-70 | every node's neighbour lists come in non-increasing order of last contact, the order the `break` at tsir.c:54 relies on |
| NetworkFiles.ReadTimesOf | tsir_compare.py:63-64 | written time lines read back as the times |
| NetworkFiles.ReadRecordsOf | tsir_compare.py:60-70 | written records read back as the records |
| NetworkFiles.NeighbourTable | tsir_compare.py:73-74 | the table of every node's records, one entry per node |
| NetworkFiles.ReadNodesOf | tsir_compare.py:73-74 | written node blocks read back as the neighbour table |
| NetworkFiles.NonEmptyTxtLines | tsir_compare.py:72-74 | the file written by `txt` has no empty line |
| NetworkFiles.TxtLinesReadBack | tsir_compare.py:72-74 | the lines of the file read back as `n`, `tmax` and every node's records |
| NetworkFiles.TxtReadsBack | tsir_compare.py:36-76 | the text `txt` writes parses, and reads back as `n`, the last contact time and every node's records |

## Left out

- Input and output are not modelled. This covers `main` of both simulators, `read_data`, command-line parsing, the `NAVG` averaging loop and timing with `clock_gettime`. It also covers the network generation, the simulator runs and the Mann-Whitney comparison in `tsir_compare.py`.
- Floating point is not modelled.
  - `exptime`'s `g.a * log((r + 1) / 2^32)` is the input function `logTime`.
  - The skip-table value `d * log((i + 1) / 65536)` is the input function `scaled`.
  - The model proves what the code does with those values: the short-circuit, the clamp and the zero table for `beta >= 1`.
- tsir.h is not part of this model.
  - `END` and `NONE` are assumed to be `UINT_MAX - 1` and `UINT_MAX`.
  - `S(you)` in tsir.c is read as "not processed in this trial".
- `up_heap` and `del_root` live in code that is not part of this model. `Tsir.Engine.UpHeap`, `DownHeap` and `DelRoot` are one binary-heap implementation of the behaviour `infect` needs: the earliest node leaves the heap, and an earlier time is restored to order.
- `Pcg.BoundedDraw` bounds the rejection loop by a `fuel` count. Past that many rejections the model returns the last draw reduced modulo `bound`. The real loop ends with probability 1 but has no bound; the lemmas state their conclusions for draws within the fuel.
- `pcg_16` keeps `exist` and `rmem` as static locals. The model keeps them as fields of `Pcg.Generator` beside the state.
- ContactFinder.ContactTimes: excludes contact times equal to `END` (`UINT_MAX - 1`) or `NONE` (`UINT_MAX`), which the `unsigned int` times of the C program could hold. On such a time `contagious_contact` would return the time itself (tsir.c:33), which then reads as `END` or `NONE`; a contact at `UINT_MAX - 1` would make the `break` at tsir.c:54 skip the infector's remaining neighbours. The model does not capture that collision. The network generator of tsir_compare.py:98-105 scales every time to at most `2^31 - 1`, so its files never contain these values.
- `ContactFinder.ContactTimes` limits contact lists to 2^31 entries, because the bisection's `lo + hi` would wrap beyond that. `TsirRef.RefSim` applies the same limit to `start_index`.
- `Tsir.WellFormedNetwork` excludes self-loops, which `txt` can write when a contact has equal endpoints.
- The two draws in `g.rtime[pcg_32_bounded(g.n)] = tx = t0 + exptime()` are unsequenced in C. `TsirRef.RefSim.Seed` draws the index first.
- `TsirRef.ScanCountsInfected` assumes that no recovery time `now + exptime()` wraps to exactly `UINT_MAX` (`NoRecoveryWrap`). Such a node would read as susceptible again while still being counted.
- `g.ni` is modelled as an unbounded count in both simulators; it cannot exceed `n` in `tsir.c` (`Counting.DistinctBelow`).
- `exptime` of tsir.c (called at tsir.c:41) is defined in code that is not part of this model. It is assumed to be the routine of tsir_ref.c:56-62 (`Sampler`), and the contracts of `Tsir.Engine.Infect` and `Tsir.Engine.Sir` depend on that assumption.
- Tsir.Engine.Sir: does not state which nodes the outbreak reaches as a function of the draws. It states termination, the bounds on the outbreak size, the source, and the restored clean state.
- NetworkFiles.SortByKey: is an insertion sort that places each edge after the earlier edges with an equal key, as Python's stable `sorted` does. Its lemmas state order and permutation; no lemma states stability.
- `txt`'s dictionary is modelled as a list of entries in first-insertion order, which is the iteration order of a Python 3.7+ `dict`.
- Python integers read from NumPy arrays are modelled as non-negative integers. `G.number_of_nodes()` is the parameter `n`.
- Text is modelled as lines of decimal numbers. Reading it back stands for the `scanf` reading of the simulators, which is not part of this model.

## Findings

| source | as written | input that shows it | evidently intended | confidence | as-written member | corrected member |
|---|---|---|---|---|---|---|
| tsir_ref.c:67-95 | when no contact is later than `t0`, `start_index` returns `nc - 1`, so the scan starts at a contact at or before `t0` that can still transmit | one contact `(0, 1, 5)`, `t0 = 7`, source 0 infectious until `tx = 9`, a draw below `ubeta`: node 1 is infected at time 5, before the source was | start the scan at the first contact later than `t0`, or skip it when there is none | low, not executed; files written by `txt_ref` always have a contact at time `dur` later than any `t0 < dur`, so only other inputs reach it | TsirRef.StartIndexLetsEarlierContactTransmit | TsirRef.FirstLaterIndexSkipsEarlierContacts |
