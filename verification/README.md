# A verified model of the tools repository's algorithmic cores

The repository is a Go toolbox. This project models its algorithmic cores in Dafny and proves what they keep,
compute and return, for all inputs, all runs and all interleavings. `dafny verify dfyconfig.toml` checks it.

Five groups of modules, each standing by itself:

* **Ordered map** (`omap/omap`, and with string keys `omap/osmap`): a left-leaning red-black tree on linked
  nodes. `AssocList` is the reference map, a sorted association list under any strict weak order. `Llrb` holds the
  tree operations on values, `LlrbContents` what they do to the contents, `LlrbBalance` what they do to balance
  and height, `LlrbRuns` whole runs of calls. `OrderedMap` is the map object itself: nodes whose links, colours and
  entries are rewritten in place, each method proved against its value counterpart.
* **Edit distance** (`text/levenshtein`, `net/http/dedup`): `Levenshtein` defines the table, edit scripts, the
  backtrace and the applier, and proves optimality; `LevenshteinMetric` compares the distance with free rewriting
  and with longest common subsequences; `LevenshteinMatrix` is the matrix object with its loops; `Dedup` is the
  histogram filter in front of it.
* **Pipeline** (`distrib`): `Distrib` is a state machine whose steps are single channel rendezvous and single
  atomic loads, adds and stores of stage 1, the workers, their work goroutines and stage 3. `DistribRuns` proves
  its invariant and what follows for every interleaving, `DistribBounds` the exact maximum of results,
  `DistribEnds` how its goroutines end, and `DistribReturns` from which states it can still return.
* **Packing engine** (`transposablematrix`): `Shapes` (factors, plugs, encoding), `Reservoir` (amorphs and their
  indexes), `Perspective` (four rotated views and the outmost points), `Casting` (which slots an amorph covers),
  `Matrix` (the grid object), `Outline` (tracing the boundary and how the line follows the slots), `Skyline` (the
  exact line around columns on a common floor) and `Enhancing` (the margins added to it); `Sorting` serves the
  factors.
* **Small cores**: `Queue` (growing ring buffer), `Dom` and `Cleaner` (breadth-first removal of junk nodes),
  `Breakout`, `BreakoutWalk` and `ImageDeleter` (splitting anchors at their images), `IntSqrt` (square root digit
  by digit). `Wrappers` holds the Option type, `Basics` two shared facts.

## What the code does not do

Several promises fail on some inputs. The code is modelled as it is; for each failure the exact condition is proved.

* `Delete` can drop an entry that was not asked for: after inserting 1 to 5 and deleting 1, deleting 3 takes 5 along
  (`LlrbRuns.DeleteCanLose`). It is exact if and only if every node unlinked on its walk has no other child
  (`LlrbContents.RemoveRootContents` with `Lossless`). By the tree's shape: it is exact on every 2-3-4 tree
  (`LlrbBalance.RemoveRoot234`), so the first deletion after any insertions is (`LlrbRuns.InsertsThenDelete`), and on
  strict 2-3 trees any number of deletions is (`LlrbRuns.DeleteRun`). The length field is the number of pairs if and
  only if nothing has been lost (`LlrbRuns.LosslessRunIsExact`).
* Edit scripts work for all inputs if and only if insertion and deletion cost 1, since the table's borders are
  filled with indexes instead of costs (`Levenshtein.SoundOptions`). With those costs the distance is the least
  price of any rewriting if and only if a substitution does not cost less than nothing
  (`LevenshteinMetric.SubstitutionMustCost`). CompareToCol compares tokens as they are, so it accepts all round trips
  if and only if Equal tells all different tokens apart, or substitutions are free
  (`LevenshteinMatrix.TripsCompareEqualIff`).
* Stage 3 of the pipeline returns with more results than wanted in some interleaving if and only if it collects the
  remainder and has a worker and more packets than wanted (`DistribBounds.OvershootIff`). The stop signal is stored
  only after stage 3 has taken the wanted results; by then every worker may hold a packet and stage 1 an index it has
  loaded. The exact maximum is the smaller of the number of packets and Want + NumWorkers + 1
  (`DistribBounds.NeverMore`, `DistribBounds.MaxIsReached`). Stage 3 can return at all if and only if there is a worker
  (`DistribBounds.ReturnsIff`).
* Distrib can hang. A timeout ends its worker for good (`DistribEnds.TimeoutsEndWorkers`), so that timeouts can use up
  all workers; and without collecting the remainder, stage 3 looks at Want only after a result, so that running out of
  packets goes unnoticed. Some interleaving gets stuck, in that stage 3 can never return whatever happens next, if and
  only if the remainder is not collected or there are fewer workers than packets (`DistribReturns.CanHangIff`). The
  states from which stage 3 can still return are told apart exactly (`DistribReturns.CanReturnIff`).
* The goroutine of a timed-out packet is left waiting until fin is closed (`DistribEnds.TimedOutJobStays`); from then on
  all goroutines can end (`DistribEnds.EverythingCanEnd`).
* The eight outmost points start at base slot (0, 0) without that slot being filled. They are exact if and only if the
  first filled slot lies in neither base row 0 nor base column 0, or slot (0, 0) is filled
  (`Perspective.OutmostExactNowIff`); so they are exact from the first filling on if and only if the first slot lies in
  neither, or in both (`Perspective.OutmostExactIff`). Exact or not, no filled slot lies further out
  (`Perspective.AlwaysHeld`).
* A traced outline alternates strictly, rows to the right and columns up or down in turn, if and only if the point it
  starts at is a filled slot (`Outline.PartialOutline`). It is not if and only if base slot (0, 0) is not filled and
  either the perspective is 0 and the first filled slot lay in column 0, or the perspective is 1 and all filled slots
  lie in row 0 (`Outline.StartFilledIff`). The line then first runs one slot to the left: on a grid
  of ten by ten with the slots (0, 5), (1, 5), (2, 5), (3, 5) filled it is (-5, -5), (-6, -5), (-6, 0), (-2, 0)
  (`Outline.LineRunsLeft`).
* The trace gives up after a number of rounds that does not depend on what is traced. Around columns on a common floor
  it needs a round for every column and for every slot climbed or fallen; it is returned if and only if these are at
  most the grid's width and height together and no fall starts a hundred slots below the centre or deeper
  (`Skyline.SkylineTraced`).
* With a western margin, the pit at the eastern end is left out for a floor at the margin's height, not at the height of
  the line's start (`Enhancing.EnhancedEnds`). A restricted viewport is taken by its columns in the odd perspectives
  only; in the even ones its rows serve as columns (`Enhancing.RestrictedSeen`).
* A traced outline alternates after its enhancing if and only if its start is filled or it is extended westwards, and
  it is not extended eastwards or ends with a horizontal segment that does not lie on the floor a wall is to be drawn
  to (`Enhancing.EnhancedAlternatesIff`).
* Indexing an amorph panics if and only if it has no elements or more than 102 (`Reservoir.Stock.PermutateShapes`):
  the slack of some shape then lies beyond the table of primes. Codes hold two digits a side, so the slackless index
  is right about n elements if and only if n < 100 (`Reservoir.SlacklessSoundIff`), and the edge index except for 102
  elements looked up under an edge with a zero in it (`Reservoir.IndexedPlug`, `Reservoir.ThreeDigits`).
* The edge index is to hold all conceivable edges with one stair (transposablematrix/22-edges-permutated.go:40-42). It
  holds exactly those whose kerf is the slack of a rectangle that is tried (`Reservoir.AllPlugsIff`,
  `Reservoir.EdgeListedIff`): twelve elements in three by ten but for two by nine are not listed
  (`Reservoir.MissedShape`). The condensed index lumps together lengths of four to nine
  (`Reservoir.CondensedListedIff`), where transposablematrix/20-amorph.go:56 has five to nine.
* Adding amorphs keeps the indexes exact if and only if all of them come unpadded and without an index number of
  their own (`Reservoir.Stock.AddAmorphs`); overwriting a slot keeps the limits describing the grid if and only if no
  amorph is overwritten by an empty slot (`Matrix.TransposableMatrix.Set`).
* exactStairyEdge leaves exactly the kerf for slack, so that the amorph is cast completely, if and only if the padding
  of the amorph fills whole rows of the new width (`Casting.RisingIsPaintedIff`); for a falling edge it looks at the
  wrong end, and two more conditions are needed (`Casting.FallingIsPaintedIff`). Five elements listed under the edge
  1, -1, 2 do not meet them (`Reservoir.FallingFails`). Both callers, in
  transposablematrix/48-fnd-lvl3-stairy.go:9-23 and 85-126, turn a falling edge round first, so only a direct call of
  ByStairyEdge reaches this.
* An amorph that is padded twice no longer carries its original number of elements (`Reservoir.PaddedTwice`). Taking
  it out of the indexes leaves them exact for the others if and only if the number they were filled with has not
  changed (`Reservoir.Stock.RemoveSpentEdges`, `Reservoir.Stock.PadAndRemove`). The only caller, in
  transposablematrix/50-matching-fusions-amorphs.go:84-94, removes an amorph right after choosing it, so only a
  second direct call of ByNumElementsWrap pads twice.
* Breaking images out of anchors leaves a document's texts alone if and only if no anchor has an image as its only
  child and no anchor holding an image holds a text reading just "img" (`BreakoutWalk.WalkKeepsTextsIff`). An anchor
  with several images keeps the first one only (`BreakoutWalk.OneImgSurvives`); over a whole document no image is added,
  and none is lost if and only if no anchor holding an image holds a second one (`BreakoutWalk.WalkKeepsImgsIff`).
* The square root is exact if and only if 0 <= n < 2^32, although it accepts every 64-bit integer (`IntSqrt.Sqrt`).

## Model

| member | source | states |
|---|---|---|
| AssocList.PutLookup | omap/omap/omap.go:96-120 | after a Put, a lookup finds the new value under every equivalent key and the old value under all others |
| AssocList.DropLookup | omap/omap/omap.go:108-136 | after a Drop, the key is absent and every other lookup is as before |
| AssocList.PutSorted | omap/omap/omap.go:96-103 | a Put keeps the reference map sorted |
| AssocList.PutSize | omap/omap/omap.go:96-103 | a Put adds one entry exactly if the key was absent |
| AssocList.DropSorted | omap/omap/omap.go:126-136 | a Drop keeps the reference map sorted and takes one entry off exactly if the key is there |
| LlrbContents.InsertIsPut | omap/omap/omap.go:148-170 | insertion below any node of any search tree, however coloured, is exactly a Put on the in-order contents, keeps order, and reports "inserted" exactly if the key was absent |
| LlrbContents.InsertRootIsPut | omap/omap/omap.go:96-103 | the same for the whole map |
| LlrbContents.FindIsLookup | omap/omap/omap.go:108-120 | the cursor loop finds what the in-order contents say, on every search tree |
| LlrbContents.DeleteMinimumEntries | omap/omap/omap.go:273-282 | deleting the minimum takes the first entry off the contents if and only if no 4-node loses its right child on the way; otherwise only entries disappear |
| LlrbContents.RemoveContents | omap/omap/omap.go:219-252 | on every search tree, however coloured: order is kept, presence is reported correctly, the key is gone, nothing is invented or re-paired, and the result is an exact Drop if and only if the path is lossless |
| LlrbContents.RemoveRootContents | omap/omap/omap.go:126-136 | the same for the whole map |
| LlrbContents.DeleteSize | omap/omap/omap.go:126-136 | the number of entries falls by at least what is reported, and by exactly that if and only if the walk is lossless |
| LlrbBalance.SplitFourKeeps | omap/omap/omap.go:153-155 | splitting a 4-node on the way down keeps black heights and the leaning rule |
| LlrbBalance.InsertKeeps234 | omap/omap/omap.go:148-170 | on a 2-3-4 tree insertion keeps equal black heights and red right only beside red left; a red entry node may come back red over a red left child, and only there |
| LlrbBalance.InsertRootKeeps234 | omap/omap/omap.go:96-103 | after Insert the whole tree is a 2-3-4 tree with a black root |
| LlrbBalance.HeightBound | omap/omap/omap.go:148-170 | 2^height <= (n+1)^2, so the height is at most 2*log2(n+1) |
| LlrbBalance.DeleteMinimumStrict | omap/omap/omap.go:273-282 | on a strict 2-3 tree deleting the minimum keeps strictness and black height and loses nothing else |
| LlrbBalance.RemoveStrict | omap/omap/omap.go:219-252 | the same for removal of any key, also when a rotation has just put a red link to the right |
| LlrbBalance.RemoveRootStrict | omap/omap/omap.go:126-136 | Delete on any strict 2-3 tree, whatever the root's colour, returns such a tree with a black root and exactly the old entries without the key; its walk is lossless |
| LlrbBalance.MinLossless234 | omap/omap/omap.go:273-282 | deleteMinimum loses nothing on any 2-3-4 tree |
| LlrbBalance.Lossless234 | omap/omap/omap.go:219-252 | remove loses nothing below any node entered on the way through a 2-3-4 tree, also where a rotation has put a red link to the right of a black one |
| LlrbBalance.RemoveRoot234 | omap/omap/omap.go:126-136 | Delete on any 2-3-4 tree, such as Insert builds, is exact |
| LlrbRuns.InsertRun | omap/omap/omap.go:96-103 | every run of insertions: 2-3-4 tree, black root, exactly the reference contents, length equal to the node count, logarithmic height |
| LlrbRuns.InsertsThenDelete | omap/omap/omap.go:96-136 | any insertions followed by one deletion yield exactly the reference contents and the right length |
| LlrbRuns.AnyRun | omap/omap/omap.go:96-136 | every run of insertions and deletions: the tree stays ordered and Find never returns a value the reference map would not |
| LlrbRuns.LosslessRunIsExact | omap/omap/omap.go:96-136 | a run agrees with the reference map at every step if and only if every deletion of it is lossless, and if and only if the length field is the number of nodes |
| LlrbRuns.DeleteRun | omap/omap/omap.go:126-136 | any sequence of deletions from a strict 2-3 tree is exact and stays strict, and so of logarithmic height |
| LlrbRuns.FiveInserted | omap/omap/omap.go:148-170 | the tree that inserting 1 to 5 builds |
| LlrbRuns.OneDeleted | omap/omap/omap.go:254-282 | deleting 1 from it leaves a tree on which the next deletion goes wrong |
| LlrbRuns.DeleteCanLose | omap/omap/omap.go:254-282 | deleting 3 next takes 5 along |
| OrderedMap.ColorFlip | omap/omap/omap.go:174-182 | the in-place colour flip is the flip on values |
| OrderedMap.RotateLeft | omap/omap/omap.go:184-191 | the in-place left rotation is the rotation on values, over the same nodes |
| OrderedMap.RotateRight | omap/omap/omap.go:193-200 | the same for the right rotation |
| OrderedMap.InsertAt | omap/omap/omap.go:148-170 | the recursive in-place insertion is the insertion on values; new nodes are fresh and no nil is dereferenced |
| OrderedMap.MoveRedLeft | omap/omap/omap.go:254-262 | the in-place step is the step on values |
| OrderedMap.MoveRedRight | omap/omap/omap.go:264-271 | the in-place step is the step on values |
| OrderedMap.FixUp | omap/omap/omap.go:284-295 | the in-place repair is the repair on values |
| OrderedMap.First | omap/omap/omap.go:212-217 | the cursor loop ends at the leftmost entry |
| OrderedMap.DeleteMinimum | omap/omap/omap.go:273-282 | the recursive in-place deletion is the deletion on values and terminates despite rotations |
| OrderedMap.RemoveAt | omap/omap/omap.go:219-252 | the same for removal of a key |
| OrderedMap.Map.constructor | omap/omap/omap.go:73-78 | a new map is empty |
| OrderedMap.Map.Insert | omap/omap/omap.go:96-103 | on the map object: contents become a Put of the old contents, the report and the length follow |
| OrderedMap.Map.Find | omap/omap/omap.go:108-120 | returns the lookup in the contents |
| OrderedMap.Map.Delete | omap/omap/omap.go:126-136 | reports presence, removes the key, keeps only old entries, and is an exact Drop if and only if the path is lossless; the length follows the report |
| OrderedMap.Map.Len | omap/omap/omap.go:144-146 | never less than the number of pairs, and that number if and only if no Delete has lost one |
| OrderedMap.Map.Do | omap/omap/omap.go:139-141 | calls back once per entry, in order |
| OrderedMap.Visit | omap/omap/omap.go:202-210 | the recursive visit goes through the entries in order |
| Levenshtein.CellStep | text/levenshtein/levenshtein.go:83-93 | each inner cell is the least of its three neighbours plus the operation's cost |
| Levenshtein.CellIsLowerBound | text/levenshtein/levenshtein.go:57-96 | no edit script between two prefixes costs less than their cell |
| Levenshtein.ChooseIsSound | text/levenshtein/levenshtein.go:150-189 | the backtrace's tests, which never look at the tokens, pick an operation that accounts for the cell's cost; Sub only on unequal, Match only on equal tokens; it stops only at (0,0) |
| Levenshtein.BacktraceIsOptimal | text/levenshtein/levenshtein.go:150-189 | from every cell the backtrace yields a script between the two prefixes that costs exactly the cell |
| Levenshtein.EditScriptIsOptimal | text/levenshtein/levenshtein.go:144-189 | the returned script costs exactly the distance, and no script costs less |
| Levenshtein.ScriptIsPreferred | text/levenshtein/levenshtein.go:150-189 | which of the cheapest scripts is returned: read from the end, it deletes rather than inserts, inserts rather than substitutes and substitutes rather than matches wherever another cheapest script first differs |
| Levenshtein.ApplyAligned | text/levenshtein/levenshtein.go:233-276 | half way through a script the working list is the second list's prefix followed by the first list's rest, with the offset that insertions and deletions add up to |
| Levenshtein.ApplyYieldsSecond | text/levenshtein/levenshtein.go:24-41 | applying the returned script to the first list yields the second, and no index, insertion or deletion panics |
| Levenshtein.SoundOptions | text/levenshtein/levenshtein.go:57-79 | scripts turn the first list into the second for all inputs if and only if insertion and deletion cost 1 |
| LevenshteinMetric.OneEdit | text/levenshtein/levenshtein.go:57-96 | no single edit at any place lowers the distance by more than its price |
| LevenshteinMetric.NoCheaperRewriting | text/levenshtein/levenshtein.go:57-96 | the distance is a lower bound on the price of every sequence of edits at any places in any order |
| LevenshteinMetric.DistanceIsReached | text/levenshtein/levenshtein.go:144-189 | and some sequence of edits has exactly that price |
| LevenshteinMetric.SubstitutionMustCost | text/levenshtein/type-cost-match-options.go:5-11 | with unit insertion and deletion the lower bound holds for all inputs if and only if the substitution cost is not negative |
| LevenshteinMetric.LongestIsLongest | text/levenshtein/levenshtein.go:83-93 | the reference common subsequence is at least as long as every common subsequence |
| LevenshteinMetric.DistanceCountsUncommon | text/levenshtein/levenshtein.go:83-93 | with unit costs and a substitution of at least 2 the distance is the lengths' sum minus twice the longest common subsequence |
| LevenshteinMetric.DefaultDistance | text/levenshtein/type-cost-match-options.go:13-17 | the same for the default options, and a bound from every common subsequence |
| LevenshteinMetric.CellAtLeast | text/levenshtein/levenshtein.go:83-93 | with unit costs and a substitution of at least 1 the distance is at least the difference of the lengths, and nothing if and only if the lists agree token by token |
| LevenshteinMetric.CellAtMost | text/levenshtein/levenshtein.go:83-93 | with all costs 1 it is at most the longer length, and exactly that for lists without a common token |
| LevenshteinMatrix.FillBorders | text/levenshtein/levenshtein.go:72-78 | the border loops fill row 0 and column 0 with indexes |
| LevenshteinMatrix.FillCell | text/levenshtein/levenshtein.go:83-93 | one inner cell is filled from its three neighbours and nothing else changes |
| LevenshteinMatrix.FillRow | text/levenshtein/levenshtein.go:83-93 | the inner loop fills one row of the table |
| LevenshteinMatrix.Matrix.New | text/levenshtein/levenshtein.go:57-96 | the loops fill the whole table with the cells |
| LevenshteinMatrix.Matrix.Distance | text/levenshtein/levenshtein.go:106-140 | returns the corner cell and its relation to the longer list |
| LevenshteinMatrix.RelDistIsShare | text/levenshtein/levenshtein.go:106-140 | with all costs 1 the relative distance lies between 0 and 1 and is the distance as a share of the longer length: 0 if and only if the lists agree, 1 for lists without a common token |
| LevenshteinMatrix.Matrix.EditScript | text/levenshtein/levenshtein.go:144-148 | returns the backtrace from the corner |
| LevenshteinMatrix.Matrix.FirstTest | text/levenshtein/levenshtein.go:150-189 | the tests read from the stored table are those on the cells |
| LevenshteinMatrix.Matrix.ApplyEditScript | text/levenshtein/levenshtein.go:233-276 | the loop with its running sums applies the script, or panics exactly where the definition does |
| LevenshteinMatrix.Matrix.RoundTrip | text/levenshtein/levenshtein.go:229-276 | the matrix applies its own script without a panic and gets its second list, token by token up to Equal |
| LevenshteinMatrix.Matrix.CompareToCol | text/levenshtein/levenshtein.go:278-289 | says whether the given list starts with the second list; panics exactly if it is a shorter beginning of it |
| LevenshteinMatrix.TripsCompareEqualIff | text/levenshtein/levenshtein.go:278-289 | all round trips compare equal if and only if Equal tells all different tokens apart or substitutions are free |
| Dedup.CountCommon | net/http/dedup/5_similar_texts.go:204-239 | the counting loop yields the number of tokens both histograms have |
| Dedup.HistoBasedDistance | net/http/dedup/5_similar_texts.go:204-239 | returns the share of the larger text's tokens that are not common |
| Dedup.HistoIsShare | net/http/dedup/5_similar_texts.go:204-239 | for duplicate-free texts it is the share of the longer text's tokens that the shorter one lacks, whichever comes first: 1 if and only if they have none in common, 0 if and only if they have the same |
| Dedup.DistanceAgainstCommon | text/levenshtein/levenshtein.go:57-96 | the edit distance with costs (1,1,1) is at least each length minus the common tokens, counted with multiplicity |
| Dedup.HistoIsLowerBound | net/http/dedup/5_similar_texts.go:204-239 | for duplicate-free texts the histogram distance never exceeds the relative edit distance |
| Dedup.EarlyCutIsSafe | net/http/dedup/5_similar_texts.go:108-133 | the cut at 0.51 never discards a pair that would come out below 0.26 |
| DistribRuns.RunKeepsInv | distrib/main.go:155-289 | every interleaving of all steps keeps the pipeline's invariant on places, jobs, counters and stages; that a timeout ends its worker is DistribEnds.TimeoutsEndWorkers |
| DistribRuns.PlacesKept | distrib/main.go:169-223 | no step loses or doubles a packet |
| DistribRuns.OnePlace | distrib/main.go:169-223 | in every interleaving each packet handed over is in exactly one place, packets are handed over in order and once, and returned at most once |
| DistribRuns.SentCount | distrib/main.go:170-216 | sent = handed over - timed out - 1 if stage 1 is between hand-over and counting; handed over = in flight + returned + timed out + abandoned |
| DistribRuns.CollectingExit | distrib/main.go:243-252 | on the collecting exit at most one packet is unaccounted for, and Want results exist or every packet was returned or timed out |
| DistribRuns.AbandoningExit | distrib/main.go:263-283 | without collecting there are never more than Want results, and on return exactly Want, or everything was handed over |
| DistribRuns.ResultBound | distrib/main.go:158-172 | in every interleaving there are at most Want + NumWorkers + 1 results |
| DistribRuns.WorkedOnce | distrib/main.go:192-200 | no packet is worked on twice, and every returned one was worked on |
| DistribBounds.InFlightReturn | distrib/main.go:263-270 | every packet a worker holds when the stop signal is stored can still come back before stage 3 returns |
| DistribBounds.OfferedReturns | distrib/main.go:158-172 | and so can the one whose index stage 1 had loaded before |
| DistribBounds.NeverMore | distrib/main.go:155-289 | no interleaving returns more than min(packets, Want + NumWorkers + 1) results, min(packets, Want) without collecting, none without workers |
| DistribBounds.MaxIsReached | distrib/main.go:155-289 | with a worker, stage 3 returns in some interleaving with exactly that many |
| DistribBounds.ReturnsIff | distrib/main.go:228-289 | stage 3 returns in some interleaving if and only if there is a worker |
| DistribBounds.OvershootIff | distrib/main.go:254-283 | in some interleaving stage 3 returns with more than Want results if and only if the remainder is collected and there are a worker and more than Want packets |
| DistribEnds.TimeoutsEndWorkers | distrib/main.go:190-225 | in every interleaving each timeout and each packet dropped at the end has ended a worker: they are never more than the workers, and before fin is closed exactly the ended workers have timed out |
| DistribEnds.EndedForGood | distrib/main.go:216 | a worker that has left its loop never takes a packet again |
| DistribEnds.TimedOutJobStays | distrib/main.go:192-216 | until fin is closed the goroutine of a timed-out packet never ends |
| DistribEnds.EverythingCanEnd | distrib/main.go:169-289 | once stage 3 has returned, stage 1, every worker and every packet's goroutine can come to its end, whatever the run has been |
| DistribReturns.RunIsSound | distrib/main.go:155-173 | the stop signal is out only with enough results, and stage 1 has stopped only for fin, the stop signal or want of packets |
| DistribReturns.HopeReturns | distrib/main.go:228-289 | from every state with hope some further steps let stage 3 return: collecting, with enough results, with the packets running out or with a worker left; otherwise with a result to be looked at that is enough, with a packet in a worker's hands or with an idle worker and packets left |
| DistribReturns.NeverReturns | distrib/main.go:228-289 | from a state without hope no further steps do |
| DistribReturns.CanReturnIff | distrib/main.go:228-289 | so after any run stage 3 can still return if and only if there is hope |
| DistribReturns.CanHangIff | distrib/main.go:155-289 | some interleaving gets stuck for good if and only if the remainder is not collected or there are fewer workers than packets |
| Shapes.OtherSide | transposablematrix/20-amorph.go:88-96 | the other side of a rectangle and a slack smaller than the given side |
| Shapes.FactorsComplete | transposablematrix/22-edges-permutated.go:105-129 | the factors found are all proper divisors, and only those, below 10000 |
| Shapes.EdgePlugsInscribe | transposablematrix/22-edges-permutated.go:258-292 | every plug listed for a rectangle inscribes the amorph in it with the kerf as its slack |
| Shapes.EdgePlugsIff | transposablematrix/22-edges-permutated.go:258-292 | with a right table of primes the plugs listed for a rectangle with a slack of 1 to 9999 are exactly the kerfs of that many slots in one of its corners, this way or turned |
| Shapes.AllPlugsInscribe | transposablematrix/22-edges-permutated.go:43-98 | every plug an amorph is indexed under inscribes it in some rectangle |
| Shapes.EncInjective | transposablematrix/22-edges-permutated.go:131-137 | triples of digits below the factor have different codes |
| Shapes.DecEnc | transposablematrix/22-edges-permutated.go:131-147 | decoding gives the encoded triple back |
| Reservoir.ChangedMore | transposablematrix/22-edges-permutated.go:149-165 | adding or removing under one more key changes that key's entry for that id and nothing else, and leaves no empty submap behind |
| Reservoir.Factorize | transposablematrix/22-edges-permutated.go:105-129 | the loop and the sort yield exactly the factors in increasing order; panics exactly above 10000 |
| Sorting.SortSorts | transposablematrix/22-edges-permutated.go:125-127 | sorting keeps the members and orders them, strictly if they are distinct |
| Reservoir.PermutateEdges | transposablematrix/22-edges-permutated.go:258-292 | the loops append exactly the plugs of the rectangle, which Shapes.EdgePlugsIff characterises; panics exactly if the slack lies beyond the table of primes |
| Reservoir.AllPlugsIff | transposablematrix/22-edges-permutated.go:43-98 | the plugs of n elements are exactly the conceivable ones: those whose kerf is the slack of a rectangle that is tried |
| Reservoir.ConceivableIff | transposablematrix/22-edges-permutated.go:43-98 | in other words those that inscribe the elements in a rectangle that is tried, this way or turned |
| Reservoir.MissedShape | transposablematrix/22-edges-permutated.go:40-42 | twelve elements can be inscribed in three by ten with a kerf of two by nine, and are not listed so |
| Reservoir.EdgeListedIff | transposablematrix/22-edges-permutated.go:15-98 | the edge index lists an id under a two-digit edge if and only if it is unspent and the edge conceivable for its elements, unless it has 102 of them and the edge a zero |
| Reservoir.CondensedListedIff | transposablematrix/22-edges-permutated.go:91-96 | the condensed index lists an id under an edge if and only if it is unspent and an edge is conceivable for it that differs only within the lengths 4 to 9 or above 9 |
| Reservoir.SlacklessExactly | transposablematrix/22-edges-permutated.go:43-98 | an amorph of n elements has key w x h in the slackless index if and only if w*h = n |
| Reservoir.SlacklessSoundIff | transposablematrix/22-edges-permutated.go:131-138 | it is so for all two-digit w and h if and only if n < 100, as codes run into each other from there on |
| Reservoir.WidthsCover | transposablematrix/22-edges-permutated.go:53-67 | the widths from the ceiling root up already yield all ways to write n as a product |
| Reservoir.ExactAdd | transposablematrix/20-amorph.go:165-195 | adding the keys of a new amorph keeps an index exact |
| Reservoir.ExactRemove | transposablematrix/22-edges-permutated.go:15-38 | removing the keys of an amorph keeps an index exact for the others |
| Reservoir.SlacklessIndex | transposablematrix/22-edges-permutated.go:15-98 | the slackless index lists an id of fewer than a hundred elements under w x h if and only if it is unspent and has w*h elements |
| Reservoir.IndexedPlug | transposablematrix/45-fnd-lvl1.go:42-79 | whatever the edge index lists under an edge is unspent and can be inscribed with that kerf, unless it has 102 elements and the edge has a zero in it |
| Reservoir.ThreeDigits | transposablematrix/22-edges-permutated.go:131-138 | 102 elements are listed under 1, 2, 0, which no rectangle inscribes |
| Reservoir.ListedEdge | transposablematrix/45-fnd-lvl1.go:44-52 | the same for a falling edge, which is looked up as its mirror image |
| Reservoir.RowsFor | transposablematrix/45-fnd-lvl1.go:58-65 | the least number of rows above the step that leaves the slack asked for |
| Reservoir.NeverPanics | transposablematrix/45-fnd-lvl1.go:58-65 | for two-digit edges, rising or falling, and any padding the counter never exceeds 100 |
| Reservoir.RisingExactIff | transposablematrix/45-fnd-lvl1.go:52-68 | for a listed rising edge the final slack is exactly x2*y if and only if the padding fills whole rows of the new width, as no padding does |
| Reservoir.FallingExactIff | transposablematrix/45-fnd-lvl1.go:52-68 | for a listed falling edge the final slack is exactly the kerf, x1 times the fall, if and only if moreover x2 <= x1 and one row less would not do |
| Reservoir.FallingFails | transposablematrix/45-fnd-lvl1.go:52-68 | five elements listed under the falling edge 1, -1, 2 are left with a slack of four around a kerf of one |
| Reservoir.RisingRebuiltIff | transposablematrix/45-fnd-lvl1.go:42-79 | from the index to the result: the rectangle the plug was found in is rebuilt if and only if the padding fills whole rows |
| Reservoir.Stock.PermutateShapes | transposablematrix/22-edges-permutated.go:43-98 | adds or removes one id under exactly the keys of its number of elements, in three indexes, the edge keys being those of Reservoir.AllPlugsIff; panics if and only if that number is 0 or above 102 |
| Reservoir.Stock.PermutateWidths | transposablematrix/22-edges-permutated.go:53-67 | the loop over widths lists the rectangle plugs and changes exactly the slackless keys |
| Reservoir.Stock.PermutateBoxes | transposablematrix/22-edges-permutated.go:76-86 | the loop over larger rectangles lists their plugs; panics if and only if there are more than 102 elements |
| Reservoir.Stock.AttachKerfs | transposablematrix/22-edges-permutated.go:91-96 | the last loop changes exactly the keys of the plugs, full and condensed |
| Reservoir.Stock.AddAmorph | transposablematrix/20-amorph.go:172-195 | appends one amorph under its position, or panics; the four indexes stay exact if it comes unpadded and without an index number of its own, and are spoiled for good otherwise |
| Reservoir.Stock.AddAmorphs | transposablematrix/20-amorph.go:165-195 | appends all new amorphs, or panics if and only if one of them has no elements or more than 102; the indexes stay exact if and only if all of them come unpadded and without index numbers of their own |
| Reservoir.Stock.RemoveSpentEdges | transposablematrix/22-edges-permutated.go:15-38 | removes the entries of that id, also when it was reshaped or padded meanwhile; the indexes are exact for the others if and only if the number of elements is still the one they were filled with |
| Reservoir.Stock.PadToWidth | transposablematrix/49-fnd-lvl3-straight.go:87-96 | pads to a full rectangle; the number of elements the indexes go by survives if and only if nothing was padded twice |
| Reservoir.Stock.PadAndRemove | transposablematrix/50-matching-fusions-amorphs.go:84-94 | choosing an amorph by padding and taking it out keeps the indexes exact for the others if and only if it was not padded twice |
| Reservoir.StaysListed | transposablematrix/22-edges-permutated.go:35 | removal under another number of elements leaves the entry under the right one behind, so that the index is exact for no stock |
| Reservoir.PaddedTwice | transposablematrix/49-fnd-lvl3-straight.go:87-96 | five elements padded to width 3 and then to width 4 go by six |
| Reservoir.Reshape | transposablematrix/45-fnd-lvl1.go:52-68 | ends at the least sufficient number of rows, or panics if and only if that is more than 100 above the start or the width is not positive, for every amorph and edge |
| Reservoir.Stock.ReshapeIndexed | transposablematrix/45-fnd-lvl1.go:48-68 | every id listed under an edge is unspent and is reshaped; two-digit edges do not panic |
| Reservoir.Stock.ExactStairyEdge | transposablematrix/45-fnd-lvl1.go:42-79 | all candidates, or as many as the limit says but at least one, are reshaped to the edge in the map's order, or one of them panics; two-digit edges do not panic |
| Reservoir.OutcomesAre | transposablematrix/45-fnd-lvl1.go:48-79 | the result is there if and only if none of the candidates tried panics, and holds the outcome of each |
| Reservoir.OutcomeIff | transposablematrix/45-fnd-lvl1.go:52-66 | reshaping panics if and only if the edge has no width or the kerf fits neither into the least rows nor into up to a hundred more |
| Perspective.ViewsInverse | transposablematrix/10-matrix.go:484-567 | the two coordinate maps are inverse to each other in all four perspectives, and outside slots map to the outside marker |
| Perspective.ViewsTurn | transposablematrix/10-matrix.go:484-567 | the centre is seen at the origin in all four perspectives, the first shows slots by their distance from it, and each next one turns what is seen by a quarter |
| Perspective.TotalsAlwaysExact | transposablematrix/10-matrix.go:365-377 | the four total limits are the exact extremes of all slots ever filled |
| Perspective.UpdatePicks | transposablematrix/10-matrix.go:379-421 | of each outmost point and the new slot the one that ranks first stays, by the point's two directions |
| Perspective.ExtremesKept | transposablematrix/10-matrix.go:363-423 | if all eight points are the exact extremes before a filling they are after it |
| Perspective.AlwaysHeld | transposablematrix/10-matrix.go:379-421 | at any time each outmost point lies on the limiting line, no filled slot lies further out, and it is a filled slot or still the origin |
| Perspective.OutmostFilledIff | transposablematrix/10-matrix.go:228-236 | an outmost point is a filled slot if and only if the origin is filled or some slot has made the point leave it |
| Perspective.OutmostExactNowIff | transposablematrix/10-matrix.go:228-236 | all eight are the exact extremes if and only if the first slot lies in neither row 0 nor column 0, or the slot in both is filled |
| Perspective.OutmostExactIff | transposablematrix/10-matrix.go:228-236 | they are so after every filling if and only if the first slot lies in neither row 0 nor column 0 or in both |
| Perspective.OutmostInEveryView | transposablematrix/10-matrix.go:322-359 | in each perspective the reported points, seen through the view, are the same eight extremes of the turned set |
| Perspective.NoneBeforeInView | transposablematrix/10-matrix.go:322-359 | nor does any turned slot lie further out than the point reported for it, exact or not |
| Perspective.TotalsInEveryView | transposablematrix/10-matrix.go:285-307 | in each perspective the reported totals are the totals of the turned set |
| Casting.CellsCount | transposablematrix/10-matrix.go:617-714 | a kerfed rectangle has the rectangle's slots less the kerf's |
| Casting.ExactKerfIsPainted | transposablematrix/10-matrix.go:617-714 | if the slack is exactly the kerf, casting covers the whole kerfed rectangle, every slot once, one per element |
| Casting.PaintedExactlyIff | transposablematrix/10-matrix.go:617-714 | casting covers the whole kerfed rectangle with one slot per element if and only if the slack is exactly the kerf |
| Casting.CellIff | transposablematrix/10-matrix.go:617-714 | the slots of an amorph are those of its rectangle outside the kerf that a three-part edge cuts out at the bottom, on the right of a rising edge and on the left of a falling one |
| Casting.PaintedIff | transposablematrix/10-matrix.go:617-714 | the slots painted are the first ones, column by column, as many as the amorph has elements, but at least one |
| Casting.EdgelessIsPainted | transposablematrix/10-matrix.go:617-714 | without a three-part edge, or with a level one, the rectangle is painted column by column until the elements are used up, and completely without slack |
| Casting.RisingIsPaintedIff | transposablematrix/45-fnd-lvl1.go:42-79 | what exactStairyEdge makes of an amorph listed under a rising edge is cast completely if and only if its padding fills whole rows |
| Casting.FallingIsPaintedIff | transposablematrix/45-fnd-lvl1.go:42-79 | the same for a falling edge, with its two more conditions |
| Casting.RebuiltKerfs | transposablematrix/20-amorph.go:389-394 | the kerf is at the right end, and of the mirror image at the left end |
| Casting.RebuiltIsPainted | transposablematrix/20-amorph.go:389-394 | a rebuilt amorph is cast completely, and so is its mirror image after ReverseEdge; reversing twice gives it back |
| Matrix.TransposableMatrix.constructor | transposablematrix/10-matrix.go:208-241 | a new matrix is empty, its limits reversed, all outmost points at base slot (0, 0), its centre in the middle |
| Matrix.TransposableMatrix.SetPerspective | transposablematrix/10-matrix.go:269-274 | changes the perspective and keeps the limits valid |
| Matrix.TransposableMatrix.SetCenter | transposablematrix/10-matrix.go:260-263 | moves the centre and keeps the limits valid |
| Matrix.TransposableMatrix.EmptyIff | transposablematrix/10-matrix.go:441-448 | a slot is empty in a view if and only if no filled slot is seen there |
| Matrix.TransposableMatrix.UpdateLimits | transposablematrix/10-matrix.go:363-423 | the limits change as the incremental update says |
| Matrix.TransposableMatrix.Set | transposablematrix/10-matrix.go:460-473 | writes any slot, seen through the view, and nothing else; the limits stay those of everything ever filled, and describe the grid if and only if no amorph is overwritten by an empty slot |
| Matrix.TransposableMatrix.FilledMinMax | transposablematrix/10-matrix.go:322-359 | the loops return the outmost points in the view's order |
| Matrix.TransposableMatrix.CastStitch | transposablematrix/10-matrix.go:617-714 | exactly the amorph's slots, told apart by Casting.PaintedIff, show the amorph, every other slot is as before; the slots filled before stay the first ones, and those added are exactly the painted ones in the grid |
| Matrix.SlotsFollowGrid | transposablematrix/20-amorph.go:206-218 | each slot of a cast shows the amorph's number and a place inside its rectangle; in every perspective two slots' places are as far apart as the slots are in the grid |
| Matrix.PrefixOfCells | transposablematrix/10-matrix.go:633-712 | the element counter stops the loops exactly when the amorph is used up |
| Outline.StepAlternates | transposablematrix/30-outline.go:63-123 | up never follows down nor down up, and each plotted point keeps the line alternating |
| Outline.StepHugs | transposablematrix/30-outline.go:63-123 | each step keeps the line along the slots: rows run between a filled and a free slot in every column they pass, climbs inside filled slots, falls beside free ones |
| Outline.StartFree | transposablematrix/30-outline.go:29-51 | in every perspective of every grid that is not empty, no filled slot lies above the start or west of it, and none east of the end |
| Outline.StartFilledIff | transposablematrix/30-outline.go:29-51 | the start is a filled slot unless it still stands at the unfilled origin, which only perspectives 0 and 1 can show |
| Outline.TraceOutlines | transposablematrix/30-outline.go:47-135 | every line traced from a start that is free above leads from the one point to the other along the filled slots, its segments along rows and columns in turn; all rows run to the right if and only if the start is filled, and all but the first, one slot long, otherwise |
| Outline.TraceFrom | transposablematrix/30-outline.go:47-135 | the loop over the grid is the trace over the filled slots as the view shows them, which Outline.TraceOutlines and Skyline.SkylineTraced characterise, with its three errors |
| Outline.PartialOutline | transposablematrix/30-outline.go:27-135 | blank if and only if the two points coincide; a traced outline runs along the filled slots from the north-west to the north-east point and alternates strictly if and only if the north-west point is filled |
| Outline.LineRunsLeft | transposablematrix/30-outline.go:47-135 | a grid of four slots whose outline starts at an unfilled slot and runs left first |
| Skyline.SkylineTraced | transposablematrix/30-outline.go:47-135 | two columns or more on a common floor are traced if and only if the rounds for columns, climbs and falls suffice and no fall starts at a hundred or deeper, and then the line is exactly the corners of their tops |
| Skyline.TracedFrom | transposablematrix/30-outline.go:63-123 | the same from any column on, coming in at any height |
| Enhancing.WestwardsAlternatesIff | transposablematrix/31-outline-enhance.go:51-73 | the extension westwards keeps the parity of the line's length, and yields an alternating line if and only if there was one or the first segment is prolonged |
| Enhancing.EastwardsAlternatesIff | transposablematrix/31-outline-enhance.go:75-119 | the extension eastwards yields an alternating line if and only if there was one that ends with a horizontal segment, and not on the floor a wall is to be drawn to |
| Enhancing.EnhancedAlternatesIff | transposablematrix/31-outline-enhance.go:21-131 | the condition for a traced outline with both extensions |
| Enhancing.EnhancedBlankIff | transposablematrix/31-outline-enhance.go:41-49 | the floor drawn for an empty outline alternates if and only if the limits are in order |
| Enhancing.EnhancedEnds | transposablematrix/31-outline-enhance.go:51-119 | a line enhanced on both sides comes in six slots beyond and above either limit through walls at the limits, keeps all points between its ends, and meets the eastern wall at its own height or on the floor |
| Enhancing.RestrictedSeen | transposablematrix/31-outline-enhance.go:28-39 | a viewport set in a view comes back as the limits given if and only if the perspective is odd or columns and rows are the same |
| Enhancing.EnhancedOutline | transposablematrix/30-outline.go:27-140 | PartialOutline as a whole: the floor when nothing is to trace, otherwise a traced outline, enhanced if the viewport is restricted; from an unfilled start it alternates only if it is extended westwards |
| Queue.Queue.NewQueue | util/util-fifo-queue.go:16-24 | a new queue is empty |
| Queue.Queue.Grow | util/util-fifo-queue.go:28-35 | growing a full ring keeps the waiting items and their order |
| Queue.Queue.Push | util/util-fifo-queue.go:27-39 | appends at the end, across wrap-around and growth |
| Queue.Queue.Pop | util/util-fifo-queue.go:45-53 | takes the oldest item, or reports emptiness |
| Dom.RemoveChild | net/http/dom/mini_go_query.go:24-32 | unhooks one child and keeps the others in order |
| Dom.RemoveNode | net/http/dom/mini_go_query.go:24-32 | takes one node out of the tree, or out of the children of the node the tree hangs under; a node without a parent stays |
| Cleaner.ChildIsNew | net/http/domclean2/02_remove_comments_and_whitespace.go:29-31 | the children of the node at hand were not queued before |
| Cleaner.LevelledStep | net/http/domclean2/02_remove_comments_and_whitespace.go:29-31 | queueing them keeps levels non-decreasing and nodes distinct |
| Cleaner.SweepStep | net/http/domclean2/02_remove_comments_and_whitespace.go:24-44 | one visit keeps the breadth-first invariant |
| Cleaner.SweepReaches | net/http/domclean2/02_remove_comments_and_whitespace.go:24-44 | when the queue runs empty every node of the tree has been visited |
| Cleaner.WaitingStands | net/http/domclean2/02_remove_comments_and_whitespace.go:26-41 | a waiting node and all its children are still in place when it is visited |
| Cleaner.EnQueueChildren | net/http/domclean2/02_remove_comments_and_whitespace.go:29-31 | queues the children first to last, one level down |
| Cleaner.Discard | net/http/domclean2/02_remove_comments_and_whitespace.go:33-41 | throws exactly comments and formatting texts out |
| Cleaner.StaysIff | net/http/domclean2/02_remove_comments_and_whitespace.go:33-41 | under every node exactly the elements and the texts that are more than formatting stay |
| Cleaner.RemoveCommentsAndIntertagWhitespace | net/http/domclean2/02_remove_comments_and_whitespace.go:19-45 | from any node to start with: visits every node below once by non-decreasing level with its true level, terminates, and leaves exactly the comments and formatting texts gone that have a parent, all else in order; without a start nothing happens |
| Breakout.SearchFindsFirst | net/http/domclean2/05_breakout_imgs_from_a_trees.go:15-33 | the search returns the first image element in document order with its depth, or none if there is none |
| Breakout.TextsSplit | net/http/domclean2/05_breakout_imgs_from_a_trees.go:44-90 | what both sides keep of a list of nodes: every text outside images, once, in order and under the same nodes with their attributes |
| Breakout.SplitKeepsTexts | net/http/domclean2/05_breakout_imgs_from_a_trees.go:122-131 | the texts of the two anchors in sequence, each with all it stands under, are the original texts outside images, whatever the depth and number of images |
| Breakout.SplitKeepsAllTextsIff | net/http/domclean2/05_breakout_imgs_from_a_trees.go:122-131 | they are all the original texts if and only if no text is at or under an image |
| Breakout.NoImgLeft | net/http/domclean2/05_breakout_imgs_from_a_trees.go:69-82 | neither anchor keeps an image |
| Breakout.SplitScans | net/http/domclean2/05_breakout_imgs_from_a_trees.go:37-90 | each half of a split anchor node by node: images go, nodes that hold one are in both halves, every other node is in the front half until an image has been passed in document order and in the back half from then on |
| BreakoutWalk.Label | net/http/domclean2/05_breakout_imgs_from_a_trees.go:109-113 | the text put in an image's place is never taken for an image; a beautified text of six characters or more is it, and a shorter one ends it |
| BreakoutWalk.SplitSettles | net/http/domclean2/05_breakout_imgs_from_a_trees.go:98-155 | what replaces an anchor holds no anchor with an image |
| BreakoutWalk.WalkSettles | net/http/domclean2/05_breakout_imgs_from_a_trees.go:92-157 | after the walk no anchor of any document holds an image element, nested anchors included |
| BreakoutWalk.WalkTwice | net/http/domclean2/05_breakout_imgs_from_a_trees.go:94-96 | visiting the nodes just inserted, and walking twice, change nothing |
| BreakoutWalk.SplitTexts | net/http/domclean2/05_breakout_imgs_from_a_trees.go:104-148 | dealing with one anchor that holds an image keeps its texts outside images under the same nodes, or puts one text under the anchor where an only child was an image |
| BreakoutWalk.SplitKeepsLink | net/http/domclean2/05_breakout_imgs_from_a_trees.go:104-148 | the pieces are an anchor with the link and name it had, the image the search found, without its children, and the same anchor again; an anchor with an image for its only child stays one before it |
| BreakoutWalk.RelabelledBefore | net/http/domclean2/05_breakout_imgs_from_a_trees.go:94-105 | whether an anchor's only child is an image can be told before its children are dealt with |
| BreakoutWalk.WalkTexts | net/http/domclean2/05_breakout_imgs_from_a_trees.go:92-157 | after the walk any document has exactly the texts TextsAfter reads off the document before it, each under the same nodes, so that none loses its link: in order, with a text in the place of each only child that is an image, and without the texts reading "img" below anchors holding images |
| BreakoutWalk.WalkKeepsTextsIff | net/http/domclean2/05_breakout_imgs_from_a_trees.go:92-157 | the document's texts and what they stand under are unchanged if and only if no anchor has an image as its only child and none holding an image holds a text reading just "img" |
| BreakoutWalk.OneImgSurvives | net/http/domclean2/05_breakout_imgs_from_a_trees.go:122-148 | splitting yields anchor, image, anchor with one image in all; none is lost if and only if there was just one |
| BreakoutWalk.WalkImgs | net/http/domclean2/05_breakout_imgs_from_a_trees.go:92-157 | after the walk a document has one image for each outermost anchor that held some, and all the images outside anchors |
| BreakoutWalk.WalkKeepsImgsIff | net/http/domclean2/05_breakout_imgs_from_a_trees.go:92-157 | the walk adds no image to any document, and loses none if and only if no anchor holding an image holds a second one |
| ImageDeleter.Deleter.MarkAncestors | net/http/domclean2/05_breakout_imgs_from_a_trees.go:50-57 | following the parents puts exactly the ancestors on the splitting path |
| ImageDeleter.Deleter.Fc | net/http/domclean2/05_breakout_imgs_from_a_trees.go:44-86 | the recursion with its path set unhooks exactly the nodes the definition on values drops, and returns whether an image was met |
| ImageDeleter.Deleter.FcChildren | net/http/domclean2/05_breakout_imgs_from_a_trees.go:61-67 | the loop over the copied child list does so for all children although they unhook themselves meanwhile |
| ImageDeleter.Deleter.Remove | net/http/domclean2/05_breakout_imgs_from_a_trees.go:69-82 | the three removal tests drop a node exactly if the definition on values does |
| ImageDeleter.RemainsRead | net/http/domclean2/05_breakout_imgs_from_a_trees.go:44-86 | following the links of what is left gives the tree the definition on values describes |
| ImageDeleter.DeleteOneSide | net/http/domclean2/05_breakout_imgs_from_a_trees.go:37-90 | one deleter on an anchor leaves, link by link, its side of the split |
| IntSqrt.OrIsSum | util/util-numbers.go:124-141 | the bitwise ors act as additions |
| IntSqrt.DigitStep | util/util-numbers.go:131-139 | one round finds one binary digit of the root and keeps the remainder |
| IntSqrt.LoopStep | util/util-numbers.go:131-139 | the same in the loop's own terms, with shifts and ors |
| IntSqrt.ExactRange | util/util-numbers.go:124-141 | the extracted root never exceeds the true one and reaches it if and only if n < 2^32 |
| IntSqrt.ExtractDigits | util/util-numbers.go:131-139 | the loop ends with all digits of the root and the remainder left over |
| IntSqrt.Sqrt | util/util-numbers.go:124-141 | r*r <= n < (r+1)*(r+1) if and only if 0 <= n < 2^32; otherwise the result is 65535 |

## Left out

* `omap/osmap` is the same tree with string keys and is covered by the model for any strict weak order;
  `omap/osmaps` is not modelled: its split does not rebuild its links and its remove is commented out.
* The two ready-made comparisons (case folding, float keys): the order is a parameter; it must be a strict weak
  order, which float keys with NaN are not.
* Machine integer overflow, except for the square root.
* Fairness of the scheduler: what a run can still come to is proved, not when it must. Data races; timers (a timeout
  may happen whenever its channel is waited on), logging, the sleep at the end.
* `math.Sqrt` in RootCeiling is the integer ceiling root; the table of primes is a parameter.
* Averages, deviations, histograms of widths and heights, AestheticValue and its sorting: they rank candidates and do
  not change which candidates exist.
* The table of spent ids that CastStitch also writes; nothing reads it.
* Which grids make PartialOutline give up with one of its three errors, where their columns do not stand on a common
  floor.
* Concave sections, fusion heuristics, labels and all drawing.
* The tokenizer, the HTML parser, URL parsing and the trimming of white space are parameters or assumed results:
  token lists, trees, a function from href to text, a predicate on texts.
* Sibling and first-child pointers of a page's nodes are one list of children per node.
* Histogram keys are taken to be exactly the tokens of the text. The repository's own counting can differ for
  one-letter words, which enter the histogram but not the text.
- Reservoir.Stock.ExactStairyEdge: the order in which a Go map is gone through is a parameter.
- Reservoir.Stock.PermutateShapes: amorphs whose padding exceeds their elements, for which the root is not a number;
  and how far the indexes have come when it panics.
- Reservoir.Stock.PadToWidth: the search for the amorph to pad is not modelled, only what happens to it.
- DistribRuns.RunKeepsInv: Want is at least 1; with less, stage 3 has enough results before the first one arrives.
- DistribReturns.CanHangIff: at least one packet and one worker; without packets Distrib returns before it starts
  anything.
- Breakout.SplitKeepsTexts: text nodes have no children, as in every parsed page.
- BreakoutWalk.WalkTexts: texts and images have no children, as in every parsed page.
- BreakoutWalk.WalkKeepsImgsIff: the same.
- BreakoutWalk.WalkSettles: the walk, the cloning of an anchor and the insertion of image and clone are modelled on
  tree values, so aliasing between them is not captured; the deletions are modelled in place as well.
- Dedup.HistoIsLowerBound: duplicate-free token lists, as the repository's texts are made.
