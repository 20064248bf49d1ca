# Hire me: a verified model of the inversion toolkit

The "Hire me" crack-me hides a 32-byte input behind a 256-round
substitution/diffusion network.

- **One round.** Each byte `x` is replaced by `S_low[x]`, where `S_low` is
  `confusion[0..255]`. Then the 32 bytes are multiplied by a 32×32 GF(2)
  matrix. The matrix is stored as 32 row masks: output byte j is the XOR
  of the bytes selected by the set bits of row j.
- **The output.** After 256 rounds, output byte i is
  `S_low[c[2i]] ^ S_high[c[2i+1]]`, where `S_high` is
  `confusion[256..511]`. The challenge is to make the 16 output bytes spell
  `Hire me!!!!!!!!`.
- **Why it is hard to invert.** `S_low` is not a bijection: some values
  have no preimage and some have two. So running the network backwards is
  a search.

This project models, in Dafny, the programs of the repository that invert
the network:

- **The GF(2) toolkit.** The masked XOR `dot_row`, Gauss-Jordan inversion
  of the diffusion matrix, GF(2) rank and XOR spans, and GF(2)[x]
  polynomial arithmetic with Berlekamp factoring.
- **The preimage tables** of `S_low` and `S_high`, and the single-valued
  "last writer wins" inverse.
- **The final-state constructors.** These build a state whose 16 output
  pairs meet the target and whose inverse-diffusion bytes all have
  preimages.
- **The backward search engines.**
  - level-by-level BFS with truncation;
  - recursive DFS with a random start and a combinatorial cap;
  - a DFS driven by a mixed-radix odometer;
  - an explicit-stack DFS;
  - a score-sorted DFS;
  - the solver's all-solutions and first-solution DFS;
  - a parent-pointer BFS with path extraction.

  Every engine is proved to produce only children that one forward round
  maps back onto their parent. So a state found at round 256 runs forward
  onto the constructed final state.
- **The forward verifier.**
- **The SAT and bit-vector encodings.** The solver is abstracted as a
  variable counter and a clause sink. Each gadget is proved in both
  directions. Every model of its clauses computes the gadget's function
  (soundness). Every assignment of its inputs extends, over the fresh
  variables only, to a model (completeness). The two-round formula of
  minimal_sat.cpp is proved the same way, so a solver that misses no model
  always recovers a plaintext when one exists.
- **The table-analysis scripts.** Difference and linear approximation
  tables, affine and XOR structure, fixed points and cycles, matrix
  statistics, and the mask table generator.

Tables, matrices, targets and round counts are parameters. Machine words
are natural numbers with explicit bit operations. Fixed widths are written
out where they matter: a `u8` counter that wraps, a bitset product cut to
its width.

## Model

| member | source | states |
|---|---|---|
| Gf2.DotRowLinear | hireme2.c:97-109 | dot_row is linear in the row mask: the XOR of two masks gives the XOR of the two results |
| Gf2.DotRowUnit | hireme2.c:97-109 | a mask with the single bit k selects exactly v[k] (bit 0 selects byte 0) |
| Gf2.DotRowZero | hireme2.c:97-109 | row 0, or an all-zero vector, gives 0 |
| Gf2.DotRowAgree | hireme2.c:97-109 | bytes at positions the mask does not select do not affect the result |
| Gf2.DotRowByte | hireme2.c:97-109 | the XOR of bytes stays a byte, so the u8 accumulator never truncates |
| Gf2.DotRowU32 | hireme2.c:125-130 | XORing 32-bit rows gives a 32-bit row, so a product of row-mask matrices stays a row-mask matrix |
| Gf2.DotRowIdentity | hireme2.c:117-118 | combining the unit rows selected by a mask gives the mask back |
| Gf2.MulAssoc | hireme2.c:532-546 | (B·A)·v == B·(A·v): matrix products associate |
| Gf2.LeftInverseCancels | hireme2.c:336-340 | when B·A is the identity, B undoes A on every 32-entry vector |
| Gf2.SingularHasNoLeftInverse | hireme2.c:120-123 | a matrix that sends a nonzero state to zero has no left inverse |
| Gf2.InverseFromBothSides | hireme2.c:113-132 | B·A == I and G·B == I force G == A |
| Gf2.SelectedClear | hireme2.c:102-106 | one pass of the loop (`k = ctz(row)`, then `row &= row - 1`) takes v[k] off the front of the selected bytes, and the mask shrinks |
| Gf2.XorAllSelected | hireme2.c:97-109 | the XOR of the selected bytes equals the dot product |
| DotRowLoops.DotRowScan | matrix-heuristic-and-sat-analysis/test_dot_row.c:12-18 | the bit-by-bit scan returns DotRow(row, v), a byte |
| DotRowLoops.DotRowCtz | hireme2.c:97-109 | the set-bit walk returns DotRow(row, v), a byte, after exactly popcount(row) ≤ 32 passes |
| DotRowLoops.DotRowAllOnes | matrix-heuristic-and-sat-analysis/test_dot_row.c:82 | mask 0xFFFFFFFF XORs all 32 bytes together |
| DotRowLoops.DotRowEnds | matrix-heuristic-and-sat-analysis/test_dot_row.c:82 | mask 0x80000001 selects v[0] ^ v[31] |
| DotRowLoops.TestVector | matrix-heuristic-and-sat-analysis/test_dot_row.c:77-80 | the test vector `(u8)(i*7+3)` is a 32-byte state |
| DotRowLoops.TestDotRow | matrix-heuristic-and-sat-analysis/test_dot_row.c:86-109 | both loops agree on every test row, so the self-test returns 0 |
| GaussJordan.TracksAdd | hireme.c:94-98 | `work[r] ^= work[c]; inverse[r] ^= inverse[c]` keeps the tracking invariant: each work row is the combination of A's rows selected by the matching inverse row |
| GaussJordan.TracksSwap | hireme.c:83-91 | swapping rows c and p of both work and inverse keeps the tracking invariant |
| GaussJordan.EchelonAdd | hireme.c:94-98 | clearing bit c of a row keeps the columns already reduced reduced |
| GaussJordan.EchelonSwap | hireme.c:83-91 | swapping row c with a row at or below it keeps the columns below c reduced |
| GaussJordan.TracksToInverse | hireme2.c:129-131 | when every column has its pivot, the tracked inverse is a two-sided inverse and A is not singular |
| GaussJordan.TracksRecoversA | hireme.c:94-98 | the undo matrix g rebuilds A from the reduced rows: g·work == A |
| GaussJordan.KernelOfReduced | hireme2.c:123 | a column without a pivot yields a nonzero state in the kernel of the reduced rows |
| GaussJordan.NoPivotSingular | hireme2.c:122-123 | when no row at or below c has bit c set, A is singular |
| GaussJordan.IdentityTracks | hireme.c:59-67 | work = A with inverse = I satisfies the tracking invariant |
| GaussJordan.PackInit | hireme2.c:117-118 | `A[r]` OR `1 << (32 + r)` holds A[r] in its low half and unit row r in its high half, inside 64 bits |
| GaussJordan.PackedInit | hireme2.c:117-118 | the initial augmented rows satisfy the packed tracking invariant |
| GaussJordan.PackedAdd | hireme2.c:125-126 | XORing augmented row c into row r keeps the packed invariant |
| GaussJordan.PackedSwap | hireme2.c:124 | swapping two augmented rows keeps the packed invariant |
| GaussJordan.PackedPivot | hireme2.c:121-122 | returns the first row at or after c with bit c set, or 32 when there is none |
| GaussJordan.PackedNoPivot | hireme2.c:123 | a pivot search that reaches 32 proves A singular |
| GaussJordan.EliminatePacked | hireme2.c:125-126 | after clearing column c in every other row, columns up to c are reduced and the packed invariant holds |
| GaussJordan.InvertPacked | hireme2.c:113-132 | None exactly when A is singular; otherwise the high halves form the two-sided inverse of A |
| GaussJordan.Invert32 | hireme2.c:113-132 | returns -1 exactly when A is singular, leaving Ainv untouched; returns 0 with Ainv the two-sided inverse otherwise |
| GaussJordan.FindPivot | hireme.c:71-78 | pivot is -1 exactly when no row at or after col has bit col set, else the first such row |
| GaussJordan.SwapRows | hireme.c:83-91 | swaps rows col and pivot of work and inverse and keeps the tracking invariant |
| GaussJordan.ReduceColumn | hireme.c:70-99 | one column step keeps the tracking invariant; a skipped column proves A singular |
| GaussJordan.SplitOutcome | hireme.c:80 | the skipping result is a 32-bit two-sided inverse exactly when A is nonsingular |
| GaussJordan.InvertInto | hireme.c:57-101 | inverse starts at I and work at A; skipped columns raise no error, and the result is the two-sided inverse exactly when A is nonsingular |
| GaussJordan.InvertSkipping | matrix-heuristic-and-sat-analysis/visualize_inv_diffusion.py:11-43 | the list-returning copy of the skipping elimination: an inverse exactly when A is nonsingular |
| GaussJordan.TestMatrixInversion | hireme.c:104-133 | passes exactly when, for every i, the XOR of inverse[j] over the set bits j of original[i] is 1 << i |
| Network.SLow | hireme2.c:539 | S_low is a 256-entry byte table equal to confusion[0..255] |
| Network.SHigh | hireme2.c:545 | S_high is a 256-entry byte table equal to confusion[256..511] |
| Network.Sub | hireme2.c:539 | the substitution layer gives byte j = S_low[c[j]] |
| Network.Output | hireme2.c:544-545 | output byte i is S_low[c[2i]] ^ S_high[c[2i+1]], 16 bytes |
| Network.RoundsSucc | hireme2.c:538-543 | n + 1 rounds are n rounds followed by one more |
| Network.RoundsAdd | hireme2.c:538-543 | a rounds then b rounds are a + b rounds |
| Network.BackwardChildRound | hireme2.c:336-340 | a child whose every byte is a preimage of invM·state is mapped back onto state by one forward round |
| Network.RoundsOfBackwardPath | hireme2.c:297-363 | along a chain of backward children, running the rounds from the last state gives the first state |
| Network.BackwardPathSolves | hireme2.c:581-601 | the end of a 256-step backward chain from c256 is a preimage: Forward of it gives the pairing of c256 |
| Network.ExtendSolution | hireme2.c:483 | prepending one backward step to a solution of n rounds gives a solution of n + 1 rounds |
| Network.SubstituteAndClear | hireme2.c:539 | `d[j] = S_low[c[j]]; c[j] = 0` for all j: d is the substituted state and c is zero |
| Network.Diffuse | hireme2.c:540-542 | `c[j] ^= d[k]` over the set bits k of row j leaves c == M·d |
| Network.RunForward | hireme2.c:532-546 | out[0..16) is Forward of the input after 256 rounds; the input and out[16..32) are left alone |
| Network.TimesBit | hireme.c:261 | `d * ((p >> k) & 1)` equals d when bit k of p is set, else 0: a conditional XOR |
| Network.DiffuseByProduct | hireme.c:259-261 | the multiply-by-bit form of diffusion also leaves c == M·d |
| Network.ForwardInPlace | hireme.c:252-265 | c ends as the state after 256 rounds, d[0..16) holds the 16 paired outputs, and d[16..32) keeps the last round's substituted bytes |
| Network.ProductRound | hireme.c:254-261 | one round of the in-place routine: c becomes M·S_low(c) and d holds S_low(c) |
| Preimage.PreimagesSound | hireme2.c:150-155 | every listed entry is a preimage of y |
| Preimage.PreimageList | hireme2.c:150-155 | the preimage list of y holds entries below 256 that map to y |
| Preimage.PreimagesComplete | hireme2.c:150-155 | every x that maps to y is listed |
| Preimage.PreimagesAscending | hireme2.c:152-154 | the list is strictly ascending, so each preimage appears once |
| Preimage.PreimagesMember | hireme2.c:150-155 | x is listed exactly when s[x] == y |
| Preimage.PreimageListEmpty | hireme2.c:229 | the list is empty exactly when nothing maps to y (inv_low_count[y] == 0 means no preimage) |
| Preimage.PreimageCountsSum | hireme2.c:150-155 | the preimage counts of all 256 values sum to 256 |
| Preimage.PreimagesNext | hireme2.c:152-154 | one step of the ascending pass appends x to the list of s[x] and to no other |
| Preimage.AddPreimage | hireme2.c:153-154 | `inv[y][count[y]++] = x` extends row y by x and leaves every other entry alone |
| Preimage.FillPreimages | hireme2.c:150-155 | row y of inv starts with the ascending preimages of y, and count[y] is their number modulo 256 (u8) |
| Preimage.PreimageTable | hireme2.c:150-162 | a freshly built inverse table satisfies the table invariant |
| Preimage.TableLookup | hireme2.c:229 | inv_low_count[y] > 0 exactly when y has between 1 and 255 preimages, and row y then starts with the smallest one |
| Preimage.TableEntryMapsBack | hireme2.c:339 | entry i of row y below its count is a byte that S_low maps to y |
| Preimage.TableEntry | hireme2.c:339 | entry i of row y below its count is the i-th smallest preimage |
| Preimage.PairLookup | hireme2.c:174-181 | odd_of/is_possible for one (pos, ev): possible exactly when S_high has a preimage of S_low[ev] ^ target[pos], and odd_of is then that preimage |
| Preimage.PairRow | hireme2.c:173-182 | the pairing row of one position satisfies the lookup contract for every ev |
| Preimage.Precompute | hireme2.c:148-184 | None exactly when the diffusion matrix is singular (the C exits); otherwise the preimage tables, invM and the pairing tables all meet their contracts |
| Preimage.PairingMeetsTarget | hireme2.c:174-177 | when is_possible[pos][ev] is set, S_low[ev] ^ S_high[odd_of[pos][ev]] == target[pos] |
| Preimage.PossibleWhenPartnerExists | hireme2.c:175-177 | when some odd byte completes the pair, is_possible[pos][ev] is 1 |
| Preimage.RowEntryIsPreimage | hireme2.c:339 | a row entry below the count is a genuine preimage |
| InverseConfusion.LastPreimageIsLargest | hireme.c:242-244 | the last writer for y is the largest x with s[x] == y, or 0 when y has no preimage |
| InverseConfusion.LastWriterTable | hireme.c:238-249 | the table left by `inv[s[x]] = x` holds the last writer of every y |
| InverseConfusion.InvertHalf | hireme.c:238-244 | `memset` then `inv[s[x]] = x` over one half leaves inv[y] == the largest preimage, 0 if none |
| InverseConfusion.Duplicated | hireme.c:150-153 | the values below k that occur more than once, ascending |
| InverseConfusion.Missing | hireme.c:175-181 | the values below k that do not occur |
| InverseConfusion.DuplicatedComplete | hireme.c:150-153 | every repeated value below k is listed |
| InverseConfusion.MissingComplete | hireme.c:175-181 | every absent value below k is listed |
| InverseConfusion.DuplicatedAscending | hireme.c:150-153 | duplicates are listed in ascending order |
| InverseConfusion.TwoPreimages | hireme.c:151 | count > 1 exactly when two distinct x map to the value |
| InverseConfusion.DuplicatedMember | hireme.c:142-169 | duplicates[] lists exactly the values that two different positions of S_low map to |
| InverseConfusion.MissingMember | hireme.c:174-183 | the missing values are exactly those outside the image |
| InverseConfusion.CountOccurrences | hireme.c:142-145 | `count[s[x]]++` from zero leaves count[y] == number of preimages of y |
| InverseConfusion.CountsMeaning | hireme.c:150-183 | scanning counts > 1 gives the duplicate list and counts == 0 the number of missing values |
| InverseConfusion.ScanCounts | hireme.c:149-183 | the scan fills duplicates[0..num) and the missing count from the counts |
| InverseConfusion.FindDuplicates | hireme.c:135-231 | duplicates[0..num) is the duplicate list of S_low, and the missing and duplicate counts of both halves are right |
| InverseConfusion.CreateInverseConfusion | hireme.c:233-250 | runs the duplicate scan, then leaves inv_confusion1/2 holding the last writer of every value |
| InverseConfusion.ContainsDuplicate | hireme.c:268-281 | returns 1 exactly when some c[i] is among duplicates[0..num), else 0, after checking all bytes |
| InverseConfusion.ContainsDuplicateMeaning | hireme.c:268-281 | with the scanned list, the flag means some byte of c has two preimages under S_low |
| InverseConfusion.ListedIsDuplicate | hireme.c:153 | every listed value has two preimages |
| InverseConfusion.DuplicateIsListed | hireme.c:272-277 | a state byte with two preimages is found in the list |
| FinalState.PairsAreState | hireme2.c:209-212 | a state whose 16 pairs all come from the pairing tables is a 32-byte state |
| FinalState.FinalStateMeetsTarget | hireme2.c:187-188 | a state whose pairs all come from the pairing tables gives the target: S_low[c[2i]] ^ S_high[c[2i+1]] == target[i] |
| FinalState.FirstChildByte | hireme2.c:226-233 | when every byte of invM·c has a preimage, the first preimage of byte j maps back to it |
| FinalState.FinalStateHasParent | hireme2.c:189 | an accepted end state has a parent: one forward round maps its first backward child onto it |
| FinalState.FirstHitNone | hireme2.c:204-216 | the draw search finds nothing exactly when every remaining draw `rand() % 256` is marked impossible |
| FinalState.FillRun | hireme2.c:203-223 | a successful run over n positions yields 2n bytes and uses at most 256 draws per position |
| FinalState.FillRunNone | hireme2.c:203 | once a position fails, the later positions are skipped and the run's outcome stays the same |
| FinalState.FillRunFails | hireme2.c:203-223 | the fill fails exactly when some position, reached with all earlier positions filled, drew 256 impossible bytes |
| FinalState.FillRunFromTables | hireme2.c:209-212 | every pair a successful run writes comes from the pairing tables |
| FinalState.FillRunState | hireme2.c:203-223 | a successful run over all 16 positions is a 32-byte state whose pairs come from the tables |
| FinalState.RepairedPairs | hireme2.c:244-247 | a repair with a possible ev keeps a state whose pairs all come from the tables |
| FinalState.RepairRun | hireme2.c:240-263 | two draws per repair; a run that fails has used all of its draws |
| FinalState.RepairRunOk | hireme2.c:240-263 | a repair run that succeeds from a table state ends in a legal end state |
| FinalState.AttemptRunOk | hireme2.c:201-263 | an attempt uses at most CALLS_PER_ATTEMPT draws, and a successful one ends in a legal end state |
| FinalState.RetryFails | hireme2.c:196-268 | a retry run fails exactly when each of its attempts, each starting where the previous stopped, fails |
| FinalState.RetryStep | hireme2.c:196-268 | a retry returns the first attempt when it succeeds, and otherwise the retry of the rest from where it stopped |
| FinalState.RetryOk | hireme2.c:196-268 | with attempts that end in legal states, k retries use at most k·CALLS_PER_ATTEMPT draws and succeed only with a legal end state |
| FinalState.AttemptsOk | hireme2.c:201-263 | every attempt of the constructor, from any call index, keeps the draw bound and ends legally when it succeeds |
| FinalState.FillStep | hireme2.c:204-222 | one position of the loop extends the run FillRun by one pair, or fails exactly when FillRun does |
| FinalState.RepairOnce | hireme2.c:241-262 | one repair keeps a table state and either ends the run RepairRun with the current state or leaves the remaining run unchanged |
| FinalState.PickPair | hireme2.c:204-216 | found exactly when some one of the 256 draws `rand() % 256` is marked possible; then the pair (ev, odd_of[pos][ev]) of the first such draw is written at pos and every earlier draw missed; otherwise all 256 draws missed and c is unchanged; no other pair changes |
| FinalState.FillPairs | hireme2.c:203-223 | valid exactly when the position loop's run FillRun succeeds, and then c is its state; with FillRunFails, invalid exactly when some position drew 256 impossible bytes; a valid fill takes every pair from the tables |
| FinalState.CheckInverse | hireme2.c:226-233 | all_valid holds exactly when every byte of invM·c has a preimage under S_low |
| FinalState.RepairPair | hireme2.c:240-247 | uses two draws, pos then ev; changed exactly when is_possible[pos][ev], and then c is Repaired(c, pos, ev), else c is unchanged; no other pair changes |
| FinalState.RepairKeepsPairs | hireme2.c:244-247 | a repair keeps every pair a table pair |
| FinalState.RepairLoop | hireme2.c:240-263 | ok exactly when the repair run RepairRun succeeds within 10 repairs, and then c is its state; a failed run uses all 20 draws; success means the pairing and inverse feasibility hold |
| FinalState.Attempt | hireme2.c:201-263 | ok exactly when the attempt AttemptRun (fill, check, repair) succeeds, and then c is its state, a legal end state; never more than CALLS_PER_ATTEMPT draws |
| FinalState.RetryAttempts | hireme_sat_solver.cpp:180-244 | ok exactly when Retry of the attempts succeeds, and then c is its state, a legal end state; when not ok every one of the maxAttempts attempts, each starting where the last stopped, failed |
| FinalState.BuildFinalState | hireme2.c:196-268 | fails (the C exits) exactly when every one of the 1,000,000 attempts fails; otherwise c is the first successful attempt's state, meeting the pairing and inverse feasibility |
| FinalState.Lcg | hireme2_optimized.c:429 | `rng_state * 1664525u + 1013904223u` stays a 32-bit value |
| FinalState.StartEv | hireme2_optimized.c:412 | `(rng_state * 0x9E3779B9u) % 256` is a byte |
| FinalState.FirstPossibleNone | hireme2_optimized.c:414-424 | the probe from start_ev finds nothing exactly when all 256 probes miss |
| FinalState.SeededPairsNone | hireme2_optimized.c:426-432 | once a position fails, the whole attempt fails |
| FinalState.SeededPairsOk | hireme2_optimized.c:417-421 | every pair a successful seeded attempt picks comes from the tables |
| FinalState.SeededPairsFromTables | hireme2_optimized.c:417-421 | every pair of a seeded candidate comes from the tables |
| FinalState.SeededPairsLast | hireme2_optimized.c:410-430 | the last position's ev is the first possible byte probed linearly from its start_ev |
| FinalState.SeededCandidate | hireme2_optimized.c:404-432 | a seeded candidate, when one exists, is a state whose 16 pairs come from the tables |
| FinalState.SeededSearchOk | hireme2_optimized.c:399-451 | the seeded search returns only states meeting the pairing and inverse feasibility |
| FinalState.ProbeFrom | hireme2_optimized.c:414-424 | the linear probe `(start_ev + tries) % 256` finds exactly the first possible ev |
| FinalState.SeededFill | hireme2_optimized.c:406-432 | the fill succeeds exactly when the seeded candidate exists, and writes it |
| FinalState.SeededBuildFinalState | hireme2_optimized.c:399-451 | a deterministic function of the seed: succeeds exactly when the seeded search does, writes its state, and that state is a legal end state (its 16 pairs come from the tables and it passes the inverse check) |
| Challenge.BackwardRoundsSucc | hireme.c:303-329 | running one more backward round at the end |
| Challenge.LastWriterOnImage | hireme.c:242-244 | the last-writer table inverts S_low on its image |
| Challenge.BackwardRoundIsChild | hireme.c:303-329 | when every temp[j] has a preimage, a backward round steps to a backward child |
| Challenge.InfeasibleRoundBreaks | hireme.c:326-328 | when temp[j] has no preimage, the new byte j does not map back to it |
| Challenge.BackwardSolves | hireme.c:303-329 | a feasible backward trajectory replays forwards to its start |
| Challenge.FeasiblePath | hireme.c:303-329 | the states of a feasible trajectory form a backward path |
| Challenge.FeasibleRoundIsChild | hireme.c:303-329 | round i of a feasible trajectory steps to a backward child |
| Challenge.BackwardStepInPlace | hireme.c:304-328 | one round on c through temp: c becomes inv1[p_inv·c]; the duplicate check only prints |
| Challenge.Backward | hireme.c:283-330 | c ends as 256 backward rounds of its old value |
| Challenge.LastMatch | hireme.c:375-376 | the largest x with s[x] == v, or -1 |
| Challenge.FirstMatch | hireme.c:398-407 | the smallest x with s[x] == v, or -1 when there is none |
| Challenge.PairChoiceMeetsTarget | hireme.c:362-416 | a stored pair meets the target byte when a pair exists; otherwise (0,0) is stored, which meets the target only by accident |
| Challenge.SearchEven | hireme.c:398-407 | the ascending search finds exactly the smallest preimage of the needed value |
| Challenge.LastWriterMatch | hireme.c:375-376 | inv_confusion2[needed_b] is checked correctly: it maps back exactly when a preimage exists |
| Challenge.PairPosition | hireme.c:363-415 | one iteration stores the pair the rule chooses for its target byte |
| Challenge.ChosenPairs | hireme.c:362-416 | the 16 chosen pairs each follow the pairing rule |
| Challenge.PairsChosenMeaning | hireme.c:362-416 | the pairs written so far are exactly the chosen ones |
| Challenge.PairsChosenStep | hireme.c:377-378 | writing the pair for position n extends the chosen pairs to n + 1 |
| Challenge.PairTarget | hireme.c:356-416 | pre_final is a state holding the chosen pair at every position |
| Challenge.CompressionMeetsTarget | hireme.c:429-438 | the compression test passes exactly when every target byte was paired (or (0,0) happens to meet it) |
| Challenge.FeasibleBackwardSolves | hireme.c:451-474 | with an invertible matrix, a pairing that meets the target and a feasible backward trajectory, Forward of the result is the target |
| Challenge.Copy | hireme.c:452 | `memcpy(dst, src, 32)` |
| Challenge.VerifySolution | hireme.c:458-474 | returns 0 exactly when Forward of the candidate equals the target |
| Challenge.CompressionTest | hireme.c:429-438 | returns 0 exactly when the paired outputs of c equal the target |
| Challenge.PrepareTables | hireme.c:346-353 | builds both last-writer inverses and the duplicate list, and an inverse of the diffusion matrix exactly when it is nonsingular |
| Challenge.PairedState | hireme.c:356-448 | pre_final holds the chosen pairs and the compression result is 0 exactly when it meets the target |
| Challenge.BackwardAndCheck | hireme.c:451-474 | the input is 256 backward rounds of pre_final, and the result is 0 exactly when Forward of it is the target |
| Challenge.SolveChallenge | hireme.c:332-475 | solve_challenge end to end: pairs, inverse tables, backward rounds, and 0 exactly when the recovered input maps to the target |
| SearchCore.ValidTablesSearch | hireme2.c:148-184 | the tables precompute builds are fit for the searches |
| SearchCore.InverseDiffusion | hireme2.c:419-426 | the loop `v[j] = dot_row(invM[j], state)` stops at the first byte without a preimage; valid exactly when every byte of invM·state has one, and then v == invM·state |
| SearchCore.ProductSnoc | hireme2.c:440-442 | multiplying the running product by the next radix |
| SearchCore.ProductPositive | hireme2.c:440-442 | a product of positive radices is positive |
| SearchCore.EncodeBelow | hireme2.c:470-474 | mixed-radix digit vectors encode to combos below the product |
| SearchCore.DigitsEncode | hireme2.c:470-474 | decoding a combo below the product and encoding the digits gives the combo back |
| SearchCore.EncodeDigits | hireme2.c:470-474 | encoding digits and decoding gives the digits back |
| SearchCore.DigitsInjective | hireme2.c:470-474 | distinct combos below the product decode to distinct digit vectors |
| SearchCore.Choices | hireme2.c:441 | choices_per_pos[j] = inv_low_count[v[j]], a byte |
| SearchCore.FeasibleChoices | hireme2.c:419-431 | a node that passes the validity loop has a positive radix at every position |
| SearchCore.DigitAt | hireme2.c:471-472 | digit j is what `temp_combo % choices_per_pos[j]` computes after j divisions |
| SearchCore.DecodeChild | hireme2.c:467-474 | the decode loop writes the child that combo decodes to: new_state[j] = inv_low[v[j]][digit j] |
| SearchCore.DecodedFromDigits | hireme2.c:470-474 | the decoded child byte by byte |
| SearchCore.ChildIsBackwardChild | hireme2.c:473 | every decoded child byte is a preimage of v[j] under S_low |
| SearchCore.DecodedChildRound | hireme2.c:470-474 | one forward round maps every decoded child back onto its parent |
| SearchCore.DecodedChildExtends | hireme2.c:483 | a solution for the child of n rounds is a solution for the parent of n + 1 rounds |
| SearchCore.RowDistinct | hireme2.c:152-154 | entries of a preimage row below its count are distinct |
| SearchCore.ChildOfInjective | hireme2.c:470-474 | distinct digit vectors pick distinct children |
| SearchCore.DecodedInjective | hireme2.c:460-474 | distinct combos below the product give distinct children, so no child is tried twice |
| SearchCore.EveryChildIsDecoded | hireme2.c:460-474 | every backward child of a feasible node is decoded from some combo below the product |
| SearchCore.ChildIndex | hireme2.c:473 | each child byte sits in its preimage row at an index below the count |
| SearchCore.IndexIn | hireme2.c:473 | the position of x in the ascending preimage list of s[x] |
| SearchCore.PrefixProductStep | hireme2.c:440-442 | extending a prefix by one radix multiplies its product by it |
| SearchCore.PrefixProductMono | hireme2.c:440-446 | with positive radices the running product never decreases, so passing the limit early means the whole product passes it |
| SearchCore.ChoicesAndTotal | hireme2.c:319-328 | the corrected radix loop: every radix recorded, total == the product when it is within the cap and the cap otherwise |
| SearchCore.ChoicesWithinLimit | hireme2.c:437-447 | the node is given up exactly when the full product exceeds the limit; otherwise all radices are recorded and total is their product |
| SearchCore.ChoicesAsWritten | hireme2.c:319-328 | the radix loop as written: entries after the capping radix stay unwritten |
| SearchCore.AsWrittenBelowCap | hireme2.c:319-328 | below the cap the loop as written records every radix |
| SearchCore.TwosBreak | hireme2.c:324-327 | with two preimages everywhere the loop as written breaks before position 31, leaving it unwritten |
| SearchCore.DigitsAsWritten | hireme2.c:336-340 | the decode as written yields digits only when every radix was written and is positive |
| SearchCore.RotationCovers | hireme2.c:458-461 | the rotation from combo_start reaches every combo below total |
| SearchCore.RotationInjective | hireme2.c:460-461 | the rotation reaches no combo twice |
| SearchCore.Take | hireme2.c:360-362 | truncation keeps at most n states, all when there are fewer |
| SearchCore.TakeAppend | hireme2.c:331-343 | truncating twice to the same length is truncating once |
| SearchCore.CopyState | hireme2.c:409 | `memcpy(solution, state, 32)` |
| SearchTree.Width | hireme_sat_solver.cpp:294-311 | the number of combos an engine tries at a node: all of them, or at most the cap for a truncating engine |
| SearchTree.Walk | hireme2.c:460-483 | following a path of combos down the tree: None when a combo is not a branch, else the state reached |
| SearchTree.WalkStep | hireme2.c:483 | a walk that starts with a branch continues from its child |
| SearchTree.WalkFirst | hireme2.c:483 | a walk of positive length leaves through a branch of its start |
| SearchTree.NoBranchNoWalk | hireme2.c:431 | a node the engine prunes has no walk of positive length |
| SearchTree.NoWalkAbove | hireme2.c:460-495 | when no combo the engine tries leads to a walk of k more combos, the node has no walk of k + 1 |
| SearchTree.ChildMisses | hireme2.c:461 | a child without a walk is a miss at its rotated offset |
| SearchTree.NoWalkRotated | hireme2.c:458-495 | a rotated enumeration that misses at every offset proves the node has no walk |
| SearchTree.TablesRoundTrip | hireme2.c:470-474 | with precompute's tables every decoded child round-trips |
| SearchTree.WalkReaches | hireme2.c:407-410 | the state a walk of n combos reaches maps back onto its start under n forward rounds |
| SearchTree.SolutionSolves | hireme2.c:407-410 | the solution a successful search copies out solves its start state |
| SearchTree.LeavesFromStep | hireme_sat_solver.cpp:294-311 | in ascending combo order, the leaves below combo c come before those below later combos |
| SearchTree.ExpandedAll | hireme_sat_solver.cpp:294-311 | an expanded node's leaves are the leaves below all its tried combos |
| SearchTree.FirstLeafStep | hireme_sat_solver.cpp:352-363 | the first leaf below a node is the first leaf below its first child that has one |
| SearchTree.LeafWalk | hireme_sat_solver.cpp:258-273 | every leaf is the end of a walk of k combos |
| SearchTree.WalkLeaf | hireme_sat_solver.cpp:258-273 | the end of every walk of k combos is a leaf |
| SearchTree.NoLeavesNoWalk | hireme_sat_solver.cpp:277-312 | a node has no leaves exactly when it has no walk of length k |
| SearchTree.LeavesSolve | hireme_sat_solver.cpp:258-273 | every leaf maps onto its start under k forward rounds |
| Dfs.RecursiveSearch.InverseRoundsDfs | hireme2.c:521-526 | resets the depth and searches from round 0: found exactly when some path of combos walks 256 rounds down from the initial state, and the solution then maps onto it under 256 forward rounds; otherwise the solution buffer is unchanged |
| Dfs.RecursiveSearch.Search | hireme2.c:403-496 | round 256 copies the state out and succeeds; a node with a byte without preimage, or with more than MAX_COMBO_LIMIT combos, fails; otherwise success returns a walk to the solution and failure proves no walk exists; the depth is restored on every exit |
| Dfs.RecursiveSearch.TryChildren | hireme2.c:458-495 | tries the combos combo_start, combo_start + 1, … modulo total, each once, until one leads to a solution |
| Dfs.RecursiveSearch.TryRotated | hireme2.c:460-492 | pass `offset` tries combo (start + offset) % total |
| Dfs.RecursiveSearch.TryChild | hireme2.c:467-491 | one pass: the child is decoded into the buffer row of this depth and searched from the next round |
| Bfs.DecodedChildrenIndex | hireme2.c:331-343 | entry i of a node's children is the child decoded from combo i |
| Bfs.ChildrenIndex | hireme2.c:319-343 | a feasible node has min(product, MAX_STATES) children, child i decoded from combo i |
| Bfs.NextLevelStep | hireme2.c:301-345 | expanding one more state appends its children, truncated at MAX_STATES |
| Bfs.Level | hireme2.c:297-362 | each level after the first holds at most MAX_STATES / 10 states |
| Bfs.ChildrenRound | hireme2.c:336-340 | every child maps back onto its parent in one forward round |
| Bfs.ChildrenComplete | hireme2.c:331-343 | below the cap, every backward child of a feasible node is among its children |
| Bfs.NextLevelReaches | hireme2.c:301-345 | every state of the next level reaches the initial state after one more forward round |
| Bfs.LevelReaches | hireme2.c:297-363 | every state of level n reaches the initial state after n forward rounds |
| Bfs.ChildrenCount | hireme2.c:319-331 | a feasible node yields min(product of radices, MAX_STATES) children |
| Bfs.ChildAt | hireme2.c:332-340 | decodes child number combo |
| Bfs.ExpandState | hireme2.c:331-344 | appends the node's children to next[..nextCount] while next has room |
| Bfs.ExpandLevel | hireme2.c:301-345 | fills next with the next level of current[..currentCount] |
| Bfs.NextLevelInto | hireme2.c:298-362 | one round of the BFS, truncated to MAX_STATES / 10 |
| Bfs.InverseRoundsBfs | hireme2.c:279-380 | returns 0 for a non-positive max_solutions; otherwise the smaller of the size of the last level and max_solutions, copying that many states of the last level (0 when a level runs empty) |
| Bfs.EmptyStaysEmpty | hireme2.c:347-351 | once a level is empty so are all later ones, so the early `return 0` agrees with the level count |
| Bfs.SolutionsReach | hireme2.c:367-371 | every returned solution maps onto the initial state under the forward rounds |
| Bfs.UnsetRadixRead | hireme2.c:321-340 | with two preimages at each byte, the loop as written breaks at position 19 and leaves position 31 unwritten, yet the decode reads it |
| SatSearch.SolutionStore.FindAllSolutions | hireme_sat_solver.cpp:371-378 | resets the counter and returns the number of round-256 leaves; the first 1,000,000 are stored in discovery order |
| SatSearch.SolutionStore.FindAll | hireme_sat_solver.cpp:255-313 | every leaf below the state increments the count once; the store keeps the first 1,000,000 leaves in order |
| SatSearch.SolutionStore.FindAllChildren | hireme_sat_solver.cpp:302-312 | the combo loop visits the leaves below every combo in ascending order |
| SatSearch.StoreStep | hireme_sat_solver.cpp:259-262 | appending the leaves of one more child to the stored prefix, truncated at the capacity |
| SatSearch.FirstSolution | hireme_sat_solver.cpp:316-364 | found exactly when there is a leaf; the solution is then the first leaf in ascending combo order, and it is untouched otherwise |
| SatSearch.FirstSolutionChildren | hireme_sat_solver.cpp:349-363 | the combo loop stops at the first child with a leaf |
| SatSearch.InverseRoundsFirst | hireme_sat_solver.cpp:366-369 | found exactly when a 256-round walk exists; the solution is the first leaf and maps onto the initial state |
| SatSearch.StoredRowsSolve | hireme_sat_solver.cpp:258-262 | every stored row maps onto the initial state under 256 forward rounds |
| Odometer.NextDigits | hireme2_safe_optimized.c:440-446 | incrementing the little-endian digits of combo e gives the digits of e + 1, and wraps exactly when e + 1 reaches the product of the radices |
| Odometer.Increment | hireme2_safe_optimized.c:440-446 | the carry loop stops at the first digit that does not wrap; k reaches 32 exactly when every digit wrapped (the odometer is exhausted), and otherwise the new digits are the next combo's |
| Odometer.DigitsZero | hireme2_safe_optimized.c:350 | a frame's zeroed idx[] are the digits of combo 0 |
| Odometer.WrapLive | hireme2_safe_optimized.c:448-450 | a frame whose odometer wraps has no leaf left below it, so popping it loses no solution |
| Odometer.GenerateChild | hireme2_safe_optimized.c:404-423 | the new state holds, at each byte j, preimage idx[j] of v[j]: the child of the frame's current combo |
| Odometer.FreshFrame | hireme2_safe_optimized.c:430-433 | a pushed frame at round + 1 with zeroed digits and counter_pos 0 is a valid top whose remaining passes are bounded by the subtree's work |
| Odometer.IterativeSearch.constructor | hireme2_safe_optimized.c:325-340 | allocates the 257-row state buffer and the 257-frame stack |
| Odometer.IterativeSearch.DfsIterative | hireme2_safe_optimized.c:338-458 | finds a solution exactly when the backward tree below the initial state has a leaf at round 256, and then returns the first leaf in ascending combo order; otherwise the solution buffer is unchanged |
| Odometer.IterativeSearch.Enter | hireme2_safe_optimized.c:368-395 | the first visit of a frame recomputes v = invM·state and the preimage counts; a byte without preimage pops the frame, otherwise the child is pushed; the stack invariant holds and the pending work shrinks |
| Odometer.IterativeSearch.Push | hireme2_safe_optimized.c:404-436 | writes the child of idx[] into the next buffer row, pushes a fresh frame at round + 1 and marks the parent as having a child out |
| Odometer.IterativeSearch.Advance | hireme2_safe_optimized.c:439-454 | on return from a child, advances the odometer, popping the frame once it wraps and re-entering it at the next combo otherwise |
| Odometer.IterativeSearch.Pop | hireme2_safe_optimized.c:391-393 | popping a frame with no leaf below keeps the stack invariant and lowers the pending work |
| Odometer.IterativeSearch.PopWrapped | hireme2_safe_optimized.c:448-450 | popping a wrapped frame keeps the invariant and lowers the pending work |
| Odometer.IterativeSearch.Reenter | hireme2_safe_optimized.c:451-454 | resetting counter_pos on a frame whose odometer moved on keeps the invariant and lowers the pending work |
| CountingSort.CountingSortPositions | hireme2_safe_optimized.c:300-322 | the 32 positions come out as a permutation of 0..31, ascending by their preimage count and stable among equal counts |
| CountingSort.Histogram | hireme2_safe_optimized.c:303-306 | count[y] is the number of positions whose key is y |
| CountingSort.RunningTotals | hireme2_safe_optimized.c:309-311 | count[y] becomes the number of positions whose key is at most y |
| CountingSort.Place | hireme2_safe_optimized.c:315-318 | placing the positions from 31 down to 0 at `--count[key]` fills every group of equal keys in ascending position order |
| CountingSort.PlaceOne | hireme2_safe_optimized.c:316-317 | one placement moves the counts from i + 1 to i and extends the filled tail of its group |
| CountingSort.BucketedSorts | hireme2_safe_optimized.c:300-322 | the grouped order is a permutation, ascending by key and stable |
| CountingSort.BucketedIsOrder | hireme2_safe_optimized.c:300-322 | with every key below the bucket count, the grouped order holds each position exactly once |
| Orders.SortByChoices | hireme2_optimized.c:344-354 | order[] starts as 0..31 and ends as a permutation of 0..31 ascending by preimage count |
| Orders.InsertionSort | hireme2_optimized.c:346-354 | the insertion sort keeps the multiset of entries and leaves them ascending by key |
| Orders.Insert | hireme2_optimized.c:347-353 | one pass moves order[i] left past every strictly larger key, keeping the multiset and leaving order[..i + 1] ascending |
| Orders.ShiftLarger | hireme2_optimized.c:349-352 | the inner loop shifts each entry with a strictly larger key one place right and stops at the hole where the key goes |
| Orders.ProductInOrder | hireme2_optimized.c:357-366 | the counts read through a permutation of the positions multiply to the product of all counts, so the sorted order does not change the total |
| StackDfs.DeterministicRandom | hireme2_optimized.c:294-297 | the start combo, computed with the 32-bit wrap of round * 0x9E3779B9, is below total |
| StackDfs.StartCovers | hireme2_optimized.c:374-375 | from that start, the offsets 0 .. total - 1 reach every combo below total |
| StackDfs.DivGuard | hireme2_optimized.c:361 | `total > LIMIT / c` holds exactly when total * c exceeds LIMIT |
| StackDfs.GuardedTotal | hireme2_optimized.c:357-366 | the result is the product of the counts when it is at most MAX_COMBO_LIMIT, and MAX_COMBO_LIMIT + 1 otherwise |
| StackDfs.Prepare | hireme2_optimized.c:328-371 | a popped node is expanded exactly when every byte of v has a preimage and the product is within the limit; then v, the counts, the total and the start combo are the node's |
| StackDfs.PushChildren | hireme2_optimized.c:374-389 | the children of combos start, start + 1, ... (mod total) fill the slots from the popped one upward, each at the parent's round + 1, until the children run out or the stack is full; the slots below are unchanged |
| StackDfs.PushChildrenAsWritten | hireme2_optimized.c:374-389 | as written the round is read through the popped slot, which the first child overwrites: the first child gets round + 1 and every later sibling round + 2 |
| StackDfs.Expand | hireme2_optimized.c:325-389 | popping a node below round 256 and pushing its children keeps every node on the stack on a path back to the initial state, within MAX_STACK_SIZE |
| StackDfs.InverseRoundsStack | hireme2_optimized.c:301-393 | with each child at its parent's round + 1, a reported solution maps onto the initial state under exactly 256 forward rounds; otherwise the solution buffer is unchanged |
| StackDfs.ExpandAsWritten | hireme2_optimized.c:325-389 | with the as-written rounds, every stacked node still maps onto the initial state under its true number of backward steps |
| StackDfs.InverseRoundsStackAsWritten | hireme2_optimized.c:301-393 | as written, a node labelled round 256 may sit fewer backward steps from the initial state: a reported solution only maps onto it under some depth <= 256 of forward rounds |
| Heuristic.ScoreConstant | hireme2_heuristic.c:125-141 | as written, every term of a combo's score is the preimage count of v[j] itself, so any two combos of a node score the same |
| Heuristic.ScoreAsWrittenIsNodeScore | hireme2_heuristic.c:125-141 | the score as written equals the node's own score (the sum of the counts of its multi-choice bytes), whatever the combo |
| Heuristic.ScoreCombination | hireme2_heuristic.c:125-141 | the corrected score: the sum, over the bytes with several preimages, of the preimage counts of the chosen preimage's S_low image, the child's branching |
| Heuristic.LowScoreDeadEnd | hireme2_heuristic.c:119-141 | a child some of whose bytes have no preimage has no further backward round, so no walk continues from it |
| Heuristic.SortDescSorted | hireme2_heuristic.c:229-236 | the reference order sorts the scored combos by descending score |
| Heuristic.QSort | hireme2_heuristic.c:236 | the sort leaves the array in descending score order and a permutation of what it held |
| Heuristic.ScoreAll | hireme2_heuristic.c:230-233 | the scoring loop stores combo c with its score at index c, for every combo below the total |
| Heuristic.OrderCovers | hireme2_heuristic.c:230-240 | after sorting, every combo below the total appears in the array |
| Heuristic.NoWalkInOrder | hireme2_heuristic.c:239-255 | when no combo of the sorted array leads to a solution, no walk leaves the node |
| Heuristic.HeuristicSearch.constructor | hireme2_heuristic.c:184-185 | allocates the 256 preallocated state rows with recursion_depth 0; rand() and malloc() are given as oracles |
| Heuristic.HeuristicSearch.InverseRounds | hireme2_heuristic.c:389-390 | resets the depth and searches from round 0: a found solution maps onto the initial state under 256 forward rounds, and a miss with no failed allocation means no walk exists |
| Heuristic.HeuristicSearch.Search | hireme2_heuristic.c:189-283 | round 256 copies the state out and succeeds; a byte without preimage fails; success returns the walk to the solution, failure without a failed allocation proves no walk exists; the depth and the rows below are restored |
| Heuristic.HeuristicSearch.SortedChildren | hireme2_heuristic.c:225-258 | with at most 1000 combos, every combo is scored, the scores sorted best first and the combos tried in that order; a failed malloc leaves the node unexplored |
| Heuristic.HeuristicSearch.TryInOrder | hireme2_heuristic.c:239-255 | tries the combos of the sorted array from index 0 on until one leads to a solution |
| Heuristic.HeuristicSearch.TryScored | hireme2_heuristic.c:240-249 | decodes the combo at one index of the sorted array into the row of this depth and searches it from the next round |
| Heuristic.HeuristicSearch.RotatedChildren | hireme2_heuristic.c:259-278 | above 1000 combos, tries combos start, start + 1, ... modulo the total from the oracle's start, each once |
| Heuristic.HeuristicSearch.TryChild | hireme2_heuristic.c:264-277 | one pass of the fallback: the child of one combo is decoded and searched from the next round |
| Heuristic.UnsetRadixRead | hireme2_heuristic.c:212-271 | with two preimages at every byte the radix loop breaks at position 15, leaving radices 16..31 unset, and the decode reads them |
| AllPaths.Step | matrix-heuristic-and-sat-analysis/analyze_all_paths.c:196-214 | one recorded round applies exactly when its v is invM·s and its choices are valid, and then gives the child of those choices |
| AllPaths.Replay | matrix-heuristic-and-sat-analysis/analyze_all_paths.c:258-270 | replaying recorded rounds from a state yields states only |
| AllPaths.ReplayReaches | matrix-heuristic-and-sat-analysis/analyze_all_paths.c:258-270 | the state reached by replaying n recorded rounds maps back onto the start under n forward rounds |
| AllPaths.StepIsBackwardChild | matrix-heuristic-and-sat-analysis/analyze_all_paths.c:196-214 | a successful step yields a backward child of the state |
| AllPaths.ReplayPath | matrix-heuristic-and-sat-analysis/analyze_all_paths.c:246-270 | replaying the v-vectors and choices traced back from node i rebuilds node i's state from the root |
| AllPaths.LeafReaches | matrix-heuristic-and-sat-analysis/analyze_all_paths.c:138-231 | every node of round r in the level buffer maps onto the initial state under r forward rounds |
| AllPaths.ChildNode | matrix-heuristic-and-sat-analysis/analyze_all_paths.c:202-215 | the child node of a combo records its parent index, round + 1, its choices and v, and links to its parent |
| AllPaths.DecodeChoices | matrix-heuristic-and-sat-analysis/analyze_all_paths.c:202-207 | the decoded choice indices are the combo's mixed-radix digits and the new state is the child they pick |
| AllPaths.ExpandNode | matrix-heuristic-and-sat-analysis/analyze_all_paths.c:167-221 | a node whose v has a byte without preimage adds nothing; otherwise its children for combos 0, 1, ... are appended while combos remain below the cap and the buffer has room, and earlier entries are unchanged |
| AllPaths.ExpandLevel | matrix-heuristic-and-sat-analysis/analyze_all_paths.c:163-225 | expanding every node of a level appends only nodes of round + 1, keeps the earlier entries and keeps every parent link valid |
| AllPaths.BuildLevels | matrix-heuristic-and-sat-analysis/analyze_all_paths.c:153-231 | after the 256 rounds the buffer is linked from the initial state and the last level holds only nodes of round 256 (empty when a level died out) |
| AllPaths.TracePath | matrix-heuristic-and-sat-analysis/analyze_all_paths.c:246-270 | following the parent links from a leaf writes, at entry r, the v and choices of the node of round r + 1 |
| AllPaths.PathChoices | matrix-heuristic-and-sat-analysis/analyze_all_paths.c:260 | the stored path holds each round's choices in round order |
| AllPaths.Record | matrix-heuristic-and-sat-analysis/analyze_all_paths.c:284-289 | counting one occurrence adds one to the total and one to the count of choice 0 or of the other choices, as the choice says |
| AllPaths.TallyPathBalanced | matrix-heuristic-and-sat-analysis/analyze_all_paths.c:276-294 | counting a path's choices keeps total = choice 0 + choice 1 at every tracked output and changes no untracked output |
| AllPaths.CountChoice | matrix-heuristic-and-sat-analysis/analyze_all_paths.c:282-292 | the scan of the 16 tracked outputs counts the choice exactly when v is tracked and has several preimages |
| AllPaths.TallyData | matrix-heuristic-and-sat-analysis/analyze_all_paths.c:276-294 | the statistics after one path are the reference tally of its rounds |
| AllPaths.ExtractPaths | matrix-heuristic-and-sat-analysis/analyze_all_paths.c:237-298 | the leaves of the last level are stored in index order up to the path capacity, each with its traced choices, and the statistics are the tally of exactly those paths |
| AllPaths.TallyLeavesBalanced | matrix-heuristic-and-sat-analysis/analyze_all_paths.c:237-298 | the statistics stay balanced over any number of extracted paths |
| AllPaths.FindAllPathsBfs | matrix-heuristic-and-sat-analysis/analyze_all_paths.c:138-302 | a failed allocation returns 0 and leaves the statistics alone; otherwise it returns the number of stored leaves, at most the capacity, each a round-256 node of the linked buffer |
| AllPaths.PathsSolve | matrix-heuristic-and-sat-analysis/analyze_all_paths.c:237-270 | each extracted path replays from the initial state to its leaf, and the leaf maps onto the initial state under 256 forward rounds |
| AllPaths.CombosAsWrittenBelow | matrix-heuristic-and-sat-analysis/analyze_all_paths.c:153-220 | below the end of the buffer the combo loop as written writes as many nodes as the guarded loop |
| AllPaths.OverflowWrite | matrix-heuristic-and-sat-analysis/analyze_all_paths.c:153-220 | as written, once next_end reaches the buffer size, every further node with a combo still writes one entry at index 10000000, one past the end |
| AllPaths.UnsetRadixRead | matrix-heuristic-and-sat-analysis/analyze_all_paths.c:186-205 | with two preimages at every byte the radix loop breaks at position 16, leaving radices 17..31 unset, and the decode reads them |
| SatEncoding.CountTrueSmall | matrix-heuristic-and-sat-analysis/minimal_sat.cpp:25-40 | no true literal means a count of 0, a single true literal at the first true position means a count of 1 |
| SatEncoding.Solver.constructor | matrix-heuristic-and-sat-analysis/minimal_sat.cpp:102 | a fresh solver has no variables, no clauses and no XOR constraints |
| SatEncoding.Solver.NewLit | matrix-heuristic-and-sat-analysis/minimal_sat.cpp:19-22 | returns the positive literal of the next variable and adds one variable, changing nothing else |
| SatEncoding.Solver.AddClause | matrix-heuristic-and-sat-analysis/minimal_sat.cpp:32-39 | appends one clause and changes nothing else |
| SatEncoding.Solver.AddXorClause | matrix-heuristic-and-sat-analysis/minimal_sat.cpp:93 | appends one XOR constraint and changes nothing else |
| SatEncoding.ExactlyOneSize | matrix-heuristic-and-sat-analysis/minimal_sat.cpp:26-40 | n <= 1 literals add nothing; n >= 2 literals add n - 1 counter variables and 3n - 3 clauses |
| SatEncoding.ExactlyOneSeq | matrix-heuristic-and-sat-analysis/minimal_sat.cpp:26-40 | appends exactly the sequential-counter clauses over fresh counters numbered from the old variable count, and no XOR constraint |
| SatEncoding.ExactlyOneSound | matrix-heuristic-and-sat-analysis/minimal_sat.cpp:26-40 | every model of the sequential-counter clauses makes exactly one of the literals true |
| SatEncoding.ExactlyOneComplete | matrix-heuristic-and-sat-analysis/minimal_sat.cpp:26-40 | every assignment with exactly one true literal extends, by setting the counters, to a model of the clauses, keeping all earlier variables |
| SatEncoding.AddLinks | matrix-heuristic-and-sat-analysis/minimal_sat.cpp:55-70 | the nested loops append, for each selector v and bit b, the clause "not sel[v] or bit b of the pattern" in loop order |
| SatEncoding.NewLits | matrix-heuristic-and-sat-analysis/minimal_sat.cpp:51-63 | n fresh literals in a row, numbered from the old variable count |
| SatEncoding.EncodeSboxByte | matrix-heuristic-and-sat-analysis/minimal_sat.cpp:43-71 | appends the selectors, their exactly-one clauses, the input links, eight fresh output literals and the output links, and adds twice the size of conf plus 7 variables in total |
| SatEncoding.LinkedValue | matrix-heuristic-and-sat-analysis/minimal_sat.cpp:55-60 | under a satisfied link list, the true selector t fixes the eight bits to pattern t |
| SatEncoding.SboxSound | matrix-heuristic-and-sat-analysis/minimal_sat.cpp:43-71 | in every model the input literals spell some index v of the table and the output literals spell confusion[v] |
| SatEncoding.LinkRowsHold | matrix-heuristic-and-sat-analysis/minimal_sat.cpp:55-60 | a one-hot selector whose true row's pattern the bits spell satisfies every link clause |
| SatEncoding.SelectorsHold | matrix-heuristic-and-sat-analysis/minimal_sat.cpp:50-52 | setting selector t and the counters as the witness says satisfies the exactly-one clauses |
| SatEncoding.SboxHolds | matrix-heuristic-and-sat-analysis/minimal_sat.cpp:43-71 | an assignment holding the witness of the input byte satisfies every clause of the S-box byte |
| SatEncoding.SboxOutputsValue | matrix-heuristic-and-sat-analysis/minimal_sat.cpp:62-70 | under the witness of t the outputs spell confusion[t] |
| SatEncoding.SboxComplete | matrix-heuristic-and-sat-analysis/minimal_sat.cpp:43-71 | every assignment whose inputs spell a table index extends, changing only the fresh variables, to a model of the S-box clauses whose outputs spell the table entry |
| SatEncoding.CollectRowLits | matrix-heuristic-and-sat-analysis/minimal_sat.cpp:85-91 | the ctz loop collects bit b of every input byte whose row bit is set, in ascending order |
| SatEncoding.XorRow | matrix-heuristic-and-sat-analysis/minimal_sat.cpp:74-95 | adds eight fresh output literals and one XOR constraint per bit over the selected inputs and the output, with right-hand side false |
| SatEncoding.RowParity | matrix-heuristic-and-sat-analysis/minimal_sat.cpp:84-94 | the selected literals XOR to bit b of the row's dot product with the bytes they spell |
| SatEncoding.XorRowSound | matrix-heuristic-and-sat-analysis/minimal_sat.cpp:74-95 | in every model the output literals spell the XOR of the input bytes the row selects: one byte of the diffusion |
| SatEncoding.XorRowHolds | matrix-heuristic-and-sat-analysis/minimal_sat.cpp:74-95 | outputs that spell the row's XOR of the inputs satisfy every XOR constraint of the row |
| SatEncoding.XorRowComplete | matrix-heuristic-and-sat-analysis/minimal_sat.cpp:74-95 | every assignment extends, changing only the eight fresh outputs, to a model of the row's XOR constraints whose outputs spell the row's XOR |
| MinimalSat.NewBytes | matrix-heuristic-and-sat-analysis/minimal_sat.cpp:134-136 | declares n bytes of eight fresh literals each, numbered from the old variable count |
| MinimalSat.ReadBytes | matrix-heuristic-and-sat-analysis/minimal_sat.cpp:213-220 | reads back each byte from the model as the sum of its true bits, each below 256 |
| MinimalSat.SboxLayer | matrix-heuristic-and-sat-analysis/minimal_sat.cpp:139-151 | encodes an S-box per byte, appending their clauses in byte order and returning their output bytes |
| MinimalSat.SboxLayerSub | matrix-heuristic-and-sat-analysis/minimal_sat.cpp:139-141 | in every model a layer of 32 S-boxes maps the input bytes to their substitution |
| MinimalSat.XorLayer | matrix-heuristic-and-sat-analysis/minimal_sat.cpp:143-146 | encodes one xor_row per diffusion row, appending their XOR constraints in row order |
| MinimalSat.XorLayerSound | matrix-heuristic-and-sat-analysis/minimal_sat.cpp:143-146 | in every model the diffusion layer's outputs spell the matrix times its inputs |
| MinimalSat.ConstrainLayer | matrix-heuristic-and-sat-analysis/minimal_sat.cpp:183-190 | adds the XOR rows of the second diffusion and pins each of their output bits by a unit clause to the bit of the ciphertext |
| MinimalSat.UnitLayerSound | matrix-heuristic-and-sat-analysis/minimal_sat.cpp:186-189 | the unit clauses pin each output byte to its ciphertext byte |
| MinimalSat.TwoRoundSound | matrix-heuristic-and-sat-analysis/minimal_sat.cpp:133-190 | every model of the two-round clauses assigns a plaintext that encrypts, in two rounds, to the pinned ciphertext |
| MinimalSat.SboxLayerHolds | matrix-heuristic-and-sat-analysis/minimal_sat.cpp:139-141 | a layer whose every byte holds its S-box witness satisfies all of the layer's clauses |
| MinimalSat.SboxLayerComplete | matrix-heuristic-and-sat-analysis/minimal_sat.cpp:139-141 | the witness assignment of a layer satisfies its clauses and its outputs spell the substituted inputs |
| MinimalSat.XorLayerHolds | matrix-heuristic-and-sat-analysis/minimal_sat.cpp:143-146 | outputs that spell the matrix times the inputs satisfy all of the layer's XOR constraints |
| MinimalSat.UnitLayerHolds | matrix-heuristic-and-sat-analysis/minimal_sat.cpp:184-191 | outputs that spell the ciphertext satisfy every unit clause |
| MinimalSat.LayerRoundHolds | matrix-heuristic-and-sat-analysis/minimal_sat.cpp:133-146 | an assignment holding the S-box witness of the round's input bytes, and the round of those bytes on the diffusion outputs, satisfies the round's clauses and XOR constraints |
| MinimalSat.TwoRoundComplete | matrix-heuristic-and-sat-analysis/minimal_sat.cpp:133-191 | every plaintext that encrypts in two rounds to the ciphertext gives a model of the two-round formula whose plaintext bytes spell it |
| MinimalSat.CompleteSolverFinds | matrix-heuristic-and-sat-analysis/minimal_sat.cpp:194-208 | a solver that misses no model returns one for the two-round formula whenever some plaintext encrypts to the ciphertext |
| MinimalSat.SboxInPlace | matrix-heuristic-and-sat-analysis/minimal_sat.cpp:161-170 | replaces every byte by its S-box image in place |
| MinimalSat.TwoRounds | matrix-heuristic-and-sat-analysis/minimal_sat.cpp:159-175 | the reference encryption computes two rounds of the network |
| MinimalSat.EncodeTwoRounds | matrix-heuristic-and-sat-analysis/minimal_sat.cpp:133-190 | builds exactly the two-round clause and XOR lists, with the plaintext bytes as the first variables |
| MinimalSat.SolveTwoRounds | matrix-heuristic-and-sat-analysis/minimal_sat.cpp:192-222 | found exactly when the solver reports a model of the two-round formula; then the recovered plaintext is read from it and encrypts to the ciphertext, else nothing is recovered; a solver that misses no model always finds one when a plaintext exists |
| MinimalSat.TwoRoundInversion | matrix-heuristic-and-sat-analysis/minimal_sat.cpp:98-246 | the ciphertext is the two-round encryption of the plaintext; the status is 0 or 1, 0 exactly when the recovered plaintext re-encrypts to the ciphertext, 1 with nothing recovered; with a solver that misses no model the status is 0 |
| MinimalCorrect.EvalTreeFrontier | minimal_correct.cpp:40-51 | whatever its shape, an XOR tree evaluates to the XOR of its items |
| MinimalCorrect.PairUp | minimal_correct.cpp:44-48 | one pass pairs adjacent trees and carries an odd last one: half as many trees, the same items in the same order, one level deeper |
| MinimalCorrect.BalancedXor | minimal_correct.cpp:40-51 | an empty list gives the constant 0; otherwise the tree holds exactly the items in order and is balanced |
| MinimalCorrect.Eval | minimal_correct.cpp:105-111 | every 8-bit expression evaluates below 256 |
| MinimalCorrect.SubstituteEval | minimal_correct.cpp:117-122 | substituting an expression for a name evaluates like rebinding the name to its value |
| MinimalCorrect.BuildMux | minimal_correct.cpp:105-111 | the ite chain evaluates to confusion[x] for every byte x |
| MinimalCorrect.Instantiate | minimal_correct.cpp:115-122 | instance k is the multiplexer with x replaced by plaintext variable k |
| MinimalCorrect.InstancesEval | minimal_correct.cpp:115-122 | each instance evaluates to the S-box of its plaintext byte |
| MinimalCorrect.CollectSelected | minimal_correct.cpp:128-134 | the ctz loop collects the instances whose row bit is set, in ascending order |
| MinimalCorrect.XorEquations | minimal_correct.cpp:126-136 | one equation per diffusion row: c1[i] equals the balanced XOR of the selected instances |
| MinimalCorrect.EquationsIff | minimal_correct.cpp:126-136 | the equations hold under an assignment exactly when its plaintext bytes encrypt to c1 in one round |
| MinimalCorrect.ForwardOneRound | minimal_correct.cpp:54-66 | the output array is one round of the network applied to the input |
| MinimalCorrect.BuildEquations | minimal_correct.cpp:105-136 | builds the multiplexer and the 32 equations for c1 |
| MinimalCorrect.SolveOneRound | minimal_correct.cpp:144-148 | a sat answer's model assigns a plaintext that encrypts to c1; a complete solver never answers unsat |
| MinimalCorrect.ReadModel | minimal_correct.cpp:155-157 | the recovered bytes are the model's values of the plaintext variables |
| MinimalCorrect.OneRoundInversion | minimal_correct.cpp:68-178 | c1 is one round of the plaintext; the re-encryption never mismatches, a verified answer's plaintext encrypts to c1, and a complete solver always finds one |
| ByteOps.BitVectorRoundTrip | analyze_s_low.py:175-181 | the bit vector of a byte has eight 0/1 entries, bit 0 first, and packs back into the same byte |
| ByteOps.BitVectorEntry | analyze_s_low.py:175-177 | entry i of the bit vector is 1 exactly when bit i of the byte is set |
| ByteOps.NibblesRoundTrip | matrix-heuristic-and-sat-analysis/analyze_s_low_matrix.py:58-64 | splitting a byte into its high and low nibble gives two values below 16 that recombine into the byte |
| ByteOps.RotlBit | matrix-heuristic-and-sat-analysis/analyze_s_low_matrix.py:153 | bit k of the w-bit left rotation by rot is bit k - rot of x, counted modulo w, and nothing is set at or above w |
| ByteOps.RotlInverse | matrix-heuristic-and-sat-analysis/analyze_s_low_matrix.py:153 | rotating left by rot and then by the rest of the word gives x back |
| ByteOps.Gf16Mult | matrix-heuristic-and-sat-analysis/analyze_s_low_matrix.py:122-132 | the shift-and-add loop returns the reference product masked to four bits, a value below 16 |
| ByteOps.ShiftAddBelow | matrix-heuristic-and-sat-analysis/analyze_s_low_matrix.py:122-132 | with the modulus x^4 + x + 1, the product of two 4-bit values stays below 16 before the mask |
| ByteOps.Gf16Units | matrix-heuristic-and-sat-analysis/analyze_s_low_matrix.py:122-132 | multiplying by 0 gives 0 and multiplying by 1 gives a back |
| ByteOps.ShiftAddLinear | matrix-heuristic-and-sat-analysis/analyze_s_low_matrix.py:122-132 | the product distributes over XOR in the multiplier |
| SboxStats.InverseLists | matrix-heuristic-and-sat-analysis/extract_dfs_patterns.py:96-102 | each inverse list is the ascending list of preimages of its value, each count its length, and the counts add up to the table size |
| SboxStats.MissingValues | matrix-heuristic-and-sat-analysis/s_low_comprehensive_analysis.py:50-51 | the missing values are exactly the values below k that the table never produces, in ascending order |
| SboxStats.MissingIffNoPreimage | analyze_s_low.py:85-87 | a value is missing exactly when it has no preimage |
| SboxStats.MissingEmptyIff | analyze_s_low.py:37-87 | a byte table misses no value exactly when it is a permutation |
| SboxStats.Classify | matrix-heuristic-and-sat-analysis/analyze_branching_strategy.py:44-55 | outputs with 0, 1 and 2 preimages go to no_choice, single_choice and double_choice (with their preimage pair); no_choice and single_choice are exactly the comprehensions over range(256), strictly ascending, so no output is listed twice; an output with three or more goes nowhere |
| SboxStats.DoubleChoiceKeys | matrix-heuristic-and-sat-analysis/analyze_branching_strategy.py:54-55 | an output is listed as a branching point exactly when it has two preimages |
| SboxStats.DoubleChoiceAscending | matrix-heuristic-and-sat-analysis/analyze_branching_strategy.py:48-55 | the branching points are listed in ascending output order |
| SboxStats.DoubleChoicePairs | matrix-heuristic-and-sat-analysis/analyze_branching_strategy.py:54-55 | each listed pair is ascending and both of its entries map to the output |
| SboxStats.ChoiceTable | matrix-heuristic-and-sat-analysis/analyze_branching_strategy.py:179-182 | the table holds the smaller preimage of every two-preimage output and 0 elsewhere |
| SboxStats.BranchDifferences | matrix-heuristic-and-sat-analysis/analyze_branching_strategy.py:72-79 | for each branching pair the difference is the larger minus the smaller preimage, and the XOR difference is non-zero and maps one preimage onto the other |
| SboxStats.ChoiceOutputs | matrix-heuristic-and-sat-analysis/extract_dfs_patterns.py:105 | the choice outputs are exactly the values below k with a count of 2 |
| SboxStats.AnalysisFacts | matrix-heuristic-and-sat-analysis/extract_dfs_patterns.py:111-127 | for every choice output both "future outputs" are the output itself, so the two "future choice" counts are both 2, and the pair is ascending |
| SboxStats.FutureTestNeverDecides | matrix-heuristic-and-sat-analysis/extract_dfs_patterns.py:166-194 | the future-choices test of the generated heuristic never decides, so it picks the even preimage when their parities differ and the smaller one otherwise |
| SboxStats.DuplicateScan | matrix-heuristic-and-sat-analysis/analyze_s_low_matrix.py:111-117 | the map keeps the first input of each value, and every later input with a value already seen is reported with that first input, in scan order |
| SboxStats.FixedPoints | analyze_s_low.py:44 | the fixed points are exactly the x with s[x] == x, ascending |
| SboxStats.Involutions | matrix-heuristic-and-sat-analysis/s_low_comprehensive_analysis.py:84-88 | the listed pairs are exactly the x < y with s[x] == y and s[y] == x |
| SboxStats.CollectInvolutions | matrix-heuristic-and-sat-analysis/analyze_s_low_properties.py:39-43 | the loop that skips fixed points first collects the same pairs as the comprehension |
| SboxStats.XorPatterns | matrix-heuristic-and-sat-analysis/analyze_s_low_properties.py:64-69 | groups 0..255 by s[x] ^ x: each group holds, ascending, exactly the inputs with that key |
| SboxStats.ArithPatterns | matrix-heuristic-and-sat-analysis/analyze_s_low_properties.py:106-111 | groups 0..255 by (s[x] - x) mod 256 with Python's non-negative remainder; keys are below 256 |
| SboxStats.XorClassFull | matrix-heuristic-and-sat-analysis/analyze_s_low_properties.py:64-69 | a XOR class holds every input exactly when s(x) = x ^ k for all x |
| SboxStats.ArithClassFull | matrix-heuristic-and-sat-analysis/analyze_s_low_properties.py:106-111 | an arithmetic class holds every input exactly when s(x) = x + k mod 256 for all x |
| SboxStructure.MinOf | analyze_s_low.py:38 | min returns an entry no larger than any other |
| SboxStructure.MaxOf | analyze_s_low.py:38 | max returns an entry no smaller than any other |
| SboxStructure.PermutationIff | analyze_s_low.py:38 | for a 256-entry byte table, the script's test (256 distinct values, min 0, max 255), distinct entries and hitting every byte are equivalent |
| SboxStructure.CheckAffine | analyze_s_low.py:96-114 | reports (a, b) exactly when s(0) != s(1) and s(x) = a·x + b mod 256 for all x, with b = s(0) and a = s(1) - s(0) mod 256; a rejection with s(0) != s(1) means no affine fit exists |
| SboxStructure.CheckXorStructure | analyze_s_low.py:122-130 | reports k = s(0) exactly when s(x) = x ^ s(0) for all x; a rejection means no k fits |
| SboxStructure.FitMatrix | analyze_s_low.py:185-198 | column i of the fitted 8 x 8 matrix holds the bits of s(2^i) ^ s(0) |
| SboxStructure.FitBits | analyze_s_low.py:209-218 | the bit-by-bit evaluation of c ⊕ M·x gives the reference fit of x |
| SboxStructure.AffineFitGf2 | analyze_s_low.py:185-227 | is_affine_gf2 holds exactly when the table is GF(2)-affine, and errors counts the inputs the fit misses |
| SboxStructure.FitComplete | analyze_s_low.py:185-227 | any GF(2)-affine table is fitted exactly: its constant is s(0) and its columns are the fitted ones |
| SboxTables.Derivative | analyze_s_low.py:150-155 | the derivative in direction dx maps x to s[x] ^ s[x ^ dx] |
| SboxTables.DiffTable | analyze_s_low.py:150-155 | entry (dx, dy) ends up as the number of x with s[x] ^ s[x ^ dx] == dy |
| SboxTables.DiffRowSum | analyze_s_low.py:150-155 | every row of the difference table adds up to the table size |
| SboxTables.DiffRowZero | analyze_s_low.py:150-155 | row 0 holds the whole table size at dy = 0 and nothing elsewhere |
| SboxTables.MaxDifferential | matrix-heuristic-and-sat-analysis/s_low_comprehensive_analysis.py:95-111 | the rows are scanned in ascending dx from 1, the order in which the defaultdict first sees each dx, and within a row the dy in the order of their first witness x. The scan returns an entry of largest count over dx != 0: every entry of an earlier row is smaller, and every dy of its row with an equal or larger count was first seen at the same or a later x. It reports none only when every such entry is 0 |
| SboxTables.CountAgreements | matrix-heuristic-and-sat-analysis/s_low_comprehensive_analysis.py:125-128 | counts the inputs on which the input mask a and the output mask b have equal parity |
| SboxTables.LatTable | matrix-heuristic-and-sat-analysis/s_low_comprehensive_analysis.py:122-129 | lat[a][b] is that count minus 128 for every mask pair |
| SboxTables.LatRange | matrix-heuristic-and-sat-analysis/s_low_comprehensive_analysis.py:122-129 | each entry lies in [-128, 128] and lat[0][0] is 128 |
| SboxTables.MaxBias | matrix-heuristic-and-sat-analysis/s_low_comprehensive_analysis.py:132-139 | over a != 0 the scan returns an entry of largest absolute value, and every entry before it in (a, b) order is strictly smaller, so it is the first such entry; it reports none only when every such entry is 0 |
| SboxTables.Walk | matrix-heuristic-and-sat-analysis/analyze_s_low_properties.py:82-89 | entry i of the walk is i steps of the rule x -> s_low[x] from start, and so is current after the walk; the values are distinct and were unvisited, exactly they become visited, and the walk stops out of range, at a value visited before, or at one of its own values |
| SboxTables.FindCycles | matrix-heuristic-and-sat-analysis/analyze_s_low_properties.py:78-92 | every recorded cycle has more than two entries, is a cycle of the table, and no two share an entry; the walks take at most 256 steps in all; and a cycle of more than two values is recorded exactly when the least start whose orbit meets it lies on it (see Findings) |
| SboxTables.WalkAndRecord | matrix-heuristic-and-sat-analysis/analyze_s_low_properties.py:82-91 | one walk from an unvisited start: the record grows by the walk exactly when it has more than two values and came back to start, and the visited marks and the record keep describing the starts tried so far |
| SboxTables.ReportsWalk | matrix-heuristic-and-sat-analysis/analyze_s_low_properties.py:82-91 | after the walk from start, a cycle is recorded exactly when its least entering start is at most start and lies on it |
| SboxTables.WalkMeetsCycle | matrix-heuristic-and-sat-analysis/analyze_s_low_properties.py:84-89 | when start is the least start whose orbit meets a cycle, the walk stops at one of its own values, the values from there on form a cycle with the same values, and that is the whole walk exactly when start lies on the cycle |
| SboxTables.ExploredWalk | matrix-heuristic-and-sat-analysis/analyze_s_low_properties.py:84-87 | after a walk the visited values are still exactly values reached from the starts tried, closed under the table, and include every start tried |
| SboxTables.ReportsSkip | matrix-heuristic-and-sat-analysis/analyze_s_low_properties.py:82 | a start that is already visited is no cycle's least entering start, so skipping it changes nothing |
| SboxTables.CycleShare | matrix-heuristic-and-sat-analysis/analyze_s_low_properties.py:78-92 | two cycles of the table that share a value have the same values |
| SboxTables.CycleInjective | matrix-heuristic-and-sat-analysis/analyze_s_low_properties.py:78-92 | on a cycle, s_low is one to one |
| SboxTables.CycleReach | matrix-heuristic-and-sat-analysis/analyze_s_low_properties.py:78-92 | from any value of a cycle the walk rule reaches any other |
| SboxTables.CycleStays | matrix-heuristic-and-sat-analysis/analyze_s_low_properties.py:78-92 | the walk rule never leaves a cycle |
| SboxTables.LeastEntrantExists | matrix-heuristic-and-sat-analysis/analyze_s_low_properties.py:80-82 | every cycle has a least start whose orbit meets it, and that start is an index |
| SboxTables.TailCycleMissed | matrix-heuristic-and-sat-analysis/analyze_s_low_properties.py:91 | for the map [1, 2, 3, 1] the cycle 1 -> 2 -> 3 is never recorded, because it is first reached from 0 |
| SboxTables.FindAllCycles | matrix-heuristic-and-sat-analysis/analyze_s_low_properties.py:78-92 | corrected walk: every recorded list is a cycle of more than two values, no two share a value, and every cycle of more than two values is recorded |
| SboxTables.ReportsAllWalk | matrix-heuristic-and-sat-analysis/analyze_s_low_properties.py:82-91 | corrected walk: after the walk from start, a cycle is recorded exactly when its least entering start is at most start |
| SboxTables.RotationTest | matrix-heuristic-and-sat-analysis/analyze_s_low_matrix.py:149-163 | reports the first rotation equal to y, else the first rotation differing from y by one of the four masks, else nothing; each report is checked and every earlier rotation failed |
| Tally.WhereMember | analyze_s_low.py:44 | a comprehension over range(n) lists x exactly when x < n and the test holds |
| Tally.WhereAscending | analyze_s_low.py:44 | the listed values are strictly ascending |
| Tally.WhereComplement | matrix-heuristic-and-sat-analysis/analyze_branching_strategy.py:48-55 | the values that pass and the values that fail a test make up all n |
| Tally.Collect | matrix-heuristic-and-sat-analysis/analyze_s_low_properties.py:27-30 | the append loop builds the same list as the comprehension |
| Tally.GroupBy | matrix-heuristic-and-sat-analysis/s_low_comprehensive_analysis.py:59-61 | the defaultdict loop maps each key present to the ascending list of inputs with that key, and no other key |
| Gf2Rank.FindPivot | matrix-heuristic-and-sat-analysis/missing_values_rank.py:38-42 | returns the first row at or below the rank whose bit col is set, or the row count when there is none |
| Gf2Rank.SwapRows | matrix-heuristic-and-sat-analysis/missing_values_rank.py:48-49 | swapping the pivot row up keeps the rows tracking the input's span and puts the pivot bit at row rank |
| Gf2Rank.EliminateColumn | matrix-heuristic-and-sat-analysis/missing_values_rank.py:52-56 | XORing the pivot row into every other row with bit col clears the column except at the pivot and keeps the span |
| Gf2Rank.Echelon | matrix-heuristic-and-sat-analysis/missing_values_rank.py:66-90 | the elimination leaves the first rank rows non-zero and independent, spanning what the input spans, and the rest zero |
| Gf2Rank.EliminateAll | matrix-heuristic-and-sat-analysis/missing_values_rank.py:36-56 | the column loop reduces every column and the rank equals the number of pivots found |
| Gf2Rank.Gf2Rank | matrix-heuristic-and-sat-analysis/missing_values_rank.py:30-58 | the rank is at most the numbers of rows and of columns, and the input spans exactly 2^rank words |
| Gf2Rank.NonZeroRowsShape | matrix-heuristic-and-sat-analysis/missing_values_rank.py:98 | the count of non-zero rows after the echelon pass equals its rank |
| Gf2Rank.RankReport | matrix-heuristic-and-sat-analysis/missing_values_rank.py:61-159 | the rank and the count of non-zero rows agree, and the XOR closure of the values has 2^rank elements (empty when there are no values) |
| Gf2Rank.Dedupe | matrix-heuristic-and-sat-analysis/missing_values_rank.py:113 | dict.fromkeys keeps each entry once, in first-occurrence order |
| Gf2Rank.BasisIndicesAsWritten | matrix-heuristic-and-sat-analysis/missing_values_rank.py:103-113 | as written, the basis is the first rank distinct picks of "the first original row at or after current_row with bit col" |
| Gf2Rank.BasisAsWrittenDependent | matrix-heuristic-and-sat-analysis/missing_values_rank.py:103-113 | for the values [1, 6, 7, 8], which span 8 words (rank 3), the loop picks rows 0, 1 and 2, and 1, 6, 7 are dependent (7 = 1 ^ 6) |
| Gf2Rank.GreedyBasis | matrix-heuristic-and-sat-analysis/missing_values_rank.py:103-113 | keeping row i when it lies outside the span of the rows kept so far gives ascending original rows that are independent and span what the input spans, 2 to the power of the basis size words |
| Gf2Rank.KeepIfNew | matrix-heuristic-and-sat-analysis/missing_values_rank.py:105-110 | one step keeps row i exactly when it is new to the span, and the kept rows stay independent and span the prefix |
| XorSpan.SpanXor | matrix-heuristic-and-sat-analysis/missing_values_rank.py:139-159 | the span is closed under XOR |
| XorSpan.SpanCard | matrix-heuristic-and-sat-analysis/missing_values_rank.py:61 | an independent list of k words spans exactly 2^k words |
| XorSpan.SortedSet | matrix-heuristic-and-sat-analysis/find_pairs_outside_space.py:47 | sorted(list(c)) lists exactly the elements of c, strictly ascending |
| XorSpan.XorRow | matrix-heuristic-and-sat-analysis/missing_values_rank.py:156-157 | the inner loop adds v1 ^ v2 for every v2 of the set |
| XorSpan.XorAll | matrix-heuristic-and-sat-analysis/find_pairs_outside_space.py:42-44 | the nested loop computes all pairwise XORs of the two sets |
| XorSpan.ExtendByValues | matrix-heuristic-and-sat-analysis/missing_values_rank.py:154-158 | one pass adds to the closure its XOR with every listed value |
| XorSpan.PairwiseSeed | matrix-heuristic-and-sat-analysis/missing_values_rank.py:139-145 | the seed holds the listed values and their pairwise XORs, lies inside the span and contains 0 when there are values |
| XorSpan.RankClosure | matrix-heuristic-and-sat-analysis/missing_values_rank.py:139-159 | the loop stops once the size no longer changes, and the closure is then exactly the span of the values (empty for no values) |
| XorSpan.StableIsSpan | matrix-heuristic-and-sat-analysis/missing_values_rank.py:152-158 | a set that holds the values and 0 inside their span and that one more pass does not grow is the whole span |
| XorSpan.ExtendByPairs | matrix-heuristic-and-sat-analysis/find_pairs_outside_space.py:41-45 | one pass adds every pairwise XOR of the closure |
| XorSpan.XorClosure | matrix-heuristic-and-sat-analysis/find_pairs_outside_space.py:36-45 | iterating pairwise XORs until the size stops changing yields exactly the span (empty for no values) |
| XorSpan.GenerateXorClosure | matrix-heuristic-and-sat-analysis/find_pairs_outside_space.py:34-47 | returns the span of the values, strictly ascending, and nothing for an empty input |
| OutsidePairs.Outside | matrix-heuristic-and-sat-analysis/find_pairs_outside_space.py:57-58 | the outside values are exactly the words below 2^w not in the space, ascending |
| OutsidePairs.OutsideCount | matrix-heuristic-and-sat-analysis/find_pairs_outside_space.py:57-58 | the space and the outside values split the 2^w words |
| OutsidePairs.PresentOutside | matrix-heuristic-and-sat-analysis/find_pairs_outside_space.py:64 | the present outside values are exactly the present values not in the space |
| OutsidePairs.PresentOutsideAscending | matrix-heuristic-and-sat-analysis/find_pairs_outside_space.py:64 | the comprehension keeps the order of the present values, so an ascending input gives an ascending result |
| OutsidePairs.PairsOutside | matrix-heuristic-and-sat-analysis/find_pairs_outside_space.py:70-76 | records (val1, val2, val1 ^ val2) exactly for the ascending pairs of outside values that are both present, each once, in ascending (val1, val2) order |
| OutsidePairs.PairsWith | matrix-heuristic-and-sat-analysis/find_pairs_outside_space.py:72-76 | the inner loop appends the pairs of outside[i] with every later outside value, both present, after the pairs already recorded and in ascending order |
| OutsidePairs.RecordedBefore | matrix-heuristic-and-sat-analysis/find_pairs_outside_space.py:71-76 | every pair recorded before (outside[i], outside[j]) comes earlier in (val1, val2) order |
| OutsidePairs.ClassifyXors | matrix-heuristic-and-sat-analysis/find_pairs_outside_space.py:90-104 | each XOR is counted once as in or outside the space and once as present or missing, so both pairs of counts add up to the number of pairs |
| OutsidePairs.CountSplit | matrix-heuristic-and-sat-analysis/find_pairs_outside_space.py:95-104 | a test and its negation split the pairs between them |
| OutsidePairs.StayOutside | matrix-heuristic-and-sat-analysis/find_pairs_outside_space.py:115 | the pairs whose XOR lies outside the space, as many as the outside count |
| OutsidePairs.OutsideClosure | matrix-heuristic-and-sat-analysis/find_pairs_outside_space.py:125-128 | the closure holds the outside values and the XOR of every ordered pair of them |
| OutsidePairs.XorWithAll | matrix-heuristic-and-sat-analysis/find_pairs_outside_space.py:127-128 | the inner loop adds the XOR of outside[i] with every outside value |
| OutsidePairs.OutsideReachesAll | matrix-heuristic-and-sat-analysis/find_pairs_outside_space.py:125-128 | outside an XOR-closed set, XORs of outside values reach every word below 2^w |
| OutsidePairs.ClosureGrows | matrix-heuristic-and-sat-analysis/find_pairs_outside_space.py:125-128 | the closure is larger than the outside list exactly when the space is not empty |
| OutsidePairs.FindPairsOutside | matrix-heuristic-and-sat-analysis/find_pairs_outside_space.py:34-128 | end to end: the outside values are the words outside the span of the missing values, ascending; the present outside values are ascending and the pairs are as above, without repeats and in ascending order; the counts classify the pairs, and the closure reaches every word when the missing list is non-empty |
| OutsidePairs.SpaceClosed | matrix-heuristic-and-sat-analysis/find_pairs_outside_space.py:50-51 | the closure of the missing values is XOR-closed, empty or not |
| DiffusionGrid.Entry | analyze_block_structure.py:50 | an entry of the bit grid is 0 or 1 |
| DiffusionGrid.GridRow | analyze_block_structure.py:48-50 | row i of the grid has one entry per column |
| DiffusionGrid.GridRoundTrip | analyze_block_structure.py:48-50 | round trip: reading the 0/1 entries of a grid row back as binary digits gives the row mask again |
| DiffusionGrid.ToGrid | analyze_block_structure.py:47-50 | the grid has one row per mask and entry (i, j) is bit j of mask i |
| DiffusionGrid.FillRow | matrix-heuristic-and-sat-analysis/visualize_diffusion_properties.py:45-46 | the inner loop leaves row i equal to the bit expansion of mask i |
| DiffusionGrid.DoubleCount | matrix-heuristic-and-sat-analysis/visualize_inv_diffusion.py:84-93 | counting the ones column by column gives the same total as counting the set bits of every row |
| DiffusionGrid.RowCounts | matrix-heuristic-and-sat-analysis/visualize_inv_diffusion.py:84-88 | row count i is the popcount of row i, at most the width, and the row counts add up to the total number of ones |
| DiffusionGrid.ColumnCounts | matrix-heuristic-and-sat-analysis/visualize_inv_diffusion.py:89-93 | counter c ends as the number of rows with bit c set, and the counters add up to the total number of ones |
| DiffusionGrid.AddRow | matrix-heuristic-and-sat-analysis/visualize_inv_diffusion.py:91-93 | after row i every counter counts the ones of its column in rows 0..i |
| DiffusionGrid.DiagonalOnes | matrix-heuristic-and-sat-analysis/visualize_inv_diffusion.py:107 | the count is the number of rows i whose bit i is set |
| DiffusionGrid.AffectedBy | matrix-heuristic-and-sat-analysis/visualize_diffusion_properties.py:78-81 | the list holds exactly the rows with bit c set, ascending, and its length is the column count of c |
| DiffusionGrid.Avalanche | matrix-heuristic-and-sat-analysis/visualize_diffusion_properties.py:111-113 | the count is the number of rows that input bit c reaches, at most the row count |
| DiffusionGrid.Symmetry | matrix-heuristic-and-sat-analysis/visualize_diffusion_properties.py:208-216 | is_symmetric holds exactly when entry (i, j) equals entry (j, i) for all i < j, is_antisymmetric exactly when no such pair is two ones |
| DiffusionGrid.SymmetryRow | matrix-heuristic-and-sat-analysis/visualize_diffusion_properties.py:212-216 | the inner loop extends both flags over the pairs of row i |
| DiffusionGrid.RotationDistance | matrix-heuristic-and-sat-analysis/visualize_diffusion_properties.py:151-156 | returns the least shift s with row1 equal to row2 rotated left by s, or -1 exactly when no shift matches |
| DiffusionGrid.RotationBack | matrix-heuristic-and-sat-analysis/visualize_diffusion_properties.py:151-156 | a found distance d can be undone: rotating row1 left by w - d gives row2 |
| DiffusionBlocks.BlockOnes | analyze_block_structure.py:62-69 | total counts the ones of block (br, bc) and diagonal those with i == j; total is at most b·b, diagonal at most b and at most total |
| DiffusionBlocks.BlockRowOnes | analyze_block_structure.py:65-69 | one row of the block adds its ones and its diagonal entry to the two counters |
| DiffusionBlocks.CountCells | analyze_block_structure.py:65-69 | the j loop counts the ones of a block row and picks out the one at j == i |
| DiffusionBlocks.BlockBounds | analyze_block_structure.py:62-70 | a block's total is at most b·b and its diagonal count is at most b and at most the total |
| DiffusionBlocks.BlockData | analyze_block_structure.py:57-71 | block_data is k rows of k (total, diagonal) pairs, one per block |
| DiffusionBlocks.BlocksSumToTotal | analyze_block_structure.py:57-71 | the k·k block totals add up to the number of ones in the matrix |
| DiffusionBlocks.Connections | analyze_block_structure.py:170-184 | internal counts the ones inside a diagonal block, cross those across blocks, and together they are every one of the matrix |
| DiffusionBlocks.ConnectionsRow | analyze_block_structure.py:174-182 | row i adds its in-block ones to internal and the rest to cross |
| DiffusionBlocks.InsideAndAcross | analyze_block_structure.py:177-184 | every one is either inside a diagonal block or across blocks, never both |
| DiffusionBlocks.AntiDiagonalMatch | analyze_block_structure.py:146-150 | the flag holds exactly when every anti-diagonal block has the same total as block (0, k-1) |
| PairBuilder.InverseMap | optimal_state_constructor.py:65-70 | one list per value, and the list of y holds exactly the x with s_low[x] == y, ascending |
| PairBuilder.MissingValues | matrix-heuristic-and-sat-analysis/analyze_working_state_patterns.py:52-55 | a value is missing exactly when it is below the table size and no table entry equals it |
| PairBuilder.ValidPairListMember | optimal_state_constructor.py:73-87 | a pair (even, odd) is listed for target byte tb exactly when s_low[even] ^ s_high[odd] == tb |
| PairBuilder.XorSolve | optimal_state_constructor.py:80 | the needed s_low value tb ^ s_high[odd] is the only a with a ^ s_high[odd] == tb |
| PairBuilder.AppendEvens | optimal_state_constructor.py:84-85 | appends one pair (even, odd) per preimage even of the needed value, in list order |
| PairBuilder.PairsFor | optimal_state_constructor.py:75-87 | the list built for one target byte contains exactly the pairs that produce that byte |
| PairBuilder.PrecomputeValidPairs | optimal_state_constructor.py:62-89 | one list per target position, each the list of exactly the pairs producing that position's byte |
| PairBuilder.VerifyFinalState | optimal_state_constructor.py:197-205 | true exactly when s_low[state[2i]] ^ s_high[state[2i+1]] equals target byte i at every position |
| PairBuilder.PairsMeetTarget | optimal_state_constructor.py:197-205 | a state that takes every position's pair from that position's list produces the target |
| PairBuilder.EmptyListUnmeetable | optimal_state_constructor.py:145 | when a position's list is empty no state produces the target, so skipping it cannot lose a solution |
| PairBuilder.CheckInverseValidity | optimal_state_constructor.py:207-215 | valid exactly when no byte of the previous state is a missing value; otherwise the first such index is reported |
| PairBuilder.ArgMinIsFirstMinimum | optimal_state_constructor.py:155 | the pair `min` returns has the least key and every earlier pair has a strictly greater key |
| PairBuilder.ArgMaxIsFirstMaximum | optimal_state_constructor.py:166-171 | the strict `>` scan keeps the first pair of greatest key |
| PairBuilder.DiverseRunPrefix | optimal_state_constructor.py:161-177 | the pair chosen at a position depends only on the positions before it |
| PairBuilder.ChosenFromList | optimal_state_constructor.py:142-193 | every strategy writes at each nonempty position a pair from that position's list |
| PairBuilder.ChosenIsBest | optimal_state_constructor.py:150-193 | minimal picks a pair of least sum, structured a pair of least gap on '!' positions, diverse a pair with the most unused values |
| PairBuilder.Place | optimal_state_constructor.py:147-148 | writes the pair at bytes 2 pos and 2 pos + 1 and leaves every other byte unchanged |
| PairBuilder.PickSimple | optimal_state_constructor.py:144-193 | the pair picked at one position is the strategy's choice |
| PairBuilder.FillSimple | optimal_state_constructor.py:142-193 | the balanced, minimal and structured loops put the strategy's choice at every position |
| PairBuilder.MostUnused | optimal_state_constructor.py:165-171 | the scan returns the first pair with the greatest number of values not yet used |
| PairBuilder.FillDiverse | optimal_state_constructor.py:159-177 | the diverse loop puts at every position the pair the diverse run chooses |
| PairBuilder.DiverseStep | optimal_state_constructor.py:163-177 | one position extends the run, writes its pair and leaves the earlier and later positions alone |
| PairBuilder.ConstructFinalState | optimal_state_constructor.py:128-195 | the state is 32 bytes and every position holds the strategy's choice from the precomputed lists |
| PairBuilder.ConstructedInTables | optimal_state_constructor.py:128-195 | every byte of a constructed state is a table index below 256 |
| PairBuilder.TryState | optimal_state_constructor.py:238-251 | the state holds the strategy's choice at every position; kept exactly when it produces the target from table pairs and, when the inverse exists, no byte of its previous state is missing |
| PairBuilder.GenerateWorkingStates | optimal_state_constructor.py:217-259 | no inverse exactly when the diffusion is singular; at most num states are kept, all working, and fewer only when all num·100 attempts were spent |
| PairBuilder.GenerateSmartSeed | matrix-heuristic-and-sat-analysis/analyze_working_state_patterns.py:265-295 | fails exactly when some position has no pair; otherwise every position holds a pair drawn from its own list |
| PairBuilder.FillOthers | matrix-heuristic-and-sat-analysis/analyze_working_state_patterns.py:286-293 | every position other than the start receives its drawn pair |
| PairBuilder.TotalCombinations | matrix-heuristic-and-sat-analysis/analyze_working_state_patterns.py:309-311 | the product of the list lengths, positive exactly when no list is empty |
| PairBuilder.CombinationsPositive | matrix-heuristic-and-sat-analysis/analyze_working_state_patterns.py:309-311 | the product of the list lengths is positive exactly when no list is empty |
| Gf2Poly.Deg | berlekamp.cpp:7-11 | -1 exactly for the zero polynomial, otherwise at least 0 |
| Gf2Poly.DegBounds | berlekamp.cpp:7-11 | a nonzero polynomial of degree d lies between 2^d and 2^(d+1) |
| Gf2Poly.DegTopBit | berlekamp.cpp:7-11 | the degree is the highest set coefficient: it is set and none above it is |
| Gf2Poly.Degree | berlekamp.cpp:7-11 | the downward scan returns the degree, -1 when no bit is set |
| Gf2Poly.IsConst | berlekamp.cpp:12-14 | with `one` true exactly for the polynomial 1, otherwise true exactly for 0 |
| Gf2Poly.ClMulComm | berlekamp.cpp:16-23 | the carry-less product is commutative |
| Gf2Poly.ClMulAssoc | berlekamp.cpp:16-23 | the carry-less product is associative |
| Gf2Poly.ClMulXorLeft | berlekamp.cpp:16-23 | the product distributes over XOR in the left factor |
| Gf2Poly.ClMulXorRight | berlekamp.cpp:16-23 | the product distributes over XOR in the right factor |
| Gf2Poly.DegClMul | berlekamp.cpp:16-23 | degrees add under the product, so there are no zero divisors |
| Gf2Poly.MulStep | berlekamp.cpp:20-21 | one pass adds b << i, cut to the width, exactly when bit i of a is set |
| Gf2Poly.Mul | berlekamp.cpp:16-23 | the result is the exact product cut to the bitset width |
| Gf2Poly.MulExact | berlekamp.cpp:16-23 | when the degrees leave room the cut product is the exact product |
| Gf2Poly.CancelTop | berlekamp.cpp:29-31 | XORing b << (deg a - deg b) into a strictly lowers the degree of a |
| Gf2Poly.Division | berlekamp.cpp:25-34 | a == q·b + r with deg r < deg b |
| Gf2Poly.DivisionUnique | berlekamp.cpp:25-34 | any q, r with a == q·b + r and deg r < deg b are the quotient and the remainder |
| Gf2Poly.DivStep | berlekamp.cpp:28-32 | one pass keeps a0 == q·b + a, lowers deg a and stays inside the width |
| Gf2Poly.DivOrRem | berlekamp.cpp:25-34 | returns the remainder or the quotient of a0 by b, inside the width |
| Gf2Poly.Rem | berlekamp.cpp:35 | returns the remainder of the division |
| Gf2Poly.Quo | berlekamp.cpp:36 | returns the quotient of the division |
| Gf2Poly.RemainderOfProduct | berlekamp.cpp:54 | remainders may be taken before multiplying without changing the remainder of the product |
| Gf2Poly.DividesExactly | berlekamp.cpp:95 | a divisor d of a divides it exactly: d·(a / d) == a and the remainder is zero |
| Gf2Poly.CommonDivisorsStep | berlekamp.cpp:39 | with a == q·b + r, a and b have the same common divisors as b and r |
| Gf2Poly.GcdDivisors | berlekamp.cpp:38-41 | the divisors of gcd(a, b) are exactly the common divisors of a and b |
| Gf2Poly.GcdIsGreatest | berlekamp.cpp:38-41 | gcd(a, b) divides both and every common divisor divides it |
| Gf2Poly.Gcd | berlekamp.cpp:38-41 | the Euclidean loop returns gcd(a, b), a common divisor of both, inside the width |
| Factoring.Powers | berlekamp.cpp:50-54 | xp has deg f entries below x^(deg f), xp[0] == 1, and xp[j] == x^(2j) mod f when 2 deg f fits the width |
| Factoring.PowerStep | berlekamp.cpp:54 | one step of the table gives x^(2j) mod f from x^(2j-2) mod f |
| Factoring.BerlekampMatrix | berlekamp.cpp:56-60 | bit j of row i is set exactly when coefficient i of xp[j] differs from (i == j): the transpose of the powers table minus the identity |
| Factoring.MatrixRow | berlekamp.cpp:57-60 | row i of Q - I, below 2^n |
| Factoring.SetBit | berlekamp.cpp:58 | `set(j)` sets bit j and no other |
| Factoring.FlipBit | berlekamp.cpp:59 | `flip(i)` toggles bit i and no other |
| Factoring.FindPivot | berlekamp.cpp:66 | the first row from `row` on with bit col set, or -1 exactly when there is none |
| Factoring.ClearColumn | berlekamp.cpp:70-71 | every other row with bit col set gets the pivot row XORed in; the pivot row and the other rows stay |
| Factoring.DotXor | berlekamp.cpp:71 | the dot product is linear in the row, so `M[r] ^= M[row]` XORs the products |
| Factoring.SwapAnnihilates | berlekamp.cpp:68 | `swap(M[row], M[sel])` leaves the kernel of the matrix unchanged |
| Factoring.ClearAnnihilates | berlekamp.cpp:70-71 | XORing the kept pivot row into other rows leaves the kernel of the matrix unchanged |
| Factoring.PivotRowsStep | berlekamp.cpp:69-72 | recording `piv[col] = row` and incrementing row keeps every row above it the pivot row of some column |
| Factoring.Eliminate | berlekamp.cpp:62-73 | the matrix ends in reduced row-echelon form: piv records the pivot rows, every row above the rank is a pivot row and every row past it is zero; and a vector is in the kernel of the result exactly when it is in the kernel of the input |
| Factoring.KernelVectorOf | berlekamp.cpp:76-79 | the vector built for free column col has bit col and, among the other columns, exactly the pivot columns whose pivot row has bit col |
| Factoring.KernelVectorAnnihilates | berlekamp.cpp:74-80 | that vector lies in the kernel of the echelon matrix: each pivot row shares with it either nothing or exactly its pivot bit and bit col |
| Factoring.FreeColumnVector | berlekamp.cpp:76-79 | the vector of one free column, in the kernel of the echelon matrix |
| Factoring.CombinationAtFree | berlekamp.cpp:76-79 | a combination of the kernel vectors has bit cols[j] exactly when the mask selects vector j |
| Factoring.CombinationAnnihilates | berlekamp.cpp:89-90 | every combination of kernel vectors is in the kernel |
| Factoring.CombinationsIndependent | berlekamp.cpp:86-90 | every nonzero mask below 2^k gives a nonzero combination: the vectors are independent, so the mask loop never tests the same g twice |
| Factoring.FreeMaskBits | berlekamp.cpp:76-79 | the mask built from a vector's free bits is below 2^k and selects vector i exactly when the vector has bit cols[i] |
| Factoring.PivotBitClear | berlekamp.cpp:74-80 | a kernel vector without bits at the free columns has no bit at any pivot column either |
| Factoring.KernelSpanned | berlekamp.cpp:74-80 | every kernel vector of the echelon matrix is the combination that its free bits select |
| Factoring.FreeVectorsBasis | berlekamp.cpp:74-80 | the free-column vectors of an echelon matrix form a basis of its kernel |
| Factoring.BasisOfSameKernel | berlekamp.cpp:62-80 | a basis of the kernel of the reduced matrix is a basis of the kernel of Q - I |
| Factoring.KernelBasis | berlekamp.cpp:74-80 | one kernel vector per free column, in column order, forming a basis of the kernel: in it, independent and spanning |
| Factoring.Combine | berlekamp.cpp:89-90 | g is the XOR of the kernel vectors whose bit is set in the mask |
| Factoring.GcdSplits | berlekamp.cpp:92-95 | a nonzero gcd with f times f divided by it is f |
| Factoring.TrySplit | berlekamp.cpp:86-98 | on a split the mask is in range and the first that splits, g is neither 0 nor 1, d == gcd(f, g) is a proper nonzero divisor and d·(f / d) == f; no split means no mask below 2^k splits |
| Factoring.FactorOne | berlekamp.cpp:46-98 | f is kept as irreducible exactly when its degree is at most 1 or the kernel of Q - I has a basis of at most one vector; otherwise it is split at the first mask whose combination has a proper gcd d with f, d·(f / d) == f, and it is dropped exactly when no mask splits it |
| Factoring.Berlekamp | berlekamp.cpp:43-101 | every output fits the width, and a finished run multiplies out to P together with the factors the loop lost |
| Factoring.Dfs | berlekamp.cpp:103-128 | the recorded set grows by exactly the pairs (c, P / c) over the subset products c the pruned search reaches |
| Factoring.LeavesAreSubsetProducts | berlekamp.cpp:105-127 | every leaf of the search is a product of a subset of the factors, of degree below size |
| Factoring.SubsetProductsAreLeaves | berlekamp.cpp:105 | with room in the bitset, pruning loses nothing: every subset product of degree below size is a leaf |
| Factoring.PairsFactorP | berlekamp.cpp:106-123 | every recorded pair multiplies to P and both halves have degree below size |
| Factoring.PairsComplete | berlekamp.cpp:103-128 | every subset product c with c and P / c of degree below size is recorded |
| MaskLut.EntryByte | generate_lut.py:11-18 | byte i of an entry is 0xFF exactly when bit i mod 8 of the mask is set, and 0x00 otherwise |
| MaskLut.EntryPeriodic | generate_lut.py:15-18 | every entry repeats with period 8 |
| MaskLut.EntryExtremes | generate_lut.py:11-18 | mask 0 gives all 0x00 and mask 255 all 0xFF |
| MaskLut.MaskOfEntry | generate_lut.py:11-18 | round trip: the first eight bytes of the entry spell the mask back |
| MaskLut.EntryInjective | generate_lut.py:10-18 | distinct masks give distinct entries |
| MaskLut.BuildEntry | generate_lut.py:11-18 | the built list is the entry for the mask |
| MaskLut.SetLanes | generate_lut.py:13-18 | sets the four copies of bit and leaves the other bytes as they were |
| MaskLut.HexByteValue | generate_lut.py:20 | round trip: the two printed hexadecimal digits read back as the byte |
| MaskLut.JoinHexLayout | generate_lut.py:20 | byte i is printed at column 5 i, each followed by a comma except the last |
| MaskLut.LineLayout | generate_lut.py:20-22 | a line ends with a comma exactly when one was asked for, and byte i is printed at column 5 + 5 i |
| MaskLut.GenerateLut | generate_lut.py:6-25 | three header lines, then one line per mask in increasing order with a comma except after mask 255, then the closing line |
| MaskLut.TableLines | generate_lut.py:10-25 | line 3 + mask holds the 32 bytes of the entry, and only the line for mask 255 lacks the trailing comma |

## Left out

- Output: every `printf`, `cout` and Python `print` that reports progress or statistics. So are file output (print_inv_diffusion.py writes a text file) and the plotting of the visualisation scripts. Where a printed line is the product (generate_lut.py), it is modelled as a returned list of strings.
- Timing, profiling and benchmarking code, and the `main` drivers that only parse arguments or stdin and call the modelled functions. This includes the input parsing of berlekamp.cpp:130-152.
- The AVX2 and NEON branches of `dot_row_optimized` (hireme2_safe_optimized.c:110-204). Only the scalar loop is modelled; the vector code is meant to return the same byte.
- Concurrency, memory allocation and `free`.
- `malloc` failure is an oracle parameter (`allocates`). Any allocation may fail, and the contracts then state only what the C does on failure.
- `rand()` is an oracle: the function `rand: nat -> nat` gives the value of the k-th call, and methods thread the call count. The model does not say which numbers a real generator produces.
- `exit(1)` after the last failed attempt of build_final_state is modelled as a returned `ok == false`.
- FinalState.RetryAttempts: the `while (1)` of hireme_sat_solver.cpp:184-244 retries forever. The model runs at most `maxAttempts` attempts and returns `ok == false` when all of them fail. So it does not capture a run that never ends, and it does not prove that some attempt succeeds; it proves what each outcome means.
- Fixed-width integers are modelled as `nat` where the values provably stay in range or the source does not depend on the width. For example, `int total_solutions_found` (hireme_sat_solver.cpp:250) is `count: nat` in SatSearch.SolutionStore. Widths that matter are explicit: `u8` preimage counters that wrap at 256, 32-bit masks, 64-bit augmented rows, the 512-bit `bitset` of berlekamp.cpp.
- The concrete constants of the repository (the confusion table, the diffusion matrix, the target string) are parameters. The Python copies of S_low in optimal_state_constructor.py and analyze_working_state_patterns.py hold 0xfd at index 253 where the C table holds 0x29. The model is generic in the table, so it covers both, but it does not evaluate either.
- The Z3 stage of hireme_sat_solver.cpp:508-576 is not modelled. The Z3 and CryptoMiniSat solvers themselves are oracles: the model states what any model of the generated formula means, not how a solver finds one.
- The Z3 round loop at hireme_sat_solver.cpp:531 starts at 10 and runs while below 10, so it never executes. Before enumeration the only constraints are the 32 equalities of hireme_sat_solver.cpp:526-528, which pin the bytes of the round-256 state S[256] to the constructed final state. The enumeration loop (hireme_sat_solver.cpp:563-575) then adds, after each model, a blocking clause that excludes that model's S[0] (`block_model`, hireme_sat_solver.cpp:555-561, called at :573). S[0] is otherwise unconstrained, so the enumeration lists every value of S[0] and does not end in practice. All of this belongs to the unmodelled Z3 stage.
- Floating-point statistics (densities, probabilities, averages, percentages) in the Python scripts. The integer counts they are computed from are modelled.
- The random trials of analyze_working_state_patterns.py:196-256 (zero-padded and arithmetic test patterns) and its weight listings (135-188) only print statistics.
- The subprocess call and trace parsing of extract_dfs_patterns.py. Its table analysis is modelled in SboxStats.
- The count `non_identity_count` in the identity check of visualize_inv_diffusion.py:126-136. The pass/fail verdict is GaussJordan.TestMatrixInversion.
- Python dictionaries keyed by value are modelled as a list indexed by value, with an empty list for a key that was never set. `inv_s_low` in optimal_state_constructor.py is one example.
- Factoring.Powers: the table equals x^(2j) mod f only when 2·deg f fits the 512-bit width. Otherwise the bitset product `mul` silently drops high coefficients, and the model states only the bounds.
- Factoring.TrySplit: `1u << k` overflows once the kernel has 32 or more vectors; the model enumerates masks below 2^k.
- Factoring.Berlekamp: the worklist loop runs for at most `fuel` passes, and `finished` reports whether it emptied. The source removes a polynomial that no mask splits without recording it; the model keeps such polynomials in a ghost list `dropped`. The model proves that the recorded factors times the dropped ones multiply to P. It does not prove that the recorded factors are irreducible.
- Factoring.PairsComplete and Factoring.SubsetProductsAreLeaves are stated only when no running product overflows the 512-bit width.
- StackDfs.InverseRoundsStack and StackDfs.InverseRoundsStackAsWritten run for at most `fuel` pops. The C loop is bounded only by the finite tree.
- Bfs, Heuristic and AllPaths use the corrected radix loop (see Findings). The as-written loop, which leaves later radices unset, is modelled only as the functions and lemmas named there.
- Heuristic.ScoreCombination scores a combo by the branching of its child. The search of hireme2_heuristic.c, as written, gives every combo the same score (see Findings).

## Findings

| source | as written | input that shows it | evidently intended | confidence | as-written member | corrected member |
|---|---|---|---|---|---|---|
| hireme2_heuristic.c:125-141 | a combo is scored by summing `inv_low_count[confusion[inv_low[v[j]][i]]]` over the multi-choice positions (lines 132-133 and 119-121). Since `confusion[inv_low[y][i]] == y`, this is the count of v[j] itself, so every combo of a node gets the same score and the sort by score reorders nothing | any node with at most 1000 combos whose children branch differently | score a combo by the branching of the child it produces, so the most promising children come first | not executed | Heuristic.ScoreAsWritten, Heuristic.ScoreConstant | Heuristic.ChildScore, Heuristic.ScoreCombination |
| hireme2.c:321-339 | the radix loop `break`s once the running product passes the cap, leaving `choices_per_pos[j+1..31]` unwritten. The decode loop still divides by all 32 entries and so reads uninitialised stack memory. The same loop is at hireme2_heuristic.c:212-219 and 267-271 and at analyze_all_paths.c:186-205 | v with two preimages at every byte: the loop stops at position 19 (BFS), 15 (heuristic DFS) or 16 (all-paths BFS) | record every radix, capping only the number of combos tried | not executed | SearchCore.ChoicesAsWritten, SearchCore.DigitsAsWritten, Bfs.UnsetRadixRead, Heuristic.UnsetRadixRead, AllPaths.UnsetRadixRead | SearchCore.ChoicesAndTotal |
| hireme2_optimized.c:326-379 | the first child is written into the slot of the popped parent, and `new_node->round = current->round + 1` then reads that slot, so every later sibling gets the parent's round + 2 | any node with two or more children: the second child is labelled two rounds deeper than its parent | every child gets the parent's round + 1 | not executed | StackDfs.PushChildrenAsWritten, StackDfs.InverseRoundsStackAsWritten | StackDfs.PushChildren, StackDfs.InverseRoundsStack |
| matrix-heuristic-and-sat-analysis/analyze_all_paths.c:196-220 | the combo loop is guarded by `state_count < 10000000`, but `state_count` stays 1. The `break` at `next_end >= 10000000` only leaves the current node's loop, so the next node with a combo writes `states[10000000]`, one past the end of the buffer | a level during which next_end reaches 10,000,000 while a later node of that level still has a valid v | guard the loop by next_end, so that no node is expanded once the buffer is full | not executed | AllPaths.CombosAsWritten, AllPaths.OverflowWrite | AllPaths.ExpandNode, AllPaths.CombosAsWrittenBelow |
| matrix-heuristic-and-sat-analysis/missing_values_rank.py:103-113 | the basis rows are chosen by looking for pivots in the ORIGINAL matrix A, not in the reduced one. So the "basis" can contain dependent rows | the values 1, 6, 7, 8 (rank 3): the script reports rows 0, 1, 2, and 1 ^ 6 == 7 | report rank rows of A that are independent and span the same space | not executed | Gf2Rank.BasisIndicesAsWritten, Gf2Rank.BasisAsWrittenDependent | Gf2Rank.GreedyBasis |
| matrix-heuristic-and-sat-analysis/analyze_s_low_properties.py:80-92 | under the heading "LONGER CYCLES (length > 2)" the walk records a cycle only when it comes back to its own start (`current == start`, line 91). A cycle whose least entering start lies on a tail into it is walked through, marked visited, and never printed | the map [1, 2, 3, 1]: the walk from 0 visits 0, 1, 2, 3 and stops at 1 != 0, so the cycle 1 -> 2 -> 3 is lost. Such tails exist whenever the table is not a permutation | list every cycle of more than two values, by recording the part of the walk from the value it stopped at | not executed | SboxTables.FindCycles, SboxTables.TailCycleMissed | SboxTables.FindAllCycles |
