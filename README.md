# dessins: permutations, permutation pairs and their decompositions

This project is a Dafny model of the core of `py-dessins`, a Python library for
dessins d'enfants. A dessin is stored as a pair of permutations
(alpha, beta) of the edges 0, ..., n-1. The model covers the library's tools:

- checking that a sequence is a permutation;
- walking and listing the cycles of a permutation;
- a dynamic relabelling table;
- the Cartesian product of permutations;
- rebasing cycles and rebuilding a permutation from its cycles;
- base-62 strings;
- breadth-first relabelling of a pair;
- splitting a pair into its irreducible components, as the event stream
  `('S', x)`, `('a', cycle)`, `('b', cycle)`, `('E', x)`;
- the `BytesDessin` constructor.

Modules follow the source files:

- `Basics` (basics.dfy): shared definitions. Python exceptions are the `Error` kinds in `Result`. The event stream is the `Event` datatype.
- `PermTools` (permtools.dfy): `is_perm`, `iter_cycle`, `iter_seen_cycle`, `iter_cycles` of `py/dessins/permtools.py`. The copy of `is_perm` in `py/dessins/tools.py` is the same function and is modelled once.
- `Relabelling` (relabel.dfy): the class `Relabel` of `py/dessins/permtools.py`. It is a class whose `forward` updates two arrays in place.
- `CartProd` (cartprod.dfy): `iter_cartprod`.
- `CycleRebase` (rebase.dfy): `rebase_cycles` and `perm_from_cycles`.
- `OtherTools` (othertools.dfy): `bytes_from_str62` and `str62_from_bytes`.
- `PermPairTools` (permpairtools.dfy): `iter_component_cycles` and the class `IterCyclesState`.
- `Bfs` (bfs.dfy): `iter_bfs`.
- `Decompose` (decompose.dfy): `iter_cycle` and `iter_decompose` of `py/dessins/decompose.py`.
- `Work` (work.dfy): `iter_cycles` and `BytesDessin` of `py/dessins/work.py`.

Generators are modelled by what they yield in total. A generator that
raises yields `Err(kind)`; one that finishes yields `Ok(all items)`.
Loops that update state are methods with loop invariants. Each method
is proved equal to a specification function (`CycleOf`, `Cart`,
`BfsSpec`, `Decomposition`, `ComponentCycles`, `PermFromCyclesSpec`), or
it states the decomposition property directly. The lemmas then prove what
the source promises about those functions: round trips, partitions,
ordering, and which inputs fail.

The `SetDiff` helper that `permpairtools.py` imports from `othertools`
is not part of this model's source text. It is modelled by its use:
`missing.update(k, e)` moves each element of `e` to side k, unless the
element is already waiting on the other side, in which case it is removed
from that side (`PermPairTools.Update`). `missing[k]` is the k-th side.

## Model

| member | source | states |
|---|---|---|
| PermTools.Sort | py/dessins/permtools.py:103-104 | the sorted copy is in non-decreasing order and has exactly the entries of the input, with multiplicity |
| PermTools.IsPerm | py/dessins/permtools.py:92-105 | `is_perm(seq)` holds exactly when every entry lies in 0..len-1 and no entry repeats |
| PermTools.IsPermCorrect | py/dessins/tools.py:7-20 | the sorted copy equals `range(len)` if and only if the entries are in range and pairwise distinct |
| PermTools.IsPermSound | py/dessins/permtools.py:104-105 | a sequence whose sorted copy is `range(len)` has every entry in range and none repeated |
| PermTools.IsPermComplete | py/dessins/permtools.py:104-105 | a sequence with entries in range and none repeated sorts to `range(len)` |
| PermTools.RearrangementIsPerm | py/tests/test_permtools.py:19-24 | every rearrangement of `range(n)` passes `is_perm` |
| PermTools.IsPermAccepts | py/dessins/permtools.py:95-96 | `[0,1]`, `[1,0]`, `[1,2,0]` and the empty sequence pass |
| PermTools.IsPermRejects | py/dessins/permtools.py:97-98 | `[1]`, `[2,0,0]` and `[1,1]` fail |
| PermTools.CycleOf | py/dessins/permtools.py:108-132 | the walk from x succeeds exactly when some power 1..n of the map returns to x; then it is the cycle of x starting at x, at most n long; otherwise ValueError |
| PermTools.CycleClosed | py/dessins/permtools.py:152-153 | the entries of a cycle form a set the map sends into itself |
| PermTools.CycleDisjoint | py/dessins/permtools.py:172-178 | a cycle that starts outside a map-closed set is disjoint from it |
| PermTools.CycleDistinct | py/dessins/permtools.py:109 | a cycle repeats no index |
| PermTools.PermReturns | py/dessins/permtools.py:111 | on a permutation every walk returns to its start, so no ValueError |
| PermTools.PermCycleOk | py/dessins/permtools.py:111 | a walk that raises ValueError proves the map is not a permutation |
| PermTools.CycleOfExact | py/dessins/permtools.py:108-130 | any cycle of the map starting at x is the one the walk yields |
| PermTools.IterCycle | py/dessins/permtools.py:108-132 | the result is `Walk`: an empty map gives ValueError, a start out of range IndexError, a returning walk is the cycle through start (at most n long), and on a map into its own indices the result is `CycleOf` |
| PermTools.StopFrom | py/dessins/permtools.py:125-132 | the walk stops only by returning to start, by ValueError after n items, or by IndexError outside the map |
| PermTools.TrailCloses | py/dessins/permtools.py:125-130 | a walk that returns yields indices of the map, each the image of the one before, none of them start after the first, and the last maps back to start |
| PermTools.WalkCycle | py/dessins/permtools.py:108-132 | on any sequence of naturals, a walk that succeeds is the cycle through its start, at most n long |
| PermTools.WalkIsCycleOf | py/dessins/permtools.py:108-132 | on a map into its own indices the step-by-step walk equals `CycleOf`, the walk defined by powers of the map, so IndexError cannot occur |
| PermTools.WalkFails | py/dessins/permtools.py:108-132 | a failed walk from an index of the map proves the map is not a permutation; on a map into its own indices the error is ValueError |
| PermTools.TrailStep | py/dessins/permtools.py:126-130 | one loop step: from an index within the step budget, the walk either closes now or continues from the image |
| PermTools.WalkFacts | py/dessins/permtools.py:108-132 | collects the named cases of `Walk`: empty map, start out of range, returning walk, map into its own indices |
| PermTools.IterSeenCycle | py/dessins/permtools.py:135-149 | as `IterCycle`; afterwards `seen` marks exactly the old marks plus the indices the walk reached, which on success is the yielded cycle |
| PermTools.FindFalse | py/dessins/permtools.py:174 | -1 exactly when no unmarked index lies at or after `from`; otherwise the first such index |
| PermTools.ExtendDecomposition | py/dessins/permtools.py:170-178 | adding the cycle walked from the least unseen index keeps the cycles disjoint, least-first, with increasing starts and a closed union |
| PermTools.ProgressStep | py/dessins/permtools.py:170-178 | one round keeps `seen` equal to the set of indices on the cycles found |
| PermTools.FinishDecomposition | py/dessins/permtools.py:174-176 | when `find` returns -1, the cycles found are a full cycle decomposition |
| PermTools.IterCycles | py/dessins/permtools.py:152-178 | a permutation always succeeds; an error is ValueError or IndexError, and only ValueError when every entry is below n; the result lists cycles of perm, least element first, starts increasing, disjoint, covering 0..n-1 |
| Relabelling.ForwardBackward | py/dessins/permtools.py:73-89 | `forward` keeps the table injective, the returned label maps back to i, and the old table is a prefix of the new |
| Relabelling.ForwardFresh | py/dessins/permtools.py:78-89 | a new index gets label `size` and the table grows by one; a known index keeps its label and the table |
| Relabelling.ForwardIdempotent | py/dessins/permtools.py:39-43 | forwarding the same index twice gives the same label and table |
| Relabelling.ForwardAllFresh | py/dessins/permtools.py:19-23 | distinct new indices get the labels size, size+1, ... in order |
| Relabelling.Relabel.constructor | py/dessins/permtools.py:46-55 | a new table is empty and has the given maximum size |
| Relabelling.Relabel.Size | py/dessins/permtools.py:58-61 | `size` is the number of labels given out |
| Relabelling.Relabel.Backward | py/dessins/permtools.py:64-70 | returns the index with label i, or ValueError outside 0..size-1 |
| Relabelling.Relabel.Forward | py/dessins/permtools.py:73-89 | ValueError for a negative index, IndexError at or past maxsize, and otherwise the label of i with the table extended when i is new |
| Relabelling.RelabelDoctest | py/dessins/permtools.py:16-36 | 7,4,6,1,0 get labels 0..4 and map back; 9 then gets label 5 |
| Relabelling.ZeroOriginDoctest | py/dessins/permtools.py:39-43 | forwarding 4 twice into a fresh table returns 0 both times and gives out one label |
| CartProd.CartLength | py/dessins/permtools.py:181-186 | the product has as many entries as the product of the lengths |
| CartProd.CartAt | py/dessins/permtools.py:196-216 | entry i·m+j is m·p0[i] plus entry j of the product of the rest, where m is the size of the rest (the odometer order) |
| CartProd.CartPair | py/dessins/permtools.py:184-186 | for two factors, entry i·len(q)+j is len(q)·p[i]+q[j] |
| CartProd.CartPermutation | py/dessins/permtools.py:184-186 | the product of permutations is a permutation |
| CartProd.ScaledProduct | py/dessins/permtools.py:201-216 | summing the scaled terms over `itertools.product` gives the product permutation |
| CartProd.IterCartprod | py/dessins/permtools.py:181-216 | the factor loop and the sums compute the product permutation |
| CartProd.CartDoctest | py/dessins/permtools.py:189-193 | `210` times `0123` gives 8,9,10,11,4,5,6,7,0,1,2,3 |
| CycleRebase.BisectLeft | py/dessins/permtools.py:241-243 | the insertion point: entries before it are smaller, entries from it on are at least x |
| CycleRebase.BisectFinds | py/dessins/permtools.py:241-243 | a present value is found at its insertion point |
| CycleRebase.BisectOrder | py/dessins/permtools.py:222 | on present values, bisection preserves `<` and `==` in both directions |
| CycleRebase.RankCycle | py/dessins/permtools.py:241-243 | each entry is replaced by its rank among the sorted values |
| CycleRebase.Rebase | py/dessins/permtools.py:219-244 | the rebased cycles have the same number and lengths as the input |
| CycleRebase.RebaseOrder | py/dessins/permtools.py:219-222 | any two entries compare (`<`, `==`) after rebasing as before |
| CycleRebase.RebasePermutation | py/dessins/permtools.py:219-220 | rebasing disjoint cycles uses exactly 0..n-1 with no gaps |
| CycleRebase.SortDoctest | py/dessins/permtools.py:235-238 | 9,3,7,4 sorts to 3,4,7,9 |
| CycleRebase.FlattenSortDoctest | py/dessins/permtools.py:235-238 | the values of `[[9,3,7],[4]]` sort to 3,4,7,9 |
| CycleRebase.RankDoctest | py/dessins/permtools.py:241-243 | ranks of 9,3,7 and of 4 among 3,4,7,9 are 3,0,2 and 1 |
| CycleRebase.RebaseDoctest | py/dessins/permtools.py:223-225 | `[[9,3,7],[4]]` rebases to `[[3,0,2],[1]]` |
| CycleRebase.Writes | py/dessins/permtools.py:266-269 | a cycle's writes are (last, first) and then each entry to the next |
| CycleRebase.ApplyWrites | py/dessins/permtools.py:268 | writes keep the length and fail only with IndexError |
| CycleRebase.ApplyWritesOk | py/dessins/permtools.py:268 | the writes succeed if and only if every target index is in range |
| CycleRebase.FillCycles | py/dessins/permtools.py:263-269 | filling keeps the length and fails only with IndexError |
| CycleRebase.FillCyclesOk | py/dessins/permtools.py:259-269 | filling succeeds if and only if every cycle is non-empty and in range |
| CycleRebase.FillCyclesAt | py/dessins/permtools.py:263-269 | on disjoint in-range cycles, each entry maps to its successor on its cycle and other entries are untouched |
| CycleRebase.PermFromCycles | py/dessins/permtools.py:247-271 | the loop computes the length, the placeholders and the writes of every cycle |
| CycleRebase.PermFromDecomposition | py/dessins/permtools.py:247-257 | round trip: the cycle decomposition of a permutation p rebuilds p |
| CycleRebase.FillPermutationCycles | py/dessins/permtools.py:248-256 | when the cycles flatten to a permutation, every entry is filled with an index below n |
| CycleRebase.PermFromRebased | py/dessins/permtools.py:219-256 | rebasing disjoint non-empty cycles and rebuilding leaves no placeholder |
| CycleRebase.PermFromCyclesDoctest | py/dessins/permtools.py:250-254 | `[]` gives `[]`; `[[3,0,1,2]]` gives `[1,2,3,0]` |
| OtherTools.Base62Shape | py/dessins/othertools.py:5 | the alphabet is the 10 digits, 26 lower-case and 26 upper-case letters in order |
| OtherTools.Lookup | py/dessins/othertools.py:6 | found exactly for alphabet characters, with the index of the character |
| OtherTools.LookupInverts | py/dessins/othertools.py:6 | the lookup of the i-th character is i |
| OtherTools.BytesFromStr62 | py/dessins/othertools.py:7-24 | succeeds exactly when every character is in the alphabet, giving each its index; otherwise ValueError |
| OtherTools.CharAt | py/dessins/othertools.py:43 | Python indexing of the alphabet: -62..61 are valid and negatives count from the end |
| OtherTools.Str62FromBytes | py/dessins/othertools.py:27-45 | succeeds exactly when every value is in -62..61, with each character as `CharAt`; otherwise ValueError |
| OtherTools.StrRoundTrip | py/dessins/othertools.py:27-32 | encoding a decoded string gives the string back |
| OtherTools.BytesRoundTrip | py/dessins/othertools.py:42-43 | decoding an encoded sequence of values below 62 gives it back |
| OtherTools.NegativeWraps | py/dessins/othertools.py:38-40 | -1 encodes as `Z` and -62 as `0` |
| OtherTools.DecodedByLookup | py/dessins/othertools.py:21-22 | each decoded value is the lookup of its character |
| OtherTools.DecodeExample | py/dessins/othertools.py:10-12 | `09azAZ` decodes to 0,9,10,35,36,61 |
| OtherTools.EncodeExample | py/dessins/othertools.py:30-32 | 0,9,10,35,36,61 encodes to `09azAZ` |
| OtherTools.ErrorExamples | py/dessins/othertools.py:17-36 | `abc$` and the value 62 raise ValueError |
| PermPairTools.Update | py/dessins/permpairtools.py:134-135 | an update keeps the two sides disjoint, leaves elements outside e alone, and moves each element of e to side k unless it waited on the other side |
| PermPairTools.UpdateTracks | py/dessins/permpairtools.py:134-135 | `missing` stays (on alpha-cycles minus on beta-cycles, on beta-cycles minus on alpha-cycles) |
| PermPairTools.Falses | py/dessins/permpairtools.py:75 | a fresh `bytearray(n)` marks nothing |
| PermPairTools.Mark | py/dessins/permtools.py:143 | after the walk, exactly the old marks and the cycle's indices are set |
| PermPairTools.InitialInv | py/dessins/permpairtools.py:70-84 | a fresh state satisfies the invariant |
| PermPairTools.Advance | py/dessins/permpairtools.py:128-137 | `get_key_cycle` keeps the invariant, lowers the potential, and adds the cycle to the covered edges of its side only |
| PermPairTools.NextWalk | py/dessins/permpairtools.py:108-120 | the next walk is the seed, else the least edge waiting for alpha, else the least edge waiting for beta; none when nothing waits |
| PermPairTools.CycleRun | py/dessins/permpairtools.py:103-125 | the cycle loop fails only with ValueError |
| PermPairTools.CycleRunEnds | py/dessins/permpairtools.py:108-125 | a finished loop leaves nothing missing, so the ValueError at lines 122-123 is unreachable; marks only grow; the seed is marked |
| PermPairTools.CycleRunStep | py/dessins/permpairtools.py:108-118 | one round yields the walked cycle and the run continues from the updated state |
| PermPairTools.CycleRunFails | py/dessins/permpairtools.py:132 | a walk that does not return makes the whole loop ValueError |
| PermPairTools.CycleRunDone | py/dessins/permpairtools.py:119-120 | with no seed and nothing missing the loop yields nothing |
| PermPairTools.CycleRunEvents | py/dessins/permpairtools.py:108-118 | the loop yields only cycles, and the first is the alpha-cycle of the seed |
| PermPairTools.CycleRunSides | py/dessins/permpairtools.py:108-125 | the cycles of each side are cycles of that map, disjoint, new, and exactly what that side newly covers |
| PermPairTools.Components | py/dessins/permpairtools.py:87-100 | the component loop fails only with ValueError |
| PermPairTools.ComponentsStep | py/dessins/permpairtools.py:42-46 | each component is `('S', e)`, its cycles, `('E', e)`, followed by the rest from the new marks |
| PermPairTools.ComponentsCover | py/dessins/permpairtools.py:42-46 | on each side, the yielded cycles are cycles of that map and partition the unseen edges |
| PermPairTools.ComponentCyclesCover | py/dessins/permpairtools.py:16-46 | for each of alpha and beta, the yielded cycles partition all edges into cycles of that map |
| PermPairTools.ComponentsTags | py/dessins/permpairtools.py:87-100 | start and end tags agree, increase, are unseen edges, and the first is the least unseen edge |
| PermPairTools.ComponentsSeedFirst | py/dessins/permpairtools.py:110-112 | each `('S', e)` is followed by the alpha-cycle of e |
| PermPairTools.ComponentCyclesShape | py/dessins/permpairtools.py:16-46 | the stream is empty exactly for no edges, opens with `('S', 0)`, has matching increasing tags, and each component opens with its alpha-cycle |
| PermPairTools.CycleRunPermOk | py/dessins/permpairtools.py:108-123 | on two permutations the cycle loop always succeeds |
| PermPairTools.ComponentsPermOk | py/dessins/permpairtools.py:87-100 | on two permutations the component loop always succeeds |
| PermPairTools.PermPairOk | py/dessins/permpairtools.py:16-46 | a pair of permutations of equal length never raises |
| PermPairTools.IdentityComponents | py/dessins/permpairtools.py:25-31 | two identities of length n give one component per edge: S k, a(k), b(k), E k |
| PermPairTools.IdentityDoctest | py/dessins/permpairtools.py:25-31 | the `''`, `'0'` and `'01'` doctests |
| PermPairTools.TransitiveComponent | py/dessins/permpairtools.py:34-35 | when alpha's and beta's cycles from 0 both cover every edge, there is one component with those two cycles |
| PermPairTools.AlphaTransitiveComponent | py/dessins/permpairtools.py:36-37 | alpha one cycle and beta the identity: one component, then every beta fixed point in increasing order |
| PermPairTools.BetaTransitiveComponent | py/dessins/permpairtools.py:38-39 | alpha the identity and beta one cycle: a(0), the beta-cycle, then the remaining alpha fixed points |
| PermPairTools.FixedRun | py/dessins/permpairtools.py:113-118 | waiting fixed points are walked least first, one cycle each |
| PermPairTools.RotationsDoctest | py/dessins/permpairtools.py:34-35 | `('120','201')` gives S0, a(0,1,2), b(0,2,1), E0 |
| PermPairTools.AlphaRotationDoctest | py/dessins/permpairtools.py:36-37 | `('120','012')` gives S0, a(0,1,2), b(0), b(1), b(2), E0 |
| PermPairTools.BetaRotationDoctest | py/dessins/permpairtools.py:38-39 | `('012','201')` gives S0, a(0), b(0,2,1), a(1), a(2), E0 |
| PermPairTools.IterCyclesState.constructor | py/dessins/permpairtools.py:70-84 | a new state marks nothing, is in COMPONENT mode, and has nothing missing and no seed |
| PermPairTools.IterCyclesState.NextComponent | py/dessins/permpairtools.py:87-100 | StateError in CYCLE mode; otherwise the least unseen edge, which becomes the seed and switches to CYCLE mode, or none when all are seen |
| PermPairTools.IterCyclesState.GetKeyCycle | py/dessins/permpairtools.py:128-137 | walks the cycle of the edge, marks it, and records its edges as waiting for the other map |
| PermPairTools.IterCyclesState.Round | py/dessins/permpairtools.py:108-137 | one pass of the loop agrees with `CycleRun` and `CycleRunHalt`, keeps the invariant and lowers the potential; on ValueError `missing` and `seed` are unchanged, the failed walk's trail is marked, and the object holds the halted state |
| PermPairTools.CycleRunHaltErr | py/dessins/permpairtools.py:108-125 | the loop has a halted state exactly when it raises ValueError, and that state has only gained marks |
| PermPairTools.CycleRunHaltStep | py/dessins/permpairtools.py:108-120 | a walk that returns leaves the halted state of the rest of the loop unchanged |
| PermPairTools.CycleRunHaltFails | py/dessins/permpairtools.py:108-135 | a walk that fails halts the loop with its trail marked, `missing` as it was and the seed kept (`self.seed = []` runs only after the yield) |
| PermPairTools.RoundReturns | py/dessins/permpairtools.py:108-120 | after a `get_key_cycle` that returns, the invariant holds, the potential drops, and the rest of the loop's events and halted state continue from the new state without the seed |
| PermPairTools.RunFinished | py/dessins/permpairtools.py:108-125 | when the loop breaks, the run from the start is exactly the events yielded, ending in the state reached with nothing missing and no seed, so no ValueError follows |
| PermPairTools.RoundFails | py/dessins/permpairtools.py:108-137 | after a failed `get_key_cycle` the loop raises ValueError and halts in the state the object now holds |
| PermPairTools.IterCyclesState.IterCycles | py/dessins/permpairtools.py:103-125 | StateError in COMPONENT mode; otherwise the events and final state of `CycleRun`, back in COMPONENT mode; on ValueError the mode stays CYCLE and `seen`, `missing` and `seed` are the halted state `CycleRunHalt` |
| PermPairTools.IterComponentCycles | py/dessins/permpairtools.py:16-46 | the driver yields exactly `ComponentCycles` |
| PermPairTools.OneEdgeRun | py/dessins/permpairtools.py:58-63 | for the one-edge pair, the first cycle walked is a(0) |
| PermPairTools.IterCyclesStateDoctest | py/dessins/permpairtools.py:52-67 | no components for no edges; component 0 and then `('a', (0,))` for one edge; StateError when calls come in the wrong mode |
| Bfs.Visit | py/dessins/bfs.py:31-32 | forwarding both images keeps labels injective, extends the table, and labels exactly the old edges plus the two images |
| Bfs.BfsFrom | py/dessins/bfs.py:23-35 | the walk keeps an injective in-range table extending the old one, and can only fail with ValueError or IndexError |
| Bfs.BfsFromNoIndexError | py/dessins/bfs.py:28-32 | on a pair with entries in range no IndexError occurs |
| Bfs.BfsFromWithin | py/dessins/bfs.py:23-35 | the walk never leaves a set closed under both maps |
| Bfs.EmitPrefixAt | py/dessins/bfs.py:31-35 | output entries 2j and 2j+1 are the new labels of the alpha- and beta-images of the j-th labelled edge |
| Bfs.BfsConjugates | py/dessins/bfs.py:7-35 | on success the labelling is a permutation starting at the root, and the output is the pair relabelled: `order[out[2k]] == alpha[order[k]]`, likewise for beta |
| Bfs.BfsOkReachesAll | py/dessins/bfs.py:23-25 | success means every edge is reached: a set closed under both maps that holds the root is everything |
| Bfs.BfsErrStuck | py/dessins/bfs.py:25 | on an in-range pair, failure is ValueError exactly because the edges reached form a closed proper subset |
| Bfs.ProgressStart | py/dessins/bfs.py:19-21 | after labelling the root the loop invariant holds |
| Bfs.ProgressStep | py/dessins/bfs.py:25-35 | one iteration extends the output by the two new labels and keeps the invariant |
| Bfs.ProgressDone | py/dessins/bfs.py:23 | after `size` iterations the output is `BfsSpec` |
| Bfs.ProgressFails | py/dessins/bfs.py:25-32 | each failing `backward`, index or `forward` makes `BfsSpec` that error |
| Bfs.VisitLabel | py/dessins/bfs.py:25-35 | one iteration keeps the invariant, or returns the error `BfsSpec` gives |
| Bfs.IterBfs | py/dessins/bfs.py:7-35 | the loop over the dynamic relabelling yields exactly `BfsSpec` |
| Bfs.BfsSmallExample | py/dessins/bfs.py:7-35 | the pair `([1,0],[0,1])` from root 1 gives 1,0,0,1 |
| Bfs.BfsErrorExamples | py/dessins/bfs.py:20-25 | an intransitive pair raises ValueError; a root past the end IndexError; a negative root ValueError |
| Decompose.IterCycle | py/dessins/decompose.py:7-19 | on a permutation the walk yields the cycle of v |
| Decompose.MarkCycle | py/dessins/decompose.py:49-50 | `seen` becomes the old marks plus the cycle |
| Decompose.AlphaPiece | py/dessins/decompose.py:35-47 | the first cycle of a round starts at the least unseen edge |
| Decompose.MinOf | py/dessins/decompose.py:55 | the least entry of the alpha-cycle |
| Decompose.BetaPiece | py/dessins/decompose.py:53-58 | the beta-cycle of a round is non-empty and in range |
| Decompose.PieceCycles | py/dessins/decompose.py:47-58 | the two pieces are the alpha-cycle of the seed and the beta-cycle of its least entry |
| Decompose.Round | py/dessins/decompose.py:35-64 | one round yields S i, the alpha-cycle, the beta-cycle, E i and marks both |
| Decompose.Rounds | py/dessins/decompose.py:32-64 | the loop yields `Emit(Pieces(...))` from a fresh `seen` |
| Decompose.IterDecompose | py/dessins/decompose.py:22-64 | yields exactly `Decomposition`, including the AssertionError on lengths that differ |
| Decompose.RoundStep | py/dessins/decompose.py:32-64 | one round keeps the loop invariant |
| Decompose.Finished | py/dessins/decompose.py:32-37 | when no edge is unseen, or the round count is reached, nothing more is yielded |
| Decompose.DecompositionShape | py/dessins/decompose.py:22-64 | on permutations: blocks of four events tagged 0..k-1, with k at most n |
| Decompose.DecompositionCycles | py/dessins/decompose.py:47-62 | alpha pieces are disjoint cycles of alpha; each beta piece is the beta-cycle of its alpha piece's least entry |
| Decompose.DecompositionCovers | py/dessins/decompose.py:22-64 | every edge lies on some yielded cycle |
| Decompose.DecompositionSeeds | py/dessins/decompose.py:35-47 | the first alpha-cycle starts at 0 and the rounds' seeds increase |
| Decompose.OneRound | py/dessins/decompose.py:22-64 | when the alpha-cycle and the beta-cycle of 0 together cover every edge there is exactly one round |
| Decompose.EmptyDoctest | py/tests/test_decompose.py:33-35 | the empty pair yields nothing |
| Decompose.OneEdgeDoctest | py/tests/test_decompose.py:38-45 | the one-edge pair yields S0, a(0), b(0), E0 |
| Decompose.SwapDoctest | py/tests/test_decompose.py:47-54 | `((1,0),(1,0))` yields S0, a(0,1), b(0,1), E0 |
| Decompose.IterCycleDoctest | py/tests/test_decompose.py:28-30 | the cycle of 0 under `(0,)` is `(0,)` |
| Decompose.DraftDropsAlphaCycle | py/dessins/decompose.py:53-62 | as written, on `((0,1),(1,0))` the alpha-cycle (1) is never yielded |
| Decompose.ComponentsKeepAlphaCycle | py/dessins/permpairtools.py:103-125 | the corrected component loop yields S0, a(0), b(0,1), a(1), E0 on the same pair |
| Work.IterCycles | py/dessins/work.py:4-37 | succeeds exactly when every entry is in range, else IndexError; the walks hold every index once; on a permutation they are its cycles, smallest first |
| Work.FirstStep | py/dessins/work.py:21-23 | starting a walk at the first unmarked index sets up the inner invariant |
| Work.ExtendWalk | py/dessins/work.py:35-37 | adding an unmarked image keeps the inner invariant |
| Work.CloseWalk | py/dessins/work.py:30-33 | reaching a marked index closes the walk and keeps the outer invariant |
| Work.FinishWalks | py/dessins/work.py:17-19 | when `find` returns -1, the walks cover every index and the map is in range |
| Work.WalksEndo | py/dessins/work.py:30 | a complete walk decomposition implies every entry is in range |
| Work.NotEndo | py/dessins/work.py:30 | an image out of range means the map is not in range (the IndexError case) |
| Work.WalksAreCycles | py/dessins/work.py:5-8 | on a permutation the walks are exactly its cycles, smallest element first |
| Work.NewBytesDessin | py/dessins/work.py:42-47 | ValueError exactly when the lengths differ, otherwise the pair itself |
| Work.LenOfNew | py/dessins/work.py:50-52 | the length of a dessin is the common length of its two strings |
| Work.CreateExample | py/tests/test_work.py:6-13 | `range(4)` twice gives length 4; lengths 3 and 4 raise ValueError |

## Left out

- Generators are modelled by their complete output. When a generator raises part-way, the model returns only the error. The items it had yielded before the error are not modelled.
- PermTools.IterCycles: the cycles are sequences. The rule that each yielded cycle has the type of `perm` (`bytes` in the doctest) is not modelled.
- PermTools.IsPerm: the input is a sequence of integers. The `isinstance(seq, collections.Sequence)` test, and inputs such as strings, sets or dicts, are not modelled.
- Relabelling.Relabel: labels are unbounded naturals. The `array('L')` element width is not modelled.
- PermPairTools.IterComponentCycles: requires two maps of equal length whose entries are edges. Pairs outside that make `iter_seen_cycle` raise IndexError part-way, and that case is not modelled.
- Decompose.IterDecompose: requires alpha and beta to be permutations. The source warns that on other inputs it may raise or loop forever, and a non-terminating loop cannot be modelled.
- Bfs.IterBfs: the entries of alpha and beta are naturals. Negative entries, which `forward` rejects with ValueError, are not modelled.
- Bfs.BfsSmallExample: stands in for the ten-edge doctest at `py/dessins/bfs.py:9-16`. That doctest is not proved, because its per-round steps over the literal ten-entry tables exceed the verifier's resource limit on some solver seeds. The general results `Bfs.BfsConjugates` and `Bfs.IterBfs` cover its behaviour.
- PermPairTools.IterCyclesState.IterCycles: after a ValueError the object's state is stated exactly, but it need not satisfy `Valid()`, because the failed walk's trail is marked without being recorded in `missing`. The model therefore promises nothing about later calls on that object.
- PermPairTools.IterCyclesState.Round: for the same reason, the object it leaves after a ValueError need not satisfy `Valid()`.
- CycleRebase.PermFromCycles: cycle entries are naturals. Python's negative indexing of `value[prev]` is not modelled. Indices not written remain `None`.
- Work.IterCycles: an IndexError loses the walks yielded before it, as with every generator here.
- Work.NewBytesDessin: `alpha` and `beta` are byte sequences. Only the length check and the pair structure are modelled, not the `tuple` subclass.
- `SetDiff`, from `py/dessins/othertools.py`, is not part of the given source text. It is modelled from its use as two disjoint sets.
- `oddments.py`, `computations.py` and `work2.py` are not part of this model.

## Findings

| source | as written | input that shows it | evidently intended | confidence | as-written member | corrected member |
|---|---|---|---|---|---|---|
| py/dessins/decompose.py:53-62 | each round yields one alpha-cycle and at most one beta-cycle, then ends the irreducible | alpha `(0,1)`, beta `(1,0)`: yields S0, a(0), b(0,1), E0, so the alpha-cycle (1) is never yielded | alternate between alpha- and beta-cycles until no edge waits for a cycle of either map, as `iter_cycles` in `py/dessins/permpairtools.py:103-125` does | not executed | Decompose.DraftDropsAlphaCycle | Decompose.ComponentsKeepAlphaCycle |
