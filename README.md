# Scale engine of the birthday scale explorer

The application plays musical scales on a circle of twelve notes and lets the user step from
one scale to a neighbouring one. Its core is `src/scales.ts` together with the helpers it takes
from `src/util.tsx`:

- **Grammar engine.** Three mutually recursive nonterminals A, B and C (`AScales`, `BScales`,
  `CScales`) enumerate every derivation whose steps add up to an exact budget. The flatteners
  `getStepsA/B/C` turn a derivation into its list of interval sizes.
- **Recognizer.** `isValidA`, `isValidB` and `isValid` are a greedy acceptor for the same
  language, with no budget.
- **Pattern pool.** `patterns` holds every mode (rotation) of every scale enumerated for the
  note count.
- **Adjacency.** `isAdjacentHelper` and `isAdjacent` walk every cyclic alignment of two scales.
  Where the aligned steps agree, they test whether the two-step window that follows differs by
  one of three edits: a merge, a split, or a sharpened/flattened note. As in the source's
  comments, an edit is named by how the second scale becomes the first: "split" when the first
  holds x, y where the second holds x + y, "merge" the reverse. `adjacentTo` filters the pool
  with this test.
- **Features.** `hasDoubleHalfSteps` and `hasAug2nd`.
- **Helpers.** `rotate`, `mod`, `modNotes`, and the stateful hook `useNearestModulo`. The hook
  moves a position around the circle of notes the short way.

Each source file has its own Dafny module:

| module | file | contents |
|---|---|---|
| `Util` | `util.dfy` | JavaScript's `%` as `JsRem`, `mod` as `Mod`, the cyclic index `Wrap`, `rotate` as `Rotate`, and their laws |
| `FpArray` | `fparray.dfy` | the array combinators `zip`, `map`, `flatten` and `filter` |
| `Grammar` | `grammar.dfy` | the derivation datatypes, the enumerators and the flatteners |
| `Recognizer` | `recognizer.dfy` | the recognizer, with soundness and completeness against the grammar |
| `Adjacency` | `adjacency.dfy` | the adjacency search, with the JavaScript values its window reads can produce |
| `Pool` | `pool.dfy` | `patterns` and `adjacentTo` |
| `Features` | `features.dfy` | the two scale features |
| `Nearest` | `nearest.dfy` | `useNearestModulo` as the class `NearestModulo`, whose field `q` is the hook's reference |

How the model differs in form from the code:

- **`rotate`.** It is defined entry by entry. `RotateSlices` proves that this is the source's
  two slices around `mod(start, |a|)`.
- **Recursion of the helper.** The search's recursive calls turn each view by one, so the view
  after `j` calls is `Turned(rotated, j)`. `TurnedIsRotate` proves that this is turning by `j`.
- **JavaScript values.** The adjacency window reads positions 0 and 1 of a view, which can
  fall past the end and give `undefined`, or `NaN` after an addition. These values are modelled
  by `JsValue`, so no length condition is placed on the search.
- **The assertions at `src/scales.ts:102-103`.** They become `assert`s inside
  `IsAdjacentHelper`. They are proved from an alignment invariant, `Aligned`. `isAdjacent`
  establishes that invariant and every recursive call keeps it.

Where the code does not do what a reader might expect, the model follows the code:

- **Rotations of accepted scales.** One might expect every rotation of an accepted scale to be
  accepted, for example the second mode of the major scale [2,2,1,2,2,2,1]. The recognizer
  rejects it (`Recognizer.Examples`). The pool, which is built from rotations, does contain it
  (`Pool.MajorModesInPool`).
- **Self-loops.** One might expect a scale not to be its own neighbour, but the neighbour
  query lists a scale among its own neighbours whenever two cyclically adjacent steps differ (`Adjacency.SelfAdjacentIff`, `Pool.MajorIsOwnNeighbour`).
- **Edits of the first step.** The search compares position k of one scale only with
  position k of the other, and a window is tested only after a shared step. So an edit of the
  first step can go unnoticed: [1, 2, 2, 2, 1, 2, 2] is [3, 2, 2, 1, 2, 2] with its leading 3
  replaced by 1, 2, yet the two are not adjacent (`Adjacency.LeadingSplitMissed`). For this
  reason the `*Detected` lemmas put at least one shared step before the edit.
- **The pool repeats patterns.** The grammar is ambiguous (`Grammar.Ambiguous`), so `patterns`
  can list the same step sequence twice.
- **The promise of `useNearestModulo`.** The hook's comment promises that the answer reduces
  to `P` modulo `M`. That holds for the source's `mod`, but not for JavaScript's `%`; see
  Findings.

## Model

| member | source | states |
|---|---|---|
| Util.JsRem | src/util.tsx:37 | JavaScript's `%`: the remainder is smaller than the divisor in absolute value and has the dividend's sign |
| Util.JsRemTruncates | src/util.tsx:37 | `%` is truncated division: the remainder of the absolute value of a by that of b, negated for a negative dividend |
| Util.JsRemCongruent | src/util.tsx:37 | the dividend and its remainder differ by a multiple of the divisor |
| Util.Mod | src/util.tsx:36-38 | `mod(a, b)` lies in [0, b) for b > 0 and in (b, 0] for b < 0 |
| Util.ModCongruent | src/util.tsx:36-38 | `mod(a, b)` differs from `a` by a multiple of `b` |
| Util.ModIsEuclidean | src/util.tsx:36-38 | for a positive modulus, `mod` is the Euclidean remainder |
| Util.ModNotes | src/util.tsx:40-42 | `modNotes(a)` is the residue of `a` in [0, n) |
| Util.WrapIsMod | src/util.tsx:32 | the cyclic index `rotate` reads through is `mod(x, a.length)` |
| Util.Rotate | src/util.tsx:31-34 | `rotate` keeps the length, and entry `i` is entry `mod(i + start, a.length)` of the input |
| Util.RotateSlices | src/util.tsx:31-34 | `rotate(a, k)` is the suffix from `mod(k, a.length)` followed by the prefix before it |
| Util.RotateZero | src/util.tsx:31-34 | turning by 0 changes nothing |
| Util.RotatePeriod | src/util.tsx:31-34 | turning by `k + a.length` is turning by `k` |
| Util.RotateCompose | src/util.tsx:31-34 | turning by `j` and then by `k` is turning by `j + k` |
| Util.RotateTwice | src/util.tsx:31-34 | turning a rotation again is turning once by `mod(i + j, a.length)` |
| Util.RotateUndo | src/util.tsx:31-34 | turning by `mod(-k, a.length)` undoes turning by `k` |
| Util.RotateMultiset | src/util.tsx:31-34 | `rotate` is a permutation |
| Util.RotateSum | src/util.tsx:31-34 | `rotate` keeps the total of the steps |
| Util.RotateSteps | src/util.tsx:31-34 | `rotate` keeps every entry a step 1, 2 or 3 |
| Util.RotateLast | src/scales.ts:102-103 | the last entry of `rotate(a, k + 1)` is `a[mod(k, a.length)]` |
| FpArray.Zip | src/scales.ts:90 | `zip` pairs equal positions and stops at the shorter list |
| FpArray.Map | src/scales.ts:125-126 | `map` keeps length and order and applies the function at each position |
| FpArray.Flatten | src/scales.ts:123 | `flatten` concatenates the blocks in order; characterised by `FlattenMember`, `FlattenSplit` and `FlattenAt` |
| FpArray.FlattenMember | src/scales.ts:123-127 | an element of `flatten(xss)` is exactly an element of one of the lists |
| FpArray.FlattenSplit | src/scales.ts:123-127 | `flatten` lists the blocks in order: the earlier blocks, block `i`, then the later blocks |
| FpArray.FlattenAt | src/scales.ts:123-127 | entry `j` of block `i` sits `j` places after the earlier blocks |
| FpArray.Filter | src/scales.ts:130 | `filter` keeps the entries in their order, every occurrence of a passing value and none of a failing one |
| FpArray.FilterMember | src/scales.ts:130 | an entry is kept exactly when it is in the list and passes |
| Grammar.StepsA | src/scales.ts:51-57 | an A flattening starts with 1, has at least two steps 1, 2 or 3, and totals at least 3 |
| Grammar.StepsB | src/scales.ts:59-67 | a B flattening starts with 2 or 3, has steps 1, 2 or 3, and totals at least 2 |
| Grammar.StepsC | src/scales.ts:69-79 | a C flattening has steps 1, 2 or 3, and is empty exactly for the null tail |
| Grammar.AScales | src/scales.ts:17-25 | `AScales`; characterised by `AMember` and `AScalesExact`: exactly the A derivations whose steps total the budget |
| Grammar.BScales | src/scales.ts:27-36 | `BScales`; characterised by `BMember` and `BScalesExact`: exactly the B derivations whose steps total the budget |
| Grammar.CScales | src/scales.ts:38-49 | `CScales`; characterised by `CMember` and `CScalesExact`: exactly the C derivations whose steps total the budget |
| Grammar.AMember | src/scales.ts:17-25 | `AScales(n)` lists A1(b) exactly when it lists b in `BScales(n - 1)`, and A11(b) for `BScales(n - 2)`; nothing for n <= 1 |
| Grammar.BMember | src/scales.ts:27-36 | `BScales(n)` lists B3, B2 and B23 derivations exactly for tails in `AScales(n - 3)`, `CScales(n - 2)` and `CScales(n - 5)`; nothing for n <= 0 |
| Grammar.CMember | src/scales.ts:38-49 | `CScales(n)` lists the null tail exactly for n = 0, and otherwise the A and B derivations of budget n |
| Grammar.AScalesExact | src/scales.ts:17-25 | an A derivation is enumerated for budget n exactly when its steps total n |
| Grammar.BScalesExact | src/scales.ts:27-36 | a B derivation is enumerated for budget n exactly when its steps total n |
| Grammar.CScalesExact | src/scales.ts:38-49 | a C derivation is enumerated for budget n exactly when its steps total n |
| Grammar.BaseCases | src/scales.ts:17-49 | the enumerators are empty below their base budgets, and `CScales(0)` is the null tail alone |
| Grammar.EnumeratedShape | src/scales.ts:17-79 | every enumerated derivation flattens to steps 1, 2 or 3 totalling the budget, with the head its nonterminal fixes |
| Grammar.Ambiguous | src/scales.ts:7-10 | two different derivations, [2] then [3]·A and [2, 3] then A, flatten to the same steps |
| Recognizer.IsValidA | src/scales.ts:133-146 | `isValidA`; characterised by `SoundA` and `CompleteA`: it accepts exactly the A flattenings |
| Recognizer.IsValidB | src/scales.ts:148-159 | `isValidB`; characterised by `SoundB` and `CompleteB`: it accepts exactly the B flattenings |
| Recognizer.IsValid | src/scales.ts:161-168 | `isValid`; characterised by `ValidIffDerivable` and `ValidIffEnumerated` |
| Recognizer.SoundA | src/scales.ts:133-146 | `isValidA` accepts the flattening of every A derivation |
| Recognizer.SoundB | src/scales.ts:148-159 | `isValidB` accepts the flattening of every B derivation, although it reads 2, 3 greedily |
| Recognizer.SoundC | src/scales.ts:161-168 | `isValid` accepts the flattening of every C derivation |
| Recognizer.CompleteA | src/scales.ts:133-146 | whatever `isValidA` accepts is the flattening of an A derivation |
| Recognizer.CompleteB | src/scales.ts:148-159 | whatever `isValidB` accepts is the flattening of a B derivation |
| Recognizer.CompleteC | src/scales.ts:161-168 | whatever `isValid` accepts is the flattening of a C derivation |
| Recognizer.ValidIffDerivable | src/scales.ts:133-168 | `isValid` accepts exactly the flattenings of the grammar's derivations |
| Recognizer.ValidIffEnumerated | src/scales.ts:161-168 | a sequence is accepted and totals n exactly when `CScales(n)` lists a derivation of it |
| Recognizer.ValidIsStepSeq | src/scales.ts:161-168 | an accepted sequence uses only the steps 1, 2 and 3 |
| Recognizer.EdgeCases | src/scales.ts:133-168 | `[]` is valid but neither an A nor a B fragment; a first entry outside 1..3 is rejected by all three |
| Recognizer.Examples | src/scales.ts:133-168 | the major scale is accepted; [1, 2, 1] and the major scale's second mode are rejected |
| Adjacency.At | src/scales.ts:105-106 | a JavaScript array read; characterised by `JsValueLaws` |
| Adjacency.Plus | src/scales.ts:109-113 | JavaScript `+` on the values read; characterised by `JsValueLaws` |
| Adjacency.StrictEq | src/scales.ts:109-113 | JavaScript `===`; characterised by `JsValueLaws` |
| Adjacency.JsValueLaws | src/scales.ts:105-113 | a read past the end is `undefined`, a sum is a number exactly when both operands are, and `===` is equality except that `NaN` equals nothing |
| Adjacency.ArrayEqual | src/scales.ts:89-91 | `arrayEqual`; characterised by `ArrayEqualIffPrefix` |
| Adjacency.ArrayEqualIffPrefix | src/scales.ts:89-91 | on numbers, `arrayEqual` holds exactly when one list is a prefix of the other |
| Adjacency.AdjacentAt | src/scales.ts:104-114 | the window test; characterised by `DecisionRule`, `MergeRule`, `SplitRule` and `ResplitRule` |
| Adjacency.DecisionRule | src/scales.ts:105-114 | on views of two or more steps, the window test is that of the last guard that holds (merge, else split, else sharpened/flattened), each a prefix test |
| Adjacency.MergeRule | src/scales.ts:113 | when the merge guard holds, the test is that the second view's rest lines up with the first view after its head |
| Adjacency.SplitRule | src/scales.ts:110-112 | when only the split guard holds, the test is the mirror image of the merge test |
| Adjacency.ResplitRule | src/scales.ts:109 | when neither merge nor split holds, the test is unequal heads, equal head sums and prefix-equal rests |
| Adjacency.AlignedStep | src/scales.ts:100-103 | under the alignment invariant the head of `check` is the last entry of `rotated` (the assertions), and the recursive call keeps the invariant |
| Adjacency.EntryAligned | src/scales.ts:119-121 | `isAdjacent` enters the helper with the invariant established |
| Adjacency.TraceAligned | src/scales.ts:116-120 | after k calls the helper holds `s[k..]` and `rotate(s, k + 1)`, aligned |
| Adjacency.TurnedIsRotate | src/scales.ts:116 | turning a view by one, j times, is `rotate(view, j)` |
| Adjacency.HitShift | src/scales.ts:116 | alignment j of the recursive call is alignment j + 1 of the caller |
| Adjacency.IsAdjacentHelper | src/scales.ts:93-117 | `isAdjacentHelper`; characterised by `HelperIff` |
| Adjacency.HelperIff | src/scales.ts:93-117 | the helper returns true exactly when some alignment within both check lists has equal heads and a passing window; false once either list is empty |
| Adjacency.HitIsMatch | src/scales.ts:119-121 | alignment k from `isAdjacent` is position k with the windows of `rotate(s, k + 1)` |
| Adjacency.IsAdjacent | src/scales.ts:119-121 | `isAdjacent`; characterised by `IsAdjacentIff` |
| Adjacency.IsAdjacentIff | src/scales.ts:119-121 | `isAdjacent(s1, s2)` holds exactly when some shared position k has equal steps and windows after k that pass the test |
| Adjacency.MergeDetected | src/scales.ts:113 | a merge (the first scale holds x + y where the second holds x, y) right after a shared step is adjacent |
| Adjacency.SplitDetected | src/scales.ts:110-112 | a split (the first scale holds x, y where the second holds x + y) right after a shared step is adjacent, in a scale of positive steps |
| Adjacency.ResplitDetected | src/scales.ts:109 | replacing two unequal positive steps by another positive pair of the same sum is adjacent |
| Adjacency.LeadingSplitMissed | src/scales.ts:93-121 | replacing the leading 3 of [3, 2, 2, 1, 2, 2] by 1, 2 gives a scale the search does not find adjacent to it |
| Adjacency.SelfWindow | src/scales.ts:105-114 | a view against itself passes exactly when its first two steps differ |
| Adjacency.SelfMatch | src/scales.ts:119-121 | position k matches a scale against itself exactly when the step after k differs from its successor |
| Adjacency.SelfAdjacentIff | src/scales.ts:119-121 | a scale of two or more positive steps is adjacent to itself exactly when two cyclically neighbouring steps differ |
| Adjacency.MajorSelfAdjacent | src/scales.ts:119-121 | the major scale is adjacent to itself |
| Features.HasDoubleHalfSteps | src/scales.ts:81-83 | `hasDoubleHalfSteps`; characterised by `DoubleHalfStepsIff` (a cyclic 1, 1) and `FeaturesUnderRotation` |
| Features.HasAug2nd | src/scales.ts:85-87 | `hasAug2nd`; characterised by `FeaturesUnderRotation` (the same for every mode) |
| Features.DoubleHalfStepsIff | src/scales.ts:81-83 | `hasDoubleHalfSteps` holds exactly when some half step is followed, cyclically, by another |
| Features.Aug2ndIff | src/scales.ts:85-87 | `hasAug2nd`'s `some` is membership of 3; this only rewrites the definition, the property proved about it is `FeaturesUnderRotation` |
| Features.FeaturesUnderRotation | src/scales.ts:81-87 | both features are the same for every rotation of a scale |
| Features.NoDoubleHalfExample | src/scales.ts:81-83 | [2, 2, 1, 2, 2, 1, 2] has no double half step, also across the end |
| Features.DoubleHalfExample | src/scales.ts:81-83 | [1, 1, 2, 2, 2, 2] has a double half step |
| Features.Aug2ndExamples | src/scales.ts:85-87 | [1, 3, 1, 1, 2, 3, 1] has an augmented second and [2, 2, 1, 2, 2, 1, 2] has none |
| Pool.Modes | src/scales.ts:126 | the modes of one pattern; characterised by `ModesMember` |
| Pool.Patterns | src/scales.ts:123-127 | `patterns`; characterised by `PatternsMember`, `PatternsIff` and `PatternsBlockAt` |
| Pool.ModesMember | src/scales.ts:126 | `p.map((_, i) => rotate(p, i))` lists exactly the rotations of p by 0 .. p.length - 1 |
| Pool.PatternsMember | src/scales.ts:123-127 | the pool holds exactly the modes of the enumerated scales |
| Pool.PatternsIff | src/scales.ts:123-127 | the pool holds exactly the non-empty sequences of total n that some rotation makes acceptable |
| Pool.PatternsShape | src/scales.ts:123-127 | every pool entry is non-empty, totals n and has only steps 1, 2 and 3 |
| Pool.PatternsRotationClosed | src/scales.ts:123-127 | every rotation of a pool entry is in the pool |
| Pool.PatternsBlocks | src/scales.ts:123-127 | the modes of the i-th enumerated scale form one block between those of the earlier and the later scales |
| Pool.PatternsBlockAt | src/scales.ts:123-127 | entry j of the i-th block is `rotate(p, j)` for the i-th scale p |
| Pool.MajorInPool | src/scales.ts:123-127 | for twelve notes the pool holds the major scale |
| Pool.MajorModesInPool | src/scales.ts:123-127 | for twelve notes the pool holds every mode of the major scale, including one the recognizer rejects |
| Pool.AdjacentTo | src/scales.ts:129-131 | `adjacentTo` keeps pool entries in pool order, each adjacent to the scale, with every repeated adjacent pool entry kept as often as the pool lists it |
| Pool.AdjacentToIff | src/scales.ts:129-131 | a sequence is a neighbour exactly when it is a pool entry (total n, some rotation accepted) with a matching position |
| Pool.MajorIsOwnNeighbour | src/scales.ts:129-131 | for twelve notes the major scale is one of its own neighbours |
| Nearest.Round | src/util.tsx:71 | `Math.round(num / den)`: the nearest integer, with halves rounded up |
| Nearest.NextNearest | src/util.tsx:71 | the formula gives a number congruent to `pp`, at most half a circle from the previous answer |
| Nearest.NearestUnique | src/util.tsx:47-49 | only one number is congruent and that close, so the formula's answer is determined |
| Nearest.NextNearestIsNearest | src/util.tsx:47-49 | no number congruent to `pp` is closer to the previous answer |
| Nearest.NearestReduces | src/util.tsx:44-45 | an answer for a reduced `pp` reduces to `pp` under `mod` |
| Nearest.PromiseFailsForJsRem | src/util.tsx:44-45 | the documented second answer -2 does not reduce to 10 under JavaScript's `%` |
| Nearest.NearestModulo.constructor | src/util.tsx:60 | a fresh hook has no previous answer |
| Nearest.NearestModulo.Use | src/util.tsx:59-74 | the first call answers `pp`, and every later call answers the congruent number nearest the previous answer; the answer is recorded |
| Nearest.DocumentedCalls | src/util.tsx:53-58 | on a fresh hook with twelve notes, the documented calls answer 0, -2, 3, 7, 10 |

## Left out

- `src/App.tsx`: the user interface is not part of this model. Its copies of `rotate`, `mod`
  and `useNearestModulo` are covered by the models of the originals.
- The notes module, `src/notes`, is not part of this model. `NUM_NOTES` and `notes.length`
  are the parameter `n`.
- `randomNumber` and `randomChoice` use randomness. The colour constants read the page's
  style. `State` holds a synthesizer. All of these are I/O.
- The commented-out `dbg` function and the unused `Scale` type.
- The `tail === null` branch of `getStepsA` is dead, because an A fragment always has a B
  tail. The datatype `A` cannot express a missing tail.
- Numbers are unbounded integers. JavaScript's floating point is not modelled, and neither are
  the `NaN` and `Infinity` it gives for `mod(a, 0)` and for a zero modulus in
  `useNearestModulo`; those cases are excluded by `requires`.
- `Math.round` is modelled exactly on the rational `num / den`, without floating-point
  rounding of the division.
- `arrayEqual` is generic in the source; the model uses it on the `JsValue`s the window reads
  can produce.
- The React hook is modelled as one object per hook call site, each with its own reference
  (`src/App.tsx` has two call sites). Render order and re-rendering are
  not modelled.
- Nearest.NearestModulo.Use: requires m > 0. The source also computes an answer for a
  negative modulus, which is not modelled, because a circle of notes has a positive size.
- Adjacency.IsAdjacentHelper: requires the alignment invariant. Called from anywhere else,
  the source could throw from its assertions. Its only callers, `isAdjacent` and itself,
  establish the invariant.

## Findings

| source | as written | input that shows it | evidently intended | confidence | as-written member | corrected member |
|---|---|---|---|---|---|---|
| src/util.tsx:44-45 | the comment promises `useNearestModulo(P, M) % M = P`, read with JavaScript's `%` | the calls (0, 12) then (10, 12): the second answer is -2, and -2 % 12 is -2, not 10 | the answer reduces to P under the non-negative `mod` of src/util.tsx:36-38 | high that the literal reading fails; not executed | Nearest.PromiseFailsForJsRem | Nearest.NearestReduces |
