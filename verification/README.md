# PathTree toolkit — a Dafny model

This project models the path-tree toolkit in `tools/pathtreetools.py`. A
path tree is a preset integer plus a list of loops. A loop is either a scalar
period or a nested path tree. An assignment of a non-negative weight to every
loop gives one *element*: the preset plus, for each loop, its weight times its
period. For a nested loop, the loop's weight times the nested preset is added,
and the nested tree's own loops are counted only when the weight is non-zero.
That gate is `min(1, w)`, and it is what ptelement computes on numbers. The
searches of isptelement and growtree post the same expressions over solver
variables, where `min(1, w)` yields `w` itself. The model evaluates with the
gate throughout and keeps the posted expressions beside it
(`Evaluate.PostedElement`, `Membership.IsPtElementAsPosted`); see Findings.

The toolkit:
- counts loops and nodes (`ptloopnum`, `ptnodenum`);
- evaluates elements (`ptelement`, `ptelement_extraloop`);
- reshapes flat solver vectors into tree-shaped weights (`weights_pt`, `extraloops_pt`);
- enumerates and tests elements (`ptelements`, `isptelement`, `ptsubset`);
- grows a tree by one extra loop so that it generates a target number (`growtree`, `ptaugmented`, `eloops_simplify`, `loops_and_weights`, `smallest_pt`);
- builds a tree for a whole sequence (`keeptreegrow`, `seq2pt`);
- samples trees and sets of trees (`pt2seq`, `s2spt`, `spt_elements`, `issptelement`).

Modules, one per file:

| module | file | contents |
|---|---|---|
| `PathTree` | `pathtree.dfy` | the data model: trees, weights, extra-loop candidates, simplified lengths; loop and node counts |
| `Reshape` | `reshape.dfy` | flattening and crawling, both for weights and for candidates, with round-trip lemmas |
| `Evaluate` | `evaluate.dfy` | `ptelement` and `ptelement_extraloop`, gated and as posted to the solver |
| `Gating` | `gating.dfy` | the constraint of `loops_and_weights`, as intended and as written |
| `Enumerate` | `enumerate.dfy` | the constraint solver's search as a lexicographic enumeration |
| `Membership` | `membership.dfy` | `ptelements`, `isptelement`, `ptsubset`, `isptsubset_el`, `isrightpt` |
| `Augmentation` | `augment.dfy` | `eloops_simplify` and `ptaugmented` |
| `Grow` | `grow.dfy` | `growtree`, `smallest_pt`, `keeptreegrow`, `seq2pt` |
| `Sampling` | `sampling.dfy` | `pt2seq`, `s2spt`, `issptelement`, `spt_elements` |

Each search the toolkit hands to OR-tools uses the same settings. Every
variable ranges over `[0, maxloop]`, the first unbound variable is labelled
first, and the smallest value is tried first. With those settings the
solutions come out in lexicographic order of the variable vector.
`Enumerate.All` defines that order directly. It is proved sound, complete and
strictly sorted. Each search then applies its own predicate (the constraints)
and its own limit.

## Model

| member | source | states |
|---|---|---|
| PathTree.LoopNum | tools/pathtreetools.py:12-27 | A tree needs at least one weight per top-level loop, and needs none exactly when it has no loops. |
| PathTree.NodeNumLowerBound | tools/pathtreetools.py:30-46 | With positive periods, a tree's node count is at least its preset minus one, because no loop contributes a negative count. |
| PathTree.NestedPresetIgnored | tools/pathtreetools.py:30-46 | The node count ignores the preset of a nested loop: changing it leaves the count unchanged. |
| Reshape.WeightsPt | tools/pathtreetools.py:72-87 | Crawling a flat vector gives weights that fit the tree and flatten back to the vector's first ptloopnum entries. |
| Reshape.WeightsRoundTrip | tools/pathtreetools.py:72-87 | Flattening and weights_pt are mutual inverses: tree-shaped weights survive a flatten-then-crawl round trip, and flat vectors of the right length survive a crawl-then-flatten round trip. |
| Reshape.FlattenInjective | tools/pathtreetools.py:72-87 | Two tree-shaped weight lists that flatten to the same vector are equal. |
| Reshape.ExtraloopsPt | tools/pathtreetools.py:90-104 | Crawling the candidate tuples gives one candidate per loop plus the top-level one, laid out on the tree. They flatten back to the first ptloopnum+1 tuples. |
| Reshape.ExtraloopsRoundTrip | tools/pathtreetools.py:90-104 | extraloops_pt and candidate flattening are mutual inverses, in both directions. |
| Evaluate.ZeroWeightHidesSubtree | tools/pathtreetools.py:59-66 | Weights beneath a zero-weight nested loop, at any depth, do not affect the element: two assignments that agree on every active loop, level by level, give the same element. |
| Evaluate.TopZeroGivesPreset | tools/pathtreetools.py:49-69 | When every top-level weight is zero, the element is the preset. |
| Evaluate.ZeroVectorGivesPreset | tools/pathtreetools.py:49-87 | The all-zero solver vector, reshaped, evaluates to the preset. |
| Evaluate.InertExtrasKeepElement | tools/pathtreetools.py:107-128 | Candidates that each have zero length or zero weight leave the element unchanged: ptelement_extraloop equals ptelement. |
| Evaluate.PostedElementOnBits | tools/pathtreetools.py:58-69 | When every weight is 0 or 1, the constraint isptelement posts (where `min(1, w)` is `w`) computes the same element as ptelement on numbers. |
| Evaluate.PostedExtraOnBits | tools/pathtreetools.py:115-128 | The same for the expression growtree posts: with every weight 0 or 1 it equals the gated extra-loop element. |
| Evaluate.PostedFlat | tools/pathtreetools.py:58-69 | On trees without nested loops `min` is never reached, so the posted element equals the gated one under every weight assignment. |
| Evaluate.PostedGrowthDiffers | tools/pathtreetools.py:115-128 | Concrete input: on one loop of period 1 with weight 2, a candidate of length 1 and weight 1 gives 3 when gated and 4 as posted, since the posted candidate counts w times. |
| Gating.GatedExtrasAllCount | tools/pathtreetools.py:107-128 | Under the intended gating constraint, and with `min(1, w)` read as a gate, the extra-loop element is the plain element plus the sum of length times weight over all candidates. Every candidate counts in full. |
| Gating.ZeroExtrasPassGate | tools/pathtreetools.py:246-265 | All-zero candidates always satisfy the gating constraint. |
| Gating.FlatTreesAgree | tools/pathtreetools.py:255-265 | On trees without nested loops, the constraint as written and the intended one accept the same assignments. |
| Gating.AsWrittenOverRestricts | tools/pathtreetools.py:255-265 | Concrete input: the constraint as written rejects an assignment the intended rule accepts, whose extra-loop element is 9. |
| Gating.AsWrittenUnderRestricts | tools/pathtreetools.py:255-265 | Concrete input: the constraint as written accepts a candidate under a zero-weight nested loop, and that candidate's length is lost from the element. |
| Enumerate.AllComplete | tools/pathtreetools.py:175-187 | Every vector in the search box that satisfies the constraints is produced by the search. |
| Enumerate.AllSorted | tools/pathtreetools.py:175-177 | First-unbound, smallest-value labelling produces solutions in strictly increasing lexicographic order, so none is repeated. |
| Enumerate.AllStartsAtZero | tools/pathtreetools.py:175-177 | Smallest-value labelling yields the all-zero completion first whenever it is a solution. |
| Enumerate.SolutionsFirst | tools/pathtreetools.py:399-411 | A search stopped at a limit returns exactly the lexicographically first solutions. Below the limit it returns all of them. |
| Enumerate.SolutionExists | tools/pathtreetools.py:228-243 | A search finds a solution exactly when some vector in the box satisfies the constraints. |
| Membership.IsPtElement | tools/pathtreetools.py:200-243 | isptelement, with `min(1, w)` read as a gate, holds exactly when some weight vector in `[0, maxloop]` makes ptelement produce the number on concrete weights. A loop-free tree's only element is its preset. |
| Membership.IsPtElementAsPosted | tools/pathtreetools.py:200-243 | isptelement as the code posts it holds exactly when some weight vector in `[0, maxloop]` satisfies the constraint in which `min(1, w)` is `w`. A loop-free tree's only element is its preset. |
| Membership.PostedAgrees | tools/pathtreetools.py:218-221 | On trees without nested loops, and for maxloop at most 1, the posted search and the gated one decide membership alike. |
| Membership.PostedMissesElement | tools/pathtreetools.py:218-221 | Concrete input: the tree with preset 0 and one nested loop over `PT(3, [2])` generates 8 (weights 2 and 1), yet the constraint isptelement posts, `8 == w*3 + w*2*v`, has no solution. |
| Membership.IsPtElementMonotone | tools/pathtreetools.py:200-243 | Enlarging maxloop never removes an element. |
| Membership.PresetIsElement | tools/pathtreetools.py:200-243 | The preset is always an element, whatever maxloop is. |
| Membership.Elements | tools/pathtreetools.py:153-197 | ptelements returns only elements and at most seqlen of them. When it stops short of seqlen it has returned every element with weights up to maxloop. |
| Membership.ElementsHoldPreset | tools/pathtreetools.py:153-197 | ptelements always includes the preset, because the all-zero vector is the first solution. |
| Membership.ElementsAsWrittenFails | tools/pathtreetools.py:185 | As written, ptelements fails on every tree with a nested loop. The reshaped evaluation still returns the preset among the elements. |
| Membership.FlatEvaluationAgrees | tools/pathtreetools.py:185 | On trees of scalar loops, evaluating the flat vector as the source does agrees with the reshaped evaluation. |
| Membership.PtSubset | tools/pathtreetools.py:301-305 | ptsubset holds exactly when every element below the last entry of the list is in the list. The last entry itself is not checked. |
| Membership.IsSubsetEl | tools/pathtreetools.py:135-140 | isptsubset_el holds exactly when the extra-loop element is in the list or is not below its last entry. |
| Membership.IsRightPt | tools/pathtreetools.py:143-150 | isrightpt holds exactly when isptsubset_el holds and, in addition, the target `el` is the setting's element whenever `el` is below the list's last entry. |
| Augmentation.SimplifyFits | tools/pathtreetools.py:268-275 | eloops_simplify keeps the tree shape of the candidates, so ptaugmented can consume its result. |
| Augmentation.SimplifyUnweighted | tools/pathtreetools.py:268-275 | Simplification is left-inverse to attaching zero weights to a list of lengths. |
| Augmentation.Augment | tools/pathtreetools.py:278-298 | ptaugmented keeps the preset and keeps one loop for every old loop, plus the new top-level loop when there is one. |
| Augmentation.AugmentShape | tools/pathtreetools.py:278-296 | Where each loop goes: the new level loop (when the level candidate is non-zero) comes first, then old loop i. A scalar loop stays itself when its candidate length is zero. Otherwise it becomes a nested tree whose preset is the old period and whose one loop is that length. A nested loop is augmented by its own candidates. |
| Augmentation.AugmentZero | tools/pathtreetools.py:278-298 | Augmenting by all-zero lengths gives back the original tree. |
| Augmentation.AugmentGenerates | tools/pathtreetools.py:107-128 | The augmented tree, with weights built from the setting, generates exactly the extra-loop element of that setting, and its weights stay inside the search box. |
| Augmentation.SetOfDistinct | tools/pathtreetools.py:281-296 | Collecting a level's loops in a set leaves them unchanged when no scalar loop repeats. |
| Augmentation.SetOfShrinks | tools/pathtreetools.py:281-296 | A repeated scalar loop is merged when the level's loops are collected in a set, so the set is strictly smaller than the list. |
| Augmentation.FlatAugmentAgrees | tools/pathtreetools.py:278-298 | On a tree of scalar loops, ptaugmented as written (merging equal loops) and the model's `Augment` give the same tree exactly when `Augment`'s result repeats no scalar loop. |
| Augmentation.MergeDropsDuplicate | tools/pathtreetools.py:283-288 | A scalar loop of period p grown by a new level loop of the same period keeps one loop as written, so the tree comes back unchanged, while `Augment` keeps both loops. |
| Augmentation.AugmentKeepsElements | tools/pathtreetools.py:278-298 | Augmenting never loses an element: every element of the old tree is an element of the augmented one. |
| Grow.SmallestPt | tools/pathtreetools.py:308-314 | smallest_pt returns a member of a non-empty list with the fewest nodes, and nothing for an empty list. |
| Grow.Search | tools/pathtreetools.py:380-411 | growtree reads at most max(cutoff, 1) solutions. Each one satisfies the growth constraints: the target is met, it is in the reference list, exactly one length and one lweight are non-zero, lweight zero forces length zero, and the intended gating holds. |
| Grow.FlatTreesAccept | tools/pathtreetools.py:380-387 | On trees without nested loops, the growth constraints with `loops_and_weights` as written at line 260 accept exactly the vectors they accept with the intended gating. Both sides evaluate the element with `min(1, w)` read as a gate. |
| Grow.GrowTree | tools/pathtreetools.py:355-357 | A tree that already generates the element comes back unchanged. Any grown tree keeps the preset and stays inside the reference list. |
| Grow.GrowTreeChoice | tools/pathtreetools.py:399-421 | growtree fails exactly when no solution it reads grows a kept tree. Otherwise it returns a tree grown from one of those solutions, with no more nodes than any other kept one. |
| Grow.GrowReachesTarget | tools/pathtreetools.py:344-421 | When maxloop is at most 100, any tree growtree returns generates the target element. |
| Grow.GrowKeepsElements | tools/pathtreetools.py:344-421 | A tree growtree returns generates every element the input tree generated. |
| Grow.MergedGrowthMissesTarget | tools/pathtreetools.py:278-298 | Concrete input: growing the tree with the single loop 5 toward 505, a setting both constraint versions accept grows back, as written, into the unchanged tree, which does not generate 505 with weights up to 100. The model's grown tree has two loops of period 5 and does. |
| Grow.GrowComplete | tools/pathtreetools.py:399-421 | When the search ends before the cutoff, any solution whose grown tree is kept guarantees a result. That result has no more nodes than the grown tree. |
| Grow.RetryFound | tools/pathtreetools.py:327-332 | Whatever the retry loop returns is the result of one attempt, the k-th made with cutoff raised by 10k. |
| Grow.RetryExhausted | tools/pathtreetools.py:327-332 | The retry loop fails only when every attempt fails. |
| Grow.KeepTreeGrowStep | tools/pathtreetools.py:327-332 | A tree keeptreegrow returns keeps the preset, generates the target and every old element, and stays inside the reference list. |
| Grow.Seq2Pt | tools/pathtreetools.py:335-341 | seq2pt returns nothing exactly for the empty sequence. Any tree it returns has the first entry as its preset, generates every entry and stays inside the sequence. |
| Sampling.ScanUp | tools/pathtreetools.py:427-435 | The upward scan returns num increasing hits that miss nothing below the last one. It runs out exactly when fewer hits exist below the fuel bound. |
| Sampling.Pt2Seq | tools/pathtreetools.py:424-435 | pt2seq gives a loop-free tree's only element. Otherwise it gives the num smallest elements searched with maxloop 10·num, in increasing order and with no gaps. |
| Sampling.BareGeneratesPreset | tools/pathtreetools.py:438-445 | The tree the model builds for a bare number (one loop of period 0, as s2spt's `PathTree({0}, ...)`) generates exactly that number. |
| Sampling.SptElementCases | tools/pathtreetools.py:464-468 | issptelement holds exactly when the number is a bare entry or an element of one of the trees. |
| Sampling.SptElements | tools/pathtreetools.py:448-461 | spt_elements returns num members of the tree set, closed downward among members. It runs out exactly when fewer members exist below the fuel bound. |

## Left out

- OR-tools itself is left out. Each search is modelled by `Enumerate.All`, the order that first-unbound, smallest-value labelling produces. Propagation, failures and branch counts are not modelled.
- The `verbose` flags and every `print` are left out: output only.
- `pairprint` and `etesteq` are left out. Both are display and numpy helpers outside the core.
- The `PathTree` class (`pathtree.py`) is not part of this model. Trees are the datatype `PathTree.PT`, whose loops are a sequence.
- Augmentation.Augment: `ptaugmented` builds a Python set of loops. The model keeps a sequence instead. The new top-level loop goes first and equal loops are not merged, so a grown tree can list a loop twice where the source keeps it once. Because every search bounds weights by maxloop, this changes which elements the grown tree generates (see Findings). The code as written is `Augmentation.AugmentMerged`.
- Augmentation.AugmentGenerates: holds for the model's unmerged augmentation. For the source's merged one it fails: `Grow.MergedGrowthMissesTarget` exhibits an accepted setting whose merged tree does not generate the setting's element.
- Augmentation.AugmentMerged: merges equal scalar loops only. Equality of nested trees belongs to the PathTree class, which is not part of this model.
- Grow.GrowReachesTarget: the guarantee is the model's. In the source, growtree can return a tree that does not generate the target. An example is growing `PT(0, {5})` toward 505 when the first kept solution is the setting of `Grow.MergedGrowthMissesTarget`.
- Grow.KeepTreeGrowStep: "generates the target" is inherited from `Grow.GrowReachesTarget` and fails in the source on the same input.
- Grow.Seq2Pt: "generates every entry" is inherited the same way. In the source it fails, e.g. for `seq2pt([0, 5, 10, …, 505])` with a cutoff large enough for the search to reach that setting.
- Membership.IsPtElement: evaluates with `min(1, w)` read as a gate, as ptelement does on solved values. The constraint the source posts uses solver variables, where `min(1, w)` is `w`. On trees with nested loops the answers can differ (see Findings); `Membership.IsPtElementAsPosted` is the posted search. Everything built on `IsPtElement` inherits this: `Membership.PtSubset`, `Grow.GrowTree`, `Sampling.Pt2Seq`, `Sampling.SptElementCases`.
- Gating.GatedExtrasAllCount: "every candidate counts in full" is about the gated evaluation. In the expression growtree posts, a candidate on an active loop counts `w` times that loop's weight (`Evaluate.PostedGrowthDiffers`).
- Grow.Search: the target constraints evaluate with `min(1, w)` read as a gate. growtree posts them with `min(1, w)` equal to `w`, so on trees where some weight exceeds 1 the two searches can accept different vectors. `Evaluate.PostedExtraOnBits` shows they agree when every weight is 0 or 1.
- Grow.Search: the constraints use the intended gating (`Gating.GateIntended`), not `loops_and_weights` as written at line 260. On trees with nested loops it can return solutions the source never sees, and miss ones the source sees (see Findings). `Grow.AcceptedAsWritten` holds the constraints as written. `Grow.FlatTreesAccept` shows the two agree on trees without nested loops.
- Grow.SmallestPt: the source sorts with a non-stable argsort. The model keeps the first smallest tree and only promises a tree with the fewest nodes.
- Grow.KeepTreeGrow: the source retries without bound. The model stops after a given number of attempts and returns nothing.
- Grow.Seq2Pt: the source never returns when an entry cannot be grown. The model reports `GrowthFailed` for that entry once its attempts are spent.
- Sampling.Pt2Seq: the source scans upward without bound. The model stops at a fuel bound and returns nothing.
- Sampling.SptElements: the same fuel bound applies. The source's list of the set is returned as the set itself, since its order is unspecified.
- Sampling.S2spt: the source builds `PathTree({0}, pre={n})` for a bare number, so the preset is the one-element set `{n}`. ptelement then adds that preset to a number. That works only if the PathTree class (pathtree.py, not part of this model) converts the preset. The model assumes the tree stands for `n` alone and gives it the preset `n` with the same single loop of period 0.
- Membership.PtSubset: the source raises IndexError on an empty list (`elist[-1]`). The model requires a non-empty list.
- Membership.IsSubsetEl: the source raises IndexError on an empty list. The model requires a non-empty list.
- Membership.IsRightPt: the source raises IndexError on an empty list. The model requires a non-empty list.
- Integers are unbounded, as Python's are.
- Grow.GrowTree: when the tree already generates the target, the check uses maxloop 100 whatever growtree's own maxloop is. The model follows the code here. GrowReachesTarget therefore needs maxloop ≤ 100.

## Findings

| source | as written | input that shows it | evidently intended | confidence | as-written member | corrected member |
|---|---|---|---|---|---|---|
| tools/pathtreetools.py:260 | In a nested loop, `recurse(s, ll[1:], ww[1:])` pairs the whole inner weight list with the whole inner candidate list. So the first inner weight gates every candidate of the subtree, and a nested first inner loop is never gated by its own weight. | A tree with preset 0 and one nested loop over `PT(1, [2, 3])`, with weights `[1, [0, 1]]` and a candidate of length 5 and weight 1 on the loop of period 3, is rejected (over-restriction). A doubly nested tree whose first inner loop is nested with weight 0 lets a candidate of length 4 through, and that candidate adds nothing to the element (under-restriction). The under-restriction rests on how OR-tools overloads `<=`: `[0, [0]] == 0` is Python `False`, and `False <= (e == 0)` becomes the reflected `(e == 0) >= False`, which always holds. | Every candidate at or beneath a zero-weight loop is zero, and nothing else is constrained (the docstring's rule) | not executed | Gating.AsWrittenOverRestricts, Gating.AsWrittenUnderRestricts | Gating.GatedExtrasAllCount |
| tools/pathtreetools.py:185 | `ptelement(pt, w)` receives the flat solver vector. On a nested loop it then reads `w[i][0]` from an integer, which fails. | Any tree with a nested loop, e.g. preset 0 with one nested loop over `PT(1, [2])` | Reshape the vector with `weights_pt` before evaluating, as `isptelement` does | not executed | Membership.ElementsAsWritten, Membership.ElementsAsWrittenFails | Membership.Elements, Membership.ElementsHoldPreset |
| tools/pathtreetools.py:283-288 | ptaugmented adds the new level loop and the old loops to a set, so a new loop equal to an old scalar loop is merged into it. Weights are bounded by maxloop, so the merged tree can fail to generate the element its setting produced. | Growing `PT(0, {5})` toward 505. The setting with level candidate (5, 1) and weight 100 is accepted, and its grown tree is `PT(0, {5})` again, which needs weight 101 for 505. If that is the first kept solution, growtree returns a tree without its target. | The grown tree generates the target, as growtree's docstring says; keeping both loops does this | medium, not executed | Augmentation.AugmentMerged, Grow.MergedGrowthMissesTarget | Augmentation.AugmentGenerates, Grow.GrowReachesTarget |
| tools/pathtreetools.py:221 | isptelement posts `element == ptelement(pt, wpt)` over solver variables. Python's `min(1, w[i][0])` compares `w < 1`, gets a constraint object back, which is true, and returns `w`. The posted constraint multiplies a nested subtree by its weight instead of gating it. growtree posts ptelement_extraloop the same way (lines 122 and 125). | Preset 0 with one nested loop over `PT(3, [2])`: weights 2 and 1 give 8 when ptelement runs on numbers, but `8 == w*3 + w*2*v` has no solution, so isptelement answers no. | `min(1, w)` is a 0/1 gate, as ptelement computes it on numbers | medium, not executed | Membership.IsPtElementAsPosted, Membership.PostedMissesElement | Membership.IsPtElement, Gating.GatedExtrasAllCount |
