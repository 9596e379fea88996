# RAD tape recording and Zoltan2 graph metric values, in Dafny

This project models two pieces of Trilinos.

**Sacado RAD** is reverse-mode automatic differentiation (`packages/sacado/src/Sacado_rad.hpp`). While a computation runs, RAD records it on a *tape*:

- every operation builds a node (`ADvari`) holding the forward value `Val` and an adjoint `aval`;
- the operation links one or two propagation records (`Derp`) at the head of a single list whose head is `Derp::LastDerp`;
- a record means `c->aval += *a * b->aval`, where `b` is the node the operation built and `c` is an operand;
- constant nodes (`ConstADvari`) are chained separately through `prevcad`, with `lastcad` as the head;
- storage comes from a bump allocator, `ADcontext::Memalloc`, which carves each request off the top of the free space of the current `ADmemblock`.

The model is split into four modules:

- `Arena` holds the allocator as a class. It records every region handed out, and its invariant says that no two regions overlap.
- `RadModel` holds the values: nodes, records and weight pointers. It also holds the specification functions:
  - one propagation step, the rule of line 89;
  - a backward sweep that applies that rule along a list of records;
  - the tape list, read by following `next` from the head;
  - the constant chain, read by following `prevcad`;
  - the comparison operators.

  Lemmas in `RadModel` prove what these functions promise.
- `RadTape` holds a class `Tape`. Its fields are the node store, the record store, `LastDerp` and `lastcad`. Each node or record constructor of the source is a method that extends this state.
- `RadHandles` holds the handle class for `IndepADvar`/`ADvar`/`ConstADvar`, with alias assignment, `val()`/`adj()` and `copy`.

Nodes and records are referred to by their position in their store instead of by pointer. Values are mathematical reals, not IEEE doubles.

**Zoltan2 GraphMetricValues** (`packages/zoltan2/src/util/Zoltan2_GraphMetricValues.hpp`) is a table with two slots, the global sum and the global maximum. It has setters, getters, a lookup by metric name, and a fixed set of names. Module `GraphMetrics` models it as a class over an array of two reals.

Only the default build of RAD is modelled: neither `RAD_AUTO_AD_Const` nor `RAD_NO_EQ_ALIAS` is defined.

## Model

| member | source | states |
|---|---|---|
| `Arena.ADcontext.constructor` | packages/sacado/src/Sacado_rad.hpp:31-52 | a fresh context has the whole embedded first block (1000 doubles) free and has handed out nothing |
| `Arena.ADcontext.Memalloc` | packages/sacado/src/Sacado_rad.hpp:58-62 | when `Mleft >= len` the result is offset `Mleft - len` in the current block: it ends where the free space ended, and `Mleft` drops by exactly `len`; otherwise the region is in a block no earlier region lies in; in both cases the new region overlaps no earlier region, and the no-overlap invariant is kept |
| `Arena.ADcontext.NewBlock` | packages/sacado/src/Sacado_rad.hpp:61 | the fallback moves to a new block, higher than every block used before, and carves the request from it |
| `RadModel.WeightOf` | packages/sacado/src/Sacado_rad.hpp:89 | `*a` denotes nothing exactly when `a` was never assigned or names a partial slot its node does not have; `&One` gives 1, a caller's double gives its value, and a partial slot gives the partial stored in that node |
| `RadModel.Step` | packages/sacado/src/Sacado_rad.hpp:89 | one record adds `*a * b.aval` to `c.aval`; no other node and no value or kind changes |
| `RadModel.Sweep` | packages/sacado/src/Sacado_rad.hpp:78-89 | applying the rule to a list of records changes only adjoints, and only those of nodes some listed record names as `c` |
| `RadModel.SweepScales` | packages/sacado/src/Sacado_rad.hpp:89 | a sweep is linear: scaling every starting adjoint by `k` scales every resulting adjoint by `k` |
| `RadModel.SweepAdds` | packages/sacado/src/Sacado_rad.hpp:89 | a sweep is additive: sweeping the sum of two seedings gives the sum of the two sweeps, so weighted outputs combine in one pass |
| `RadModel.TapeFrom` | packages/sacado/src/Sacado_rad.hpp:78-79 | following `next` from a head gives a list of existing records that is empty exactly when the head is null |
| `RadModel.PrependToTape` | packages/sacado/src/Sacado_rad.hpp:92-105 | a record linked at the head with `next` = old head puts itself in front of the old tape, and the old tape is left as it was |
| `RadModel.TapeFromAppend` | packages/sacado/src/Sacado_rad.hpp:92-105 | adding a record does not change the chain reached from any earlier record |
| `RadModel.TapeIsReverseCreationOrder` | packages/sacado/src/Sacado_rad.hpp:92-105 | when records are linked one at a time at the head, the tape holds each record exactly once, the most recent first |
| `RadModel.SweepOrderRespectsDependencies` | packages/sacado/src/Sacado_rad.hpp:89-105 | on such a tape, every record that adds into a node's adjoint comes before every record that reads that adjoint |
| `RadModel.PrevConst` | packages/sacado/src/Sacado_rad.hpp:204-210 | the constant a new ConstADvari links to is the most recent earlier constant node, or none when there is none |
| `RadModel.PrevConstAgree` | packages/sacado/src/Sacado_rad.hpp:204-210 | which constant comes before a position depends only on which nodes are constants |
| `RadModel.ConstChainFrom` | packages/sacado/src/Sacado_rad.hpp:204-206 | following `prevcad` visits only existing constant nodes |
| `RadModel.ConstChainListsConstants` | packages/sacado/src/Sacado_rad.hpp:204-210 | a consistent chain from `lastcad` lists exactly the constant nodes, newest first |
| `RadModel.ConstChainFromPrevConst` | packages/sacado/src/Sacado_rad.hpp:204-210 | the chain from the last constant below `m` is the list of constants below `m` |
| `RadModel.ConstChainOkLinksBelow` | packages/sacado/src/Sacado_rad.hpp:204-210 | in a consistent chain every `prevcad` and `lastcad` names an earlier constant node |
| `RadModel.AppendKeepsConstChain` | packages/sacado/src/Sacado_rad.hpp:114-116 | building a node that is not a constant leaves the constant chain consistent |
| `RadModel.AppendConstExtendsChain` | packages/sacado/src/Sacado_rad.hpp:210 | a constant built with `prevcad = lastcad` becomes the new `lastcad` of a consistent chain |
| `RadModel.SameKindsKeepConstChain` | packages/sacado/src/Sacado_rad.hpp:374-375 | changing values or adjoints, and no kind, keeps the chain consistent |
| `RadModel.Compare` | packages/sacado/src/Sacado_rad.hpp:431-453 | each operator, with node or double operands on either side, answers the matching relation between the left operand's `Val` (or the double) and the right one's |
| `RadModel.CompareReadsOnlyVal` | packages/sacado/src/Sacado_rad.hpp:431-453 | a comparison's result depends only on the `Val` of its operands, never on adjoints |
| `RadModel.CompareDualities` | packages/sacado/src/Sacado_rad.hpp:431-453 | over the real values of this model, the six operators and their double overloads form the usual total order on `Val` (`>` is flipped `<`, `>=` is not `<`, `!=` is not `==`); see "Left out" for NaN |
| `RadTape.Tape.constructor` | packages/sacado/src/Sacado_rad.hpp:78 | the recording starts with no nodes and no records, and `LastDerp` and `lastcad` are null |
| `RadTape.Tape.LinkDerp` | packages/sacado/src/Sacado_rad.hpp:92-105 | each linking Derp constructor makes the new record the head, with `next` the old head; earlier records and all nodes are unchanged; the tape becomes the new record followed by the old tape |
| `RadTape.Tape.AppendNode` | packages/sacado/src/Sacado_rad.hpp:112 | storage for one more node; the tape is untouched |
| `RadTape.Tape.NewADvari` | packages/sacado/src/Sacado_rad.hpp:114-116 | a new node has the given value and adjoint (both 0 by default) and no record is linked |
| `RadTape.Tape.ADvar1Value` | packages/sacado/src/Sacado_rad.hpp:192 | `ADvar1(val)` builds a node with `Val = val` and `aval = 0` and leaves the tape unchanged |
| `RadTape.Tape.ADvar1Unweighted` | packages/sacado/src/Sacado_rad.hpp:193 | `ADvar1(val, c)` builds the node and links one record naming `c` whose `a` and `b` stay unassigned |
| `RadTape.Tape.ADvar1` | packages/sacado/src/Sacado_rad.hpp:194 | `ADvar1(val, a, c)` builds a node with the given value and links exactly one record: weight `a`, `b` the new node, `c` the operand |
| `RadTape.Tape.ADvar1s` | packages/sacado/src/Sacado_rad.hpp:378-383 | `ADvar1s` stores its partial in the node and links one record whose weight points at it; that record can be applied |
| `RadTape.Tape.ADvar2Value` | packages/sacado/src/Sacado_rad.hpp:389 | `ADvar2(val)` builds a node and leaves the tape unchanged |
| `RadTape.Tape.LinkPair` | packages/sacado/src/Sacado_rad.hpp:392-399 | links dR at the old head and dL in front of it; dL becomes the head and both name the new node as `b` |
| `RadTape.Tape.ADvar2` | packages/sacado/src/Sacado_rad.hpp:390-400 | the linking `ADvar2` adds exactly two records: new head dL (weight `Lc`, `c` = left operand) with `next` dR (weight `Rc`, `c` = right operand), whose `next` is the old head; both have `b` = the new node |
| `RadTape.Tape.ADvar2q` | packages/sacado/src/Sacado_rad.hpp:406-417 | as `ADvar2`, with the two weights pointing at the node's own fields `a` = `Lp` and `b` = `Rp`; both records can be applied |
| `RadTape.Tape.ConstADvari` | packages/sacado/src/Sacado_rad.hpp:210 | the new constant's `prevcad` is the old `lastcad`, `lastcad` becomes the new node, the chain becomes the new node followed by the old chain, and the tape is untouched |
| `RadTape.Tape.ConstChainAppend` | packages/sacado/src/Sacado_rad.hpp:204-210 | adding a node does not change the chain reached from any earlier constant |
| `RadTape.Tape.SetVal` | packages/sacado/src/Sacado_rad.hpp:374-375 | overwrites the value of one node and nothing else |
| `RadHandles.ADvar.Unbound` | packages/sacado/src/Sacado_rad.hpp:255-261 | `IndepADvar()` and `ADvar()` leave `cv` unassigned; the declared-only `ConstADvar()` is not modelled, so the kind is never `Const` |
| `RadHandles.ADvar.Wrap` | packages/sacado/src/Sacado_rad.hpp:284-286 | a handle whose `cv` is a given node, as the value constructors leave it |
| `RadHandles.ADvar.FromIndep` | packages/sacado/src/Sacado_rad.hpp:314 | `ADvar(const IndepADvar &x)` aliases `x`: same `cv` |
| `RadHandles.ADvar.FromNode` | packages/sacado/src/Sacado_rad.hpp:315 | `ADvar(ADvari &x)` points `cv` at `x` |
| `RadHandles.ADvar.Val` | packages/sacado/src/Sacado_rad.hpp:271 | `val()` is the `Val` of the node `cv` points at; `cv` must be set, since the source dereferences it |
| `RadHandles.ADvar.Adj` | packages/sacado/src/Sacado_rad.hpp:272 | `adj()` is the `aval` of the node `cv` points at; `cv` must be set |
| `RadHandles.ADvar.AssignNode` | packages/sacado/src/Sacado_rad.hpp:316 | assigning a node only re-points `cv`, so `val()` and `adj()` then read that node; nothing else changes |
| `RadHandles.ADvar.Assign` | packages/sacado/src/Sacado_rad.hpp:314-317 | alias assignment only copies `cv`: afterwards both handles give the same `val()` and `adj()`, and no node or record is created. It also covers the copy assignments the compiler declares for `ADvar` and `ConstADvar`, which reach the private `cv = x.cv` of line 229. Self-assignment leaves `cv` as it was, and a `ConstADvar` target takes this path only from another `ConstADvar` |
| `RadHandles.ADvar.ConstAssign` | packages/sacado/src/Sacado_rad.hpp:374 | `ConstADvar = d` overwrites the value of its node and changes nothing else |
| `RadHandles.ADvar.ConstAssignVar` | packages/sacado/src/Sacado_rad.hpp:375 | `ConstADvar = x`, for `x` not itself a `ConstADvar`, overwrites the value of its node with `x.val()` and changes nothing else |
| `RadHandles.ConstCopyAliases` | packages/sacado/src/Sacado_rad.hpp:349-376 | after `c1 = c2` between two `ConstADvar`s the handles share `c2`'s node: a later `c2 = d` shows through `c1`, and `c1`'s old node keeps its value |
| `RadHandles.Copy` | packages/sacado/src/Sacado_rad.hpp:460-461 | `copy(x)` builds a node with `x`'s value and links exactly one record: weight `&One`, `b` the new node, `c` `x`'s node |
| `RadHandles.SquarePlusTwiceGradient` | packages/sacado/src/Sacado_rad.hpp:89 | on the tape of `y = x*x + 2*x` at `x = 3`, a sweep seeded with `y.aval = 1` leaves `8 = 2x + 2` in `x.aval` |
| `RadHandles.SquarePlusTwice` | packages/sacado/src/Sacado_rad.hpp:378-418 | one possible recording of `y = x*x + 2*x` at `x = 3` (`x*x` first) with `ADvar2q`, `ADvar1s` and `ADvar2` yields `y.Val = 15` and exactly that tape, most recent record first |
| `GraphMetrics.OffsetsDistinct` | packages/zoltan2/src/util/Zoltan2_GraphMetricValues.hpp:89-93 | `evalGlobalSum` and `evalGlobalMax` are different slots below `evalNumMetrics` |
| `GraphMetrics.MetricNamesDistinct` | packages/zoltan2/src/util/Zoltan2_GraphMetricValues.hpp:121-124 | the static name set holds two different names |
| `GraphMetrics.GraphMetricValues.constructor` | packages/zoltan2/src/util/Zoltan2_GraphMetricValues.hpp:65-68 | the value store has `evalNumMetrics = 2` slots |
| `GraphMetrics.GraphMetricValues.SetGlobalSum` | packages/zoltan2/src/util/Zoltan2_GraphMetricValues.hpp:77 | after `setGlobalSum(x)`, `getGlobalSum()` returns `x` and the maximum slot is unchanged; the name-to-value table changes only at "global sum" |
| `GraphMetrics.GraphMetricValues.SetGlobalMax` | packages/zoltan2/src/util/Zoltan2_GraphMetricValues.hpp:80 | after `setGlobalMax(x)`, `getGlobalMax()` returns `x` and the sum slot is unchanged; the name-to-value table changes only at "global maximum" |
| `GraphMetrics.GraphMetricValues.GetGlobalSum` | packages/zoltan2/src/util/Zoltan2_GraphMetricValues.hpp:83 | `getGlobalSum()` is the value the table holds under "global sum" |
| `GraphMetrics.GraphMetricValues.GetGlobalMax` | packages/zoltan2/src/util/Zoltan2_GraphMetricValues.hpp:86 | `getGlobalMax()` is the value the table holds under "global maximum" |
| `GraphMetrics.GraphMetricValues.GetMetrics` | packages/zoltan2/src/util/Zoltan2_GraphMetricValues.hpp:115 | `getMetrics()` holds one name per slot, "global sum" and "global maximum" among them |
| `GraphMetrics.GraphMetricValues.GetMetricValue` | packages/zoltan2/src/util/Zoltan2_GraphMetricValues.hpp:101-109 | `"global maximum"` yields `getGlobalMax()`, `"global sum"` yields `getGlobalSum()`, every name of the table yields its own entry, and any name outside `getMetrics()` yields 0 |
| `GraphMetrics.GraphMetricValues.ListedMetricsAreRecognised` | packages/zoltan2/src/util/Zoltan2_GraphMetricValues.hpp:112-124 | `getMetrics()` is exactly the set of names of the table, {"global sum", "global maximum"}, and each listed name reads its own slot |
| `GraphMetrics.SetThenLookup` | packages/zoltan2/src/util/Zoltan2_GraphMetricValues.hpp:77-109 | after setting both slots, looking each up by name gives the value set, and an unknown name gives 0 |

## Left out

- `new_ADmemblock` (Sacado_rad.hpp:45) is not part of this model. `Arena.ADcontext.NewBlock` stands in for it: a new block of at least `len` bytes and at least one `ADmemblock`, with the request carved off its top. Reuse of blocks from the `Free` list after a sweep is not modelled.
- `Arena.ADcontext.constructor`: the body of `ADcontext()` is not shown. The model starts with the whole first block free.
- Byte sizes assume 8-byte doubles.
- The arena is not coupled to node construction. `operator new`/`operator delete` (lines 83-84, 112-113, 185, 209) are left out, and nodes and records live in stores indexed by position.
- `Gradcomp`, `Weighted_Gradcomp` and `ConstADvari::aval_reset` are not part of this model: their bodies are not in the header. `RadModel.Sweep` only states the rule of line 89 applied from the tape head to the tail. It does not claim how the seeding or the reset are done.
- `ADvar_ctr`, `ConstADvar_ctr`, the `ADvarn` constructor, `AD_Indep`/`AD_Const`, and all arithmetic and transcendental operator bodies (lines 133-160, 180-182) are not part of this model. The same holds for the declared-only `IndepADvar(double)`, `operator=(double)`, `operator+=` and its siblings, `ConstADvar(ADvari&)` and `ConstADvar()`, and for `Val`/`Adj` of `AD_IndepVlist` (lines 456-457).
- `RadHandles.ADvar.Wrap` stands for the state the unseen value constructors leave. It makes no claim about the node they build.
- Unary `+` (line 429) returns its operand. With nodes named by position, it is the identity and has no member of its own. The same holds for the conversions `operator ADvari&()` (lines 268-269): they yield the node `cv` points at, so a handle converted to a node is just its `cv`.
- The `int`/`long` overloads differ from the `double` ones only by a cast, so they are not modelled separately.
- The `RAD_AUTO_AD_Const` and `RAD_NO_EQ_ALIAS` variants (lines 118-131, 195-198, 226-227, 248-254, 288-311) are left out.
- `fpval_implies_const` and its accessors (lines 67, 329-337) are left out: their effect is defined in unseen code.
- A weight pointer to a caller-owned double is modelled by the value it points at (`Ext`). A later write through that pointer is not modelled.
- `CADcontext::One` is defined outside the header. The model takes its value to be 1.0.
- Floating point is replaced by mathematical reals, and comparisons return `bool` instead of `int`.
- `RadModel.Compare`: a NaN `Val` is outside the model. With doubles, every operator except `!=` is false on a NaN operand.
- `RadModel.CompareDualities` holds of reals only. With doubles and a NaN operand, `>=` is not the negation of `<`, and `<=` is not the negation of `>`.
- Zoltan2 `printHeader`/`printLine` (lines 127-148) are stream formatting and are left out. So is the metric name held by `MetricBase`, which only they read.
- `MetricBase` is not part of this model. `values_` is a local two-slot array, and its initial contents are not stated.
- `scalar_t` is modelled as `real`.
