/**
  The values of the RAD tape: nodes (`ADvari`), derivative-propagation
  records (`Derp`), and the specification functions over them: what a
  record's weight pointer resolves to, one propagation step, a backward
  sweep over a list of records, the tape list read off the `next` links
  and the constant chain read off the `prevcad` links.

  Nodes and records live in stores (`seq<ADvari>`, `seq<Derp>`) and refer
  to each other by position in those stores instead of by pointer.
 */
module RadModel {

  datatype Option<+T> = None | Some(value: T)

  /** What the `a` pointer of a record points at. */
  datatype WeightRef =
    | Unset               // never assigned: the constructor Derp(c) leaves `a` alone
    | One                 // &CADcontext::One
    | Ext(x: real)        // a double owned by the builder's caller
    | PartialA(node: nat) // the field `a` of an ADvar1s or ADvar2q node
    | PartialB(node: nat) // the field `b` of an ADvar2q node

  /** Which class a node was built as, with the fields that class adds to ADvari. */
  datatype NodeKind =
    | Plain                              // ADvari
    | Unary                              // ADvar1
    | UnaryPartial(a: real)              // ADvar1s
    | Binary                             // ADvar2
    | BinaryPartial(a: real, b: real)    // ADvar2q
    | Constant(prevcad: Option<nat>)     // ConstADvari

  /** A tape node: forward value `Val` and adjoint `aval`. */
  datatype ADvari = ADvari(Val: real, aval: real, kind: NodeKind)

  /**
    A propagation record. Its meaning is `c.aval += *a * b.aval`: `b` is the
    node the operation built and `c` is one of its operands. `b` is `None`
    for the constructors that leave it unassigned.
   */
  datatype Derp = Derp(next: Option<nat>, a: WeightRef, b: Option<nat>, c: nat)

  /** The value of CADcontext::One. */
  const OneValue: real := 1.0

  /**
    `*a`: the double a weight pointer points at. It denotes nothing exactly
    when the pointer was never assigned or names a partial slot that the node
    does not have; &One gives 1, and a partial slot gives the partial stored
    in that node.
   */
  function WeightOf(nodes: seq<ADvari>, w: WeightRef): (r: Option<real>)
    ensures r.None? <==>
              || w.Unset?
              || (w.PartialA? && !(w.node < |nodes| && (nodes[w.node].kind.UnaryPartial? || nodes[w.node].kind.BinaryPartial?)))
              || (w.PartialB? && !(w.node < |nodes| && nodes[w.node].kind.BinaryPartial?))
    ensures w.One? ==> r == Some(OneValue)
    ensures w.Ext? ==> r == Some(w.x)
    ensures w.PartialA? && r.Some? ==> r.value == nodes[w.node].kind.a
    ensures w.PartialB? && r.Some? ==> r.value == nodes[w.node].kind.b
  {
    match w
    case Unset => None
    case One => Some(OneValue)
    case Ext(x) => Some(x)
    case PartialA(n) =>
      if n < |nodes| && (nodes[n].kind.UnaryPartial? || nodes[n].kind.BinaryPartial?)
      then Some(nodes[n].kind.a) else None
    case PartialB(n) =>
      if n < |nodes| && nodes[n].kind.BinaryPartial? then Some(nodes[n].kind.b) else None
  }

  /** A record can be applied: its weight, `b` and `c` all denote something. */
  predicate Ready(nodes: seq<ADvari>, d: Derp)
  {
    d.b.Some? && d.b.value < |nodes| && d.c < |nodes| && WeightOf(nodes, d.a).Some?
  }

  /** Two stores that differ at most in their adjoints. */
  predicate SameShape(s: seq<ADvari>, t: seq<ADvari>)
  {
    |s| == |t| && forall i :: 0 <= i < |s| ==> s[i].Val == t[i].Val && s[i].kind == t[i].kind
  }

  lemma WeightOfSameShape(s: seq<ADvari>, t: seq<ADvari>, w: WeightRef)
    requires SameShape(s, t)
    ensures WeightOf(s, w) == WeightOf(t, w)
  {
  }

  /** One propagation step of record `d`: `c.aval += *a * b.aval`. */
  function Step(nodes: seq<ADvari>, d: Derp): (r: seq<ADvari>)
    requires Ready(nodes, d)
    ensures SameShape(nodes, r)
    ensures forall i :: 0 <= i < |r| && i != d.c ==> r[i] == nodes[i]
    ensures r[d.c].aval == nodes[d.c].aval + WeightOf(nodes, d.a).value * nodes[d.b.value].aval
  {
    var w := WeightOf(nodes, d.a).value;
    nodes[d.c := nodes[d.c].(aval := nodes[d.c].aval + w * nodes[d.b.value].aval)]
  }

  /** Every record that `tape` lists exists and can be applied. */
  predicate AllReady(nodes: seq<ADvari>, derps: seq<Derp>, tape: seq<nat>)
  {
    forall k :: 0 <= k < |tape| ==> tape[k] < |derps| && Ready(nodes, derps[tape[k]])
  }

  lemma AllReadySameShape(s: seq<ADvari>, t: seq<ADvari>, derps: seq<Derp>, tape: seq<nat>)
    requires SameShape(s, t) && AllReady(s, derps, tape)
    ensures AllReady(t, derps, tape)
  {
    forall k | 0 <= k < |tape| ensures tape[k] < |derps| && Ready(t, derps[tape[k]]) {
      WeightOfSameShape(s, t, derps[tape[k]].a);
    }
  }

  /**
    A backward sweep: the propagation step applied to each record of
    `tape`, first element first. Only adjoints change, and only those of
    nodes that some listed record names as `c`.
   */
  function Sweep(nodes: seq<ADvari>, derps: seq<Derp>, tape: seq<nat>): (r: seq<ADvari>)
    requires AllReady(nodes, derps, tape)
    ensures SameShape(nodes, r)
    ensures forall i :: 0 <= i < |nodes| && (forall k :: 0 <= k < |tape| ==> derps[tape[k]].c != i) ==> r[i] == nodes[i]
    decreases |tape|
  {
    if tape == [] then nodes
    else
      var next := Step(nodes, derps[tape[0]]);
      AllReadySameShape(nodes, next, derps, tape[1..]);
      Sweep(next, derps, tape[1..])
  }

  /** The store with every adjoint multiplied by `k`. */
  function Scaled(nodes: seq<ADvari>, k: real): seq<ADvari>
  {
    seq(|nodes|, i requires 0 <= i < |nodes| => nodes[i].(aval := k * nodes[i].aval))
  }

  /** Two stores of the same shape with their adjoints added. */
  function Added(s: seq<ADvari>, t: seq<ADvari>): seq<ADvari>
    requires SameShape(s, t)
  {
    seq(|s|, i requires 0 <= i < |s| => s[i].(aval := s[i].aval + t[i].aval))
  }

  lemma StepScaled(nodes: seq<ADvari>, d: Derp, k: real)
    requires Ready(nodes, d)
    ensures Ready(Scaled(nodes, k), d)
    ensures Step(Scaled(nodes, k), d) == Scaled(Step(nodes, d), k)
  {
    var s := Scaled(nodes, k);
    WeightOfSameShape(nodes, s, d.a);
    var w := WeightOf(nodes, d.a).value;
    var lhs, rhs := Step(s, d), Scaled(Step(nodes, d), k);
    assert |lhs| == |rhs|;
    forall i | 0 <= i < |lhs| ensures lhs[i] == rhs[i] {
      if i == d.c {
        var x, y := nodes[d.c].aval, nodes[d.b.value].aval;
        calc {
          lhs[i].aval;
          k * x + w * (k * y);
          { assert w * (k * y) == k * (w * y); }
          k * (x + w * y);
          rhs[i].aval;
        }
      }
    }
  }

  lemma StepAdded(s: seq<ADvari>, t: seq<ADvari>, d: Derp)
    requires SameShape(s, t) && Ready(s, d)
    ensures Ready(t, d) && Ready(Added(s, t), d)
    ensures Step(Added(s, t), d) == Added(Step(s, d), Step(t, d))
  {
    var u := Added(s, t);
    WeightOfSameShape(s, t, d.a);
    WeightOfSameShape(s, u, d.a);
    var w := WeightOf(s, d.a).value;
    var lhs, rhs := Step(u, d), Added(Step(s, d), Step(t, d));
    assert |lhs| == |rhs|;
    forall i | 0 <= i < |lhs| ensures lhs[i] == rhs[i] {
      if i == d.c {
        var x1, y1 := s[d.c].aval, s[d.b.value].aval;
        var x2, y2 := t[d.c].aval, t[d.b.value].aval;
        calc {
          lhs[i].aval;
          (x1 + x2) + w * (y1 + y2);
          { assert w * (y1 + y2) == w * y1 + w * y2; }
          (x1 + w * y1) + (x2 + w * y2);
          { assert Step(s, d)[i].aval == x1 + w * y1;
            assert WeightOf(t, d.a).value == w;
            assert Step(t, d)[i].aval == x2 + w * y2; }
          Step(s, d)[i].aval + Step(t, d)[i].aval;
          rhs[i].aval;
        }
      }
    }
  }

  /**
    The sweep is linear in the adjoints it starts from: scaling every
    starting adjoint by `k` scales every result by `k`.
   */
  lemma {:induction false} SweepScales(nodes: seq<ADvari>, derps: seq<Derp>, tape: seq<nat>, k: real)
    requires AllReady(nodes, derps, tape)
    ensures AllReady(Scaled(nodes, k), derps, tape)
    ensures Sweep(Scaled(nodes, k), derps, tape) == Scaled(Sweep(nodes, derps, tape), k)
    decreases |tape|
  {
    AllReadySameShape(nodes, Scaled(nodes, k), derps, tape);
    if tape != [] {
      var d := derps[tape[0]];
      StepScaled(nodes, d, k);
      var next := Step(nodes, d);
      AllReadySameShape(nodes, next, derps, tape[1..]);
      SweepScales(next, derps, tape[1..], k);
    }
  }

  /**
    The sweep is additive in the adjoints it starts from: sweeping the sum
    of two seedings gives the sum of the two sweeps.
   */
  lemma {:induction false} SweepAdds(s: seq<ADvari>, t: seq<ADvari>, derps: seq<Derp>, tape: seq<nat>)
    requires SameShape(s, t) && AllReady(s, derps, tape)
    ensures AllReady(t, derps, tape) && AllReady(Added(s, t), derps, tape)
    ensures SameShape(Sweep(s, derps, tape), Sweep(t, derps, tape))
    ensures Sweep(Added(s, t), derps, tape) == Added(Sweep(s, derps, tape), Sweep(t, derps, tape))
    decreases |tape|
  {
    AllReadySameShape(s, t, derps, tape);
    AllReadySameShape(s, Added(s, t), derps, tape);
    if tape != [] {
      var d := derps[tape[0]];
      StepAdded(s, t, d);
      var s', t' := Step(s, d), Step(t, d);
      AllReadySameShape(s, s', derps, tape[1..]);
      AllReadySameShape(t, t', derps, tape[1..]);
      SweepAdds(s', t', derps, tape[1..]);
    }
  }

  // ---------------------------------------------------------------------
  // The tape: records chained through `next`, head = most recent record

  /** Every `next` link points at an earlier record. */
  predicate NextBelow(derps: seq<Derp>)
  {
    forall i :: 0 <= i < |derps| && derps[i].next.Some? ==> derps[i].next.value < i
  }

  /** The record list reached from `h` by following `next`. */
  function TapeFrom(derps: seq<Derp>, h: Option<nat>): (r: seq<nat>)
    requires NextBelow(derps)
    requires h.Some? ==> h.value < |derps|
    ensures h.None? <==> r == []
    ensures forall k :: 0 <= k < |r| ==> r[k] < |derps|
    decreases if h.Some? then h.value + 1 else 0
  {
    if h.None? then [] else [h.value] + TapeFrom(derps, derps[h.value].next)
  }

  /** The head of a tape holding `n` records linked in creation order. */
  function Head(n: nat): Option<nat>
  {
    if n == 0 then None else Some(n - 1)
  }

  /**
    Records were linked one at a time at the head: record `i` was linked
    when the head was record `i - 1`.
   */
  predicate LinkedInOrder(derps: seq<Derp>)
  {
    forall i :: 0 <= i < |derps| ==> derps[i].next == Head(i)
  }

  /** Linking one more record after `derps` leaves every old chain as it was. */
  lemma {:induction false} TapeFromAppend(derps: seq<Derp>, d: Derp, h: Option<nat>)
    requires NextBelow(derps) && NextBelow(derps + [d])
    requires h.Some? ==> h.value < |derps|
    ensures TapeFrom(derps + [d], h) == TapeFrom(derps, h)
    decreases if h.Some? then h.value + 1 else 0
  {
    if h.Some? {
      assert (derps + [d])[h.value] == derps[h.value];
      TapeFromAppend(derps, d, derps[h.value].next);
    }
  }

  /** Linking a record at the head puts it in front of the old tape. */
  lemma PrependToTape(derps: seq<Derp>, d: Derp)
    requires NextBelow(derps)
    requires d.next.Some? ==> d.next.value < |derps|
    ensures NextBelow(derps + [d])
    ensures TapeFrom(derps + [d], Some(|derps|)) == [|derps|] + TapeFrom(derps, d.next)
  {
    assert (derps + [d])[|derps|] == d;
    TapeFromAppend(derps, d, d.next);
  }

  /**
    A tape linked in creation order holds every record exactly once, the
    most recent first: position `p` holds record `n - 1 - p`.
   */
  lemma {:induction false} TapeIsReverseCreationOrder(derps: seq<Derp>, n: nat)
    requires LinkedInOrder(derps) && n <= |derps|
    ensures NextBelow(derps)
    ensures |TapeFrom(derps, Head(n))| == n
    ensures forall p :: 0 <= p < n ==> TapeFrom(derps, Head(n))[p] == n - 1 - p
  {
    if n > 0 {
      TapeIsReverseCreationOrder(derps, n - 1);
      assert derps[n - 1].next == Head(n - 1);
    }
  }

  /**
    Every record that reads a node's adjoint (names it as `b`) was linked
    before every record that writes it (names it as `c`).
   */
  predicate WritesAfterReads(derps: seq<Derp>)
  {
    forall i, j :: 0 <= i < |derps| && 0 <= j < |derps| && derps[j].b == Some(derps[i].c) ==> j < i
  }

  /**
    On a tape linked in creation order, a sweep from the head applies every
    record that adds into a node's adjoint before any record that reads it.
   */
  lemma SweepOrderRespectsDependencies(derps: seq<Derp>)
    requires LinkedInOrder(derps) && WritesAfterReads(derps)
    ensures NextBelow(derps)
    ensures var t := TapeFrom(derps, Head(|derps|));
            forall p, q :: 0 <= p < |t| && 0 <= q < |t| && derps[t[q]].b == Some(derps[t[p]].c) ==> p < q
  {
    TapeIsReverseCreationOrder(derps, |derps|);
  }

  // ---------------------------------------------------------------------
  // The constant chain: ConstADvari nodes linked through `prevcad`

  /** The most recent constant node below position `i`, if any. */
  function PrevConst(nodes: seq<ADvari>, i: nat): (r: Option<nat>)
    requires i <= |nodes|
    ensures r.Some? ==> r.value < i && nodes[r.value].kind.Constant?
    ensures r.Some? ==> forall j :: r.value < j < i ==> !nodes[j].kind.Constant?
    ensures r.None? ==> forall j :: 0 <= j < i ==> !nodes[j].kind.Constant?
  {
    if i == 0 then None
    else if nodes[i - 1].kind.Constant? then Some(i - 1)
    else PrevConst(nodes, i - 1)
  }

  /** `PrevConst` depends only on which nodes are constants. */
  lemma {:induction false} PrevConstAgree(s: seq<ADvari>, t: seq<ADvari>, i: nat)
    requires i <= |s| && i <= |t|
    requires forall j :: 0 <= j < i ==> s[j].kind.Constant? == t[j].kind.Constant?
    ensures PrevConst(s, i) == PrevConst(t, i)
  {
    if i > 0 {
      PrevConstAgree(s, t, i - 1);
    }
  }

  /**
    The constant chain is consistent: each constant node's `prevcad` is the
    constant created just before it, and `lastcad` is the newest constant.
   */
  predicate ConstChainOk(nodes: seq<ADvari>, lastcad: Option<nat>)
  {
    && (forall i :: 0 <= i < |nodes| && nodes[i].kind.Constant? ==> nodes[i].kind.prevcad == PrevConst(nodes, i))
    && lastcad == PrevConst(nodes, |nodes|)
  }

  /** Every `prevcad` link points at an earlier constant node. */
  predicate ConstLinksBelow(nodes: seq<ADvari>)
  {
    forall i :: 0 <= i < |nodes| && nodes[i].kind.Constant? && nodes[i].kind.prevcad.Some? ==>
      nodes[i].kind.prevcad.value < i && nodes[nodes[i].kind.prevcad.value].kind.Constant?
  }

  /** The node list reached from `h` by following `prevcad`. */
  function ConstChainFrom(nodes: seq<ADvari>, h: Option<nat>): (r: seq<nat>)
    requires ConstLinksBelow(nodes)
    requires h.Some? ==> h.value < |nodes| && nodes[h.value].kind.Constant?
    ensures forall k :: 0 <= k < |r| ==> r[k] < |nodes| && nodes[r[k]].kind.Constant?
    decreases if h.Some? then h.value + 1 else 0
  {
    if h.None? then [] else [h.value] + ConstChainFrom(nodes, nodes[h.value].kind.prevcad)
  }

  /** The positions of the constant nodes below `n`, highest first. */
  function ConstIds(nodes: seq<ADvari>, n: nat): seq<nat>
    requires n <= |nodes|
  {
    if n == 0 then []
    else if nodes[n - 1].kind.Constant? then [n - 1] + ConstIds(nodes, n - 1)
    else ConstIds(nodes, n - 1)
  }

  lemma ConstChainOkLinksBelow(nodes: seq<ADvari>, lastcad: Option<nat>)
    requires ConstChainOk(nodes, lastcad)
    ensures ConstLinksBelow(nodes)
    ensures lastcad.Some? ==> lastcad.value < |nodes| && nodes[lastcad.value].kind.Constant?
  {
  }

  /**
    A consistent chain starting at `lastcad` lists exactly the constant
    nodes, newest first.
   */
  lemma ConstChainListsConstants(nodes: seq<ADvari>, lastcad: Option<nat>)
    requires ConstChainOk(nodes, lastcad)
    ensures ConstLinksBelow(nodes)
    ensures ConstChainFrom(nodes, lastcad) == ConstIds(nodes, |nodes|)
  {
    ConstChainFromPrevConst(nodes, |nodes|);
  }

  lemma {:induction false} ConstChainFromPrevConst(nodes: seq<ADvari>, m: nat)
    requires ConstChainOk(nodes, PrevConst(nodes, |nodes|)) && m <= |nodes|
    ensures ConstLinksBelow(nodes)
    ensures ConstChainFrom(nodes, PrevConst(nodes, m)) == ConstIds(nodes, m)
  {
    ConstChainOkLinksBelow(nodes, PrevConst(nodes, |nodes|));
    if m > 0 {
      ConstChainFromPrevConst(nodes, m - 1);
      if nodes[m - 1].kind.Constant? {
        assert PrevConst(nodes, m) == Some(m - 1);
        assert nodes[m - 1].kind.prevcad == PrevConst(nodes, m - 1);
        assert ConstChainFrom(nodes, Some(m - 1)) == [m - 1] + ConstChainFrom(nodes, PrevConst(nodes, m - 1));
      } else {
        assert PrevConst(nodes, m) == PrevConst(nodes, m - 1);
      }
    }
  }

  /** Appending a node that is not a constant keeps the chain consistent. */
  lemma AppendKeepsConstChain(nodes: seq<ADvari>, lastcad: Option<nat>, x: ADvari)
    requires ConstChainOk(nodes, lastcad) && !x.kind.Constant?
    ensures ConstChainOk(nodes + [x], lastcad)
  {
    var s := nodes + [x];
    forall i | 0 <= i <= |nodes| ensures PrevConst(s, i) == PrevConst(nodes, i) {
      PrevConstAgree(s, nodes, i);
    }
  }

  /** Appending a constant whose `prevcad` is `lastcad` makes it the new chain head. */
  lemma AppendConstExtendsChain(nodes: seq<ADvari>, lastcad: Option<nat>, t: real)
    requires ConstChainOk(nodes, lastcad)
    ensures ConstChainOk(nodes + [ADvari(t, 0.0, Constant(lastcad))], Some(|nodes|))
  {
    var s := nodes + [ADvari(t, 0.0, Constant(lastcad))];
    forall i | 0 <= i <= |nodes| ensures PrevConst(s, i) == PrevConst(nodes, i) {
      PrevConstAgree(s, nodes, i);
    }
  }

  /** Changing values or adjoints, but no kind, keeps the chain consistent. */
  lemma SameKindsKeepConstChain(s: seq<ADvari>, t: seq<ADvari>, lastcad: Option<nat>)
    requires ConstChainOk(s, lastcad)
    requires |s| == |t| && forall i :: 0 <= i < |s| ==> s[i].kind == t[i].kind
    ensures ConstChainOk(t, lastcad)
  {
    forall i | 0 <= i <= |s| ensures PrevConst(s, i) == PrevConst(t, i) {
      PrevConstAgree(s, t, i);
    }
  }

  // ---------------------------------------------------------------------
  // Comparisons: they read `Val` and nothing else

  datatype Cmp = Lt | Le | Eq | Ne | Ge | Gt

  /** One side of a comparison: a node, or a plain double. */
  datatype Operand = Node(id: nat) | Num(x: real)

  predicate OperandOk(nodes: seq<ADvari>, o: Operand)
  {
    o.Node? ==> o.id < |nodes|
  }

  function OperandVal(nodes: seq<ADvari>, o: Operand): real
    requires OperandOk(nodes, o)
  {
    match o
    case Node(id) => nodes[id].Val
    case Num(x) => x
  }

  /**
    The comparison operators on ADvari and double operands: each compares
    the left operand's `Val` (or the double itself) with the right one's.
   */
  function Compare(nodes: seq<ADvari>, op: Cmp, l: Operand, r: Operand): (b: bool)
    requires OperandOk(nodes, l) && OperandOk(nodes, r)
    ensures op == Lt ==> (b <==> OperandVal(nodes, l) < OperandVal(nodes, r))
    ensures op == Eq ==> (b <==> OperandVal(nodes, l) == OperandVal(nodes, r))
    ensures op == Le ==> (b <==> OperandVal(nodes, l) <= OperandVal(nodes, r))
    ensures op == Ge ==> (b <==> OperandVal(nodes, l) >= OperandVal(nodes, r))
    ensures op == Gt ==> (b <==> OperandVal(nodes, l) > OperandVal(nodes, r))
    ensures op == Ne ==> (b <==> OperandVal(nodes, l) != OperandVal(nodes, r))
  {
    var x, y := OperandVal(nodes, l), OperandVal(nodes, r);
    match op
    case Lt => x < y
    case Le => x <= y
    case Eq => x == y
    case Ne => x != y
    case Ge => x >= y
    case Gt => x > y
  }

  /**
    A comparison's result is fixed by the operands' `Val` fields: stores that
    agree on those give the same answer, whatever their adjoints.
   */
  lemma CompareReadsOnlyVal(s: seq<ADvari>, t: seq<ADvari>, op: Cmp, l: Operand, r: Operand)
    requires OperandOk(s, l) && OperandOk(s, r) && OperandOk(t, l) && OperandOk(t, r)
    requires OperandVal(s, l) == OperandVal(t, l) && OperandVal(s, r) == OperandVal(t, r)
    ensures Compare(s, op, l, r) == Compare(t, op, l, r)
  {
  }

  /**
    Over real values the six operators are the usual total order on `Val`.
    (With IEEE doubles this fails once a NaN is involved.)
   */
  lemma CompareDualities(nodes: seq<ADvari>, l: Operand, r: Operand)
    requires OperandOk(nodes, l) && OperandOk(nodes, r)
    ensures Compare(nodes, Gt, l, r) == Compare(nodes, Lt, r, l)
    ensures Compare(nodes, Ge, l, r) == !Compare(nodes, Lt, l, r)
    ensures Compare(nodes, Le, l, r) == !Compare(nodes, Gt, l, r)
    ensures Compare(nodes, Ne, l, r) == !Compare(nodes, Eq, l, r)
    ensures Compare(nodes, Eq, l, r) == (Compare(nodes, Le, l, r) && Compare(nodes, Ge, l, r))
  {
  }
}
