/**
  The user-facing handles IndepADvar, ADvar and ConstADvar. Each wraps a
  node pointer `cv`. In the default build, assigning one active variable to
  another only re-points `cv`: the two then share a node.
 */
module RadHandles {
  import opened RadModel
  import opened RadTape

  /** Which of the three handle classes an object is. */
  datatype HandleKind = Indep | Active | Const

  class ADvar {
    const kind: HandleKind
    var cv: Option<nat>

    /** `cv` names a node of `t`. */
    predicate Bound(t: Tape)
      reads this, t
    {
      cv.Some? && cv.value < |t.nodes|
    }

    /** IndepADvar() and ADvar(): `cv` is left unassigned. */
    constructor Unbound(k: HandleKind)
      requires k != Const
      ensures kind == k && cv == None
    {
      kind, cv := k, None;
    }

    /**
      A handle whose `cv` is node `n`, the state in which the value
      constructors (ADvar_ctr, ConstADvar_ctr) leave a handle.
     */
    constructor Wrap(k: HandleKind, n: nat)
      ensures kind == k && cv == Some(n)
    {
      kind, cv := k, Some(n);
    }

    /** ADvar(const IndepADvar &x): the new handle aliases `x`'s node. */
    constructor FromIndep(x: ADvar)
      ensures kind == Active && cv == x.cv
    {
      kind, cv := Active, x.cv;
    }

    /** ADvar(ADvari &x): the new handle points at node `n`. */
    constructor FromNode(n: nat)
      ensures kind == Active && cv == Some(n)
    {
      kind, cv := Active, Some(n);
    }

    /** val(): the value of the node `cv` points at. */
    function Val(t: Tape): (r: real)
      reads this, t
      requires Bound(t)
      ensures r == t.nodes[cv.value].Val
    {
      t.nodes[cv.value].Val
    }

    /** adj(): the adjoint of the node `cv` points at. */
    function Adj(t: Tape): (r: real)
      reads this, t
      requires Bound(t)
      ensures r == t.nodes[cv.value].aval
    {
      t.nodes[cv.value].aval
    }

    /**
      ADvar::operator=(const ADvari &x): re-points `cv` at node `n`. No node
      or record is created and no node changes.
     */
    method AssignNode(t: Tape, n: nat)
      requires kind == Active && t.Valid() && n < |t.nodes|
      modifies this
      ensures cv == Some(n) && Bound(t)
      ensures Val(t) == t.nodes[n].Val && Adj(t) == t.nodes[n].aval
    {
      cv := Some(n);
    }

    /**
      ADvar::operator=(const IndepADvar &x), IndepADvar's own private
      operator=, and the copy assignments the compiler declares for ADvar and
      ConstADvar, which reach that private operator=: `cv` becomes `x.cv`, so
      both handles read the same node. Self-assignment leaves `cv` as it was.
      A ConstADvar target takes this path only from another ConstADvar; from
      any other handle it takes ConstAssignVar. No node or record is created
      and no node changes.
     */
    method Assign(t: Tape, x: ADvar)
      requires (kind != Const || x.kind == Const) && x.Bound(t)
      modifies this
      ensures cv == x.cv && x.cv == old(x.cv)
      ensures Bound(t) && Val(t) == x.Val(t) && Adj(t) == x.Adj(t)
    {
      cv := x.cv;
    }

    /**
      ConstADvar::operator=(double d): the value of the current node becomes
      `d`; the handle still points at it and nothing else changes.
     */
    method ConstAssign(t: Tape, d: real)
      requires kind == Const && t.Valid() && Bound(t)
      modifies t
      ensures t.Valid() && Bound(t) && Val(t) == d
      ensures t.nodes == old(t.nodes)[cv.value := old(t.nodes)[cv.value].(Val := d)]
      ensures t.derps == old(t.derps) && t.LastDerp == old(t.LastDerp) && t.lastcad == old(t.lastcad)
    {
      t.SetVal(cv.value, d);
    }

    /**
      ConstADvar::operator=(const IndepADvar &x): the value of the current
      node becomes `x.val()`. It is chosen only when `x` is not itself a
      ConstADvar: between two ConstADvars the implicit copy assignment wins,
      and that is Assign.
     */
    method ConstAssignVar(t: Tape, x: ADvar)
      requires kind == Const && x.kind != Const && t.Valid() && Bound(t) && x.Bound(t)
      modifies t
      ensures t.Valid() && Bound(t) && Val(t) == old(x.Val(t))
      ensures t.nodes == old(t.nodes)[cv.value := old(t.nodes)[cv.value].(Val := old(x.Val(t)))]
      ensures t.derps == old(t.derps) && t.LastDerp == old(t.LastDerp) && t.lastcad == old(t.lastcad)
    {
      t.SetVal(cv.value, x.Val(t));
    }
  }

  /**
    After `c1 = c2` between two ConstADvars the handles share a node, so a
    later `c2 = d` shows through `c1`, and `c1`'s old node keeps its value.
   */
  method ConstCopyAliases(t: Tape, c1: ADvar, c2: ADvar, d: real)
    requires c1.kind == Const && c2.kind == Const && c1 != c2
    requires t.Valid() && c1.Bound(t) && c2.Bound(t)
    modifies c1, t
    ensures |t.nodes| == old(|t.nodes|) && c2.cv == old(c2.cv) && c1.cv == c2.cv
    ensures c1.Val(t) == d && c2.Val(t) == d
    ensures old(c1.cv) != c2.cv ==> t.nodes[old(c1.cv.value)] == old(t.nodes[c1.cv.value])
  {
    c1.Assign(t, c2);
    c2.ConstAssign(t, d);
  }

  /**
    copy(x): a new ADvar1 node with `x`'s value and one record with weight
    &One, `b` the new node and `c` `x`'s node.
   */
  method Copy(t: Tape, x: ADvar) returns (m: nat)
    requires t.Valid() && x.Bound(t)
    modifies t
    ensures t.Valid()
    ensures m == |old(t.nodes)| && t.nodes == old(t.nodes) + [ADvari(old(x.Val(t)), 0.0, Unary)]
    ensures t.derps == old(t.derps) + [Derp(old(t.LastDerp), One, Some(m), x.cv.value)]
    ensures t.TapeList() == [|old(t.derps)|] + old(t.TapeList())
    ensures t.lastcad == old(t.lastcad)
    ensures Ready(t.nodes, t.derps[|old(t.derps)|])
  {
    m := t.ADvar1(x.Val(t), One, x.cv.value);
  }

  /** The stores recorded for y = x * x + 2 * x at x = 3 (ids: x, x * x, 2 * x, y). */
  const ExampleNodes: seq<ADvari> :=
    [ADvari(3.0, 0.0, Plain), ADvari(9.0, 0.0, BinaryPartial(3.0, 3.0)),
     ADvari(6.0, 0.0, UnaryPartial(2.0)), ADvari(15.0, 0.0, Binary)]
  const ExampleDerps: seq<Derp> :=
    [Derp(None, PartialB(1), Some(1), 0), Derp(Some(0), PartialA(1), Some(1), 0),
     Derp(Some(1), PartialA(2), Some(2), 0),
     Derp(Some(2), One, Some(3), 2), Derp(Some(3), One, Some(3), 1)]

  /**
    A sweep of that tape from y seeded with adjoint 1 leaves
    dy/dx = 2x + 2 = 8 in x's adjoint.
   */
  lemma SquarePlusTwiceGradient()
    ensures AllReady(ExampleNodes[3 := ExampleNodes[3].(aval := 1.0)], ExampleDerps, [4, 3, 2, 1, 0])
    ensures Sweep(ExampleNodes[3 := ExampleNodes[3].(aval := 1.0)], ExampleDerps, [4, 3, 2, 1, 0])[0].aval == 8.0
  {
    var d := ExampleDerps;
    var s0 := ExampleNodes[3 := ExampleNodes[3].(aval := 1.0)];
    assert AllReady(s0, d, [4, 3, 2, 1, 0]);
    var s1 := Step(s0, d[4]);
    assert s1[1].aval == 1.0;
    var s2 := Step(s1, d[3]);
    assert s2[2].aval == 1.0 && s2[1].aval == 1.0;
    var s3 := Step(s2, d[2]);
    assert s3[0].aval == 2.0 && s3[1].aval == 1.0;
    var s4 := Step(s3, d[1]);
    assert s4[0].aval == 5.0 && s4[1].aval == 1.0;
    var s5 := Step(s4, d[0]);
    assert s5[0].aval == 8.0;
    assert Sweep(s4, d, [0]) == Sweep(s5, d, []);
    assert Sweep(s3, d, [1, 0]) == Sweep(s4, d, [0]);
    assert Sweep(s2, d, [2, 1, 0]) == Sweep(s3, d, [1, 0]);
    assert Sweep(s1, d, [3, 2, 1, 0]) == Sweep(s2, d, [2, 1, 0]);
  }

  /**
    One possible recording of y = x * x + 2 * x at x = 3, with x * x
    recorded before 2 * x (C++ leaves the order of the two operands of +
    open): x * x through ADvar2q with partials 3 and 3, 2 * x through ADvar1s
    with partial 2, and the sum through ADvar2 with weights &One. Which
    builder each operator calls is an assumption of this example, since the
    operator bodies are not part of this model. The result is the tape of
    SquarePlusTwiceGradient, with y's value 15.
   */
  method SquarePlusTwice() returns (t: Tape, y: nat)
    ensures t.Valid() && t.nodes == ExampleNodes && t.derps == ExampleDerps
    ensures y == 3 && t.nodes[y].Val == 15.0 && t.TapeList() == [4, 3, 2, 1, 0]
  {
    t := new Tape();
    var x := t.NewADvari(3.0, 0.0);
    var sq := t.ADvar2q(9.0, 3.0, 3.0, x, x);
    var tw := t.ADvar1s(6.0, 2.0, x);
    y := t.ADvar2(15.0, sq, One, tw, One);
  }
}
