/**
  The shared recording state of RAD: every node built so far, every record
  linked so far, the tape head `Derp::LastDerp` and the constant-chain head
  `ConstADvari::lastcad`. Each node and record constructor is a method that
  extends this state.
 */
module RadTape {
  import opened RadModel

  class Tape {
    var nodes: seq<ADvari>
    var derps: seq<Derp>
    var LastDerp: Option<nat>
    var lastcad: Option<nat>

    ghost predicate Valid()
      reads this
    {
      && LinkedInOrder(derps)
      && LastDerp == Head(|derps|)
      && (forall i :: 0 <= i < |derps| ==> derps[i].c < |nodes|)
      && (forall i :: 0 <= i < |derps| && derps[i].b.Some? ==> derps[i].c < derps[i].b.value < |nodes|)
      && WritesAfterReads(derps)
      && ConstChainOk(nodes, lastcad)
    }

    /** The tape: record ids from `LastDerp` along `next`. */
    ghost function TapeList(): seq<nat>
      reads this
      requires Valid()
    {
      TapeIsReverseCreationOrder(derps, |derps|);
      TapeFrom(derps, LastDerp)
    }

    /** The constant chain: node ids from `lastcad` along `prevcad`. */
    ghost function ConstChain(): seq<nat>
      reads this
      requires Valid()
    {
      ConstChainOkLinksBelow(nodes, lastcad);
      ConstChainFrom(nodes, lastcad)
    }

    constructor ()
      ensures Valid()
      ensures nodes == [] && derps == [] && LastDerp == None && lastcad == None
    {
      nodes, derps, LastDerp, lastcad := [], [], None, None;
    }

    /**
      The linking Derp constructors Derp(c), Derp(a, c) and Derp(a, b, c):
      the new record takes the old head as `next` and becomes the head.
      Unassigned fields are `Unset` / `None`. When `b` is given it is a node
      no record adds into yet, built after `c`, as the node classes pass it.
     */
    method LinkDerp(a: WeightRef, b: Option<nat>, c: nat) returns (k: nat)
      requires Valid()
      requires c < |nodes|
      requires b.Some? ==> c < b.value < |nodes| && forall i :: 0 <= i < |derps| ==> derps[i].c != b.value
      modifies this
      ensures Valid()
      ensures nodes == old(nodes) && lastcad == old(lastcad)
      ensures k == |old(derps)| && derps == old(derps) + [Derp(old(LastDerp), a, b, c)]
      ensures LastDerp == Some(k)
      ensures TapeList() == [k] + old(TapeList())
    {
      k := |derps|;
      assert Head(k + 1) == Some(k);
      var d := Derp(LastDerp, a, b, c);
      PrependToTape(derps, d);
      derps := derps + [d];
      LastDerp := Some(k);
    }

    /** Storage for one new node that is not a constant. */
    method AppendNode(x: ADvari) returns (m: nat)
      requires Valid() && !x.kind.Constant?
      modifies this
      ensures Valid()
      ensures m == |old(nodes)| && nodes == old(nodes) + [x]
      ensures derps == old(derps) && LastDerp == old(LastDerp) && lastcad == old(lastcad)
    {
      AppendKeepsConstChain(nodes, lastcad, x);
      m := |nodes|;
      nodes := nodes + [x];
    }

    /**
      ADvari(t, ta), ADvari(t) with ta = 0, and ADvari() with both 0: a
      node with value `t` and adjoint `ta`, and no record.
     */
    method NewADvari(t: real, ta: real) returns (m: nat)
      requires Valid()
      modifies this
      ensures Valid()
      ensures m == |old(nodes)| && nodes == old(nodes) + [ADvari(t, ta, Plain)]
      ensures derps == old(derps) && LastDerp == old(LastDerp) && lastcad == old(lastcad)
    {
      m := AppendNode(ADvari(t, ta, Plain));
    }

    /** ADvar1(val1): a node with value `val1`; its record is not linked. */
    method ADvar1Value(val1: real) returns (m: nat)
      requires Valid()
      modifies this
      ensures Valid()
      ensures m == |old(nodes)| && nodes == old(nodes) + [ADvari(val1, 0.0, Unary)]
      ensures derps == old(derps) && LastDerp == old(LastDerp) && lastcad == old(lastcad)
    {
      m := AppendNode(ADvari(val1, 0.0, Unary));
    }

    /**
      ADvar1(val1, c1): a node with value `val1` and one linked record naming
      `c1`, whose `a` and `b` stay unassigned.
     */
    method ADvar1Unweighted(val1: real, c1: nat) returns (m: nat)
      requires Valid() && c1 < |nodes|
      modifies this
      ensures Valid()
      ensures m == |old(nodes)| && nodes == old(nodes) + [ADvari(val1, 0.0, Unary)]
      ensures derps == old(derps) + [Derp(old(LastDerp), Unset, None, c1)]
      ensures TapeList() == [|old(derps)|] + old(TapeList())
      ensures lastcad == old(lastcad)
    {
      m := AppendNode(ADvari(val1, 0.0, Unary));
      var _ := LinkDerp(Unset, None, c1);
    }

    /**
      ADvar1(val1, a1, c1): a node with value `val1` and one linked record
      with weight `a1`, `b` the new node and `c` the operand `c1`.
     */
    method ADvar1(val1: real, a1: WeightRef, c1: nat) returns (m: nat)
      requires Valid() && c1 < |nodes|
      modifies this
      ensures Valid()
      ensures m == |old(nodes)| && nodes == old(nodes) + [ADvari(val1, 0.0, Unary)]
      ensures derps == old(derps) + [Derp(old(LastDerp), a1, Some(m), c1)]
      ensures TapeList() == [|old(derps)|] + old(TapeList())
      ensures lastcad == old(lastcad)
    {
      m := AppendNode(ADvari(val1, 0.0, Unary));
      var _ := LinkDerp(a1, Some(m), c1);
    }

    /**
      ADvar1s(val1, a1, c1): like ADvar1, but the partial `a1` is stored in
      the node and the record's weight points at it.
     */
    method ADvar1s(val1: real, a1: real, c1: nat) returns (m: nat)
      requires Valid() && c1 < |nodes|
      modifies this
      ensures Valid()
      ensures m == |old(nodes)| && nodes == old(nodes) + [ADvari(val1, 0.0, UnaryPartial(a1))]
      ensures derps == old(derps) + [Derp(old(LastDerp), PartialA(m), Some(m), c1)]
      ensures TapeList() == [|old(derps)|] + old(TapeList())
      ensures lastcad == old(lastcad)
      ensures Ready(nodes, derps[|old(derps)|]) && WeightOf(nodes, PartialA(m)) == Some(a1)
    {
      m := AppendNode(ADvari(val1, 0.0, UnaryPartial(a1)));
      var _ := LinkDerp(PartialA(m), Some(m), c1);
    }

    /** ADvar2(val1): a node with value `val1`; its two records are not linked. */
    method ADvar2Value(val1: real) returns (m: nat)
      requires Valid()
      modifies this
      ensures Valid()
      ensures m == |old(nodes)| && nodes == old(nodes) + [ADvari(val1, 0.0, Binary)]
      ensures derps == old(derps) && LastDerp == old(LastDerp) && lastcad == old(lastcad)
    {
      m := AppendNode(ADvari(val1, 0.0, Binary));
    }

    /**
      Links the two records dR and then dL of a binary node `m`: dR takes the
      old head as `next`, dL takes dR, and dL becomes the head.
     */
    method LinkPair(m: nat, Lcv: nat, Lc: WeightRef, Rcv: nat, Rc: WeightRef)
      requires Valid() && Lcv < m && Rcv < m && m == |nodes| - 1
      requires forall i :: 0 <= i < |derps| ==> derps[i].c != m
      modifies this
      ensures Valid()
      ensures nodes == old(nodes) && lastcad == old(lastcad)
      ensures derps == old(derps) + [Derp(old(LastDerp), Rc, Some(m), Rcv), Derp(Some(|old(derps)|), Lc, Some(m), Lcv)]
      ensures LastDerp == Some(|old(derps)| + 1)
      ensures TapeList() == [|old(derps)| + 1, |old(derps)|] + old(TapeList())
    {
      var dR := LinkDerp(Rc, Some(m), Rcv);
      var dL := LinkDerp(Lc, Some(m), Lcv);
    }

    /**
      ADvar2(val1, Lcv, Lc, Rcv, Rc): a node with value `val1` and two linked
      records sharing it as `b`: dL (weight `Lc`, `c` = `Lcv`) is the new
      head and its `next` is dR (weight `Rc`, `c` = `Rcv`), whose `next` is
      the old head.
     */
    method ADvar2(val1: real, Lcv: nat, Lc: WeightRef, Rcv: nat, Rc: WeightRef) returns (m: nat)
      requires Valid() && Lcv < |nodes| && Rcv < |nodes|
      modifies this
      ensures Valid()
      ensures m == |old(nodes)| && nodes == old(nodes) + [ADvari(val1, 0.0, Binary)]
      ensures derps == old(derps) + [Derp(old(LastDerp), Rc, Some(m), Rcv), Derp(Some(|old(derps)|), Lc, Some(m), Lcv)]
      ensures LastDerp == Some(|old(derps)| + 1)
      ensures TapeList() == [|old(derps)| + 1, |old(derps)|] + old(TapeList())
      ensures lastcad == old(lastcad)
    {
      m := AppendNode(ADvari(val1, 0.0, Binary));
      LinkPair(m, Lcv, Lc, Rcv, Rc);
    }

    /**
      ADvar2q(val1, Lp, Rp, Lcv, Rcv): as ADvar2, with the partials `Lp` and
      `Rp` stored in the node's fields `a` and `b` and the two weights
      pointing at them.
     */
    method ADvar2q(val1: real, Lp: real, Rp: real, Lcv: nat, Rcv: nat) returns (m: nat)
      requires Valid() && Lcv < |nodes| && Rcv < |nodes|
      modifies this
      ensures Valid()
      ensures m == |old(nodes)| && nodes == old(nodes) + [ADvari(val1, 0.0, BinaryPartial(Lp, Rp))]
      ensures derps == old(derps) + [Derp(old(LastDerp), PartialB(m), Some(m), Rcv), Derp(Some(|old(derps)|), PartialA(m), Some(m), Lcv)]
      ensures LastDerp == Some(|old(derps)| + 1)
      ensures TapeList() == [|old(derps)| + 1, |old(derps)|] + old(TapeList())
      ensures lastcad == old(lastcad)
      ensures WeightOf(nodes, PartialA(m)) == Some(Lp) && WeightOf(nodes, PartialB(m)) == Some(Rp)
      ensures Ready(nodes, derps[|old(derps)|]) && Ready(nodes, derps[|old(derps)| + 1])
    {
      m := AppendNode(ADvari(val1, 0.0, BinaryPartial(Lp, Rp)));
      LinkPair(m, Lcv, PartialA(m), Rcv, PartialB(m));
      assert nodes[m].kind == BinaryPartial(Lp, Rp);
    }

    /**
      ConstADvari(t): a constant node with value `t` whose `prevcad` is the
      old `lastcad`; it becomes `lastcad`. The tape is not touched.
     */
    method ConstADvari(t: real) returns (m: nat)
      requires Valid()
      modifies this
      ensures Valid()
      ensures m == |old(nodes)| && nodes == old(nodes) + [ADvari(t, 0.0, Constant(old(lastcad)))]
      ensures lastcad == Some(m)
      ensures derps == old(derps) && LastDerp == old(LastDerp)
      ensures ConstChain() == [m] + old(ConstChain())
    {
      AppendConstExtendsChain(nodes, lastcad, t);
      ConstChainOkLinksBelow(nodes, lastcad);
      ghost var before := ConstChainFrom(nodes, lastcad);
      m := |nodes|;
      var x := ADvari(t, 0.0, Constant(lastcad));
      nodes := nodes + [x];
      lastcad := Some(m);
      ConstChainOkLinksBelow(nodes, lastcad);
      assert nodes[m] == x;
      ConstChainAppend(old(nodes), x, old(lastcad));
    }

    /** Chasing `prevcad` from an old node is not affected by a new node. */
    static lemma {:induction false} ConstChainAppend(s: seq<ADvari>, x: ADvari, h: Option<nat>)
      requires ConstLinksBelow(s) && ConstLinksBelow(s + [x])
      requires h.Some? ==> h.value < |s| && s[h.value].kind.Constant?
      ensures ConstChainFrom(s + [x], h) == ConstChainFrom(s, h)
      decreases if h.Some? then h.value + 1 else 0
    {
      if h.Some? {
        assert (s + [x])[h.value] == s[h.value];
        ConstChainAppend(s, x, s[h.value].kind.prevcad);
      }
    }

    /** Sets the value of node `n`; used by ConstADvar's assignments. */
    method SetVal(n: nat, d: real)
      requires Valid() && n < |nodes|
      modifies this
      ensures Valid()
      ensures nodes == old(nodes)[n := old(nodes)[n].(Val := d)]
      ensures derps == old(derps) && LastDerp == old(LastDerp) && lastcad == old(lastcad)
    {
      var s := nodes[n := nodes[n].(Val := d)];
      SameKindsKeepConstChain(nodes, s, lastcad);
      nodes := s;
    }
  }
}
