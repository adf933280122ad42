/** The two stateful operations of the tree constructor: normalization into
    administrative normal form, which binds compound elements on a stack of
    let-bindings with names from an id generator, and unsharing, which
    duplicates an identifier used as both subtrees through a share node.

    Each is given twice: as a function over an explicit `State` value (the
    specification, about which the lemmas are proved), and as a method over
    the mutable `NormalizationStack` and `IdGenerator` objects the source
    threads through its calls, proved to agree with that function. */
module Anf {
  import opened Wrappers
  import opened Expressions

  /** One pending let-binding of the normal form: `id` is bound to `value`. */
  datatype Binding = Binding(id: Name, value: Expr)

  /** The stack of pending bindings (top at the end) and the next id. */
  datatype State = State(stack: seq<Binding>, next: nat)

  /** Forcing an expression immediate. Its body in the source is not part of
      this model: here an immediate expression passes through and a compound
      one is bound, on top of the stack, to a name made from the next id. */
  function ForceImmediate(e: Expr, s: State): (res: (Expr, State))
    ensures IsImmediate(res.0)
    ensures IsImmediate(e) ==> res == (e, s)
    ensures !IsImmediate(e) ==> res.0 == Identifier(Fresh(s.next))
                                 && res.1 == State(s.stack + [Binding(Fresh(s.next), e)], s.next + 1)
  {
    if IsImmediate(e) then (e, s)
    else (Identifier(Fresh(s.next)), State(s.stack + [Binding(Fresh(s.next), e)], s.next + 1))
  }

  /** Forcing each element immediate, first to last, threading the state. */
  function ForceAll(es: seq<Expr>, s: State): (res: (seq<Expr>, State))
    ensures |res.0| == |es|
    ensures forall i | 0 <= i < |es| :: IsImmediate(res.0[i])
    decreases |es|
  {
    if es == [] then ([], s)
    else
      var (init, s1) := ForceAll(es[..|es| - 1], s);
      var (x, s2) := ForceImmediate(es[|es| - 1], s1);
      (init + [x], s2)
  }

  /** The elements that are not immediate, in order. */
  function Compound(es: seq<Expr>): seq<Expr>
  {
    if es == [] then []
    else Compound(es[..|es| - 1]) + (if IsImmediate(es[|es| - 1]) then [] else [es[|es| - 1]])
  }

  /** The expressions the given bindings bind, in order. */
  function BoundValues(bs: seq<Binding>): seq<Expr>
  {
    if bs == [] then [] else BoundValues(bs[..|bs| - 1]) + [bs[|bs| - 1].value]
  }

  lemma BoundValuesAppend(bs: seq<Binding>, b: Binding)
    ensures BoundValues(bs + [b]) == BoundValues(bs) + [b.value]
  {
    assert (bs + [b])[..|bs|] == bs;
  }

  /** Forcing a sequence of elements pushes one binding per compound element
      and nothing else: the old stack stays below, the pushed bindings bind
      exactly the compound elements in their order, the k-th of them under
      the name made from id `s.next + k`, and the counter advances by their
      number. */
  lemma {:induction false} ForceAllBindings(es: seq<Expr>, s: State)
    ensures var (_, s') := ForceAll(es, s);
            |s'.stack| == |s.stack| + |Compound(es)|
            && s'.stack[..|s.stack|] == s.stack
            && BoundValues(s'.stack[|s.stack|..]) == Compound(es)
            && s'.next == s.next + |Compound(es)|
            && forall k | |s.stack| <= k < |s'.stack| :: s'.stack[k].id == Fresh(s.next + (k - |s.stack|))
    decreases |es|
  {
    if es != [] {
      var init := es[..|es| - 1];
      var last := es[|es| - 1];
      ForceAllBindings(init, s);
      var (_, s1) := ForceAll(init, s);
      var (_, s2) := ForceImmediate(last, s1);
      assert s2 == ForceAll(es, s).1;
      if !IsImmediate(last) {
        assert Compound(es) == Compound(init) + [last];
        assert s2.stack[|s.stack|..] == s1.stack[|s.stack|..] + [Binding(Fresh(s1.next), last)];
        BoundValuesAppend(s1.stack[|s.stack|..], Binding(Fresh(s1.next), last));
      }
    }
  }

  /** Forcing works element by element in order: the i-th result is what
      forcing the i-th element gives in the state left by the elements before
      it. */
  lemma {:induction false} ForceAllInOrder(es: seq<Expr>, s: State, i: nat)
    requires i < |es|
    ensures ForceAll(es, s).0[i] == ForceImmediate(es[i], ForceAll(es[..i], s).1).0
    decreases |es|
  {
    if i < |es| - 1 {
      assert es[..|es| - 1][..i] == es[..i];
      ForceAllInOrder(es[..|es| - 1], s, i);
    } else {
      assert es[..|es| - 1] == es[..i];
    }
  }

  /** When every element is already immediate, forcing returns them all as
      they are and leaves the state alone. */
  lemma {:induction false} ForceAllImmediate(es: seq<Expr>, s: State)
    requires forall i | 0 <= i < |es| :: IsImmediate(es[i])
    ensures ForceAll(es, s) == (es, s)
    decreases |es|
  {
    if es != [] {
      ForceAllImmediate(es[..|es| - 1], s);
      assert es[..|es| - 1] + [es[|es| - 1]] == es;
    }
  }

  /** Normalization of a tuple. When all three elements are immediate the
      very same node comes back and the state is untouched. Otherwise each
      element is forced immediate in order, and the node is rebuilt with the
      constructor that takes no type, so the result carries none. */
  function Normalize(t: Expr, s: State): (res: (Expr, State))
    requires IsTuple(t)
    ensures IsTuple(res.0)
    ensures (forall i | 0 <= i < 3 :: IsImmediate(t.elements[i])) ==> res == (t, s)
    ensures (exists i | 0 <= i < 3 :: !IsImmediate(t.elements[i])) ==>
              res.0.source == DerivedAnf(t.source) && res.0.ty == None
              && forall i | 0 <= i < 3 :: res.0.elements[i] == ForceImmediate(t.elements[i], ForceAll(t.elements[..i], s).1).0
    ensures forall i | 0 <= i < 3 :: IsImmediate(res.0.elements[i])
  {
    if forall i | 0 <= i < 3 :: IsImmediate(t.elements[i]) then (t, s)
    else
      var (es, s') := ForceAll(t.elements, s);
      ForceAllInOrder(t.elements, s, 0);
      ForceAllInOrder(t.elements, s, 1);
      ForceAllInOrder(t.elements, s, 2);
      (NewTuple(DerivedAnf(t.source), es).value, s')
  }

  /** Normalization pushes exactly the bindings of the compound elements. */
  lemma NormalizeBindings(t: Expr, s: State)
    requires IsTuple(t)
    ensures var (_, s') := Normalize(t, s);
            |s'.stack| >= |s.stack| && s'.stack[..|s.stack|] == s.stack
            && ((exists i | 0 <= i < 3 :: !IsImmediate(t.elements[i])) ==>
                  BoundValues(s'.stack[|s.stack|..]) == Compound(t.elements))
            && s'.next == s.next + |Compound(t.elements)|
  {
    if forall i | 0 <= i < 3 :: IsImmediate(t.elements[i]) {
      ForceAllImmediate(t.elements, s);
      ForceAllBindings(t.elements, s);
    } else {
      ForceAllBindings(t.elements, s);
    }
  }

  /** Normalization is idempotent: normalizing a normalized tuple gives back
      the same node, in any state, without pushing anything. */
  lemma NormalizeIdempotent(t: Expr, s: State, s2: State)
    requires IsTuple(t)
    ensures Normalize(Normalize(t, s).0, s2) == (Normalize(t, s).0, s2)
  {
  }

  /** Forcing draws only names not yet in use: when every element's ids are
      below the counter, no pushed binding's name occurs in any element, and
      afterwards every forced element's ids are below the new counter. */
  lemma {:induction false} ForceAllFresh(es: seq<Expr>, s: State)
    requires forall i | 0 <= i < |es| :: IdsBelow(es[i], s.next)
    ensures var (es', s') := ForceAll(es, s);
            |s'.stack| >= |s.stack| && s.next <= s'.next
            && (forall k, i | |s.stack| <= k < |s'.stack| && 0 <= i < |es| :: !Occurs(s'.stack[k].id, es[i]))
            && forall i | 0 <= i < |es| :: IdsBelow(es'[i], s'.next)
    decreases |es|
  {
    ForceAllBindings(es, s);
    if es != [] {
      var init := es[..|es| - 1];
      var last := es[|es| - 1];
      ForceAllFresh(init, s);
      var (init', s1) := ForceAll(init, s);
      var (x, s2) := ForceImmediate(last, s1);
      var es' := ForceAll(es, s).0;
      assert es' == init' + [x];
      forall i | 0 <= i < |es|
        ensures IdsBelow(es'[i], s2.next)
      {
        if i < |es| - 1 {
          assert es'[i] == init'[i];
          assert IdsBelow(init'[i], s1.next);
        } else {
          assert es'[i] == x;
        }
      }
    }
  }

  /** Normalization draws only names not yet in use: when the tuple's ids are
      below the counter, none of the pushed temporaries occurs in it, and
      the normalized tuple's ids are below the new counter. */
  lemma NormalizeFresh(t: Expr, s: State)
    requires IsTuple(t) && IdsBelow(t, s.next)
    ensures var (t', s') := Normalize(t, s);
            |s'.stack| >= |s.stack|
            && (forall k | |s.stack| <= k < |s'.stack| :: !Occurs(s'.stack[k].id, t))
            && IdsBelow(t', s'.next)
  {
    forall i | 0 <= i < 3
      ensures IdsBelow(t.elements[i], s.next)
    {
      forall k: nat | Occurs(Fresh(k), t.elements[i])
        ensures k < s.next
      {
        assert Occurs(Fresh(k), t);
      }
    }
    if forall i | 0 <= i < 3 :: IsImmediate(t.elements[i]) {
    } else {
      ForceAllFresh(t.elements, s);
      var (es', s') := ForceAll(t.elements, s);
      var (t', _) := Normalize(t, s);
      assert t'.elements == es';
      forall k: nat | Occurs(Fresh(k), t')
        ensures k < s'.next
      {
        var i :| 0 <= i < 3 && Occurs(Fresh(k), es'[i]);
      }
    }
  }

  /** The two copies a share node introduces for one identifier: names made
      from the next two ids, which are therefore distinct and, while every
      id in use is below the counter (`IdsBelow`), fresh. The body of the
      source's clone is not part of this model. */
  function Clone(next: nat): (res: (Name, Name, nat))
    ensures res.0 == Fresh(next) && res.1 == Fresh(next + 1)
    ensures res.0 != res.1 && res.2 == next + 2
  {
    (Fresh(next), Fresh(next + 1), next + 2)
  }

  const AnfError := "must be in anf"

  /** Unsharing of a tuple, given the id generator's counter. */
  function Unshare(t: Expr, next: nat): (res: Result<(Expr, nat)>)
    requires IsTuple(t)
  {
    if !Left(t).Identifier? || !Right(t).Identifier? then Err(AnfError)
    else if Left(t) != Right(t) then Ok((t, next))
    else
      var (l, r, next') := Clone(next);
      Ok((Share(Left(t).name, l, r, Tuple(t.source, [Identifier(l), Middle(t), Identifier(r)], t.ty)), next'))
  }

  /** Unsharing fails exactly when the left or right element is not an
      identifier, and then with the message that the node must be in normal
      form. */
  lemma UnshareFails(t: Expr, next: nat)
    requires IsTuple(t)
    ensures Unshare(t, next).Err? <==> !Left(t).Identifier? || !Right(t).Identifier?
    ensures Unshare(t, next).Err? ==> Unshare(t, next).message == AnfError
  {
  }

  /** Two different identifiers: the node comes back unchanged and no id is
      drawn. */
  lemma UnshareDistinct(t: Expr, next: nat)
    requires IsTuple(t) && Left(t).Identifier? && Right(t).Identifier? && Left(t) != Right(t)
    ensures Unshare(t, next) == Ok((t, next))
  {
  }

  /** The same identifier twice: the result is a share node recording the
      original name and two distinct copies; its body is a tuple with the
      same provenance, middle element and type whose left and right elements
      are the two copies. Two ids are drawn. */
  lemma UnshareSame(t: Expr, next: nat)
    requires IsTuple(t) && Left(t).Identifier? && Left(t) == Right(t)
    ensures var res := Unshare(t, next);
            res.Ok? && res.value.1 == next + 2
            && var sh := res.value.0;
               sh.Share? && sh.up == Left(t).name && sh.downLeft != sh.downRight
               && IsTuple(sh.body) && sh.body.source == t.source && sh.body.ty == t.ty
               && Left(sh.body) == Identifier(sh.downLeft) && Middle(sh.body) == Middle(t)
               && Right(sh.body) == Identifier(sh.downRight)
  {
  }

  /** The copies are fresh: when every id in `t` is below the counter,
      neither copy is the shared name or any other name occurring in `t`,
      and every id in the result is below the advanced counter. */
  lemma UnshareFresh(t: Expr, next: nat)
    requires IsTuple(t) && IdsBelow(t, next)
    requires Unshare(t, next).Ok?
    ensures var (e, next') := Unshare(t, next).value;
            IdsBelow(e, next')
            && (e.Share? ==> e.downLeft != e.up && e.downRight != e.up
                             && !Occurs(e.downLeft, t) && !Occurs(e.downRight, t))
  {
    var (e, next') := Unshare(t, next).value;
    if e.Share? {
      assert Occurs(Left(t).name, Left(t));
      assert Occurs(e.up, t);
      assert !Occurs(Fresh(next), t) && !Occurs(Fresh(next + 1), t);
      forall k: nat | Occurs(Fresh(k), e)
        ensures k < next'
      {
        if Occurs(Fresh(k), e.body) {
          var i :| 0 <= i < 3 && Occurs(Fresh(k), e.body.elements[i]);
          if i == 1 {
            assert Occurs(Fresh(k), t);
          }
        }
      }
    }
  }

  /** After unsharing, the tuple that stands where `t` stood (`t` itself or
      the body of the new share node) has two distinct identifiers as its
      subtrees, and unsharing that tuple again changes nothing. */
  lemma UnshareLinear(t: Expr, next: nat)
    requires IsTuple(t)
    requires Unshare(t, next).Ok?
    ensures var (e, next') := Unshare(t, next).value;
            var u := if e.Share? then e.body else e;
            IsTuple(u) && Left(u).Identifier? && Right(u).Identifier? && Left(u) != Right(u)
            && forall n: nat :: Unshare(u, n) == Ok((u, n))
  {
  }

  /** Unsharing keeps the free variables: the share node's body uses the two
      copies it binds, and the share node uses the original name. */
  lemma UnshareFreeVars(t: Expr, next: nat)
    requires IsTuple(t) && WellFormed(t)
    requires Unshare(t, next).Ok?
    ensures WellFormed(Unshare(t, next).value.0)
    ensures FreeVars(Unshare(t, next).value.0) == FreeVars(t)
  {
    if Left(t) == Right(t) {
      var (l, r, _) := Clone(next);
      var body := Tuple(t.source, [Identifier(l), Middle(t), Identifier(r)], t.ty);
      assert body.elements == [Identifier(l), Middle(t), Identifier(r)];
      assert WellFormed(Middle(t));
      assert body.elements[1] == Middle(t);
      assert WellFormed(body);
      assert FreeVars(body) == {l, r};
    }
  }

  /** The source's `IntIdGenerator`: hands out consecutive ids. */
  class IdGenerator {
    var next: nat

    constructor (start: nat)
      ensures next == start
    {
      next := start;
    }

    method Generate() returns (id: nat)
      modifies this
      ensures id == old(next) && next == old(next) + 1
    {
      id := next;
      next := next + 1;
    }
  }

  /** The source's `Stack<Normalization>` of pending bindings. */
  class NormalizationStack {
    var bindings: seq<Binding>

    constructor ()
      ensures bindings == []
    {
      bindings := [];
    }

    method Push(b: Binding)
      modifies this
      ensures bindings == old(bindings) + [b]
    {
      bindings := bindings + [b];
    }
  }

  method ForceImmediateWith(e: Expr, context: NormalizationStack, idGenerator: IdGenerator) returns (r: Expr)
    modifies context, idGenerator
    ensures (r, State(context.bindings, idGenerator.next))
            == ForceImmediate(e, State(old(context.bindings), old(idGenerator.next)))
  {
    if IsImmediate(e) {
      r := e;
    } else {
      var id := idGenerator.Generate();
      context.Push(Binding(Fresh(id), e));
      r := Identifier(Fresh(id));
    }
  }

  /** The source's `Tuple.normalize`: the stream over the elements becomes a
      loop that forces them one after the other. */
  method NormalizeWith(t: Expr, context: NormalizationStack, idGenerator: IdGenerator) returns (r: Expr)
    requires IsTuple(t)
    modifies context, idGenerator
    ensures (r, State(context.bindings, idGenerator.next))
            == Normalize(t, State(old(context.bindings), old(idGenerator.next)))
  {
    if IsImmediate(t.elements[0]) && IsImmediate(t.elements[1]) && IsImmediate(t.elements[2]) {
      return t;
    }
    ghost var s0 := State(context.bindings, idGenerator.next);
    var es: seq<Expr> := [];
    var i := 0;
    while i < 3
      invariant 0 <= i <= 3
      invariant (es, State(context.bindings, idGenerator.next)) == ForceAll(t.elements[..i], s0)
    {
      var x := ForceImmediateWith(t.elements[i], context, idGenerator);
      assert t.elements[..i + 1][..i] == t.elements[..i];
      es := es + [x];
      i := i + 1;
    }
    assert t.elements[..3] == t.elements;
    r := Tuple(DerivedAnf(t.source), es, None);
  }

  /** The source's `ShareExpression.clone`: two fresh copies of one name. */
  method CloneWith(idGenerator: IdGenerator) returns (l: Name, r: Name)
    modifies idGenerator
    ensures (l, r, idGenerator.next) == Clone(old(idGenerator.next))
  {
    var a := idGenerator.Generate();
    var b := idGenerator.Generate();
    l, r := Fresh(a), Fresh(b);
  }

  /** The source's `Tuple.unshare`; the id generator advances only when a
      share node is made. */
  method UnshareWith(t: Expr, idGenerator: IdGenerator) returns (r: Result<Expr>)
    requires IsTuple(t)
    modifies idGenerator
    ensures var spec := Unshare(t, old(idGenerator.next));
            r.Ok? == spec.Ok?
            && (r.Ok? ==> (r.value, idGenerator.next) == spec.value)
            && (r.Err? ==> r.message == spec.message && idGenerator.next == old(idGenerator.next))
  {
    if !Left(t).Identifier? || !Right(t).Identifier? {
      return Err(AnfError);
    }
    if Left(t) != Right(t) {
      return Ok(t);
    }
    var l, rr := CloneWith(idGenerator);
    r := Ok(Share(Left(t).name, l, rr, Tuple(t.source, [Identifier(l), Middle(t), Identifier(rr)], t.ty)));
  }
}
