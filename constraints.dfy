/** The constraint algebra: a closed sum of constraint kinds with the
    structural operations every kind supports: substitution of one
    coefficient by another, the set of occurring coefficients, evaluation
    (what encoding into the solver's formula language means), export to a
    diagnostics graph and the textual form of a conjunction.

    Conjunctions and the unsatisfiable sentinel are the kinds this model is
    about; equality and less-or-equal between two coefficients stand for the
    atomic kinds, whose own operations are not part of this model. */
module Constraints {
  import opened Wrappers

  /** Unknowns are told apart by their index in the analysis' arena, never by
      content; known coefficients are exact rationals. */
  datatype Coefficient = Unknown(id: nat) | Known(value: real)

  /** A valuation assigns every unknown a value: the meaning of a solver
      model over the reals. */
  type Valuation = nat -> real

  function Value(q: Coefficient, v: Valuation): real
  {
    match q
    case Unknown(i) => v(i)
    case Known(x) => x
  }

  /** `v` with unknown `i` set to `x`. */
  function Update(v: Valuation, i: nat, x: real): Valuation
  {
    (j: nat) => if j == i then x else v(j)
  }

  datatype Constraint =
    | Equality(lhs: Coefficient, rhs: Coefficient, reason: string)
    | LessEqual(lhs: Coefficient, rhs: Coefficient, reason: string)
    | Conjunctive(elements: seq<Constraint>, reason: string)
    | Unsatisfiable(reason: string)

  const EmptyConjunctionError := "elements cannot be empty"

  /** The conjunction constructor: refuses an empty list of elements. */
  function NewConjunctive(elements: seq<Constraint>, reason: string): (r: Result<Constraint>)
    ensures r.Ok? <==> |elements| > 0
    ensures r.Err? ==> r.message == EmptyConjunctionError
    ensures r.Ok? ==> r.value.Conjunctive? && r.value.elements == elements && r.value.reason == reason
  {
    if |elements| == 0 then Err(EmptyConjunctionError) else Ok(Conjunctive(elements, reason))
  }

  /** Every conjunction in `c` has at least one element. */
  predicate WellFormed(c: Constraint)
  {
    match c
    case Conjunctive(cs, _) => |cs| > 0 && forall i | 0 <= i < |cs| :: WellFormed(cs[i])
    case _ => true
  }

  /** A constraint built by the constructors is well formed. */
  lemma NewConjunctiveWellFormed(elements: seq<Constraint>, reason: string)
    requires |elements| > 0 && forall i | 0 <= i < |elements| :: WellFormed(elements[i])
    ensures NewConjunctive(elements, reason).Ok? && WellFormed(NewConjunctive(elements, reason).value)
  {
  }

  // ---------------------------------------------------------------- encode

  /** Whether `c` holds under `v`. A conjunction is the AND of its elements
      (folded left to right, as the solver's `and` of an array); the
      unsatisfiable sentinel is false whatever its reason. */
  function Encode(c: Constraint, v: Valuation): bool
    decreases c, 1
  {
    match c
    case Equality(a, b, _) => Value(a, v) == Value(b, v)
    case LessEqual(a, b, _) => Value(a, v) <= Value(b, v)
    case Conjunctive(cs, _) => EncodeAll(cs, v)
    case Unsatisfiable(_) => false
  }

  function EncodeAll(cs: seq<Constraint>, v: Valuation): bool
    decreases cs, 0
  {
    if cs == [] then true else Encode(cs[0], v) && EncodeAll(cs[1..], v)
  }

  lemma {:induction false} EncodeAllEvery(cs: seq<Constraint>, v: Valuation)
    ensures EncodeAll(cs, v) <==> forall i | 0 <= i < |cs| :: Encode(cs[i], v)
  {
    if cs != [] {
      EncodeAllEvery(cs[1..], v);
      assert forall i | 1 <= i < |cs| :: cs[i] == cs[1..][i - 1];
    }
  }

  /** A conjunction holds under a valuation iff every element holds under
      that same valuation. */
  lemma EncodeConjunctive(cs: seq<Constraint>, reason: string, v: Valuation)
    ensures Encode(Conjunctive(cs, reason), v) <==> forall i | 0 <= i < |cs| :: Encode(cs[i], v)
  {
    EncodeAllEvery(cs, v);
  }

  /** A conjunction with an unsatisfiable element holds under no valuation. */
  lemma ConjunctiveWithUnsatisfiable(cs: seq<Constraint>, reason: string, k: nat, v: Valuation)
    requires k < |cs| && cs[k].Unsatisfiable?
    ensures !Encode(Conjunctive(cs, reason), v)
  {
    EncodeConjunctive(cs, reason, v);
  }

  // ------------------------------------------------ occurring coefficients

  /** The coefficients occurring in `c`: union over the elements of a
      conjunction, none for the unsatisfiable sentinel. */
  function Coefficients(c: Constraint): set<Coefficient>
    decreases c, 1
  {
    match c
    case Equality(a, b, _) => {a, b}
    case LessEqual(a, b, _) => {a, b}
    case Conjunctive(cs, _) => CoefficientsAll(cs)
    case Unsatisfiable(_) => {}
  }

  function CoefficientsAll(cs: seq<Constraint>): set<Coefficient>
    decreases cs, 0
  {
    if cs == [] then {} else Coefficients(cs[0]) + CoefficientsAll(cs[1..])
  }

  lemma {:induction false} CoefficientsAllUnion(cs: seq<Constraint>, q: Coefficient)
    ensures q in CoefficientsAll(cs) <==> exists i | 0 <= i < |cs| :: q in Coefficients(cs[i])
  {
    if cs != [] {
      CoefficientsAllUnion(cs[1..], q);
      assert forall i | 1 <= i < |cs| :: cs[i] == cs[1..][i - 1];
      if q in CoefficientsAll(cs[1..]) {
        var i :| 0 <= i < |cs[1..]| && q in Coefficients(cs[1..][i]);
        assert q in Coefficients(cs[i + 1]);
      }
    }
  }

  /** The coefficients of a conjunction are exactly the union of its
      elements' coefficients. */
  lemma CoefficientsConjunctive(cs: seq<Constraint>, reason: string, q: Coefficient)
    ensures q in Coefficients(Conjunctive(cs, reason)) <==> exists i | 0 <= i < |cs| :: q in Coefficients(cs[i])
  {
    CoefficientsAllUnion(cs, q);
  }

  /** Only the occurring coefficients matter: two valuations that agree on
      every occurring unknown give the same truth value. */
  lemma {:induction false} EncodeDependsOnOccurring(c: Constraint, v: Valuation, w: Valuation)
    requires forall i: nat :: Unknown(i) in Coefficients(c) ==> v(i) == w(i)
    ensures Encode(c, v) == Encode(c, w)
    decreases c, 1
  {
    match c
    case Equality(a, b, _) =>
    case LessEqual(a, b, _) =>
    case Conjunctive(cs, _) => EncodeAllDependsOnOccurring(cs, v, w);
    case Unsatisfiable(_) =>
  }

  lemma {:induction false} EncodeAllDependsOnOccurring(cs: seq<Constraint>, v: Valuation, w: Valuation)
    requires forall i: nat :: Unknown(i) in CoefficientsAll(cs) ==> v(i) == w(i)
    ensures EncodeAll(cs, v) == EncodeAll(cs, w)
    decreases cs, 0
  {
    if cs != [] {
      EncodeDependsOnOccurring(cs[0], v, w);
      EncodeAllDependsOnOccurring(cs[1..], v, w);
    }
  }

  // --------------------------------------------------------------- replace

  function ReplaceCoefficient(q: Coefficient, target: Coefficient, replacement: Coefficient): Coefficient
  {
    if q == target then replacement else q
  }

  /** `c` with every occurrence of `target` replaced by `replacement`. A
      conjunction is rebuilt from its replaced elements with its reason; the
      unsatisfiable sentinel comes back itself. */
  function Replace(c: Constraint, target: Coefficient, replacement: Coefficient): Constraint
    decreases c, 1
  {
    match c
    case Equality(a, b, reason) =>
      Equality(ReplaceCoefficient(a, target, replacement), ReplaceCoefficient(b, target, replacement), reason)
    case LessEqual(a, b, reason) =>
      LessEqual(ReplaceCoefficient(a, target, replacement), ReplaceCoefficient(b, target, replacement), reason)
    case Conjunctive(cs, reason) => Conjunctive(ReplaceAll(cs, target, replacement), reason)
    case Unsatisfiable(_) => c
  }

  function ReplaceAll(cs: seq<Constraint>, target: Coefficient, replacement: Coefficient): (r: seq<Constraint>)
    ensures |r| == |cs|
    decreases cs, 0
  {
    if cs == [] then [] else [Replace(cs[0], target, replacement)] + ReplaceAll(cs[1..], target, replacement)
  }

  lemma {:induction false} ReplaceAllAt(cs: seq<Constraint>, target: Coefficient, replacement: Coefficient, i: nat)
    requires i < |cs|
    ensures ReplaceAll(cs, target, replacement)[i] == Replace(cs[i], target, replacement)
  {
    if i > 0 {
      ReplaceAllAt(cs[1..], target, replacement, i - 1);
    }
  }

  /** Replacing in a conjunction replaces in each element, keeping the
      number and order of the elements and the reason. */
  lemma ReplaceConjunctive(cs: seq<Constraint>, reason: string, target: Coefficient, replacement: Coefficient)
    ensures var r := Replace(Conjunctive(cs, reason), target, replacement);
            r.Conjunctive? && r.reason == reason && |r.elements| == |cs|
            && forall i | 0 <= i < |cs| :: r.elements[i] == Replace(cs[i], target, replacement)
  {
    forall i | 0 <= i < |cs|
      ensures ReplaceAll(cs, target, replacement)[i] == Replace(cs[i], target, replacement)
    {
      ReplaceAllAt(cs, target, replacement, i);
    }
  }

  /** Replacement keeps every conjunction non-empty, so rebuilding one never
      hits the constructor's check. */
  lemma {:induction false} ReplaceWellFormed(c: Constraint, target: Coefficient, replacement: Coefficient)
    requires WellFormed(c)
    ensures WellFormed(Replace(c, target, replacement))
    decreases c
  {
    match c
    case Conjunctive(cs, reason) =>
      forall i | 0 <= i < |cs|
        ensures WellFormed(ReplaceAll(cs, target, replacement)[i])
      {
        ReplaceAllAt(cs, target, replacement, i);
        ReplaceWellFormed(cs[i], target, replacement);
      }
    case _ =>
  }

  function ReplaceSet(qs: set<Coefficient>, target: Coefficient, replacement: Coefficient): set<Coefficient>
  {
    if target in qs then qs - {target} + {replacement} else qs
  }

  /** Replacement acts on the occurring coefficients exactly: `target`, if it
      occurs, is swapped for `replacement`, and nothing else changes. */
  lemma {:induction false} ReplaceCoefficients(c: Constraint, target: Coefficient, replacement: Coefficient)
    ensures Coefficients(Replace(c, target, replacement)) == ReplaceSet(Coefficients(c), target, replacement)
    decreases c, 1
  {
    match c
    case Equality(a, b, _) =>
    case LessEqual(a, b, _) =>
    case Conjunctive(cs, _) => ReplaceAllCoefficients(cs, target, replacement);
    case Unsatisfiable(_) =>
  }

  lemma {:induction false} ReplaceAllCoefficients(cs: seq<Constraint>, target: Coefficient, replacement: Coefficient)
    ensures CoefficientsAll(ReplaceAll(cs, target, replacement))
            == ReplaceSet(CoefficientsAll(cs), target, replacement)
    decreases cs, 0
  {
    if cs != [] {
      ReplaceCoefficients(cs[0], target, replacement);
      ReplaceAllCoefficients(cs[1..], target, replacement);
      var rs := ReplaceAll(cs, target, replacement);
      assert rs[0] == Replace(cs[0], target, replacement);
      assert rs[1..] == ReplaceAll(cs[1..], target, replacement);
    }
  }

  /** After replacing `target` by a different coefficient, `target` no
      longer occurs. */
  lemma ReplaceRemovesTarget(c: Constraint, target: Coefficient, replacement: Coefficient)
    requires target != replacement
    ensures target !in Coefficients(Replace(c, target, replacement))
  {
    ReplaceCoefficients(c, target, replacement);
  }

  /** The step for conjunctions: when replacing in every element removes
      `target`, replacing in the conjunction removes it too. */
  lemma ConjunctiveReplaceRemovesTarget(cs: seq<Constraint>, reason: string, target: Coefficient, replacement: Coefficient)
    requires forall i | 0 <= i < |cs| :: target !in Coefficients(Replace(cs[i], target, replacement))
    ensures target !in Coefficients(Replace(Conjunctive(cs, reason), target, replacement))
  {
    var r := Replace(Conjunctive(cs, reason), target, replacement);
    ReplaceConjunctive(cs, reason, target, replacement);
    CoefficientsConjunctive(r.elements, reason, target);
  }

  /** Replacing an unknown by a coefficient means evaluating the original
      with that unknown set to the coefficient's value. */
  lemma {:induction false} ReplaceEncode(c: Constraint, i: nat, replacement: Coefficient, v: Valuation)
    ensures Encode(Replace(c, Unknown(i), replacement), v) == Encode(c, Update(v, i, Value(replacement, v)))
    decreases c, 1
  {
    match c
    case Equality(a, b, _) =>
    case LessEqual(a, b, _) =>
    case Conjunctive(cs, _) => ReplaceAllEncode(cs, i, replacement, v);
    case Unsatisfiable(_) =>
  }

  lemma {:induction false} ReplaceAllEncode(cs: seq<Constraint>, i: nat, replacement: Coefficient, v: Valuation)
    ensures EncodeAll(ReplaceAll(cs, Unknown(i), replacement), v)
            == EncodeAll(cs, Update(v, i, Value(replacement, v)))
    decreases cs, 0
  {
    if cs != [] {
      ReplaceEncode(cs[0], i, replacement, v);
      ReplaceAllEncode(cs[1..], i, replacement, v);
      var rs := ReplaceAll(cs, Unknown(i), replacement);
      assert rs[0] == Replace(cs[0], Unknown(i), replacement);
      assert rs[1..] == ReplaceAll(cs[1..], Unknown(i), replacement);
    }
  }

  // ------------------------------------------------------------ the sentinel

  /** The unsatisfiable sentinel is false under every valuation, has no
      coefficients, is returned unchanged by every replacement and so still
      has no coefficients afterwards. */
  lemma UnsatisfiableInert(reason: string, target: Coefficient, replacement: Coefficient, v: Valuation)
    ensures !Encode(Unsatisfiable(reason), v)
    ensures Coefficients(Unsatisfiable(reason)) == {}
    ensures Replace(Unsatisfiable(reason), target, replacement) == Unsatisfiable(reason)
    ensures Coefficients(Replace(Unsatisfiable(reason), target, replacement)) == {}
  {
  }

  // ---------------------------------------------------------------- children

  /** The direct sub-constraints: the elements of a conjunction; atomic kinds
      and the sentinel have none. */
  function Children(c: Constraint): (r: seq<Constraint>)
    ensures c.Conjunctive? ==> r == c.elements
    ensures !c.Conjunctive? ==> r == []
  {
    if c.Conjunctive? then c.elements else []
  }

  /** The coefficients of a constraint with children are those of its
      children. */
  lemma ChildrenCoefficients(c: Constraint, q: Coefficient)
    requires c.Conjunctive?
    ensures q in Coefficients(c) <==> exists i | 0 <= i < |Children(c)| :: q in Coefficients(Children(c)[i])
  {
    assert c == Conjunctive(c.elements, c.reason);
    assert Children(c) == c.elements;
    CoefficientsConjunctive(c.elements, c.reason, q);
  }

  // ------------------------------------------------------------------- graph

  /** The diagnostics graph, keyed by coefficient. */
  datatype Graph = Graph(nodes: set<Coefficient>, edges: set<(Coefficient, Coefficient)>)

  const ConjunctiveGraphError := "cannot convert conjunctive constraint to graph"

  /** Export to the diagnostics graph. A conjunction always fails; the
      sentinel leaves the graph as it is. How an atomic constraint draws
      itself is not part of this model: here it adds its two coefficients
      and an edge between them. */
  function ToGraph(c: Constraint, g: Graph): (r: Result<Graph>)
    ensures c.Conjunctive? <==> r.Err?
    ensures r.Err? ==> r.message == ConjunctiveGraphError
    ensures c.Unsatisfiable? ==> r == Ok(g)
    ensures r.Ok? ==> g.nodes <= r.value.nodes && g.edges <= r.value.edges
  {
    match c
    case Equality(a, b, _) => Ok(Graph(g.nodes + {a, b}, g.edges + {(a, b)}))
    case LessEqual(a, b, _) => Ok(Graph(g.nodes + {a, b}, g.edges + {(a, b)}))
    case Conjunctive(_, _) => Err(ConjunctiveGraphError)
    case Unsatisfiable(_) => Ok(g)
  }

  // ------------------------------------------------------------------ text

  const Separator := " ∧ "

  /** The parts separated by `sep`. */
  function Join(parts: seq<string>, sep: string): string
  {
    if |parts| == 0 then ""
    else if |parts| == 1 then parts[0]
    else Join(parts[..|parts| - 1], sep) + sep + parts[|parts| - 1]
  }

  function SumLengths(parts: seq<string>): nat
  {
    if parts == [] then 0 else SumLengths(parts[..|parts| - 1]) + |parts[|parts| - 1]|
  }

  /** Joining adds exactly one separator between neighbours. */
  lemma {:induction false} JoinLength(parts: seq<string>, sep: string)
    requires |parts| > 0
    ensures |Join(parts, sep)| == SumLengths(parts) + (|parts| - 1) * |sep|
  {
    if |parts| > 1 {
      JoinLength(parts[..|parts| - 1], sep);
    } else {
      assert parts[..0] == [];
    }
  }

  /** Joining starts with the first part and ends with the last. */
  lemma {:induction false} JoinEnds(parts: seq<string>, sep: string)
    requires |parts| > 0
    ensures |Join(parts, sep)| >= |parts[0]| && |Join(parts, sep)| >= |parts[|parts| - 1]|
    ensures Join(parts, sep)[..|parts[0]|] == parts[0]
    ensures Join(parts, sep)[|Join(parts, sep)| - |parts[|parts| - 1]|..] == parts[|parts| - 1]
  {
    if |parts| > 1 {
      var init := parts[..|parts| - 1];
      JoinEnds(init, sep);
      var j := Join(init, sep);
      assert |j| >= |parts[0]| by {
        if |init| > 1 { } else { assert j == parts[0]; }
      }
      assert (j + sep + parts[|parts| - 1])[..|parts[0]|] == j[..|parts[0]|];
    }
  }

  /** The text of a constraint. The texts of the atomic kinds and of the
      sentinel are not part of this model and come from `leaf`. */
  function Show(c: Constraint, leaf: Constraint -> string): string
    decreases c, 1
  {
    match c
    case Conjunctive(cs, _) =>
      var parts := ShowAll(cs, leaf);
      if |parts| == 0 then "true" else "(" + Join(parts, Separator) + ")"
    case _ => leaf(c)
  }

  function ShowAll(cs: seq<Constraint>, leaf: Constraint -> string): (r: seq<string>)
    ensures |r| == |cs|
    decreases cs, 0
  {
    if cs == [] then [] else [Show(cs[0], leaf)] + ShowAll(cs[1..], leaf)
  }

  lemma {:induction false} ShowAllAt(cs: seq<Constraint>, leaf: Constraint -> string, i: nat)
    requires i < |cs|
    ensures ShowAll(cs, leaf)[i] == Show(cs[i], leaf)
  {
    if i > 0 {
      ShowAllAt(cs[1..], leaf, i - 1);
    }
  }

  /** A non-empty conjunction is written as its elements' texts, in order,
      joined by " ∧ " inside parentheses; the "true" text is never produced. */
  lemma ShowConjunctive(cs: seq<Constraint>, reason: string, leaf: Constraint -> string)
    requires |cs| > 0
    ensures var parts := ShowAll(cs, leaf);
            Show(Conjunctive(cs, reason), leaf) == "(" + Join(parts, Separator) + ")"
            && forall i | 0 <= i < |cs| :: parts[i] == Show(cs[i], leaf)
    ensures Show(Conjunctive(cs, reason), leaf) != "true"
  {
    forall i | 0 <= i < |cs|
      ensures ShowAll(cs, leaf)[i] == Show(cs[i], leaf)
    {
      ShowAllAt(cs, leaf, i);
    }
    assert Show(Conjunctive(cs, reason), leaf)[0] == '(';
  }
}
