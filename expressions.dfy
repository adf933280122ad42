/** The expression nodes the tree constructor works with, the tree constructor
    itself (a `Tuple` of exactly three elements: left subtree, value, right
    subtree) and its pure operations: construction, the getters, free
    variables and renaming. */
module Expressions {
  import opened Wrappers

  /** Identifier names. `Named` names come from the program text; `Fresh`
      names are made from the ids the id generator hands out (temporaries of
      the normal form and clones made for sharing). */
  datatype Name = Named(text: string) | Fresh(id: nat)

  /** Simple (non-resource) types, as far as this model needs them. */
  datatype Type = BaseType(name: string) | TreeType(element: Type) | TypeVariable(id: nat)

  /** Provenance of an expression: parsed from the program, or derived from
      another expression's provenance by normalization or renaming. */
  datatype Source = Parsed(line: nat) | DerivedAnf(from: Source) | DerivedRename(from: Source)

  /** `Other` stands for every expression kind that is not modelled here; it
      records only whether it is immediate and which names occur free in it. */
  datatype Expr =
    | Identifier(name: Name)
    | Tuple(source: Source, elements: seq<Expr>, ty: Option<Type>)
    | Share(up: Name, downLeft: Name, downRight: Name, body: Expr)
    | Other(tag: nat, immediate: bool, free: set<Name>)

  /** An expression is immediate when it can stand in an argument position
      of the normal form without being bound first. */
  predicate IsImmediate(e: Expr)
  {
    match e
    case Identifier(_) => true
    case Other(_, immediate, _) => immediate
    case Tuple(_, _, _) => false
    case Share(_, _, _, _) => false
  }

  /** A tree constructor node with its three elements. */
  predicate IsTuple(e: Expr)
  {
    e.Tuple? && |e.elements| == 3
  }

  /** Every tree constructor in `e` has exactly three elements: what the two
      constructors of the source guarantee for every tuple they build. */
  predicate WellFormed(e: Expr)
  {
    match e
    case Identifier(_) => true
    case Tuple(_, es, _) => |es| == 3 && WellFormed(es[0]) && WellFormed(es[1]) && WellFormed(es[2])
    case Share(_, _, _, body) => WellFormed(body)
    case Other(_, _, _) => true
  }

  const TupleSizeError := "only tuples with exactly three elements are supported"

  /** The constructor without a type: fails unless there are exactly three
      elements; the new node has no type yet. */
  function NewTuple(source: Source, elements: seq<Expr>): (r: Result<Expr>)
    ensures r.Ok? <==> |elements| == 3
    ensures r.Err? ==> r.message == TupleSizeError
    ensures r.Ok? ==> IsTuple(r.value) && r.value.elements == elements
                      && r.value.source == source && r.value.ty == None
    ensures r.Ok? && (forall i | 0 <= i < 3 :: WellFormed(elements[i])) ==> WellFormed(r.value)
  {
    if |elements| != 3 then Err(TupleSizeError) else Ok(Tuple(source, elements, None))
  }

  /** The constructor with a type: the same size check; the new node carries
      the given type. */
  function NewTypedTuple(source: Source, elements: seq<Expr>, ty: Type): (r: Result<Expr>)
    ensures r.Ok? <==> |elements| == 3
    ensures r.Err? ==> r.message == TupleSizeError
    ensures r.Ok? ==> IsTuple(r.value) && r.value.elements == elements
                      && r.value.source == source && r.value.ty == Some(ty)
    ensures r.Ok? && (forall i | 0 <= i < 3 :: WellFormed(elements[i])) ==> WellFormed(r.value)
  {
    if |elements| != 3 then Err(TupleSizeError) else Ok(Tuple(source, elements, Some(ty)))
  }

  function Left(t: Expr): Expr
    requires IsTuple(t)
  {
    t.elements[0]
  }

  function Middle(t: Expr): Expr
    requires IsTuple(t)
  {
    t.elements[1]
  }

  function Right(t: Expr): Expr
    requires IsTuple(t)
  {
    t.elements[2]
  }

  /** The three getters read back, in order, the three elements a tuple was
      built from, by either constructor. */
  lemma GettersReadBackElements(source: Source, l: Expr, m: Expr, r: Expr, ty: Type)
    ensures var t := NewTuple(source, [l, m, r]);
            t.Ok? && Left(t.value) == l && Middle(t.value) == m && Right(t.value) == r
    ensures var t := NewTypedTuple(source, [l, m, r], ty);
            t.Ok? && Left(t.value) == l && Middle(t.value) == m && Right(t.value) == r
  {
  }

  /** A tuple is determined by its provenance, its type and its three getters. */
  lemma TupleFromGetters(t: Expr)
    requires IsTuple(t)
    ensures t == Tuple(t.source, [Left(t), Middle(t), Right(t)], t.ty)
  {
  }

  /** Free variables. For a tuple, only the left and right subtrees count:
      the value in the middle is never a tree and is not tracked. How the
      other kinds compute theirs is not part of this model; a share node binds
      its two copies in its body and uses the original name. */
  function FreeVars(e: Expr): set<Name>
    requires WellFormed(e)
  {
    match e
    case Identifier(x) => {x}
    case Tuple(_, es, _) => FreeVars(es[0]) + FreeVars(es[2])
    case Share(up, l, r, body) => (FreeVars(body) - {l, r}) + {up}
    case Other(_, _, free) => free
  }

  /** The free variables of a tuple are exactly those of its left and right
      subtrees; a name free only in the middle element is not among them. */
  lemma TupleFreeVars(t: Expr, x: Name)
    requires IsTuple(t) && WellFormed(t)
    ensures x in FreeVars(t) <==> x in FreeVars(Left(t)) || x in FreeVars(Right(t))
  {
  }

  /** A name missing from a renaming stays as it is. */
  function RenameName(x: Name, renaming: map<Name, Name>): Name
  {
    if x in renaming then renaming[x] else x
  }

  function RenameSet(xs: set<Name>, renaming: map<Name, Name>): set<Name>
  {
    set x | x in xs :: RenameName(x, renaming)
  }

  /** Renaming rebuilds a tuple from its renamed elements, marks it as derived
      by renaming and keeps its type. */
  function Rename(e: Expr, renaming: map<Name, Name>): Expr
  {
    match e
    case Identifier(x) => Identifier(RenameName(x, renaming))
    case Tuple(source, es, ty) =>
      Tuple(DerivedRename(source), seq(|es|, i requires 0 <= i < |es| => Rename(es[i], renaming)), ty)
    case Share(up, l, r, body) =>
      Share(RenameName(up, renaming), RenameName(l, renaming), RenameName(r, renaming), Rename(body, renaming))
    case Other(tag, immediate, free) => Other(tag, immediate, RenameSet(free, renaming))
  }

  /** Renaming a tuple keeps the number of its elements, their order (the
      i-th element of the result is the renamed i-th element) and its type. */
  lemma RenameTuple(t: Expr, renaming: map<Name, Name>)
    requires t.Tuple?
    ensures var r := Rename(t, renaming);
            r.Tuple? && |r.elements| == |t.elements| && r.ty == t.ty
            && r.source == DerivedRename(t.source)
            && forall i | 0 <= i < |t.elements| :: r.elements[i] == Rename(t.elements[i], renaming)
  {
  }

  /** Renaming keeps every tuple at three elements. */
  lemma {:induction false} RenameWellFormed(e: Expr, renaming: map<Name, Name>)
    requires WellFormed(e)
    ensures WellFormed(Rename(e, renaming))
  {
    match e
    case Identifier(_) =>
    case Tuple(_, es, _) =>
      RenameWellFormed(es[0], renaming);
      RenameWellFormed(es[1], renaming);
      RenameWellFormed(es[2], renaming);
    case Share(_, _, _, body) =>
      RenameWellFormed(body, renaming);
    case Other(_, _, _) =>
  }

  /** `x` occurs somewhere in `e`, free or bound. */
  predicate Occurs(x: Name, e: Expr)
  {
    match e
    case Identifier(y) => x == y
    case Tuple(_, es, _) => exists i | 0 <= i < |es| :: Occurs(x, es[i])
    case Share(up, l, r, body) => x == up || x == l || x == r || Occurs(x, body)
    case Other(_, _, free) => x in free
  }

  /** Every generated name in `e` was made from an id below `n`: what holds
      of every expression while `n` is the id generator's counter. */
  ghost predicate IdsBelow(e: Expr, n: nat)
  {
    forall k: nat :: Occurs(Fresh(k), e) ==> k < n
  }

  /** No share node occurs in `e`. */
  predicate ShareFree(e: Expr)
  {
    match e
    case Identifier(_) => true
    case Tuple(_, es, _) => forall i | 0 <= i < |es| :: ShareFree(es[i])
    case Share(_, _, _, _) => false
    case Other(_, _, _) => true
  }

  /** Outside share nodes (which bind names), renaming maps the free variables
      exactly: the free variables of the renamed expression are the renamed
      free variables. */
  lemma {:induction false} RenameFreeVars(e: Expr, renaming: map<Name, Name>)
    requires WellFormed(e) && ShareFree(e)
    ensures WellFormed(Rename(e, renaming))
    ensures FreeVars(Rename(e, renaming)) == RenameSet(FreeVars(e), renaming)
  {
    RenameWellFormed(e, renaming);
    match e
    case Identifier(x) =>
    case Tuple(_, es, _) =>
      RenameFreeVars(es[0], renaming);
      RenameFreeVars(es[2], renaming);
    case Other(_, _, _) =>
  }
}
