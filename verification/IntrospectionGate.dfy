/**
 * The GraphQL introspection gate.
 *
 * The search recurses through fragment spreads, so on a cyclic document it
 * exhausts the call stack: `depth` is the stack left, and None is the overflow.
 */
module IntrospectionGate {
  import opened Common

  /** A leaf is a field without a selection set. */
  datatype Selection =
    | Leaf(name: string)
    | Field(name: string, sub: seq<Selection>)
    | InlineFragment(sub: seq<Selection>)
    | FragmentSpread(name: string)

  datatype OperationKind = Query | Mutation | Subscription

  datatype Definition =
    | Operation(kind: OperationKind, selections: seq<Selection>)
    | Fragment(name: string, selections: seq<Selection>)
    | OtherDefinition

  type FragmentMap = map<string, seq<Selection>>

  predicate Introspective(name: string) { name == "__schema" || name == "__type" }

  // ----- containsIntrospectionField -----

  /** The selection set the search enters at a selection, if any. */
  function Entered(s: Selection, fragments: FragmentMap): Option<seq<Selection>> {
    match s
    case Leaf(_) => None
    case Field(_, sub) => Some(sub)
    case InlineFragment(sub) => Some(sub)
    case FragmentSpread(name) => if name in fragments then Some(fragments[name]) else None
  }

  function ContainsIntrospectionField(selections: seq<Selection>, fragments: FragmentMap, depth: nat): Option<bool>
    decreases depth, |selections|
  {
    if selections == [] then Some(false)
    else
      var s := selections[0];
      if (s.Leaf? || s.Field?) && Introspective(s.name) then Some(true)
      else
        var inner := Entered(s, fragments);
        if inner.None? then ContainsIntrospectionField(selections[1..], fragments, depth)
        else if depth == 0 then None
        else
          match ContainsIntrospectionField(inner.value, fragments, depth - 1)
          case None => None
          case Some(true) => Some(true)
          case Some(false) => ContainsIntrospectionField(selections[1..], fragments, depth)
  }

  // ----- the expanded document -----

  /** A ranking witnesses that the fragment spreads form no cycle. */
  ghost predicate Ranked(fragments: FragmentMap, rank: string -> nat) {
    forall name :: name in fragments ==> SpreadsBelow(fragments[name], fragments, rank, rank(name))
  }

  ghost predicate SpreadsBelow(selections: seq<Selection>, fragments: FragmentMap, rank: string -> nat, r: nat)
    decreases selections
  {
    forall i :: 0 <= i < |selections| ==>
      match selections[i]
      case Leaf(_) => true
      case Field(_, sub) => SpreadsBelow(sub, fragments, rank, r)
      case InlineFragment(sub) => SpreadsBelow(sub, fragments, rank, r)
      case FragmentSpread(name) => name in fragments ==> rank(name) < r
  }

  /** Every fragment spread replaced by the fragment's own expanded selections, an unknown one by none. */
  ghost function Expand(
    selections: seq<Selection>, fragments: FragmentMap, rank: string -> nat, r: nat): (x: seq<Selection>)
    requires Ranked(fragments, rank) && SpreadsBelow(selections, fragments, rank, r)
    ensures |x| == |selections|
    decreases r, selections
  {
    if selections == [] then []
    else
      var s := selections[0];
      assert SpreadsBelow(selections[1..], fragments, rank, r);
      var head :=
        match s
        case Leaf(_) => s
        case Field(name, sub) => Field(name, Expand(sub, fragments, rank, r))
        case InlineFragment(sub) => InlineFragment(Expand(sub, fragments, rank, r))
        case FragmentSpread(name) =>
          InlineFragment(if name in fragments then Expand(fragments[name], fragments, rank, rank(name)) else []);
      [head] + Expand(selections[1..], fragments, rank, r)
  }

  predicate SpreadFree(selections: seq<Selection>)
    decreases selections
  {
    forall i :: 0 <= i < |selections| ==>
      match selections[i]
      case Leaf(_) => true
      case Field(_, sub) => SpreadFree(sub)
      case InlineFragment(sub) => SpreadFree(sub)
      case FragmentSpread(_) => false
  }

  /** All field names of a document tree, at any level. */
  function FieldNames(selections: seq<Selection>): set<string>
    decreases selections
  {
    if selections == [] then {}
    else
      (match selections[0]
       case Leaf(name) => {name}
       case Field(name, sub) => {name} + FieldNames(sub)
       case InlineFragment(sub) => FieldNames(sub)
       case FragmentSpread(_) => {})
      + FieldNames(selections[1..])
  }

  /** How deeply selection sets are nested in a document tree. */
  function Nesting(selections: seq<Selection>): nat
    decreases selections
  {
    if selections == [] then 0
    else
      var head := match selections[0]
        case Field(_, sub) => 1 + Nesting(sub)
        case InlineFragment(sub) => 1 + Nesting(sub)
        case _ => 0;
      Max(head, Nesting(selections[1..]))
  }

  ghost predicate HasIntrospection(selections: seq<Selection>) {
    "__schema" in FieldNames(selections) || "__type" in FieldNames(selections)
  }

  lemma {:induction false} ExpansionIsSpreadFree(
    selections: seq<Selection>, fragments: FragmentMap, rank: string -> nat, r: nat)
    requires Ranked(fragments, rank) && SpreadsBelow(selections, fragments, rank, r)
    ensures SpreadFree(Expand(selections, fragments, rank, r))
    decreases r, selections
  {
    if selections != [] {
      var s := selections[0];
      ExpansionIsSpreadFree(selections[1..], fragments, rank, r);
      match s {
        case FragmentSpread(name) =>
          if name in fragments { ExpansionIsSpreadFree(fragments[name], fragments, rank, rank(name)); }
        case Leaf(_) =>
        case _ => ExpansionIsSpreadFree(s.sub, fragments, rank, r);
      }
      var x := Expand(selections, fragments, rank, r);
      assert x[1..] == Expand(selections[1..], fragments, rank, r);
      assert forall i :: 1 <= i < |x| ==> x[i] == x[1..][i - 1];
    }
  }

  /**
   * On an acyclic document the search ends, needing no more stack than the expanded
   * document is deep, and answers exactly whether the expanded document contains a
   * __schema or __type field.
   */
  lemma {:induction false} SearchDecidesExpansion(
    selections: seq<Selection>, fragments: FragmentMap, rank: string -> nat, r: nat, depth: nat)
    requires Ranked(fragments, rank) && SpreadsBelow(selections, fragments, rank, r)
    requires depth >= Nesting(Expand(selections, fragments, rank, r))
    ensures ContainsIntrospectionField(selections, fragments, depth)
         == Some(HasIntrospection(Expand(selections, fragments, rank, r)))
    decreases r, selections
  {
    if selections != [] {
      var s, x := selections[0], Expand(selections, fragments, rank, r);
      ghost var others := HasIntrospection(x[1..]);
      HeadAndTail(x);
      assert ContainsIntrospectionField(selections[1..], fragments, depth) == Some(others) by {
        assert x[1..] == Expand(selections[1..], fragments, rank, r);
        SearchDecidesExpansion(selections[1..], fragments, rank, r, depth);
      }
      ghost var inside := !s.Leaf? && HasIntrospection(x[0].sub);
      var inner := Entered(s, fragments);
      if inner.Some? {
        assert ContainsIntrospectionField(inner.value, fragments, depth - 1) == Some(inside) by {
          var below := if s.FragmentSpread? then rank(s.name) else r;
          assert x[0].sub == Expand(inner.value, fragments, rank, below);
          SearchDecidesExpansion(inner.value, fragments, rank, below, depth - 1);
        }
      }
      SearchStep(selections, fragments, depth, inside, others);
    }
  }

  /** The search's answer for a list, from its answers for what the first selection holds and for the others. */
  lemma SearchStep(selections: seq<Selection>, fragments: FragmentMap, depth: nat, inside: bool, others: bool)
    requires selections != [] && ContainsIntrospectionField(selections[1..], fragments, depth) == Some(others)
    requires var inner := Entered(selections[0], fragments);
             if inner.None? then !inside
             else depth > 0 && ContainsIntrospectionField(inner.value, fragments, depth - 1) == Some(inside)
    ensures ContainsIntrospectionField(selections, fragments, depth) ==
            Some((!selections[0].InlineFragment? && !selections[0].FragmentSpread? && Introspective(selections[0].name))
                 || inside || others)
  {
  }

  /** A spread-free list asks for introspection in its first selection or in the others. */
  lemma HeadAndTail(x: seq<Selection>)
    requires x != [] && !x[0].FragmentSpread?
    ensures HasIntrospection(x) <==>
            || (x[0].Leaf? && Introspective(x[0].name))
            || (x[0].Field? && (Introspective(x[0].name) || HasIntrospection(x[0].sub)))
            || (x[0].InlineFragment? && HasIntrospection(x[0].sub))
            || HasIntrospection(x[1..])
    ensures Nesting(x) >= Nesting(x[1..]) && (!x[0].Leaf? ==> Nesting(x) >= 1 + Nesting(x[0].sub))
    ensures !HasIntrospection([])
  {
  }

  /** Without acyclicity the promise fails: on a fragment that spreads itself no amount of stack gives an answer. */
  lemma {:induction false} SelfSpreadOverflows(fragments: FragmentMap, name: string, depth: nat)
    requires name in fragments && fragments[name] == [FragmentSpread(name)]
    ensures ContainsIntrospectionField([FragmentSpread(name)], fragments, depth) == None
    decreases depth
  {
    if depth > 0 { SelfSpreadOverflows(fragments, name, depth - 1); }
  }

  // ----- isIntrospectionQuery -----

  /** The map the first loop fills; a later definition of a name replaces an earlier one. */
  function FragmentsOf(document: seq<Definition>): FragmentMap {
    if document == [] then map[]
    else
      var front, d := FragmentsOf(document[..|document| - 1]), document[|document| - 1];
      if d.Fragment? then front[d.name := d.selections] else front
  }

  /** A name stands for the last fragment defined with it, and for none if there is no such fragment. */
  lemma {:induction false} LastDefinitionCounts(document: seq<Definition>, name: string)
    ensures name in FragmentsOf(document) <==>
            exists i :: 0 <= i < |document| && document[i].Fragment? && document[i].name == name
    ensures forall i :: 0 <= i < |document| && document[i].Fragment? && document[i].name == name
                        && (forall j :: i < j < |document| && document[j].Fragment? ==> document[j].name != name)
                        ==> FragmentsOf(document)[name] == document[i].selections
  {
    if document != [] {
      var front := document[..|document| - 1];
      LastDefinitionCounts(front, name);
      assert forall i :: 0 <= i < |front| ==> front[i] == document[i];
    }
  }

  /** Some operation of the document, fully expanded, asks for introspection. */
  ghost predicate Introspects(document: seq<Definition>, rank: string -> nat, r: nat)
    requires AcyclicDocument(document, rank, r)
  {
    exists i :: 0 <= i < |document| && document[i].Operation? &&
      HasIntrospection(Expand(document[i].selections, FragmentsOf(document), rank, r))
  }

  ghost predicate AcyclicDocument(document: seq<Definition>, rank: string -> nat, r: nat) {
    && Ranked(FragmentsOf(document), rank)
    && forall i :: 0 <= i < |document| && document[i].Operation? ==>
         SpreadsBelow(document[i].selections, FragmentsOf(document), rank, r)
  }

  /** The stack every operation's search can use. */
  ghost predicate Deep(document: seq<Definition>, rank: string -> nat, r: nat, depth: nat)
    requires AcyclicDocument(document, rank, r)
  {
    forall i :: 0 <= i < |document| && document[i].Operation? ==>
      Nesting(Expand(document[i].selections, FragmentsOf(document), rank, r)) <= depth
  }

  /** The operations of a document, searched one after the other like inline fragments of one selection set. */
  function Operations(document: seq<Definition>): seq<Selection> {
    if document == [] then []
    else
      (if document[0].Operation? then [InlineFragment(document[0].selections)] else []) + Operations(document[1..])
  }

  function DocumentSearch(document: seq<Definition>, depth: nat): Option<bool> {
    ContainsIntrospectionField(Operations(document), FragmentsOf(document), depth + 1)
  }

  /**
   * None is the overflow. For every document the answer is that of searching its
   * operations in order; for an acyclic one with stack enough, whether some operation,
   * fully expanded, asks for introspection.
   */
  method IsIntrospectionQuery(document: seq<Definition>, depth: nat) returns (found: Option<bool>)
    ensures found == DocumentSearch(document, depth)
    ensures forall rank: string -> nat, r: nat ::
              AcyclicDocument(document, rank, r) && Deep(document, rank, r, depth) ==>
              found == Some(Introspects(document, rank, r))
  {
    var fragmentMap: FragmentMap := map[];
    for i := 0 to |document|
      invariant fragmentMap == FragmentsOf(document[..i])
    {
      assert document[..i + 1][..i] == document[..i];
      if document[i].Fragment? {
        fragmentMap := fragmentMap[document[i].name := document[i].selections];
      }
    }
    assert document[..|document|] == document && document[0..] == document;
    for i := 0 to |document|
      invariant ContainsIntrospectionField(Operations(document), fragmentMap, depth + 1)
             == ContainsIntrospectionField(Operations(document[i..]), fragmentMap, depth + 1)
      invariant forall j :: 0 <= j < i && document[j].Operation? ==>
                  ContainsIntrospectionField(document[j].selections, fragmentMap, depth) == Some(false)
    {
      NextOperation(document, fragmentMap, i, depth);
      if document[i].Operation? {
        var hit := ContainsIntrospectionField(document[i].selections, fragmentMap, depth);
        if hit != Some(false) {
          OperationDecides(document, i, depth);
          return hit;
        }
      }
    }
    NoOperationHits(document, depth);
    return Some(false);
  }

  /** How the search of the operations goes on at one definition. */
  lemma NextOperation(document: seq<Definition>, fragments: FragmentMap, i: nat, depth: nat)
    requires i < |document|
    ensures var here, rest := ContainsIntrospectionField(Operations(document[i..]), fragments, depth + 1),
                              ContainsIntrospectionField(Operations(document[i + 1..]), fragments, depth + 1);
            here == if !document[i].Operation? then rest
                    else
                      var hit := ContainsIntrospectionField(document[i].selections, fragments, depth);
                      if hit == Some(false) then rest else hit
  {
    assert document[i..][1..] == document[i + 1..];
    var rest := Operations(document[i + 1..]);
    if document[i].Operation? {
      var head := InlineFragment(document[i].selections);
      assert Operations(document[i..]) == [head] + rest && ([head] + rest)[1..] == rest;
    } else {
      assert Operations(document[i..]) == [] + rest == rest;
    }
  }

  lemma OperationDecides(document: seq<Definition>, i: nat, depth: nat)
    requires i < |document| && document[i].Operation?
    requires ContainsIntrospectionField(document[i].selections, FragmentsOf(document), depth) != Some(false)
    ensures forall rank: string -> nat, r: nat ::
              AcyclicDocument(document, rank, r) && Deep(document, rank, r, depth) ==>
              ContainsIntrospectionField(document[i].selections, FragmentsOf(document), depth)
              == Some(Introspects(document, rank, r))
  {
    forall rank: string -> nat, r: nat | AcyclicDocument(document, rank, r) && Deep(document, rank, r, depth)
      ensures ContainsIntrospectionField(document[i].selections, FragmentsOf(document), depth)
           == Some(Introspects(document, rank, r))
    {
      SearchDecidesExpansion(document[i].selections, FragmentsOf(document), rank, r, depth);
    }
  }

  lemma NoOperationHits(document: seq<Definition>, depth: nat)
    requires forall j :: 0 <= j < |document| && document[j].Operation? ==>
               ContainsIntrospectionField(document[j].selections, FragmentsOf(document), depth) == Some(false)
    ensures forall rank: string -> nat, r: nat ::
              AcyclicDocument(document, rank, r) && Deep(document, rank, r, depth) ==>
              !Introspects(document, rank, r)
  {
    forall rank: string -> nat, r: nat, i: nat |
      AcyclicDocument(document, rank, r) && Deep(document, rank, r, depth) && i < |document| && document[i].Operation?
      ensures !HasIntrospection(Expand(document[i].selections, FragmentsOf(document), rank, r))
    {
      SearchDecidesExpansion(document[i].selections, FragmentsOf(document), rank, r, depth);
    }
  }
}
