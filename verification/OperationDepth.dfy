/** The operation-depth limit, and what fragments hide from it. */
module OperationDepth {
  import opened Common
  import opened IntrospectionGate

  /**
   * How deeply fields are nested below a selection set: walk enters fields only;
   * with `seeFragments`, an inline fragment counts as the selections it stands for.
   */
  function FieldDepth(selections: seq<Selection>, seeFragments: bool): nat
    decreases selections
  {
    if selections == [] then 0
    else
      var head := match selections[0]
        case Field(_, sub) => 1 + FieldDepth(sub, seeFragments)
        case InlineFragment(sub) => if seeFragments then FieldDepth(sub, seeFragments) else 0
        case _ => 0;
      Max(head, FieldDepth(selections[1..], seeFragments))
  }

  /** The deepest query operation, its own selection set included. */
  function DepthOver(document: seq<Definition>, seeFragments: bool): nat {
    if document == [] then 0
    else
      var d := document[|document| - 1];
      Max(DepthOver(document[..|document| - 1], seeFragments),
          if d.Operation? && d.kind.Query? then 1 + FieldDepth(d.selections, seeFragments) else 0)
  }

  lemma WalkedStep(selections: seq<Selection>, i: nat)
    requires i < |selections|
    ensures FieldDepth(selections[i..], false) ==
            Max(if selections[i].Field? then 1 + FieldDepth(selections[i].sub, false) else 0,
                FieldDepth(selections[i + 1..], false))
  {
    assert selections[i..][1..] == selections[i + 1..];
  }

  method Walk(selections: seq<Selection>, currentDepth: nat, maxDepth0: nat) returns (maxDepth: nat)
    ensures maxDepth == Max(maxDepth0, currentDepth + FieldDepth(selections, false))
    decreases selections
  {
    maxDepth := maxDepth0;
    assert selections[0..] == selections;
    for i := 0 to |selections|
      invariant Max(maxDepth, currentDepth + FieldDepth(selections[i..], false))
             == Max(maxDepth0, currentDepth + FieldDepth(selections, false))
    {
      WalkedStep(selections, i);
      var selection := selections[i];
      if selection.Field? {
        maxDepth := Walk(selection.sub, currentDepth + 1, maxDepth);
      }
    }
    if currentDepth > maxDepth {
      maxDepth := currentDepth;
    }
  }

  method GetOperationDepth(document: seq<Definition>) returns (maxDepth: nat)
    ensures maxDepth == DepthOver(document, false)
    ensures (forall i :: 0 <= i < |document| && document[i].Operation? ==> FragmentFree(document[i].selections)) ==>
              maxDepth == DepthOver(document, true)
  {
    maxDepth := 0;
    for i := 0 to |document|
      invariant maxDepth == DepthOver(document[..i], false)
    {
      assert document[..i + 1][..i] == document[..i];
      if document[i].Operation? && document[i].kind.Query? {
        maxDepth := Walk(document[i].selections, 1, maxDepth);
      }
    }
    assert document[..|document|] == document;
    if forall i :: 0 <= i < |document| && document[i].Operation? ==> FragmentFree(document[i].selections) {
      DepthAgrees(document);
    }
  }

  predicate FragmentFree(selections: seq<Selection>)
    decreases selections
  {
    forall i :: 0 <= i < |selections| ==>
      selections[i].Leaf? || (selections[i].Field? && FragmentFree(selections[i].sub))
  }

  lemma {:induction false} WalkedIsFieldDepth(selections: seq<Selection>)
    ensures FieldDepth(selections, false) <= FieldDepth(selections, true)
    ensures FragmentFree(selections) ==> FieldDepth(selections, false) == FieldDepth(selections, true)
    decreases selections
  {
    if selections != [] {
      var s := selections[0];
      WalkedIsFieldDepth(selections[1..]);
      assert FragmentFree(selections) ==> FragmentFree(selections[1..]);
      if s.Field? { WalkedIsFieldDepth(s.sub); }
    }
  }

  lemma {:induction false} DepthAgrees(document: seq<Definition>)
    requires forall i :: 0 <= i < |document| && document[i].Operation? ==> FragmentFree(document[i].selections)
    ensures DepthOver(document, false) == DepthOver(document, true)
  {
    if document != [] {
      var d := document[|document| - 1];
      DepthAgrees(document[..|document| - 1]);
      if d.Operation? { WalkedIsFieldDepth(d.selections); }
    }
  }

  /** The measured depth never exceeds the field nesting of the expanded document. */
  lemma {:induction false} WalkedAtMostExpanded(
    selections: seq<Selection>, fragments: FragmentMap, rank: string -> nat, r: nat)
    requires Ranked(fragments, rank) && SpreadsBelow(selections, fragments, rank, r)
    ensures FieldDepth(selections, false) <= FieldDepth(Expand(selections, fragments, rank, r), true)
    decreases selections
  {
    if selections != [] {
      var s, x := selections[0], Expand(selections, fragments, rank, r);
      assert x[1..] == Expand(selections[1..], fragments, rank, r);
      WalkedAtMostExpanded(selections[1..], fragments, rank, r);
      if s.Field? { WalkedAtMostExpanded(s.sub, fragments, rank, r); }
    }
  }

  // ----- exactly what fragments hide -----

  /** Every operation with its fragment spreads expanded. */
  ghost function Expanded(document: seq<Definition>, rank: string -> nat, r: nat): (x: seq<Definition>)
    requires AcyclicDocument(document, rank, r)
    ensures |x| == |document|
    ensures forall i :: 0 <= i < |x| ==>
              x[i] == if document[i].Operation?
                      then Operation(document[i].kind, Expand(document[i].selections, FragmentsOf(document), rank, r))
                      else document[i]
  {
    seq(|document|, i requires 0 <= i < |document| =>
          if document[i].Operation?
          then Operation(document[i].kind, Expand(document[i].selections, FragmentsOf(document), rank, r))
          else document[i])
  }

  /** No fragment met on field level k, or below, holds fields so deep that they lie below the limit. */
  ghost predicate FragmentsWithin(
    selections: seq<Selection>, fragments: FragmentMap, rank: string -> nat, r: nat, k: nat, limit: nat)
    requires Ranked(fragments, rank) && SpreadsBelow(selections, fragments, rank, r)
    decreases selections
  {
    selections == [] ||
    (assert SpreadsBelow(selections[1..], fragments, rank, r);
     && (match selections[0]
         case Leaf(_) => true
         case Field(_, sub) => FragmentsWithin(sub, fragments, rank, r, k + 1, limit)
         case InlineFragment(sub) => k + FieldDepth(Expand(sub, fragments, rank, r), true) <= limit
         case FragmentSpread(name) =>
           name in fragments ==> k + FieldDepth(Expand(fragments[name], fragments, rank, rank(name)), true) <= limit)
     && FragmentsWithin(selections[1..], fragments, rank, r, k, limit))
  }

  /** A selection set is within a limit in full exactly when it is as measured and all its fragments are. */
  lemma {:induction false} WithinIff(
    selections: seq<Selection>, fragments: FragmentMap, rank: string -> nat, r: nat, k: nat, limit: nat)
    requires Ranked(fragments, rank) && SpreadsBelow(selections, fragments, rank, r)
    ensures k + FieldDepth(Expand(selections, fragments, rank, r), true) <= limit
       <==> k + FieldDepth(selections, false) <= limit && FragmentsWithin(selections, fragments, rank, r, k, limit)
    decreases selections
  {
    if selections != [] {
      var s, rest, x := selections[0], selections[1..], Expand(selections, fragments, rank, r);
      assert x[1..] == Expand(rest, fragments, rank, r);
      WithinIff(rest, fragments, rank, r, k, limit);
      if s.Field? { WithinIff(s.sub, fragments, rank, r, k + 1, limit); }
    }
  }

  /** The same for every query operation of a document. */
  ghost predicate DocumentWithin(document: seq<Definition>, rank: string -> nat, r: nat, limit: nat)
    requires AcyclicDocument(document, rank, r)
  {
    forall i :: 0 <= i < |document| && document[i].Operation? && document[i].kind.Query? ==>
      FragmentsWithin(document[i].selections, FragmentsOf(document), rank, r, 1, limit)
  }

  lemma {:induction false} DepthOverAtMost(document: seq<Definition>, seeFragments: bool, limit: nat)
    ensures DepthOver(document, seeFragments) <= limit <==>
            forall i :: 0 <= i < |document| && document[i].Operation? && document[i].kind.Query? ==>
              1 + FieldDepth(document[i].selections, seeFragments) <= limit
  {
    if document != [] {
      var front := document[..|document| - 1];
      DepthOverAtMost(front, seeFragments, limit);
      assert forall i :: 0 <= i < |front| ==> front[i] == document[i];
    }
  }

  /** The expanded document is within a limit exactly when the measured depth is and every fragment is. */
  lemma ExpandedDepthIff(document: seq<Definition>, rank: string -> nat, r: nat, limit: nat)
    requires AcyclicDocument(document, rank, r)
    ensures DepthOver(Expanded(document, rank, r), true) <= limit
       <==> DepthOver(document, false) <= limit && DocumentWithin(document, rank, r, limit)
  {
    var x := Expanded(document, rank, r);
    DepthOverAtMost(document, false, limit);
    DepthOverAtMost(x, true, limit);
    forall i | 0 <= i < |document| && document[i].Operation? && document[i].kind.Query?
      ensures 1 + FieldDepth(x[i].selections, true) <= limit
         <==> 1 + FieldDepth(document[i].selections, false) <= limit
              && FragmentsWithin(document[i].selections, FragmentsOf(document), rank, r, 1, limit)
    {
      WithinIff(document[i].selections, FragmentsOf(document), rank, r, 1, limit);
    }
  }

  /** The measured depth is that of the expanded document exactly when no fragment reaches below it. */
  lemma MeasuredIsExpandedIff(document: seq<Definition>, rank: string -> nat, r: nat)
    requires AcyclicDocument(document, rank, r)
    ensures DepthOver(document, false) <= DepthOver(Expanded(document, rank, r), true)
    ensures DepthOver(document, false) == DepthOver(Expanded(document, rank, r), true)
       <==> DocumentWithin(document, rank, r, DepthOver(document, false))
  {
    ExpandedDepthIff(document, rank, r, DepthOver(Expanded(document, rank, r), true));
    ExpandedDepthIff(document, rank, r, DepthOver(document, false));
  }

  // ----- the limit -----

  const MAX_QUERY_DEPTH := 5

  datatype Rejection = MutationNotAllowed | TooDeep

  /** The validation hook: a mutation is refused, and a query if the document is measured too deep. */
  method ValidateOperations(document: seq<Definition>) returns (rejected: Option<Rejection>)
    ensures rejected.None? <==>
            && (forall i :: 0 <= i < |document| && document[i].Operation? ==> !document[i].kind.Mutation?)
            && DepthOver(document, false) <= 5
    ensures rejected == Some(TooDeep) ==> DepthOver(document, false) > 5
    ensures rejected == Some(MutationNotAllowed) ==>
              exists i :: 0 <= i < |document| && document[i].Operation? && document[i].kind.Mutation?
  {
    DepthOverAtMost(document, false, MAX_QUERY_DEPTH);
    for i := 0 to |document|
      invariant forall j :: 0 <= j < i && document[j].Operation? ==> !document[j].kind.Mutation?
      invariant forall j :: 0 <= j < i && document[j].Operation? && document[j].kind.Query? ==>
                              DepthOver(document, false) <= MAX_QUERY_DEPTH
    {
      if document[i].Operation? {
        if document[i].kind.Mutation? { return Some(MutationNotAllowed); }
        if document[i].kind.Query? {
          var depth := GetOperationDepth(document);
          if depth > MAX_QUERY_DEPTH { return Some(TooDeep); }
        }
      }
    }
    return None;
  }

  /** A document that passes the limit is deeper than it in full exactly when some fragment reaches below the limit. */
  lemma LimitMissesIff(document: seq<Definition>, rank: string -> nat, r: nat)
    requires AcyclicDocument(document, rank, r) && DepthOver(document, false) <= MAX_QUERY_DEPTH
    ensures DepthOver(Expanded(document, rank, r), true) > MAX_QUERY_DEPTH
       <==> !DocumentWithin(document, rank, r, MAX_QUERY_DEPTH)
  {
    ExpandedDepthIff(document, rank, r, MAX_QUERY_DEPTH);
  }

  function Chain(n: nat): seq<Selection> {
    if n == 0 then [Leaf("x")] else [Field("x", Chain(n - 1))]
  }

  lemma {:induction false} ChainDepth(n: nat, fragments: FragmentMap, rank: string -> nat, r: nat)
    ensures SpreadsBelow(Chain(n), fragments, rank, r)
    ensures Ranked(fragments, rank) ==> FieldDepth(Expand(Chain(n), fragments, rank, r), true) == n
  {
    if n > 0 { ChainDepth(n - 1, fragments, rank, r); }
    if Ranked(fragments, rank) {
      var x := Expand(Chain(n), fragments, rank, r);
      assert x[1..] == [];
    }
  }

  /** A fragment hides any depth: a document measured 1 whose expansion is n + 1 deep. */
  lemma FragmentsHideDepth(n: nat) returns (document: seq<Definition>, rank: string -> nat)
    ensures AcyclicDocument(document, rank, 1)
    ensures DepthOver(document, false) == 1 && DepthOver(Expanded(document, rank, 1), true) == n + 1
  {
    var query, fragment := Operation(Query, [FragmentSpread("f")]), Fragment("f", Chain(n));
    document, rank := [fragment, query], (name: string) => 0;
    var fragments: FragmentMap := map["f" := Chain(n)];
    assert document[..1] == [fragment] && [fragment][..0] == [];
    assert FragmentsOf([fragment]) == fragments && FragmentsOf(document) == fragments;
    ChainDepth(n, fragments, rank, 0);
    var x := Expanded(document, rank, 1);
    var e := Expand(query.selections, fragments, rank, 1);
    assert x == [fragment, Operation(Query, e)] && x[..1] == [fragment];
    assert e == [InlineFragment(Expand(Chain(n), fragments, rank, 0))] && e[1..] == [];
    assert query.selections[1..] == [];
    assert FieldDepth(e, true) == n && FieldDepth(query.selections, false) == 0;
    assert DepthOver([fragment], false) == DepthOver([fragment], true) == 0;
  }
}
