/**
 * When the introspection search ends, and what it answers, on every document,
 * cyclic ones included.
 */
module IntrospectionTermination {
  import opened Common
  import opened IntrospectionGate

  /** The search answers, given stack enough. */
  ghost predicate Ends(selections: seq<Selection>, fragments: FragmentMap) {
    exists depth: nat :: ContainsIntrospectionField(selections, fragments, depth).Some?
  }

  predicate Hit(s: Selection) { (s.Leaf? || s.Field?) && (s.name == "__schema" || s.name == "__type") }

  /** A __schema or __type field is found by entering at most n selection sets below these selections. */
  ghost predicate Asks(selections: seq<Selection>, fragments: FragmentMap, n: nat)
    decreases n
  {
    exists s :: s in selections &&
      (Hit(s) || (n > 0 && Entered(s, fragments).Some? && Asks(Entered(s, fragments).value, fragments, n - 1)))
  }

  /** Such a field can be reached at all. */
  ghost predicate AsksAtAll(selections: seq<Selection>, fragments: FragmentMap) {
    exists n: nat :: Asks(selections, fragments, n)
  }

  /** What the search enters at the selection holds no such field, however far it is followed. */
  ghost predicate Clear(s: Selection, fragments: FragmentMap) {
    !Hit(s) && (Entered(s, fragments).Some? ==> !AsksAtAll(Entered(s, fragments).value, fragments))
  }

  /**
   * The search of these selections opens a spread of the named fragment: it is met in
   * them or in the selection sets nested in them, with nothing to find before it.
   */
  ghost predicate Opens(selections: seq<Selection>, fragments: FragmentMap, name: string)
    decreases selections
  {
    selections != [] && !Hit(selections[0]) &&
    ((match selections[0]
      case Leaf(_) => false
      case Field(_, sub) => Opens(sub, fragments, name)
      case InlineFragment(sub) => Opens(sub, fragments, name)
      case FragmentSpread(spread) => spread == name && name in fragments)
     || (Clear(selections[0], fragments) && Opens(selections[1..], fragments, name)))
  }

  /** Each fragment of the path is opened by the search of the one before it, the first by that of the selections. */
  ghost predicate Path(selections: seq<Selection>, fragments: FragmentMap, path: seq<string>)
    decreases |path|
  {
    path == [] ||
    (Opens(selections, fragments, path[0]) && path[0] in fragments
     && Path(fragments[path[0]], fragments, path[1..]))
  }

  /** The search comes to a fragment again that it is still searching. */
  ghost predicate CycleReachable(selections: seq<Selection>, fragments: FragmentMap) {
    exists path, j :: Path(selections, fragments, path) && 0 <= j < |path| - 1 && path[j] == path[|path| - 1]
  }

  // ----- answers -----

  lemma AsksSplits(selections: seq<Selection>, fragments: FragmentMap, n: nat)
    requires selections != []
    ensures Asks(selections, fragments, n)
       <==> Asks([selections[0]], fragments, n) || Asks(selections[1..], fragments, n)
  {
    assert forall s :: s in selections <==> s in [selections[0]] || s in selections[1..];
  }

  /** More stack does not change an answer. */
  lemma {:induction false} MoreStack(selections: seq<Selection>, fragments: FragmentMap, d: nat, e: nat)
    requires d <= e && ContainsIntrospectionField(selections, fragments, d).Some?
    ensures ContainsIntrospectionField(selections, fragments, e) == ContainsIntrospectionField(selections, fragments, d)
    decreases d, |selections|
  {
    if selections != [] && !Hit(selections[0]) {
      var inner := Entered(selections[0], fragments);
      if inner.Some? { MoreStack(inner.value, fragments, d - 1, e - 1); }
      if inner.None? || ContainsIntrospectionField(inner.value, fragments, d - 1) == Some(false) {
        MoreStack(selections[1..], fragments, d, e);
      }
    }
  }

  lemma {:induction false} FoundIsAsked(selections: seq<Selection>, fragments: FragmentMap, d: nat)
    requires ContainsIntrospectionField(selections, fragments, d) == Some(true)
    ensures Asks(selections, fragments, d)
    decreases d, |selections|
  {
    if !Hit(selections[0]) {
      var inner := Entered(selections[0], fragments);
      AsksSplits(selections, fragments, d);
      if inner.Some? && ContainsIntrospectionField(inner.value, fragments, d - 1) == Some(true) {
        FoundIsAsked(inner.value, fragments, d - 1);
        assert selections[0] in selections;
      } else {
        FoundIsAsked(selections[1..], fragments, d);
      }
    } else {
      assert selections[0] in selections;
    }
  }

  lemma {:induction false} NotFoundIsNotAsked(selections: seq<Selection>, fragments: FragmentMap, d: nat, n: nat)
    requires ContainsIntrospectionField(selections, fragments, d) == Some(false)
    ensures !Asks(selections, fragments, n)
    decreases d, |selections|
  {
    if selections != [] {
      var inner := Entered(selections[0], fragments);
      AsksSplits(selections, fragments, n);
      NotFoundIsNotAsked(selections[1..], fragments, d, n);
      if inner.Some? && n > 0 { NotFoundIsNotAsked(inner.value, fragments, d - 1, n - 1); }
    }
  }

  /** Whenever the search answers, it answers whether an introspection field can be reached at all. */
  lemma AnswerIsExact(selections: seq<Selection>, fragments: FragmentMap, depth: nat, found: bool)
    requires ContainsIntrospectionField(selections, fragments, depth) == Some(found)
    ensures found <==> AsksAtAll(selections, fragments)
  {
    if found {
      FoundIsAsked(selections, fragments, depth);
    } else {
      forall n: nat ensures !Asks(selections, fragments, n) {
        NotFoundIsNotAsked(selections, fragments, depth, n);
      }
    }
  }

  // ----- a reachable cycle leaves no answer -----

  /** A search that answers has answered for every fragment it opened, with less stack. */
  lemma {:induction false} OpenedIsAnswered(selections: seq<Selection>, fragments: FragmentMap, name: string, d: nat)
    requires ContainsIntrospectionField(selections, fragments, d).Some? && Opens(selections, fragments, name)
    ensures name in fragments && d > 0 && ContainsIntrospectionField(fragments[name], fragments, d - 1).Some?
    decreases selections
  {
    var s, rest := selections[0], selections[1..];
    var inner := Entered(s, fragments);
    if Clear(s, fragments) && Opens(rest, fragments, name) {
      if inner.Some? && ContainsIntrospectionField(inner.value, fragments, d - 1) == Some(true) {
        FoundIsAsked(inner.value, fragments, d - 1);
      }
      OpenedIsAnswered(rest, fragments, name, d);
    } else if !s.FragmentSpread? {
      OpenedIsAnswered(s.sub, fragments, name, d - 1);
      MoreStack(fragments[name], fragments, d - 2, d - 1);
    }
  }

  lemma {:induction false} PathIsAnswered(selections: seq<Selection>, fragments: FragmentMap, path: seq<string>, d: nat)
    requires ContainsIntrospectionField(selections, fragments, d).Some?
    requires Path(selections, fragments, path) && path != []
    ensures path[|path| - 1] in fragments && d >= |path|
    ensures ContainsIntrospectionField(fragments[path[|path| - 1]], fragments, d - |path|).Some?
    decreases |path|
  {
    OpenedIsAnswered(selections, fragments, path[0], d);
    if |path| > 1 { PathIsAnswered(fragments[path[0]], fragments, path[1..], d - 1); }
  }

  /** On a cycle of any length no amount of stack gives an answer. */
  lemma {:induction false} CycleOverflows(fragments: FragmentMap, name: string, cycle: seq<string>, d: nat)
    requires name in fragments && Path(fragments[name], fragments, cycle) && cycle != [] && cycle[|cycle| - 1] == name
    ensures ContainsIntrospectionField(fragments[name], fragments, d) == None
    decreases d
  {
    if ContainsIntrospectionField(fragments[name], fragments, d).Some? {
      PathIsAnswered(fragments[name], fragments, cycle, d);
      CycleOverflows(fragments, name, cycle, d - |cycle|);
    }
  }

  lemma {:induction false} PathSplits(selections: seq<Selection>, fragments: FragmentMap, path: seq<string>, j: nat)
    requires Path(selections, fragments, path) && j < |path|
    ensures Path(selections, fragments, path[..j + 1]) && path[j] in fragments
    ensures Path(fragments[path[j]], fragments, path[j + 1..])
    decreases j
  {
    assert path[..j + 1][1..] == path[1..][..j];
    if j > 0 {
      PathSplits(fragments[path[0]], fragments, path[1..], j - 1);
      assert path[1..][j..] == path[j + 1..];
    }
  }

  // ----- without one the search ends -----

  /** What is being searched at the end of a path. */
  function Top(root: seq<Selection>, fragments: FragmentMap, path: seq<string>): seq<Selection>
    requires path != [] ==> path[|path| - 1] in fragments
  {
    if path == [] then root else fragments[path[|path| - 1]]
  }

  lemma {:induction false} PathExtends(root: seq<Selection>, fragments: FragmentMap, path: seq<string>, name: string)
    requires Path(root, fragments, path) && name in fragments
    requires path != [] ==> path[|path| - 1] in fragments
    requires Opens(Top(root, fragments, path), fragments, name)
    ensures Path(root, fragments, path + [name])
    decreases |path|
  {
    if path == [] {
      assert [name][1..] == [];
    } else {
      assert (path + [name])[1..] == path[1..] + [name];
      PathExtends(fragments[path[0]], fragments, path[1..], name);
    }
  }

  lemma RepeatIsCycle(root: seq<Selection>, fragments: FragmentMap, path: seq<string>, name: string)
    requires Path(root, fragments, path + [name]) && name in path
    ensures CycleReachable(root, fragments)
  {
    var longer := path + [name];
    var j :| 0 <= j < |path| && path[j] == name;
    assert longer[j] == longer[|longer| - 1];
  }

  function Names(path: seq<string>): set<string> { set i | 0 <= i < |path| :: path[i] }

  lemma NewNameLeavesFewer(fragments: FragmentMap, path: seq<string>, name: string)
    requires name in fragments && name !in path
    ensures |fragments.Keys - Names(path + [name])| < |fragments.Keys - Names(path)|
  {
    var longer := path + [name];
    assert forall x :: x in longer <==> x in path || x == name;
    assert forall x :: x in Names(longer) <==> x in longer;
    assert Names(longer) == Names(path) + {name};
    assert fragments.Keys - Names(path + [name]) == (fragments.Keys - Names(path)) - {name};
  }

  lemma {:induction false} NoCycleEnds(
    root: seq<Selection>, fragments: FragmentMap, path: seq<string>, selections: seq<Selection>)
    requires !CycleReachable(root, fragments) && Path(root, fragments, path)
    requires path != [] ==> path[|path| - 1] in fragments
    requires forall name :: Opens(selections, fragments, name) ==> Opens(Top(root, fragments, path), fragments, name)
    ensures Ends(selections, fragments)
    decreases |fragments.Keys - Names(path)|, selections
  {
    if selections == [] || Hit(selections[0]) {
      assert ContainsIntrospectionField(selections, fragments, 0).Some?;
    } else {
      var s, rest := selections[0], selections[1..];
      var inner := Entered(s, fragments);
      if inner.Some? {
        InnerEnds(root, fragments, path, selections);
        var d: nat :| ContainsIntrospectionField(inner.value, fragments, d).Some?;
        if ContainsIntrospectionField(inner.value, fragments, d).value {
          assert ContainsIntrospectionField(selections, fragments, d + 1).Some?;
        } else {
          AnswerIsExact(inner.value, fragments, d, false);
          assert Clear(s, fragments);
          NoCycleEnds(root, fragments, path, rest);
          var e: nat :| ContainsIntrospectionField(rest, fragments, e).Some?;
          MoreStack(inner.value, fragments, d, d + e);
          MoreStack(rest, fragments, e, d + e + 1);
          assert ContainsIntrospectionField(selections, fragments, d + e + 1).Some?;
        }
      } else {
        NoCycleEnds(root, fragments, path, rest);
        var e: nat :| ContainsIntrospectionField(rest, fragments, e).Some?;
        assert ContainsIntrospectionField(selections, fragments, e).Some?;
      }
    }
  }

  lemma {:induction false} InnerEnds(
    root: seq<Selection>, fragments: FragmentMap, path: seq<string>, selections: seq<Selection>)
    requires !CycleReachable(root, fragments) && Path(root, fragments, path)
    requires path != [] ==> path[|path| - 1] in fragments
    requires forall name :: Opens(selections, fragments, name) ==> Opens(Top(root, fragments, path), fragments, name)
    requires selections != [] && !Hit(selections[0]) && Entered(selections[0], fragments).Some?
    ensures Ends(Entered(selections[0], fragments).value, fragments)
    decreases |fragments.Keys - Names(path)|, selections, 0
  {
    if selections[0].FragmentSpread? {
      var name := selections[0].name;
      assert Opens(selections, fragments, name);
      PathExtends(root, fragments, path, name);
      if name in path {
        RepeatIsCycle(root, fragments, path, name);
        assert false;
      }
      NewNameLeavesFewer(fragments, path, name);
      NoCycleEnds(root, fragments, path + [name], fragments[name]);
    } else {
      NoCycleEnds(root, fragments, path, selections[0].sub);
    }
  }

  /**
   * The search of any selections over any fragments ends, given stack enough, exactly
   * when it does not come to a fragment again that it is still searching.
   */
  lemma SearchEndsIff(selections: seq<Selection>, fragments: FragmentMap)
    ensures Ends(selections, fragments) <==> !CycleReachable(selections, fragments)
  {
    if CycleReachable(selections, fragments) {
      var path, j :| Path(selections, fragments, path) && 0 <= j < |path| - 1 && path[j] == path[|path| - 1];
      forall d: nat ensures ContainsIntrospectionField(selections, fragments, d) == None {
        CycleLeavesNoAnswer(selections, fragments, path, j, d);
      }
    } else {
      NoCycleEnds(selections, fragments, [], selections);
    }
  }

  lemma CycleLeavesNoAnswer(selections: seq<Selection>, fragments: FragmentMap, path: seq<string>, j: nat, d: nat)
    requires Path(selections, fragments, path) && j < |path| - 1 && path[j] == path[|path| - 1]
    ensures ContainsIntrospectionField(selections, fragments, d) == None
  {
    PathSplits(selections, fragments, path, j);
    if ContainsIntrospectionField(selections, fragments, d).Some? {
      var front, cycle := path[..j + 1], path[j + 1..];
      PathIsAnswered(selections, fragments, front, d);
      CycleOverflows(fragments, path[j], cycle, d - |front|);
    }
  }

  /** isIntrospectionQuery answers, given stack enough, exactly when its operations reach no cycle before a hit. */
  lemma DocumentSearchEndsIff(document: seq<Definition>)
    ensures (exists d: nat :: DocumentSearch(document, d).Some?)
       <==> !CycleReachable(Operations(document), FragmentsOf(document))
  {
    var selections, fragments := Operations(document), FragmentsOf(document);
    SearchEndsIff(selections, fragments);
    if Ends(selections, fragments) {
      var d: nat :| ContainsIntrospectionField(selections, fragments, d).Some?;
      MoreStack(selections, fragments, d, d + 1);
      assert DocumentSearch(document, d).Some?;
    }
  }

  /** And the answer is whether some operation reaches an introspection field. */
  lemma DocumentAnswerIsExact(document: seq<Definition>, d: nat, found: bool)
    requires DocumentSearch(document, d) == Some(found)
    ensures found <==> exists i :: 0 <= i < |document| && document[i].Operation?
                                   && AsksAtAll(document[i].selections, FragmentsOf(document))
  {
    var selections, fragments := Operations(document), FragmentsOf(document);
    AnswerIsExact(selections, fragments, d + 1, found);
    OperationsAsk(document, fragments);
  }

  lemma {:induction false} OperationsAsk(document: seq<Definition>, fragments: FragmentMap)
    ensures AsksAtAll(Operations(document), fragments) <==>
            exists i :: 0 <= i < |document| && document[i].Operation? && AsksAtAll(document[i].selections, fragments)
  {
    OperationsMembers(document);
    forall n: nat | Asks(Operations(document), fragments, n)
      ensures exists i :: 0 <= i < |document| && document[i].Operation? && AsksAtAll(document[i].selections, fragments)
    {
      var s :| s in Operations(document)
        && (Hit(s) || (n > 0 && Entered(s, fragments).Some? && Asks(Entered(s, fragments).value, fragments, n - 1)));
      var i :| 0 <= i < |document| && document[i].Operation? && s == InlineFragment(document[i].selections);
      assert AsksAtAll(document[i].selections, fragments);
    }
    forall i | 0 <= i < |document| && document[i].Operation? && AsksAtAll(document[i].selections, fragments)
      ensures AsksAtAll(Operations(document), fragments)
    {
      var n: nat :| Asks(document[i].selections, fragments, n);
      assert InlineFragment(document[i].selections) in Operations(document);
      assert Asks(Operations(document), fragments, n + 1);
    }
  }

  lemma {:induction false} OperationsMembers(document: seq<Definition>)
    ensures forall s :: s in Operations(document) <==>
              exists i :: 0 <= i < |document| && document[i].Operation? && s == InlineFragment(document[i].selections)
  {
    if document != [] {
      OperationsMembers(document[1..]);
      assert forall i :: 1 <= i < |document| ==> document[i] == document[1..][i - 1];
    }
  }
}
