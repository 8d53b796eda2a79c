/** The collector of the canonical linter, `findLintErrors`: the five rules
    run in a fixed order on every node the walk visits, and the findings are
    kept in visit order. */
module Linter {
  import opened Wrappers
  import opened Ascii
  import opened ComponentName
  import opened Syntax
  import opened Rules
  import opened Walk

  /** Position of a rule in the fixed evaluation order. `ClassNotFileName`
      comes only from the older linter and never occurs here; it is placed
      last so that the match is total. */
  function RuleRank(kind: Kind): (rank: nat) {
    match kind
    case IdSelectorUsed => 0
    case NestedMoreThanOnce => 1
    case ClassNotComponentName => 2
    case AnimationNotComponentName => 3
    case TypeSelectorUsed => 4
    case ClassNotFileName => 5
  }

  /** The visit makes the animation rule fault. */
  predicate Faults(visit: Visit) {
    IsKeyframes(visit.node) && visit.node.preludeFirstName.None?
  }

  /** Some rule reports a finding for the visit. */
  predicate AnyRuleFires(fileName: string, visit: Visit) {
    || CheckIfUsesIdSelector(visit.node).Some?
    || CheckIfNestedMoreThanOnce(visit.node).Some?
    || CheckIfStartsWithComponentName(fileName, visit.node).Some?
    || (var a := CheckIfAnimationStartsWithComponentName(fileName, visit.node); a.Success? && a.value.Some?)
    || CheckIfUsesTypeSelector(visit).Some?
  }

  /** The findings one callback invocation adds, in rule order. */
  function VisitErrors(fileName: string, visit: Visit): (r: Result<seq<Diagnostic>, Fault>)
    ensures r.Failure? <==> Faults(visit)
    ensures r.Failure? ==> r.error == AnimationNameUnreadable(visit.node.line)
  {
    var node := visit.node;
    match CheckIfAnimationStartsWithComponentName(fileName, node)
    case Failure(e) => Failure(e)
    case Success(animation) =>
      Success(
        Present(CheckIfUsesIdSelector(node))
        + Present(CheckIfNestedMoreThanOnce(node))
        + Present(CheckIfStartsWithComponentName(fileName, node))
        + Present(animation)
        + Present(CheckIfUsesTypeSelector(visit)))
  }

  /** What a visit contributes, by node type: one rule applies to each node
      type except class selectors, which two rules inspect. */
  lemma VisitErrorsByNodeType(fileName: string, visit: Visit)
    requires !Faults(visit)
    ensures VisitErrors(fileName, visit) == Success(
              match visit.node
              case IdSelector(_, _) => Present(CheckIfUsesIdSelector(visit.node))
              case ClassSelector(_, _) =>
                Present(CheckIfNestedMoreThanOnce(visit.node))
                + Present(CheckIfStartsWithComponentName(fileName, visit.node))
              case TypeSelector(_, _) => Present(CheckIfUsesTypeSelector(visit))
              case Atrule(_, _, _) => Present(CheckIfAnimationStartsWithComponentName(fileName, visit.node).value)
              case _ => [])
  {
    var e: seq<Diagnostic> := [];
    var node := visit.node;
    var id := Present(CheckIfUsesIdSelector(node));
    var nest := Present(CheckIfNestedMoreThanOnce(node));
    var naming := Present(CheckIfStartsWithComponentName(fileName, node));
    var anim := Present(CheckIfAnimationStartsWithComponentName(fileName, node).value);
    var ty := Present(CheckIfUsesTypeSelector(visit));
    match node
    case IdSelector(_, _) =>
      assert nest == naming == anim == ty == e;
      assert id + e + e + e + e == id;
    case ClassSelector(_, _) =>
      assert id == anim == ty == e;
      assert e + nest + naming + e + e == nest + naming;
    case TypeSelector(_, _) =>
      assert id == nest == naming == anim == e;
      assert e + e + e + e + ty == ty;
    case Atrule(_, _, _) =>
      assert id == nest == naming == ty == e;
      assert e + e + e + anim + e == anim;
    case Combinator(_, _) =>
      assert id == nest == naming == anim == ty == e;
      assert e + e + e + e + e == e;
    case Other(_) =>
      assert id == nest == naming == anim == ty == e;
      assert e + e + e + e + e == e;
  }

  /** Up to two rule results on one line: when both are findings, the first
      comes first. */
  lemma PresentPair(a: Option<Diagnostic>, b: Option<Diagnostic>, line: nat)
    requires a.Some? ==> a.value.line == line
    requires b.Some? ==> b.value.line == line
    ensures var es := Present(a) + Present(b);
            && |es| <= 2
            && (|es| == 2 ==> es[0] == a.value && es[1] == b.value)
            && (es == [] <==> a.None? && b.None?)
            && (forall i :: 0 <= i < |es| ==> es[i].line == line)
  {
    var es := Present(a) + Present(b);
    if a.Some? && b.Some? {
      assert es == [a.value, b.value];
    } else if a.Some? {
      assert es == [a.value];
    } else if b.Some? {
      assert es == [b.value];
    } else {
      assert es == [];
    }
  }

  /** Each visit yields at most two findings, two only for a class selector;
      none exactly when no rule fires; all on the node's line, in rule order. */
  lemma VisitErrorsProperties(fileName: string, visit: Visit)
    requires !Faults(visit)
    ensures var es := VisitErrors(fileName, visit).value;
            && |es| <= 2
            && (|es| == 2 ==> visit.node.ClassSelector?)
            && (es == [] <==> !AnyRuleFires(fileName, visit))
            && (forall i :: 0 <= i < |es| ==> es[i].line == visit.node.line)
            && (forall i, j :: 0 <= i < j < |es| ==> RuleRank(es[i].kind) < RuleRank(es[j].kind))
  {
    VisitErrorsByNodeType(fileName, visit);
    var node := visit.node;
    var none: Option<Diagnostic> := None;
    var e: seq<Diagnostic> := [];
    assert Present(none) == e;
    match node
    case IdSelector(_, _) =>
      var id := CheckIfUsesIdSelector(node);
      assert Present(id) + e == Present(id);
      PresentPair(id, none, node.line);
    case ClassSelector(_, _) =>
      PresentPair(CheckIfNestedMoreThanOnce(node), CheckIfStartsWithComponentName(fileName, node), node.line);
    case TypeSelector(_, _) =>
      var ty := CheckIfUsesTypeSelector(visit);
      assert Present(ty) + e == Present(ty);
      PresentPair(ty, none, node.line);
    case Atrule(_, _, _) =>
      var anim := CheckIfAnimationStartsWithComponentName(fileName, node).value;
      assert Present(anim) + e == Present(anim);
      PresentPair(anim, none, node.line);
    case Combinator(_, _) =>
    case Other(_) =>
  }

  /** An id selector visit yields exactly one finding, the id finding. */
  lemma IdSelectorVisitYieldsOneError(fileName: string, visit: Visit)
    requires visit.node.IdSelector?
    ensures VisitErrors(fileName, visit)
              == Success([Diagnostic(IdSelectorUsed, visit.node.line, visit.node.name)])
  {
    VisitErrorsByNodeType(fileName, visit);
  }

  /** The function handed to the walk. */
  function Callback(fileName: string): (callback: Visit -> Result<seq<Diagnostic>, Fault>) {
    visit => VisitErrors(fileName, visit)
  }

  /** `findLintErrors` over the visits of one stylesheet. A fault aborts the
      whole walk, so the findings gathered before it are lost. */
  function FindLintErrors(fileName: string, visits: seq<Visit>): (r: Result<seq<Diagnostic>, Fault>)
    ensures r.Failure? <==> exists i :: 0 <= i < |visits| && Faults(visits[i])
    ensures r.Success? ==> |r.value| <= 2 * |visits|
  {
    forall i | 0 <= i < |visits| && !Faults(visits[i])
      ensures |Callback(fileName)(visits[i]).value| <= 2
    {
      VisitErrorsProperties(fileName, visits[i]);
    }
    CollectBound(Callback(fileName), visits, 2);
    Collect(Callback(fileName), visits)
  }

  /** Findings are ordered by visit: the walk over `a + b` reports those of
      `a` first, then those of `b`. */
  lemma FindLintErrorsAppend(fileName: string, a: seq<Visit>, b: seq<Visit>)
    ensures FindLintErrors(fileName, a + b) == AndThen(FindLintErrors(fileName, a), FindLintErrors(fileName, b))
  {
    CollectAppend(Callback(fileName), a, b);
  }

  /** A walk over one visit reports exactly that visit's findings. */
  lemma FindLintErrorsSingle(fileName: string, visit: Visit)
    ensures FindLintErrors(fileName, [visit]) == VisitErrors(fileName, visit)
  {
    CollectSingle(Callback(fileName), visit);
  }

  /** The fault reported is that of the first faulting visit. */
  lemma FaultIsFirstFaultingVisit(fileName: string, visits: seq<Visit>)
    requires FindLintErrors(fileName, visits).Failure?
    ensures exists k ::
              && 0 <= k < |visits| && Faults(visits[k])
              && FindLintErrors(fileName, visits).error == AnimationNameUnreadable(visits[k].node.line)
              && forall i :: 0 <= i < k ==> !Faults(visits[i])
  {
    CollectFirstFailure(Callback(fileName), visits);
  }

  /** No finding at all exactly when no rule fires on any visit (for a walk
      that does not fault). */
  lemma NoErrorsIffNoRuleFires(fileName: string, visits: seq<Visit>)
    requires FindLintErrors(fileName, visits).Success?
    ensures (FindLintErrors(fileName, visits).value == [])
              <==> (forall i :: 0 <= i < |visits| ==> !AnyRuleFires(fileName, visits[i]))
  {
    CollectEmptyIff(Callback(fileName), visits);
    forall i | 0 <= i < |visits|
      ensures Callback(fileName)(visits[i]) == Success([]) <==> !AnyRuleFires(fileName, visits[i])
    {
      VisitErrorsProperties(fileName, visits[i]);
    }
  }

  /** Number of findings of one kind. */
  function CountKind(ds: seq<Diagnostic>, kind: Kind): (n: nat) {
    if |ds| == 0 then 0 else (if ds[0].kind == kind then 1 else 0) + CountKind(ds[1..], kind)
  }

  lemma {:induction false} CountKindAppend(a: seq<Diagnostic>, b: seq<Diagnostic>, kind: Kind)
    ensures CountKind(a + b, kind) == CountKind(a, kind) + CountKind(b, kind)
    decreases |a|
  {
    if |a| == 0 {
      assert a + b == b;
    } else {
      assert (a + b)[1..] == a[1..] + b;
      CountKindAppend(a[1..], b, kind);
    }
  }

  lemma {:induction false} CountKindAbsent(ds: seq<Diagnostic>, kind: Kind)
    requires forall i :: 0 <= i < |ds| ==> ds[i].kind != kind
    ensures CountKind(ds, kind) == 0
    decreases |ds|
  {
    if |ds| > 0 {
      assert forall i :: 0 <= i < |ds| - 1 ==> ds[1..][i] == ds[i + 1];
      CountKindAbsent(ds[1..], kind);
    }
  }

  // Sequence steps, stated generically: proved next to long string literals
  // or a walk's findings, the same equalities are costly.

  lemma FirstAndRest<T>(s: seq<T>)
    requires |s| > 0
    ensures s == [s[0]] + s[1..]
  {
  }

  lemma AppendAssociates<T>(a: seq<T>, b: seq<T>, c: seq<T>)
    ensures a + (b + c) == a + b + c
  {
  }

  lemma OneThenOne<T>(a: T, b: T)
    ensures [a] + [b] == [a, b]
  {
  }

  lemma OneThenTwo<T>(a: T, b: T, c: T)
    ensures [a] + [b, c] == [a, b, c]
  {
  }

  lemma TwoInOrder<T>(a: T, b: T)
    ensures [] + [a] + [b] == [a, b]
  {
  }

  lemma FourInOrder<T>(a: T, b: T, c: T, d: T)
    ensures [a] + [b] + [c, d] == [a, b, c, d]
  {
  }

  /** Number of visits of id selectors. */
  function CountIdSelectors(visits: seq<Visit>): (n: nat) {
    if |visits| == 0 then 0
    else (if visits[0].node.IdSelector? then 1 else 0) + CountIdSelectors(visits[1..])
  }

  lemma VisitIdFindings(fileName: string, visit: Visit)
    requires !Faults(visit)
    ensures CountKind(VisitErrors(fileName, visit).value, IdSelectorUsed)
              == if visit.node.IdSelector? then 1 else 0
  {
    var es := VisitErrors(fileName, visit).value;
    VisitErrorsByNodeType(fileName, visit);
    if visit.node.IdSelector? {
      assert |es| == 1 && es[0].kind == IdSelectorUsed;
      assert es[1..] == [];
    } else {
      assert forall i :: 0 <= i < |es| ==> es[i].kind != IdSelectorUsed;
      CountKindAbsent(es, IdSelectorUsed);
    }
  }

  /** One step of the walk: the first visit's id-selector findings, then
      those of the rest. */
  lemma FirstVisitIdFindings(fileName: string, visits: seq<Visit>)
    requires |visits| > 0
    requires FindLintErrors(fileName, visits).Success?
    ensures FindLintErrors(fileName, visits[1..]).Success?
    ensures CountKind(FindLintErrors(fileName, visits).value, IdSelectorUsed)
              == (if visits[0].node.IdSelector? then 1 else 0)
                 + CountKind(FindLintErrors(fileName, visits[1..]).value, IdSelectorUsed)
  {
    FirstAndRest(visits);
    FindLintErrorsAppend(fileName, [visits[0]], visits[1..]);
    FindLintErrorsSingle(fileName, visits[0]);
    VisitIdFindings(fileName, visits[0]);
    CountKindAppend(VisitErrors(fileName, visits[0]).value,
                    FindLintErrors(fileName, visits[1..]).value, IdSelectorUsed);
  }

  /** Every id selector of a stylesheet is reported exactly once, and no
      other finding is an id-selector finding. */
  lemma {:induction false} EachIdSelectorReportedOnce(fileName: string, visits: seq<Visit>)
    requires FindLintErrors(fileName, visits).Success?
    ensures CountKind(FindLintErrors(fileName, visits).value, IdSelectorUsed) == CountIdSelectors(visits)
    decreases |visits|
  {
    if |visits| > 0 {
      FirstVisitIdFindings(fileName, visits);
      EachIdSelectorReportedOnce(fileName, visits[1..]);
    }
  }

  /** A visit of a structural node (the style sheet, a rule, a selector list,
      a selector, a block, a declaration, ...) or of a combinator adds no
      finding and cannot fault: inserting it anywhere leaves the result of
      the walk unchanged. */
  lemma StructuralVisitAddsNothing(fileName: string, before: seq<Visit>, visit: Visit, after: seq<Visit>)
    requires visit.node.Other? || visit.node.Combinator?
    ensures FindLintErrors(fileName, before + [visit] + after) == FindLintErrors(fileName, before + after)
  {
    VisitErrorsByNodeType(fileName, visit);
    FindLintErrorsSingle(fileName, visit);
    FindLintErrorsAppend(fileName, before + [visit], after);
    FindLintErrorsAppend(fileName, before, [visit]);
    FindLintErrorsAppend(fileName, before, after);
    var b := FindLintErrors(fileName, before);
    if b.Success? {
      assert b.value + [] == b.value;
    }
  }

  // ---------------------------------------------------------------------
  // A stylesheet `SearchField.css`

  /** Visits of the three selectors of a sheet holding the rules `.B {}`,
      `#foo {}` and `.N {}`, one rule per line. The walk also visits the
      style sheet, the rules, selector lists, selectors and blocks; by
      `StructuralVisitAddsNothing` leaving those out does not change the
      result. */
  function ThreeRuleSheet(block: string, nested: string): (visits: seq<Visit>) {
    [ Visit(ClassSelector(block, 1), None, None),
      Visit(IdSelector("foo", 2), None, None),
      Visit(ClassSelector(nested, 3), None, None) ]
  }

  /** Walks `ThreeRuleSheet` given what its two class selectors yield. */
  lemma ThreeRuleSheetErrors(fileName: string, block: string, nested: string, first: seq<Diagnostic>, last: seq<Diagnostic>)
    requires VisitErrors(fileName, Visit(ClassSelector(block, 1), None, None)) == Success(first)
    requires VisitErrors(fileName, Visit(ClassSelector(nested, 3), None, None)) == Success(last)
    ensures FindLintErrors(fileName, ThreeRuleSheet(block, nested))
              == Success(first + [Diagnostic(IdSelectorUsed, 2, "foo")] + last)
  {
    var v1 := Visit(ClassSelector(block, 1), None, None);
    var v2 := Visit(IdSelector("foo", 2), None, None);
    var v3 := Visit(ClassSelector(nested, 3), None, None);
    var id := [Diagnostic(IdSelectorUsed, 2, "foo")];
    assert FindLintErrors(fileName, [v2, v3]) == Success(id + last) by {
      IdSelectorVisitYieldsOneError(fileName, v2);
      FindLintErrorsSingle(fileName, v2);
      FindLintErrorsSingle(fileName, v3);
      FindLintErrorsAppend(fileName, [v2], [v3]);
      OneThenOne(v2, v3);
    }
    assert FindLintErrors(fileName, [v1, v2, v3]) == Success(first + (id + last)) by {
      FindLintErrorsSingle(fileName, v1);
      FindLintErrorsAppend(fileName, [v1], [v2, v3]);
      OneThenTwo(v1, v2, v3);
    }
    AppendAssociates(first, id, last);
  }

  /** The findings of a class selector visit, from its two rule results. */
  lemma ClassVisitErrors(fileName: string, visit: Visit, nest: Option<Diagnostic>, naming: Option<Diagnostic>)
    requires visit.node.ClassSelector?
    requires CheckIfNestedMoreThanOnce(visit.node) == nest
    requires CheckIfStartsWithComponentName(fileName, visit.node) == naming
    ensures VisitErrors(fileName, visit) == Success(Present(nest) + Present(naming))
  {
    VisitErrorsByNodeType(fileName, visit);
  }

  lemma SearchFieldBlockRules(fileName: string, node: Node)
    requires ToComponentName(fileName) == "search_field"
    requires node == ClassSelector("search_field", 1)
    ensures CheckIfNestedMoreThanOnce(node) == None
    ensures CheckIfStartsWithComponentName(fileName, node) == None
  {
    SingleWordNamesNotNested();
  }

  lemma SearchFieldBlockVisit(fileName: string)
    requires ToComponentName(fileName) == "search_field"
    ensures VisitErrors(fileName, Visit(ClassSelector("search_field", 1), None, None)) == Success([])
  {
    var v := Visit(ClassSelector("search_field", 1), None, None);
    var e: seq<Diagnostic> := [];
    SearchFieldBlockRules(fileName, v.node);
    ClassVisitErrors(fileName, v, None, None);
    assert Present<Diagnostic>(None) == e;
    assert e + e == e;
  }

  lemma SearchFieldDoubleElementNaming(fileName: string, node: Node)
    requires ToComponentName(fileName) == "search_field"
    requires node == ClassSelector("search_field__a__b", 3)
    ensures CheckIfStartsWithComponentName(fileName, node) == None
  {
    assert StartsWith("search_field__a__b", "search_field" + "__");
  }

  lemma SearchFieldDoubleElementRules(fileName: string, node: Node)
    requires ToComponentName(fileName) == "search_field"
    requires node == ClassSelector("search_field__a__b", 3)
    ensures CheckIfNestedMoreThanOnce(node) == Some(Diagnostic(NestedMoreThanOnce, 3, "search_field__a__b"))
    ensures CheckIfStartsWithComponentName(fileName, node) == None
  {
    DoublyNestedNames();
    SearchFieldDoubleElementNaming(fileName, node);
  }

  lemma SearchFieldDoubleElementVisit(fileName: string)
    requires ToComponentName(fileName) == "search_field"
    ensures VisitErrors(fileName, Visit(ClassSelector("search_field__a__b", 3), None, None))
              == Success([Diagnostic(NestedMoreThanOnce, 3, "search_field__a__b")])
  {
    var v := Visit(ClassSelector("search_field__a__b", 3), None, None);
    var d := Diagnostic(NestedMoreThanOnce, 3, "search_field__a__b");
    var e: seq<Diagnostic> := [];
    SearchFieldDoubleElementRules(fileName, v.node);
    ClassVisitErrors(fileName, v, Some(d), None);
    assert Present<Diagnostic>(None) == e;
    assert [d] + e == [d];
  }

  /** For a file whose component name is `search_field` (such as
      `SearchField`), only the id and the double nesting are reported. */
  lemma SearchFieldScenario(fileName: string)
    requires ToComponentName(fileName) == "search_field"
    ensures FindLintErrors(fileName, ThreeRuleSheet("search_field", "search_field__a__b"))
              == Success([Diagnostic(IdSelectorUsed, 2, "foo"),
                          Diagnostic(NestedMoreThanOnce, 3, "search_field__a__b")])
  {
    var e: seq<Diagnostic> := [];
    var id := Diagnostic(IdSelectorUsed, 2, "foo");
    var d := Diagnostic(NestedMoreThanOnce, 3, "search_field__a__b");
    var sheet := ThreeRuleSheet("search_field", "search_field__a__b");
    assert FindLintErrors(fileName, sheet) == Success(e + [id] + [d]) by {
      SearchFieldBlockVisit(fileName);
      SearchFieldDoubleElementVisit(fileName);
      ThreeRuleSheetErrors(fileName, "search_field", "search_field__a__b", e, [d]);
    }
    TwoInOrder(id, d);
  }

  lemma DashedBlockRules(fileName: string, node: Node)
    requires ToComponentName(fileName) == "search_field"
    requires node == ClassSelector("search-field", 1)
    ensures CheckIfNestedMoreThanOnce(node) == None
    ensures CheckIfStartsWithComponentName(fileName, node)
              == Some(Diagnostic(ClassNotComponentName, 1, "search-field"))
  {
    SingleWordNamesNotNested();
    assert "search-field"[6] != "search_field"[6];
  }

  lemma DashedBlockVisit(fileName: string)
    requires ToComponentName(fileName) == "search_field"
    ensures VisitErrors(fileName, Visit(ClassSelector("search-field", 1), None, None))
              == Success([Diagnostic(ClassNotComponentName, 1, "search-field")])
  {
    var v := Visit(ClassSelector("search-field", 1), None, None);
    var d := Diagnostic(ClassNotComponentName, 1, "search-field");
    var e: seq<Diagnostic> := [];
    DashedBlockRules(fileName, v.node);
    ClassVisitErrors(fileName, v, None, Some(d));
    assert Present<Diagnostic>(None) == e;
    assert e + [d] == [d];
  }

  lemma DashedDoubleElementNaming(fileName: string, node: Node)
    requires ToComponentName(fileName) == "search_field"
    requires node == ClassSelector("search-field__a__b", 3)
    ensures CheckIfStartsWithComponentName(fileName, node)
              == Some(Diagnostic(ClassNotComponentName, 3, "search-field__a__b"))
  {
    var dn := "search-field__a__b";
    assert dn[6] != ("search_field" + "--")[6] && dn[6] != ("search_field" + "__")[6];
  }

  lemma DashedDoubleElementRules(fileName: string, node: Node)
    requires ToComponentName(fileName) == "search_field"
    requires node == ClassSelector("search-field__a__b", 3)
    ensures CheckIfNestedMoreThanOnce(node) == Some(Diagnostic(NestedMoreThanOnce, 3, "search-field__a__b"))
    ensures CheckIfStartsWithComponentName(fileName, node)
              == Some(Diagnostic(ClassNotComponentName, 3, "search-field__a__b"))
  {
    DoublyNestedNames();
    DashedDoubleElementNaming(fileName, node);
  }

  lemma DashedDoubleElementVisit(fileName: string)
    requires ToComponentName(fileName) == "search_field"
    ensures VisitErrors(fileName, Visit(ClassSelector("search-field__a__b", 3), None, None))
              == Success([Diagnostic(NestedMoreThanOnce, 3, "search-field__a__b"),
                          Diagnostic(ClassNotComponentName, 3, "search-field__a__b")])
  {
    var v := Visit(ClassSelector("search-field__a__b", 3), None, None);
    var d1 := Diagnostic(NestedMoreThanOnce, 3, "search-field__a__b");
    var d2 := Diagnostic(ClassNotComponentName, 3, "search-field__a__b");
    DashedDoubleElementRules(fileName, v.node);
    ClassVisitErrors(fileName, v, Some(d1), Some(d2));
    assert [d1] + [d2] == [d1, d2];
  }

  /** With the dashed spelling of the documentation, every class is also
      reported by the naming rule, because the component name uses `_`. */
  lemma DashedSearchFieldScenario(fileName: string)
    requires ToComponentName(fileName) == "search_field"
    ensures FindLintErrors(fileName, ThreeRuleSheet("search-field", "search-field__a__b"))
              == Success([Diagnostic(ClassNotComponentName, 1, "search-field"),
                          Diagnostic(IdSelectorUsed, 2, "foo"),
                          Diagnostic(NestedMoreThanOnce, 3, "search-field__a__b"),
                          Diagnostic(ClassNotComponentName, 3, "search-field__a__b")])
  {
    var d0 := Diagnostic(ClassNotComponentName, 1, "search-field");
    var id := Diagnostic(IdSelectorUsed, 2, "foo");
    var d1 := Diagnostic(NestedMoreThanOnce, 3, "search-field__a__b");
    var d2 := Diagnostic(ClassNotComponentName, 3, "search-field__a__b");
    var sheet := ThreeRuleSheet("search-field", "search-field__a__b");
    assert FindLintErrors(fileName, sheet) == Success([d0] + [id] + [d1, d2]) by {
      DashedBlockVisit(fileName);
      DashedDoubleElementVisit(fileName);
      ThreeRuleSheetErrors(fileName, "search-field", "search-field__a__b", [d0], [d1, d2]);
    }
    FourInOrder(d0, id, d1, d2);
  }
}
