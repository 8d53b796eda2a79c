/** The five rules of the canonical linter. Each inspects one visited node
    and yields a finding or nothing. */
module Rules {
  import opened Wrappers
  import opened Ascii
  import opened ComponentName
  import opened Syntax

  /** Id selectors are not allowed. */
  function CheckIfUsesIdSelector(node: Node): (r: Option<Diagnostic>)
    ensures r.Some? <==> node.IdSelector?
    ensures r.Some? ==> r.value == Diagnostic(IdSelectorUsed, node.line, node.name)
  {
    match node
    case IdSelector(name, line) => Some(Diagnostic(IdSelectorUsed, line, name))
    case _ => None
  }

  /** A class name may hold the element separator `__` at most once. */
  function CheckIfNestedMoreThanOnce(node: Node): (r: Option<Diagnostic>)
    ensures r.Some? <==> node.ClassSelector? && HasTwoDoubleLowDashes(node.name)
    ensures r.Some? ==> r.value == Diagnostic(NestedMoreThanOnce, node.line, node.name)
  {
    if node.ClassSelector? && ContainsDoubleLowDashMoreThanOnce(node.name) then
      Some(Diagnostic(NestedMoreThanOnce, node.line, node.name))
    else
      None
  }

  /** A class name the naming rule accepts for `component`: the block itself,
      a modifier `component--…` or an element `component__…`. */
  predicate IsComponentClassName(name: string, component: string) {
    name == component || StartsWith(name, component + "--") || StartsWith(name, component + "__")
  }

  /** Class names start with the component name of the file. */
  function CheckIfStartsWithComponentName(fileName: string, node: Node): (r: Option<Diagnostic>)
    ensures r.Some? <==> node.ClassSelector? && !IsComponentClassName(node.name, ToComponentName(fileName))
    ensures r.Some? ==> r.value == Diagnostic(ClassNotComponentName, node.line, node.name)
  {
    var componentName := ToComponentName(fileName);
    if node.ClassSelector? && !IsComponentClassName(node.name, componentName) then
      Some(Diagnostic(ClassNotComponentName, node.line, node.name))
    else
      None
  }

  predicate IsKeyframes(node: Node) {
    node.Atrule? && node.name == "keyframes"
  }

  /** Animation names start with `componentName__`. Reading the name of a
      keyframes rule whose prelude has no named first child faults. */
  function CheckIfAnimationStartsWithComponentName(fileName: string, node: Node)
    : (r: Result<Option<Diagnostic>, Fault>)
    ensures r.Failure? <==> IsKeyframes(node) && node.preludeFirstName.None?
    ensures r.Failure? ==> r.error == AnimationNameUnreadable(node.line)
    ensures r.Success? && r.value.Some? <==>
              IsKeyframes(node) && node.preludeFirstName.Some?
              && !StartsWith(node.preludeFirstName.value, ToComponentName(fileName) + "__")
    ensures r.Success? && r.value.Some? ==>
              r.value.value == Diagnostic(AnimationNotComponentName, node.line, node.preludeFirstName.value)
  {
    var componentName := ToComponentName(fileName);
    if IsKeyframes(node) then
      match node.preludeFirstName
      case None => Failure(AnimationNameUnreadable(node.line))
      case Some(animationName) =>
        if !StartsWith(animationName, componentName + "__") then
          Success(Some(Diagnostic(AnimationNotComponentName, node.line, animationName)))
        else
          Success(None)
    else
      Success(None)
  }

  /** The previous item is the child combinator `>`. */
  predicate FollowsChildCombinator(visit: Visit) {
    visit.prev.Some? && visit.prev.value.Combinator? && visit.prev.value.name == ">"
  }

  /** Type selectors are only allowed on the right of a child combinator;
      inside an at-rule they are not checked. */
  function CheckIfUsesTypeSelector(visit: Visit): (r: Option<Diagnostic>)
    ensures r.Some? <==> visit.node.TypeSelector? && visit.atrule.None? && !FollowsChildCombinator(visit)
    ensures r.Some? ==> r.value == Diagnostic(TypeSelectorUsed, visit.node.line, visit.node.name)
  {
    var node := visit.node;
    if node.TypeSelector? && visit.atrule.None?
       && (visit.prev.None? || !(visit.prev.value.Combinator? && visit.prev.value.name == ">"))
    then
      Some(Diagnostic(TypeSelectorUsed, node.line, node.name))
    else
      None
  }

  // ---------------------------------------------------------------------
  // Properties relating the rules

  /** On an id selector only the id rule fires. */
  lemma OnlyIdRuleFiresOnIdSelector(fileName: string, visit: Visit)
    requires visit.node.IdSelector?
    ensures CheckIfUsesIdSelector(visit.node).Some?
    ensures CheckIfNestedMoreThanOnce(visit.node).None?
    ensures CheckIfStartsWithComponentName(fileName, visit.node).None?
    ensures CheckIfAnimationStartsWithComponentName(fileName, visit.node) == Success(None)
    ensures CheckIfUsesTypeSelector(visit).None?
  {
  }

  /** The block, every modifier and every element of the component are
      accepted class names. */
  lemma NamingRuleAcceptsBemNames(fileName: string, suffix: string, line: nat)
    ensures var c := ToComponentName(fileName);
            && CheckIfStartsWithComponentName(fileName, ClassSelector(c, line)).None?
            && CheckIfStartsWithComponentName(fileName, ClassSelector(c + "--" + suffix, line)).None?
            && CheckIfStartsWithComponentName(fileName, ClassSelector(c + "__" + suffix, line)).None?
  {
    var c := ToComponentName(fileName);
    assert (c + "--" + suffix)[..|c + "--"|] == c + "--";
    assert (c + "__" + suffix)[..|c + "__"|] == c + "__";
  }

  /** Conversely, a class name the rule lets through is the block, or the
      block followed by `--` or `__` and some suffix; every other class name
      is rejected. */
  lemma NamingRuleAcceptsOnlyBemNames(fileName: string, name: string, line: nat)
    requires CheckIfStartsWithComponentName(fileName, ClassSelector(name, line)).None?
    ensures var c := ToComponentName(fileName);
            || name == c
            || (&& |c| + 2 <= |name|
                && (name == c + "--" + name[|c| + 2..] || name == c + "__" + name[|c| + 2..]))
  {
    var c := ToComponentName(fileName);
    if name != c {
      var suffix := name[|c| + 2..];
      assert name == name[..|c| + 2] + suffix;
    }
  }

  /** The naming rule never fires outside class selectors. */
  lemma NamingRuleOnlyOnClasses(fileName: string, node: Node)
    requires !node.ClassSelector?
    ensures CheckIfStartsWithComponentName(fileName, node).None?
  {
  }

  /** Unlike a class, an animation named exactly after the component is
      rejected: only `componentName__…` passes. */
  lemma AnimationNamedLikeComponentFires(fileName: string, line: nat)
    ensures var c := ToComponentName(fileName);
            CheckIfAnimationStartsWithComponentName(fileName, Atrule("keyframes", Some(c), line))
              == Success(Some(Diagnostic(AnimationNotComponentName, line, c)))
    ensures var c := ToComponentName(fileName);
            CheckIfStartsWithComponentName(fileName, ClassSelector(c, line)).None?
  {
  }

  /** An element-prefixed animation name never fires. */
  lemma AnimationRuleAcceptsElementNames(fileName: string, suffix: string, line: nat)
    ensures var c := ToComponentName(fileName);
            CheckIfAnimationStartsWithComponentName(fileName, Atrule("keyframes", Some(c + "__" + suffix), line))
              == Success(None)
  {
    var c := ToComponentName(fileName);
    assert (c + "__" + suffix)[..|c + "__"|] == c + "__";
  }

  /** At top level a type selector fires after any item but `>`, including
      other combinators, and when it is the first item. */
  lemma TypeSelectorRuleCases(name: string, line: nat, other: Node)
    requires !(other.Combinator? && other.name == ">")
    ensures CheckIfUsesTypeSelector(Visit(TypeSelector(name, line), None, None)).Some?
    ensures CheckIfUsesTypeSelector(Visit(TypeSelector(name, line), None, Some(other))).Some?
    ensures CheckIfUsesTypeSelector(Visit(TypeSelector(name, line), None, Some(Combinator("+", line)))).Some?
    ensures CheckIfUsesTypeSelector(Visit(TypeSelector(name, line), None, Some(Combinator(">", line)))).None?
    ensures forall a: string, p: Option<Node> ::
              CheckIfUsesTypeSelector(Visit(TypeSelector(name, line), Some(a), p)).None?
  {
  }
}
