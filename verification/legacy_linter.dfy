/** The older linter, `lintFile`: three rules (id selectors, double nesting,
    class names starting with the file name) run on every node of the walk,
    and every result but the sentinel is kept in visit order. Its callback
    reads only the node, so a walk is represented by its node sequence. */
module LegacyLinter {
  import opened Wrappers
  import opened Ascii
  import opened ComponentName
  import opened Syntax
  import opened Rules
  import opened Walk
  import Linter

  /** `camelCaseToDashes(fileName)`: split before capitals, join with `_`,
      lower-case. Despite the name it inserts underscores, exactly like the
      newer `toComponentName`. */
  function CamelCaseToDashes(fileName: string): (r: string)
    ensures NoUpper(r)
    ensures r == LowerCase(SeparateWords(fileName))
    ensures |r| == |fileName| + UppersAfterFirst(fileName)
  {
    SplitJoinIsSeparateWords(fileName);
    SeparateWordsLength(fileName);
    LowerCase(Join(SplitBeforeUpper(fileName), '_'))
  }

  /** The two name conversions agree on every file name. */
  lemma CamelCaseToDashesIsComponentName(fileName: string)
    ensures CamelCaseToDashes(fileName) == ToComponentName(fileName)
  {
    ComponentNameShape(fileName);
  }

  /** Id selectors are not allowed. */
  function CheckIfUsesIdSelector(node: Node): (r: Option<Diagnostic>)
    ensures r.Some? <==> node.IdSelector?
    ensures r.Some? ==> r.value == Diagnostic(IdSelectorUsed, node.line, node.name)
  {
    if node.IdSelector? then Some(Diagnostic(IdSelectorUsed, node.line, node.name)) else None
  }

  /** The inner `hasDoubleNesting`: more than one match of `/__/g` in the
      name, where no match (`null`) counts as false. */
  predicate HasDoubleNesting(name: string) {
    CountDoubleLowDash(name) > 1
  }

  /** A class name may hold `__` at most once. The name is only read for
      class selectors. */
  function CheckIfHasDoubleNesting(node: Node): (r: Option<Diagnostic>)
    ensures r.Some? <==> node.ClassSelector? && HasTwoDoubleLowDashes(node.name)
    ensures r.Some? ==> r.value == Diagnostic(NestedMoreThanOnce, node.line, node.name)
  {
    match node
    case ClassSelector(name, line) =>
      CountFromAtLeastTwo(name, 0);
      if HasDoubleNesting(name) then Some(Diagnostic(NestedMoreThanOnce, line, name)) else None
    case _ => None
  }

  /** Class names start with the converted file name; any continuation is
      accepted. */
  function CheckIfStartsWithFileName(fileName: string, node: Node): (r: Option<Diagnostic>)
    ensures r.Some? <==> node.ClassSelector? && !StartsWith(node.name, ToComponentName(fileName))
    ensures r.Some? ==> r.value == Diagnostic(ClassNotFileName, node.line, node.name)
  {
    CamelCaseToDashesIsComponentName(fileName);
    if node.ClassSelector? && !StartsWith(node.name, CamelCaseToDashes(fileName)) then
      Some(Diagnostic(ClassNotFileName, node.line, node.name))
    else
      None
  }

  // ---------------------------------------------------------------------
  // Agreement with the newer rules

  /** The id rules of both linters report the same finding. */
  lemma IdRulesAgree(node: Node)
    ensures CheckIfUsesIdSelector(node) == Rules.CheckIfUsesIdSelector(node)
  {
  }

  /** The nesting rules of both linters report the same finding. */
  lemma NestingRulesAgree(node: Node)
    ensures CheckIfHasDoubleNesting(node) == Rules.CheckIfNestedMoreThanOnce(node)
  {
  }

  /** Whenever the older naming rule fires, the newer one fires on the same
      class of the same file. */
  lemma LegacyNamingImpliesNaming(fileName: string, node: Node)
    requires CheckIfStartsWithFileName(fileName, node).Some?
    ensures CheckIfStartsWithComponentName(fileName, node).Some?
  {
    var c := ToComponentName(fileName);
    if StartsWith(node.name, c + "--") {
      StartsWithLonger(node.name, c, "--");
    }
    if StartsWith(node.name, c + "__") {
      StartsWithLonger(node.name, c, "__");
    }
    assert StartsWith(c, c) by { assert c[..|c|] == c; }
  }

  /** The converse fails: a class that merely starts with the component name,
      such as `search_fieldx` in `SearchField.css`, passes the older rule but
      not the newer one. */
  lemma LegacyNamingAcceptsMore(fileName: string, line: nat)
    requires ToComponentName(fileName) == "search_field"
    ensures CheckIfStartsWithFileName(fileName, ClassSelector("search_fieldx", line)).None?
    ensures CheckIfStartsWithComponentName(fileName, ClassSelector("search_fieldx", line)).Some?
  {
    var c := ToComponentName(fileName);
    var name := "search_fieldx";
    assert name[..|c|] == c;
    assert !StartsWith(name, c + "--") by { assert name[12] == 'x'; }
    assert !StartsWith(name, c + "__") by { assert name[12] == 'x'; }
  }

  // ---------------------------------------------------------------------
  // The collector

  /** The messages one callback invocation adds, in rule order: id, nesting,
      naming. */
  function NodeErrors(fileName: string, node: Node): (es: seq<Diagnostic>) {
    Present(CheckIfUsesIdSelector(node))
    + Present(CheckIfHasDoubleNesting(node))
    + Present(CheckIfStartsWithFileName(fileName, node))
  }

  /** Position of a rule in the fixed evaluation order of `lintFile`: id,
      nesting, naming. The kinds only the newer linter reports come last so
      that the match is total. */
  function RuleRank(kind: Kind): (rank: nat) {
    match kind
    case IdSelectorUsed => 0
    case NestedMoreThanOnce => 1
    case ClassNotFileName => 2
    case _ => 3
  }

  /** Some of the three rules reports a finding for the node. */
  predicate AnyRuleFires(fileName: string, node: Node) {
    || CheckIfUsesIdSelector(node).Some?
    || CheckIfHasDoubleNesting(node).Some?
    || CheckIfStartsWithFileName(fileName, node).Some?
  }

  /** The messages of a class selector: nesting, then naming. */
  lemma ClassNodeErrors(fileName: string, node: Node)
    requires node.ClassSelector?
    ensures NodeErrors(fileName, node)
              == Present(CheckIfHasDoubleNesting(node)) + Present(CheckIfStartsWithFileName(fileName, node))
    ensures (AnyRuleFires(fileName, node))
              <==> (CheckIfHasDoubleNesting(node).Some? || CheckIfStartsWithFileName(fileName, node).Some?)
  {
    var e: seq<Diagnostic> := [];
    assert Present(CheckIfUsesIdSelector(node)) == e;
  }

  /** The messages of any other node: at most the id finding. */
  lemma OtherNodeErrors(fileName: string, node: Node)
    requires !node.ClassSelector?
    ensures NodeErrors(fileName, node) == Present(CheckIfUsesIdSelector(node)) + Present<Diagnostic>(None)
    ensures AnyRuleFires(fileName, node) <==> CheckIfUsesIdSelector(node).Some?
  {
    var e: seq<Diagnostic> := [];
    assert Present(CheckIfHasDoubleNesting(node)) == e;
    assert Present(CheckIfStartsWithFileName(fileName, node)) == e;
    assert Present<Diagnostic>(None) == e;
  }

  /** Each node yields at most two messages, two only for a class selector;
      none exactly when no rule fires; all on the node's line, in rule order. */
  lemma NodeErrorsProperties(fileName: string, node: Node)
    ensures var es := NodeErrors(fileName, node);
            && |es| <= 2
            && (|es| == 2 ==> node.ClassSelector?)
            && (es == [] <==> !AnyRuleFires(fileName, node))
            && (forall i :: 0 <= i < |es| ==> es[i].line == node.line)
            && (forall i, j :: 0 <= i < j < |es| ==> RuleRank(es[i].kind) < RuleRank(es[j].kind))
  {
    if node.ClassSelector? {
      ClassNodeErrorsProperties(fileName, node);
    } else {
      OtherNodeErrorsProperties(fileName, node);
    }
  }

  /** A nesting result followed by a naming result, both on one line: at
      most two messages, none exactly when neither fires, in rule order. */
  lemma MessagesInRuleOrder(a: Option<Diagnostic>, b: Option<Diagnostic>, line: nat)
    requires a.Some? ==> a.value.line == line && a.value.kind == NestedMoreThanOnce
    requires b.Some? ==> b.value.line == line && b.value.kind == ClassNotFileName
    ensures var es := Present(a) + Present(b);
            && |es| <= 2
            && (es == [] <==> a.None? && b.None?)
            && (forall i :: 0 <= i < |es| ==> es[i].line == line)
            && (forall i, j :: 0 <= i < j < |es| ==> RuleRank(es[i].kind) < RuleRank(es[j].kind))
  {
    Linter.PresentPair(a, b, line);
  }

  /** `NodeErrorsProperties` for a class selector: nesting, then naming. */
  lemma ClassNodeErrorsProperties(fileName: string, node: Node)
    requires node.ClassSelector?
    ensures var es := NodeErrors(fileName, node);
            && |es| <= 2
            && (es == [] <==> !AnyRuleFires(fileName, node))
            && (forall i :: 0 <= i < |es| ==> es[i].line == node.line)
            && (forall i, j :: 0 <= i < j < |es| ==> RuleRank(es[i].kind) < RuleRank(es[j].kind))
  {
    var a := CheckIfHasDoubleNesting(node);
    var b := CheckIfStartsWithFileName(fileName, node);
    ClassNodeErrors(fileName, node);
    MessagesInRuleOrder(a, b, node.line);
  }

  /** `NodeErrorsProperties` for any other node: at most the id message. */
  lemma OtherNodeErrorsProperties(fileName: string, node: Node)
    requires !node.ClassSelector?
    ensures var es := NodeErrors(fileName, node);
            && |es| <= 1
            && (es == [] <==> !AnyRuleFires(fileName, node))
            && (forall i :: 0 <= i < |es| ==> es[i].line == node.line)
  {
    var es := NodeErrors(fileName, node);
    var a := CheckIfUsesIdSelector(node);
    var none: Option<Diagnostic> := None;
    assert es == Present(a) + Present(none) && (AnyRuleFires(fileName, node) <==> a.Some?) by {
      OtherNodeErrors(fileName, node);
    }
    assert a.Some? ==> a.value.line == node.line;
    Linter.PresentPair(a, none, node.line);
  }

  /** The function handed to the walk; it never throws. */
  function Callback(fileName: string): (callback: Node -> Result<seq<Diagnostic>, Fault>) {
    node => Success(NodeErrors(fileName, node))
  }

  /** `lintFile` over the nodes of one stylesheet, before printing: the
      messages of all nodes in visit order. */
  function LintFile(fileName: string, nodes: seq<Node>): (r: seq<Diagnostic>)
    ensures |r| <= 2 * |nodes|
  {
    var cb := Callback(fileName);
    forall i | 0 <= i < |nodes|
      ensures |cb(nodes[i]).value| <= 2
    {
      NodeErrorsProperties(fileName, nodes[i]);
    }
    CollectBound(cb, nodes, 2);
    Collect(cb, nodes).value
  }

  /** Messages follow visit order: the walk over `a + b` reports those of `a`
      first, then those of `b`. */
  lemma LintFileAppend(fileName: string, a: seq<Node>, b: seq<Node>)
    ensures LintFile(fileName, a + b) == LintFile(fileName, a) + LintFile(fileName, b)
  {
    CollectAppend(Callback(fileName), a, b);
  }

  /** A walk over one node reports exactly that node's messages. */
  lemma LintFileSingle(fileName: string, node: Node)
    ensures LintFile(fileName, [node]) == NodeErrors(fileName, node)
  {
    CollectSingle(Callback(fileName), node);
  }

  /** No message at all exactly when no rule fires on any node. */
  lemma NoMessagesIffNoRuleFires(fileName: string, nodes: seq<Node>)
    ensures (LintFile(fileName, nodes) == [])
              <==> (forall i :: 0 <= i < |nodes| ==> !AnyRuleFires(fileName, nodes[i]))
  {
    CollectEmptyIff(Callback(fileName), nodes);
    forall i | 0 <= i < |nodes|
      ensures Callback(fileName)(nodes[i]) == Success([]) <==> !AnyRuleFires(fileName, nodes[i])
    {
      NodeErrorsProperties(fileName, nodes[i]);
    }
  }

  // ---------------------------------------------------------------------
  // The newer linter is at least as strict

  /** Per visit, the newer callback reports at least as many findings. */
  lemma VisitAtLeastAsStrict(fileName: string, visit: Visit)
    requires !Linter.Faults(visit)
    ensures |NodeErrors(fileName, visit.node)| <= |Linter.VisitErrors(fileName, visit).value|
  {
    var node := visit.node;
    Linter.VisitErrorsByNodeType(fileName, visit);
    NodeErrorsProperties(fileName, node);
    IdRulesAgree(node);
    NestingRulesAgree(node);
    if CheckIfStartsWithFileName(fileName, node).Some? {
      LegacyNamingImpliesNaming(fileName, node);
    }
  }

  /** The nodes of a visit sequence split like the sequence. */
  lemma NodesCons(visit: Visit, rest: seq<Visit>)
    ensures Nodes([visit] + rest) == [visit.node] + Nodes(rest)
  {
  }

  /** The older walk over a first node and the rest: that node's messages,
      then those of the rest. */
  lemma LintFileConsLength(fileName: string, visit: Visit, rest: seq<Visit>)
    ensures |LintFile(fileName, Nodes([visit] + rest))|
              == |NodeErrors(fileName, visit.node)| + |LintFile(fileName, Nodes(rest))|
  {
    NodesCons(visit, rest);
    LintFileAppend(fileName, [visit.node], Nodes(rest));
    LintFileSingle(fileName, visit.node);
  }

  /** The newer walk over a first visit and the rest, when it completes: the
      first visit does not fault, and its findings precede those of the rest. */
  lemma FindLintErrorsConsLength(fileName: string, visit: Visit, rest: seq<Visit>)
    requires Linter.FindLintErrors(fileName, [visit] + rest).Success?
    ensures !Linter.Faults(visit) && Linter.FindLintErrors(fileName, rest).Success?
    ensures |Linter.FindLintErrors(fileName, [visit] + rest).value|
              == |Linter.VisitErrors(fileName, visit).value| + |Linter.FindLintErrors(fileName, rest).value|
  {
    Linter.FindLintErrorsAppend(fileName, [visit], rest);
    Linter.FindLintErrorsSingle(fileName, visit);
  }

  /** One step of the walk: the newer linter's first visit reports at least
      as many findings as the older linter's first node. */
  lemma FirstVisitAtLeastAsStrict(fileName: string, visits: seq<Visit>)
    requires |visits| > 0
    requires Linter.FindLintErrors(fileName, visits).Success?
    ensures Linter.FindLintErrors(fileName, visits[1..]).Success?
    ensures |LintFile(fileName, Nodes(visits))| - |LintFile(fileName, Nodes(visits[1..]))|
              <= |Linter.FindLintErrors(fileName, visits).value| - |Linter.FindLintErrors(fileName, visits[1..]).value|
  {
    var v := visits[0];
    var rest := visits[1..];
    Linter.FirstAndRest(visits);
    FindLintErrorsConsLength(fileName, v, rest);
    LintFileConsLength(fileName, v, rest);
    VisitAtLeastAsStrict(fileName, v);
  }

  /** On any stylesheet the newer walk completes on, it reports at least as
      many findings as the older one. */
  lemma {:induction false} CanonicalAtLeastAsStrict(fileName: string, visits: seq<Visit>)
    requires Linter.FindLintErrors(fileName, visits).Success?
    ensures |LintFile(fileName, Nodes(visits))| <= |Linter.FindLintErrors(fileName, visits).value|
    decreases |visits|
  {
    if |visits| > 0 {
      FirstVisitAtLeastAsStrict(fileName, visits);
      CanonicalAtLeastAsStrict(fileName, visits[1..]);
    }
  }
}
