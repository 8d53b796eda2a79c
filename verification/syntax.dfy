/** The slice of the parsed stylesheet that the rules look at, and the
    structured findings they produce. */
module Syntax {
  import opened Wrappers

  /** A node of the syntax tree, by the parser's node type. Lines are the
      1-based start lines of the node's location. */
  datatype Node =
    | IdSelector(name: string, line: nat)
    | ClassSelector(name: string, line: nat)
    | TypeSelector(name: string, line: nat)
    | Combinator(name: string, line: nat)
      /** `preludeFirstName` is the `name` of the first child of the prelude;
          `None` when there is no prelude, it is empty, or its first child
          carries no name (a quoted string, for instance). */
    | Atrule(name: string, preludeFirstName: Option<string>, line: nat)
      /** Every other node type: rules, blocks, declarations, lists, ... */
    | Other(line: nat)

  /** One call of the walk callback: the node, the name of the innermost
      enclosing at-rule (`this.atrule`), and the previous item of the list the
      node sits in (`item.prev`). */
  datatype Visit = Visit(node: Node, atrule: Option<string>, prev: Option<Node>)

  /** Which rule a finding comes from. */
  datatype Kind =
    | IdSelectorUsed
    | NestedMoreThanOnce
    | ClassNotComponentName
    | AnimationNotComponentName
    | TypeSelectorUsed
    | ClassNotFileName

  /** A finding in place of the coloured message text: the rule, the line and
      the offending name (id, class, animation or tag name). */
  datatype Diagnostic = Diagnostic(kind: Kind, line: nat, name: string)

  /** The walk aborts when the animation rule reads the name of a keyframes
      prelude that has none. */
  datatype Fault = AnimationNameUnreadable(line: nat)

  /** The nodes of a visit sequence, in visit order. */
  function Nodes(visits: seq<Visit>): (nodes: seq<Node>)
    ensures |nodes| == |visits|
    ensures forall i :: 0 <= i < |visits| ==> nodes[i] == visits[i].node
  {
    seq(|visits|, i requires 0 <= i < |visits| => visits[i].node)
  }
}
