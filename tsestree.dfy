/** The slice of the TypeScript ESTree syntax tree that the rule reads: a
    type parameter declaration list, its type parameters, their names,
    constraints and defaults, each with its source range (half-open offsets
    into the file's text). */
module TSESTree {
  import opened Wrappers

  /** `node.range`: the offsets `[start, end)` of a node's text. */
  datatype Range = Range(start: nat, end: nat)

  /** The `type` tag of a type node. The two keyword kinds the rule looks for
      are named; `OtherType` stands for every other tag (`TSStringKeyword`,
      `TSTypeReference`, `TSUnionType`, ...). */
  datatype NodeType = TSAnyKeyword | TSUnknownKeyword | OtherType(tag: string)

  datatype TypeNode = TypeNode(nodeType: NodeType, range: Range)

  datatype Identifier = Identifier(name: string, range: Range)

  /** A `TSTypeParameter`. The parser and tokenizer are not modelled: the
      value of the first token that follows the parameter in the source
      (`,` or `>` in a well-formed declaration) is recorded with it. */
  datatype TypeParameter = TypeParameter(
    name: Identifier,
    constraint: Option<TypeNode>,
    default: Option<TypeNode>,
    range: Range,
    tokenAfter: string)

  /** What a `TSTypeParameterDeclaration` hangs from; only whether it is an
      arrow function matters to the rule. Owners not named here (call and
      construct signatures, function types, class expressions, ...) are
      `OtherOwner`, tagged with their node type. */
  datatype Owner =
    | ArrowFunctionExpression
    | FunctionDeclaration
    | FunctionExpression
    | ClassDeclaration
    | TSInterfaceDeclaration
    | TSTypeAliasDeclaration
    | TSMethodSignature
    | OtherOwner(tag: string)

  /** A `TSTypeParameterDeclaration`: the ordered list `<...>` and its parent. */
  datatype TypeParameterDeclaration = TypeParameterDeclaration(
    params: seq<TypeParameter>,
    parent: Owner)

  predicate WithinRange(inner: Range, outer: Range)
  {
    outer.start <= inner.start <= inner.end <= outer.end
  }

  /** The ranges the parser produces for `Name extends Constraint = Default`:
      each piece lies inside the parameter, in source order. */
  predicate WellFormedParameter(p: TypeParameter)
  {
    && WithinRange(p.name.range, p.range)
    && (p.constraint.Some? ==>
          WithinRange(p.constraint.value.range, p.range)
          && p.name.range.end <= p.constraint.value.range.start)
    && (p.default.Some? ==>
          WithinRange(p.default.value.range, p.range)
          && p.name.range.end <= p.default.value.range.start
          && (p.constraint.Some? ==> p.constraint.value.range.end <= p.default.value.range.start))
  }

  /** A declaration list as the parser produces it: its parameters are
      well formed, in source order, and do not overlap. */
  predicate OrderedParameters(d: TypeParameterDeclaration)
  {
    && (forall j :: 0 <= j < |d.params| ==> WellFormedParameter(d.params[j]))
    && (forall i, j :: 0 <= i < j < |d.params| ==> d.params[i].range.end <= d.params[j].range.start)
  }

  /** A declaration list parsed from a text of length `textLength`. */
  predicate WellFormedDeclaration(d: TypeParameterDeclaration, textLength: nat)
  {
    OrderedParameters(d) && (|d.params| > 0 ==> d.params[|d.params| - 1].range.end <= textLength)
  }

  /** Every parameter of a parsed declaration list lies inside the text. */
  lemma ParameterWithinText(d: TypeParameterDeclaration, textLength: nat, i: nat)
    requires WellFormedDeclaration(d, textLength) && i < |d.params|
    ensures d.params[i].range.end <= textLength
  {
    var last := d.params[|d.params| - 1];
    if i < |d.params| - 1 {
      assert WithinRange(last.name.range, last.range);
    }
  }
}
