/** The rule `no-unnecessary-type-constraint`: a generic type parameter whose
    constraint is `any` or `unknown` is reported, with one suggestion that
    deletes the `extends ...` clause. In `.cts`, `.mts` and `.tsx` files the
    lone parameter of an arrow function keeps a trailing comma, because
    there `<T>() => ...` is read as a JSX tag (`.tsx`) or is not accepted
    as a generic arrow function (`.mts`, `.cts`) once the constraint is
    gone. */
module NoUnnecessaryTypeConstraint {
  import opened Wrappers
  import opened Ascii
  import opened PosixPath
  import opened TSESTree
  import opened RuleFix

  const UnnecessaryConstraintMessageId: string := "unnecessaryConstraint"
  const RemoveUnnecessaryConstraintMessageId: string := "removeUnnecessaryConstraint"

  /** The constraint kinds that restrict nothing, with the label the
      messages show for each. */
  const UnnecessaryConstraints: map<NodeType, string> :=
    map[TSAnyKeyword := "any", TSUnknownKeyword := "unknown"]

  /** `ts.Extension.Cts`, `ts.Extension.Mts`, `ts.Extension.Tsx`. */
  const Cts: string := ".cts"
  const Mts: string := ".mts"
  const Tsx: string := ".tsx"

  /** `unnecessaryConstraints.get(type)`. */
  function LookupConstraint(t: NodeType): (r: Option<string>)
    ensures r.Some? <==> (t == TSAnyKeyword || t == TSUnknownKeyword)
    ensures t == TSAnyKeyword ==> r == Some("any")
    ensures t == TSUnknownKeyword ==> r == Some("unknown")
  {
    if t in UnnecessaryConstraints then Some(UnnecessaryConstraints[t]) else None
  }

  /** Whether the file's grammar reads `<T>` before an arrow function as a
      JSX tag or otherwise needs the generic declaration made explicit. */
  function CheckRequiresGenericDeclarationDisambiguation(filename: string): (r: bool)
    ensures r ==> var ext := Extname(filename);
      |ext| == 4 && ext[0] == Dot && IsSuffix(ext, LastComponent(filename))
  {
    IsDisambiguatedExtension(Lower(Extname(filename)))
  }

  /** One of the three extensions: four characters, a dot and three
      lower-case letters. */
  predicate IsDisambiguatedExtension(ext: string)
    ensures IsDisambiguatedExtension(ext) ==>
      |ext| == 4 && ext[0] == Dot && forall k :: 1 <= k < 4 ==> IsLower(ext[k])
  {
    ext == Cts || ext == Mts || ext == Tsx
  }

  lemma ExtensionFromSuffix(base: string)
    requires IsDisambiguatedExtension(Lower(ComponentExtension(base)))
    ensures |base| > 4 && IsDisambiguatedExtension(Lower(base[|base| - 4..]))
  {
    var ext := ComponentExtension(base);
    assert |ext| == 4 && IsSuffix(ext, base);
    match LastIndexOf(base, Dot)
    case None =>
      assert false;
    case Some(i) =>
      assert ext == base[i..] && i != 0;
  }

  lemma SuffixGivesExtension(base: string)
    requires |base| > 4 && IsDisambiguatedExtension(Lower(base[|base| - 4..]))
    ensures IsDisambiguatedExtension(Lower(ComponentExtension(base)))
  {
    var n := |base| - 4;
    var suffix := Lower(base[n..]);
    assert suffix[0] == Dot;
    assert forall k :: 1 <= k < 4 ==> IsLower(suffix[k]);
    LowerCharFixed(base[n], Dot);
    forall k | n < k < |base| ensures base[k] != Dot {
      assert LowerChar(base[k]) == suffix[k - n];
      LowerCharFixed(base[k], Dot);
    }
    assert LastIndexOf(base, Dot) == Some(n);
    assert base != "..";
  }

  /** The file needs disambiguation exactly when the last component of its
      path is longer than four characters and ends, in any case, in one of
      the three extensions. So `.tsx` alone (a dot-file) and names without
      an extension never do. */
  lemma DisambiguationBySuffix(filename: string)
    ensures CheckRequiresGenericDeclarationDisambiguation(filename) <==>
      (var base := LastComponent(filename);
       |base| > 4 && IsDisambiguatedExtension(Lower(base[|base| - 4..])))
  {
    var base := LastComponent(filename);
    if CheckRequiresGenericDeclarationDisambiguation(filename) {
      ExtensionFromSuffix(base);
    } else if |base| > 4 && IsDisambiguatedExtension(Lower(base[|base| - 4..])) {
      SuffixGivesExtension(base);
    }
  }

  /** The result does not depend on the case of the file name. */
  lemma DisambiguationIgnoresCase(f: string, g: string)
    requires Lower(f) == Lower(g)
    ensures CheckRequiresGenericDeclarationDisambiguation(f) == CheckRequiresGenericDeclarationDisambiguation(g)
  {
    ExtnameSameUpToCase(f, g);
  }

  /** What the host passes to `create`. */
  datatype RuleContext = RuleContext(filename: string)

  /** The state `create` closes over: the disambiguation flag is computed
      once, from the file name, and used for every parameter of the file. */
  datatype Listener = Listener(requiresGenericDeclarationDisambiguation: bool)

  function Create(context: RuleContext): (l: Listener)
    ensures l.requiresGenericDeclarationDisambiguation <==>
      (var base := LastComponent(context.filename);
       |base| > 4 && IsDisambiguatedExtension(Lower(base[|base| - 4..])))
  {
    DisambiguationBySuffix(context.filename);
    Listener(CheckRequiresGenericDeclarationDisambiguation(context.filename))
  }

  /** The report's interpolation data: `{{name}}` and `{{constraint}}`. */
  datatype MessageData = MessageData(name: string, constraint: string)

  /** A suggestion: its message, its `{{constraint}}` data and its fix. */
  datatype Suggestion = Suggestion(messageId: string, constraint: string, fix: Fix)

  /** One `context.report` call. */
  datatype Report = Report(
    messageId: string,
    data: MessageData,
    node: TypeParameter,
    suggest: seq<Suggestion>)

  /** Whether deleting the constraint must leave a comma behind: only for
      `<T extends any>() => ...`, the single parameter of an arrow function
      with no comma after it and no default, in a file that needs
      disambiguation. */
  function ShouldAddTrailingComma(l: Listener, d: TypeParameterDeclaration, i: nat, inArrowFunction: bool): (r: bool)
    requires i < |d.params|
    ensures !inArrowFunction ==> !r
    ensures !l.requiresGenericDeclarationDisambiguation ==> !r
    ensures |d.params| != 1 ==> !r
    ensures d.params[i].tokenAfter == "," ==> !r
    ensures d.params[i].default.Some? ==> !r
  {
    if !inArrowFunction || !l.requiresGenericDeclarationDisambiguation then
      false
    else
      |d.params| == 1 && d.params[i].tokenAfter != "," && d.params[i].default.None?
  }

  /** What a report about `d.params[i]` carries: the parameter, its name
      and the constraint's label as message data, and one suggestion with
      the same label whose fix replaces the text from the end of the name
      to the end of the constraint by a comma or by nothing. */
  predicate DescribesUnnecessaryConstraint(rep: Report, l: Listener, d: TypeParameterDeclaration, i: nat, inArrowFunction: bool)
    requires i < |d.params| && d.params[i].constraint.Some?
  {
    var node := d.params[i];
    var constraint := if node.constraint.value.nodeType == TSAnyKeyword then "any" else "unknown";
    && rep.messageId == UnnecessaryConstraintMessageId
    && rep.node == node
    && rep.data == MessageData(node.name.name, constraint)
    && |rep.suggest| == 1
    && rep.suggest[0].messageId == RemoveUnnecessaryConstraintMessageId
    && rep.suggest[0].constraint == constraint
    && rep.suggest[0].fix.range == Range(node.name.range.end, node.constraint.value.range.end)
    && rep.suggest[0].fix.text in {",", ""}
    && (rep.suggest[0].fix.text == "," <==> ShouldAddTrailingComma(l, d, i, inArrowFunction))
  }

  /** `checkNode(node, inArrowFunction)` for `node = d.params[i]`. The
      selectors only match parameters that have a constraint. */
  function CheckNode(l: Listener, d: TypeParameterDeclaration, i: nat, inArrowFunction: bool): (r: Option<Report>)
    requires i < |d.params| && d.params[i].constraint.Some?
    ensures r.Some? <==> d.params[i].constraint.value.nodeType in {TSAnyKeyword, TSUnknownKeyword}
    ensures r.Some? ==> DescribesUnnecessaryConstraint(r.value, l, d, i, inArrowFunction)
  {
    var node := d.params[i];
    match LookupConstraint(node.constraint.value.nodeType)
    case None => None
    case Some(constraint) =>
      var fix := ReplaceTextRange(
        Range(node.name.range.end, node.constraint.value.range.end),
        if ShouldAddTrailingComma(l, d, i, inArrowFunction) then "," else "");
      Some(Report(
        UnnecessaryConstraintMessageId,
        MessageData(node.name.name, constraint),
        node,
        [Suggestion(RemoveUnnecessaryConstraintMessageId, constraint, fix)]))
  }

  /** The handler for `:not(ArrowFunctionExpression) > TSTypeParameterDeclaration
      > TSTypeParameter[constraint]`: its fixes only ever delete. */
  function OnTypeParameterOutsideArrowFunction(l: Listener, d: TypeParameterDeclaration, i: nat): (r: Option<Report>)
    requires i < |d.params| && d.params[i].constraint.Some?
    ensures r.Some? <==> d.params[i].constraint.value.nodeType in {TSAnyKeyword, TSUnknownKeyword}
    ensures r.Some? ==> |r.value.suggest| == 1 && r.value.suggest[0].fix.text == ""
  {
    CheckNode(l, d, i, false)
  }

  /** The handler for `ArrowFunctionExpression > TSTypeParameterDeclaration
      > TSTypeParameter[constraint]`: its fix keeps a comma exactly in the
      one ambiguous shape. */
  function OnTypeParameterOfArrowFunction(l: Listener, d: TypeParameterDeclaration, i: nat): (r: Option<Report>)
    requires i < |d.params| && d.params[i].constraint.Some?
    ensures r.Some? <==> d.params[i].constraint.value.nodeType in {TSAnyKeyword, TSUnknownKeyword}
    ensures r.Some? ==> |r.value.suggest| == 1
    ensures r.Some? ==>
      (r.value.suggest[0].fix.text == "," <==>
         && l.requiresGenericDeclarationDisambiguation
         && |d.params| == 1
         && d.params[i].tokenAfter != ","
         && d.params[i].default.None?)
  {
    CheckNode(l, d, i, true)
  }

  /** The host's selector matching: a constrained parameter goes to exactly
      one of the two handlers, chosen by what owns its declaration list. */
  function Visit(l: Listener, d: TypeParameterDeclaration, i: nat): (r: Option<Report>)
    requires i < |d.params| && d.params[i].constraint.Some?
    ensures r.Some? <==> d.params[i].constraint.value.nodeType in {TSAnyKeyword, TSUnknownKeyword}
    ensures r.Some? ==> DescribesUnnecessaryConstraint(r.value, l, d, i, d.parent == ArrowFunctionExpression)
  {
    if d.parent == ArrowFunctionExpression then OnTypeParameterOfArrowFunction(l, d, i)
    else OnTypeParameterOutsideArrowFunction(l, d, i)
  }

  predicate IsUnnecessary(p: TypeParameter)
  {
    p.constraint.Some? && LookupConstraint(p.constraint.value.nodeType).Some?
  }

  /** The number of parameters in `ps` whose constraint is `any` or `unknown`. */
  function CountUnnecessary(ps: seq<TypeParameter>): nat
  {
    if ps == [] then 0 else (if IsUnnecessary(ps[0]) then 1 else 0) + CountUnnecessary(ps[1..])
  }

  /** A report about a constrained parameter with one suggestion whose fix
      spans the parameter's `extends` clause. */
  predicate FixesOwnNode(rep: Report)
  {
    && |rep.suggest| == 1
    && rep.node.constraint.Some?
    && rep.suggest[0].fix.range == Range(rep.node.name.range.end, rep.node.constraint.value.range.end)
  }

  function FixOf(rep: Report): Fix
    requires FixesOwnNode(rep)
  {
    rep.suggest[0].fix
  }

  /** The report the matching handler makes about `d.params[i]`, a parameter
      constrained to `any` or `unknown`. A comma is kept only for the single
      parameter of an arrow function in a file that needs disambiguation. */
  function ReportFor(l: Listener, d: TypeParameterDeclaration, i: nat): (rep: Report)
    requires i < |d.params| && IsUnnecessary(d.params[i])
    ensures rep.node == d.params[i] && FixesOwnNode(rep)
    ensures FixOf(rep).text == "," ==>
      d.parent == ArrowFunctionExpression && l.requiresGenericDeclarationDisambiguation && |d.params| == 1
  {
    Visit(l, d, i).value
  }

  /** The positions, from `k` on, of the parameters constrained to `any` or
      `unknown`. */
  function UnnecessaryIndices(d: TypeParameterDeclaration, k: nat): (r: seq<nat>)
    requires k <= |d.params|
    ensures forall a :: 0 <= a < |r| ==> r[a] < |d.params| && IsUnnecessary(d.params[r[a]])
    decreases |d.params| - k
  {
    if k == |d.params| then []
    else (if IsUnnecessary(d.params[k]) then [k] else []) + UnnecessaryIndices(d, k + 1)
  }

  lemma {:induction false} UnnecessaryIndicesCount(d: TypeParameterDeclaration, k: nat)
    requires k <= |d.params|
    ensures |UnnecessaryIndices(d, k)| == CountUnnecessary(d.params[k..])
    decreases |d.params| - k
  {
    if k < |d.params| {
      UnnecessaryIndicesCount(d, k + 1);
      assert d.params[k..][1..] == d.params[k + 1..];
    }
  }

  lemma {:induction false} UnnecessaryIndicesIncrease(d: TypeParameterDeclaration, k: nat)
    requires k <= |d.params|
    ensures forall a :: 0 <= a < |UnnecessaryIndices(d, k)| ==> k <= UnnecessaryIndices(d, k)[a]
    ensures forall a, b :: 0 <= a < b < |UnnecessaryIndices(d, k)| ==>
      UnnecessaryIndices(d, k)[a] < UnnecessaryIndices(d, k)[b]
    decreases |d.params| - k
  {
    if k < |d.params| {
      UnnecessaryIndicesIncrease(d, k + 1);
      var rest := UnnecessaryIndices(d, k + 1);
      var r := UnnecessaryIndices(d, k);
      if IsUnnecessary(d.params[k]) {
        assert r == [k] + rest;
        forall a | 0 < a < |r| ensures r[a] == rest[a - 1] && k < r[a] {
        }
      } else {
        assert r == rest;
      }
    }
  }

  lemma {:induction false} UnnecessaryIndicesComplete(d: TypeParameterDeclaration, k: nat)
    requires k <= |d.params|
    ensures forall j :: k <= j < |d.params| && IsUnnecessary(d.params[j]) ==> j in UnnecessaryIndices(d, k)
    decreases |d.params| - k
  {
    if k < |d.params| {
      UnnecessaryIndicesComplete(d, k + 1);
      var rest := UnnecessaryIndices(d, k + 1);
      var r := UnnecessaryIndices(d, k);
      if IsUnnecessary(d.params[k]) {
        assert r == [k] + rest;
      } else {
        assert r == rest;
      }
    }
  }

  /** They are all of them, each once, in increasing order. */
  lemma UnnecessaryIndicesSpec(d: TypeParameterDeclaration, k: nat)
    requires k <= |d.params|
    ensures |UnnecessaryIndices(d, k)| == CountUnnecessary(d.params[k..])
    ensures forall a :: 0 <= a < |UnnecessaryIndices(d, k)| ==> k <= UnnecessaryIndices(d, k)[a]
    ensures forall a, b :: 0 <= a < b < |UnnecessaryIndices(d, k)| ==>
      UnnecessaryIndices(d, k)[a] < UnnecessaryIndices(d, k)[b]
    ensures forall j :: k <= j < |d.params| && IsUnnecessary(d.params[j]) ==> j in UnnecessaryIndices(d, k)
  {
    UnnecessaryIndicesCount(d, k);
    UnnecessaryIndicesIncrease(d, k);
    UnnecessaryIndicesComplete(d, k);
  }

  /** The reports for the parameters `d.params[k..]`: in source order, the
      report of each parameter constrained to `any` or `unknown`. */
  function LintFrom(l: Listener, d: TypeParameterDeclaration, k: nat): (r: seq<Report>)
    requires k <= |d.params|
    ensures |r| == |UnnecessaryIndices(d, k)|
    ensures forall a :: 0 <= a < |r| ==> r[a] == ReportFor(l, d, UnnecessaryIndices(d, k)[a])
    decreases |d.params| - k
  {
    if k == |d.params| then []
    else
      var here := if d.params[k].constraint.Some? then Visit(l, d, k) else None;
      assert here.Some? <==> IsUnnecessary(d.params[k]);
      (if here.Some? then [here.value] else []) + LintFrom(l, d, k + 1)
  }

  /** All the reports for one declaration list. */
  function LintDeclaration(l: Listener, d: TypeParameterDeclaration): (r: seq<Report>)
    ensures |r| == CountUnnecessary(d.params)
    ensures forall a :: 0 <= a < |r| ==> IsUnnecessary(r[a].node) && FixesOwnNode(r[a])
  {
    UnnecessaryIndicesSpec(d, 0);
    assert d.params[0..] == d.params;
    LintFrom(l, d, 0)
  }

  /** The facts a parsed declaration list gives about its `k`-th parameter. */
  lemma OrderedAt(d: TypeParameterDeclaration, k: nat)
    requires k < |d.params| && OrderedParameters(d)
    ensures WellFormedParameter(d.params[k])
    ensures forall j :: k < j < |d.params| ==> d.params[k].range.end <= d.params[j].range.start
  {
  }

  /** The fixes of `r` come in source order and do not overlap. */
  predicate FixesInOrder(r: seq<Report>)
    requires forall a :: 0 <= a < |r| ==> FixesOwnNode(r[a])
  {
    forall a, b :: 0 <= a < b < |r| ==> FixOf(r[a]).range.end <= FixOf(r[b]).range.start
  }

  /** The reports of a declaration list are about its parameters, and every
      parameter constrained to `any` or `unknown` has one. A comma is kept
      only in the one ambiguous shape. In a parsed list each fix lies inside
      its parameter and the fixes come in source order without overlapping,
      so each can be applied independently of the others. */
  lemma LintDeclarationSpec(l: Listener, d: TypeParameterDeclaration)
    ensures forall a :: 0 <= a < |LintDeclaration(l, d)| ==> LintDeclaration(l, d)[a].node in d.params
    ensures forall j :: 0 <= j < |d.params| && IsUnnecessary(d.params[j]) ==>
      exists a :: 0 <= a < |LintDeclaration(l, d)| && LintDeclaration(l, d)[a].node == d.params[j]
    ensures forall a :: 0 <= a < |LintDeclaration(l, d)| && FixOf(LintDeclaration(l, d)[a]).text == "," ==>
      d.parent == ArrowFunctionExpression && l.requiresGenericDeclarationDisambiguation && |d.params| == 1
    ensures OrderedParameters(d) ==> forall a :: 0 <= a < |LintDeclaration(l, d)| ==>
      WithinRange(FixOf(LintDeclaration(l, d)[a]).range, LintDeclaration(l, d)[a].node.range)
    ensures OrderedParameters(d) ==> FixesInOrder(LintDeclaration(l, d))
  {
    var r, idx := LintDeclaration(l, d), UnnecessaryIndices(d, 0);
    assert r == LintFrom(l, d, 0);
    UnnecessaryIndicesSpec(d, 0);
    forall j | 0 <= j < |d.params| && IsUnnecessary(d.params[j])
      ensures exists a :: 0 <= a < |r| && r[a].node == d.params[j]
    {
      var a :| 0 <= a < |idx| && idx[a] == j;
      assert r[a].node == d.params[j];
    }
    if OrderedParameters(d) {
      forall a | 0 <= a < |r| ensures WithinRange(FixOf(r[a]).range, r[a].node.range) {
        OrderedAt(d, idx[a]);
      }
      forall a, b | 0 <= a < b < |r| ensures FixOf(r[a]).range.end <= FixOf(r[b]).range.start {
        OrderedAt(d, idx[a]);
        OrderedAt(d, idx[b]);
      }
    }
  }

  /** Applying the suggestion to the text the declaration was parsed from
      deletes exactly the `extends ...` clause: the text up to the end of
      the name and from the end of the constraint on (the default, the
      tokens after the parameter) is kept, and at most one comma is put in
      its place. */
  lemma FixDeletesConstraintClause(src: string, l: Listener, d: TypeParameterDeclaration, i: nat, inArrowFunction: bool)
    requires WellFormedDeclaration(d, |src|) && i < |d.params| && d.params[i].constraint.Some?
    requires CheckNode(l, d, i, inArrowFunction).Some?
    ensures var fix := CheckNode(l, d, i, inArrowFunction).value.suggest[0].fix;
      var nameEnd, constraintEnd := d.params[i].name.range.end, d.params[i].constraint.value.range.end;
      var comma := ShouldAddTrailingComma(l, d, i, inArrowFunction);
      && nameEnd <= constraintEnd <= |src|
      && fix.range.start == nameEnd && fix.range.end == constraintEnd
      && ApplyFix(src, fix)[..nameEnd] == src[..nameEnd]
      && ApplyFix(src, fix)[nameEnd..] == (if comma then "," else "") + src[constraintEnd..]
      && |ApplyFix(src, fix)| == |src| - (constraintEnd - nameEnd) + (if comma then 1 else 0)
  {
    ParameterWithinText(d, |src|, i);
    OrderedAt(d, i);
    var fix := CheckNode(l, d, i, inArrowFunction).value.suggest[0].fix;
    var r := ApplyFix(src, fix);
    assert r[fix.range.start..] == r[fix.range.start..fix.range.start + |fix.text|] + r[fix.range.start + |fix.text|..];
  }

  /** The declaration list once the fix has removed the constraint of
      `d.params[i]`. The other parameters keep their offsets: the shift that
      applying the fix causes after `d.params[i]` is not modelled. */
  function WithoutConstraint(d: TypeParameterDeclaration, i: nat): (r: TypeParameterDeclaration)
    requires i < |d.params|
    ensures |r.params| == |d.params| && r.parent == d.parent
    ensures r.params[i].constraint.None?
    ensures forall j :: 0 <= j < |d.params| && j != i ==> r.params[j] == d.params[j]
  {
    d.(params := d.params[i := d.params[i].(constraint := None)])
  }

  lemma {:induction false} CountAfterRemoval(ps: seq<TypeParameter>, i: nat, q: TypeParameter)
    requires i < |ps| && IsUnnecessary(ps[i]) && !IsUnnecessary(q)
    ensures CountUnnecessary(ps[i := q]) + 1 == CountUnnecessary(ps)
  {
    if i == 0 {
      assert ps[i := q][1..] == ps[1..];
    } else {
      assert ps[i := q][1..] == ps[1..][i - 1 := q];
      CountAfterRemoval(ps[1..], i - 1, q);
    }
  }

  /** Removing the constraint of `d.params[i]` leaves the handler's answer
      about every other parameter as it was. */
  lemma VisitOtherParameter(l: Listener, d: TypeParameterDeclaration, i: nat, k: nat)
    requires i < |d.params| && k < |d.params| && k != i && d.params[k].constraint.Some?
    ensures Visit(l, WithoutConstraint(d, i), k) == Visit(l, d, k)
  {
    var fixed := WithoutConstraint(d, i);
    assert fixed.params[k] == d.params[k];
    assert ShouldAddTrailingComma(l, fixed, k, true) == ShouldAddTrailingComma(l, d, k, true);
    assert CheckNode(l, fixed, k, true) == CheckNode(l, d, k, true);
    assert CheckNode(l, fixed, k, false) == CheckNode(l, d, k, false);
  }

  /** Dropping an element behind a prefix keeps the prefix. */
  lemma DropAfterPrefix<T>(r: seq<T>, s: seq<T>, head: seq<T>, rest: seq<T>, rest': seq<T>, a: nat)
    requires r == head + rest && s == head + rest'
    requires a < |rest| && rest' == rest[..a] + rest[a + 1..]
    ensures r[|head| + a] == rest[a]
    ensures s == r[..|head| + a] + r[|head| + a + 1..]
  {
    assert r[..|head| + a] == head + rest[..a];
    assert r[|head| + a + 1..] == rest[a + 1..];
  }

  lemma ReportForOtherParameter(l: Listener, d: TypeParameterDeclaration, i: nat, j: nat)
    requires i < |d.params| && j < |d.params| && j != i && IsUnnecessary(d.params[j])
    ensures ReportFor(l, WithoutConstraint(d, i), j) == ReportFor(l, d, j)
  {
    VisitOtherParameter(l, d, i, j);
  }

  /** A sequence that skips exactly position `a` of another is that other
      one without its `a`-th element. */
  lemma DropByIndices<T>(r: seq<T>, s: seq<T>, a: nat)
    requires a < |r| && |s| + 1 == |r|
    requires forall b :: 0 <= b < |s| ==> s[b] == r[if b < a then b else b + 1]
    ensures s == r[..a] + r[a + 1..]
  {
  }

  /** Past the fixed parameter, the positions to report are unchanged. */
  lemma {:induction false} IndicesPastFixed(d: TypeParameterDeclaration, i: nat, k: nat)
    requires i < k <= |d.params|
    ensures UnnecessaryIndices(WithoutConstraint(d, i), k) == UnnecessaryIndices(d, k)
    decreases |d.params| - k
  {
    if k < |d.params| {
      IndicesPastFixed(d, i, k + 1);
      assert WithoutConstraint(d, i).params[k] == d.params[k];
    }
  }

  /** Up to the fixed parameter, the positions to report lose exactly `i`,
      found at position `a`. */
  lemma {:induction false} IndicesUpToFixed(d: TypeParameterDeclaration, i: nat, k: nat) returns (a: nat)
    requires k <= i < |d.params| && IsUnnecessary(d.params[i])
    ensures a < |UnnecessaryIndices(d, k)| && UnnecessaryIndices(d, k)[a] == i
    ensures UnnecessaryIndices(WithoutConstraint(d, i), k) ==
      UnnecessaryIndices(d, k)[..a] + UnnecessaryIndices(d, k)[a + 1..]
    decreases i - k
  {
    var fixed := WithoutConstraint(d, i);
    var r, s := UnnecessaryIndices(d, k), UnnecessaryIndices(fixed, k);
    var r', s' := UnnecessaryIndices(d, k + 1), UnnecessaryIndices(fixed, k + 1);
    if k == i {
      IndicesPastFixed(d, i, k + 1);
      assert r == [i] + r' && s == r';
      a := 0;
      assert s == r[..0] + r[1..];
    } else {
      var a' := IndicesUpToFixed(d, i, k + 1);
      assert fixed.params[k] == d.params[k];
      var head := if IsUnnecessary(d.params[k]) then [k] else [];
      assert r == head + r' && s == head + s';
      DropAfterPrefix(r, s, head, r', s', a');
      a := |head| + a';
    }
  }

  /** The reports after the fix are those before it without the one, at
      position `a`, about the fixed parameter (offsets as `WithoutConstraint`
      keeps them). */
  lemma ReportsWithoutFixed(l: Listener, d: TypeParameterDeclaration, i: nat) returns (a: nat)
    requires i < |d.params| && IsUnnecessary(d.params[i])
    ensures a < |LintDeclaration(l, d)| && LintDeclaration(l, d)[a].node == d.params[i]
    ensures LintDeclaration(l, WithoutConstraint(d, i)) == LintDeclaration(l, d)[..a] + LintDeclaration(l, d)[a + 1..]
  {
    var fixed := WithoutConstraint(d, i);
    var r, s := LintDeclaration(l, d), LintDeclaration(l, fixed);
    var idx, idx' := UnnecessaryIndices(d, 0), UnnecessaryIndices(fixed, 0);
    assert r == LintFrom(l, d, 0) && s == LintFrom(l, fixed, 0);
    UnnecessaryIndicesSpec(d, 0);
    a := IndicesUpToFixed(d, i, 0);
    forall b | 0 <= b < |s| ensures s[b] == r[if b < a then b else b + 1] {
      var j := if b < a then b else b + 1;
      assert idx'[b] == idx[j] && idx[j] != i;
      ReportForOtherParameter(l, d, i, idx[j]);
    }
    DropByIndices(r, s, a);
  }

  /** Once a suggestion is applied, its parameter has no constraint and is
      not reported again; the other reports keep their parameters, labels
      and comma decisions, in the same order. */
  lemma FixedParameterNotReportedAgain(l: Listener, d: TypeParameterDeclaration, i: nat)
    requires i < |d.params| && IsUnnecessary(d.params[i])
    ensures |LintDeclaration(l, WithoutConstraint(d, i))| + 1 == |LintDeclaration(l, d)|
    ensures forall a :: 0 <= a < |LintDeclaration(l, WithoutConstraint(d, i))| ==>
      LintDeclaration(l, WithoutConstraint(d, i))[a].node != WithoutConstraint(d, i).params[i]
    ensures exists a ::
      && 0 <= a < |LintDeclaration(l, d)|
      && LintDeclaration(l, d)[a].node == d.params[i]
      && LintDeclaration(l, WithoutConstraint(d, i)) == LintDeclaration(l, d)[..a] + LintDeclaration(l, d)[a + 1..]
  {
    var fixed := WithoutConstraint(d, i);
    assert fixed.params == d.params[i := fixed.params[i]];
    CountAfterRemoval(d.params, i, fixed.params[i]);
    var a := ReportsWithoutFixed(l, d, i);
  }

  /** The flag is computed once per file, from its name, and only the case
      of the name's letters does not matter: files whose names agree up to
      case get the same reports and fixes. */
  lemma ReportsIgnoreFilenameCase(f: string, g: string, d: TypeParameterDeclaration)
    requires Lower(f) == Lower(g)
    ensures LintDeclaration(Create(RuleContext(f)), d) == LintDeclaration(Create(RuleContext(g)), d)
  {
    DisambiguationIgnoresCase(f, g);
    assert Create(RuleContext(f)) == Create(RuleContext(g));
  }
}
