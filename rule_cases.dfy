/** Worked cases of the rule on concrete declarations and file names. */
module NoUnnecessaryTypeConstraintCases {
  import opened Wrappers
  import opened Ascii
  import opened PosixPath
  import opened TSESTree
  import opened RuleFix
  import opened NoUnnecessaryTypeConstraint

  /** `<T extends K>` or `<T extends K = D>` starting at offset 0: the
      name `T` at 1, the constraint from `constraintStart` to `constraintEnd`. */
  function SingleParameter(kind: NodeType, constraintEnd: nat, default: Option<TypeNode>, paramEnd: nat): TypeParameter
    requires 11 <= constraintEnd <= paramEnd
  {
    TypeParameter(Identifier("T", Range(1, 2)), Some(TypeNode(kind, Range(11, constraintEnd))), default, Range(1, paramEnd), ">")
  }

  lemma TsxInDirectory()
    ensures CheckRequiresGenericDeclarationDisambiguation("src/app.tsx")
  {
    var f := "src/app.tsx";
    LastComponentAfter(f, 3);
    assert LastComponent(f) == "app.tsx";
    LowerOfLowerCase(".tsx");
    DisambiguationBySuffix(f);
  }

  lemma UpperCaseTsx()
    ensures CheckRequiresGenericDeclarationDisambiguation("Component.TSX")
  {
    LastComponentAfter("Component.TSX", -1);
    DisambiguationBySuffix("Component.TSX");
  }

  /** A name in lower case with no directory: whether it needs
      disambiguation is decided by its last four characters. */
  lemma PlainName(f: string)
    requires |f| > 4 && f[|f| - 1] != Separator
    requires forall k :: 0 <= k < |f| ==> f[k] != Separator && !IsUpper(f[k])
    ensures CheckRequiresGenericDeclarationDisambiguation(f) <==> IsDisambiguatedExtension(f[|f| - 4..])
  {
    LastComponentAfter(f, -1);
    DisambiguationBySuffix(f);
    LowerOfLowerCase(f[|f| - 4..]);
  }

  lemma MtsFile()
    ensures CheckRequiresGenericDeclarationDisambiguation("index.mts")
  {
    var f := "index.mts";
    assert f[|f| - 4..] == Mts;
    PlainName(f);
  }

  lemma CtsFile()
    ensures CheckRequiresGenericDeclarationDisambiguation("index.cts")
  {
    var f := "index.cts";
    assert f[|f| - 4..] == Cts;
    PlainName(f);
  }

  lemma TsxFile()
    ensures CheckRequiresGenericDeclarationDisambiguation("component.tsx")
  {
    var f := "component.tsx";
    assert f[|f| - 4..] == Tsx;
    PlainName(f);
  }

  lemma TsFile()
    ensures !CheckRequiresGenericDeclarationDisambiguation("module.ts")
  {
    var f := "module.ts";
    assert f[|f| - 4..] == "e.ts";
    PlainName(f);
  }

  lemma JsxFile()
    ensures !CheckRequiresGenericDeclarationDisambiguation("app.jsx")
  {
    var f := "app.jsx";
    assert f[|f| - 4..] == ".jsx";
    PlainName(f);
  }

  /** A dot-file named like the extension has no extension. */
  lemma DotFileHasNoExtension()
    ensures !CheckRequiresGenericDeclarationDisambiguation(".tsx")
  {
    LastComponentAfter(".tsx", -1);
    DisambiguationBySuffix(".tsx");
  }

  /** `<T extends unknown>() => {}`, in pieces. */
  const ArrowHead: string := "<T"
  const ArrowClause: string := " extends unknown"
  const ArrowTail: string := ">() => {}"
  const ArrowSource: string := ArrowHead + ArrowClause + ArrowTail

  /** The declaration of ArrowSource, the parameter ending at offset 18. */
  function ArrowDeclaration(): TypeParameterDeclaration
  {
    TypeParameterDeclaration([SingleParameter(TSUnknownKeyword, 18, None, 18)], ArrowFunctionExpression)
  }

  /** `<T extends unknown>() => {}` is reported with data (`T`, `unknown`);
      the fix replaces the clause by a comma exactly when the file needs
      disambiguation and by nothing otherwise ... */
  lemma ArrowFunctionReport(flag: bool)
    ensures var r := OnTypeParameterOfArrowFunction(Listener(flag), ArrowDeclaration(), 0);
      && r.Some? && r.value.data == MessageData("T", "unknown") && FixesOwnNode(r.value)
      && FixOf(r.value) == Fix(Range(2, 18), if flag then "," else "")
  {
  }

  /** ... so the text becomes `<T,>() => {}` or `<T>() => {}`. */
  lemma ArrowFunctionFix(flag: bool)
    ensures var r := OnTypeParameterOfArrowFunction(Listener(flag), ArrowDeclaration(), 0);
      && r.Some? && FixesOwnNode(r.value)
      && ApplyFix(ArrowSource, FixOf(r.value)) == ArrowHead + (if flag then "," else "") + ArrowTail
  {
    ArrowFunctionReport(flag);
    assert ArrowSource[..2] == ArrowHead && ArrowSource[18..] == ArrowTail;
  }

  /** End to end: in `component.tsx` the arrow function becomes
      `<T,>() => {}`, and in `module.ts` it becomes `<T>() => {}`. */
  lemma ArrowFunctionInTsxFile()
    ensures var r := OnTypeParameterOfArrowFunction(Create(RuleContext("component.tsx")), ArrowDeclaration(), 0);
      && r.Some? && FixesOwnNode(r.value)
      && ApplyFix(ArrowSource, FixOf(r.value)) == ArrowHead + "," + ArrowTail
  {
    TsxFile();
    assert Create(RuleContext("component.tsx")) == Listener(true);
    ArrowFunctionFix(true);
  }

  lemma ArrowFunctionInTsFile()
    ensures var r := OnTypeParameterOfArrowFunction(Create(RuleContext("module.ts")), ArrowDeclaration(), 0);
      && r.Some? && FixesOwnNode(r.value)
      && ApplyFix(ArrowSource, FixOf(r.value)) == ArrowHead + ArrowTail
  {
    TsFile();
    assert Create(RuleContext("module.ts")) == Listener(false);
    ArrowFunctionFix(false);
    assert ArrowHead + "" == ArrowHead;
  }

  /** `<T extends any = string>() => {}`, in pieces. */
  const DefaultHead: string := "<T"
  const DefaultClause: string := " extends any"
  const DefaultTail: string := " = string>() => {}"
  const DefaultSource: string := DefaultHead + DefaultClause + DefaultTail

  /** The declaration of DefaultSource, the default ending at offset 23. */
  function DefaultDeclaration(): TypeParameterDeclaration
  {
    TypeParameterDeclaration(
      [SingleParameter(TSAnyKeyword, 14, Some(TypeNode(OtherType("TSStringKeyword"), Range(17, 23))), 23)],
      ArrowFunctionExpression)
  }

  /** A default suppresses the comma even in a file that needs
      disambiguation: the fix only deletes ... */
  lemma ArrowFunctionWithDefaultReport()
    ensures var r := OnTypeParameterOfArrowFunction(Listener(true), DefaultDeclaration(), 0);
      && r.Some? && r.value.data == MessageData("T", "any") && FixesOwnNode(r.value)
      && FixOf(r.value) == Fix(Range(2, 14), "")
  {
  }

  /** ... and leaves `<T = string>() => {}`. */
  lemma ArrowFunctionWithDefaultFix()
    ensures var r := OnTypeParameterOfArrowFunction(Listener(true), DefaultDeclaration(), 0);
      && r.Some? && FixesOwnNode(r.value)
      && ApplyFix(DefaultSource, FixOf(r.value)) == DefaultHead + DefaultTail
  {
    ArrowFunctionWithDefaultReport();
    assert DefaultSource[..2] == DefaultHead && DefaultSource[14..] == DefaultTail;
  }

  /** `function f<T extends any, U extends unknown>() {}`, in pieces. */
  const PairHead: string := "function f<T"
  const PairFirstClause: string := " extends any"
  const PairMiddle: string := ", U"
  const PairSecondClause: string := " extends unknown"
  const PairTail: string := ">() {}"
  const PairSource: string := PairHead + PairFirstClause + PairMiddle + PairSecondClause + PairTail

  /** The declaration of PairSource. */
  function PairDeclaration(): TypeParameterDeclaration
  {
    TypeParameterDeclaration(
      [ TypeParameter(Identifier("T", Range(11, 12)), Some(TypeNode(TSAnyKeyword, Range(21, 24))), None, Range(11, 24), ","),
        TypeParameter(Identifier("U", Range(26, 27)), Some(TypeNode(TSUnknownKeyword, Range(36, 43))), None, Range(26, 43), ">")],
      FunctionDeclaration)
  }

  /** Two constrained parameters give two reports ... */
  lemma TwoParametersReports(flag: bool)
    ensures |LintDeclaration(Listener(flag), PairDeclaration())| == 2
  {
    var ps := PairDeclaration().params;
    assert ps[1..][1..] == [];
  }

  /** ... the first about `T`, whose fix leaves `function f<T, U extends unknown>() {}` ... */
  lemma FirstOfTwoFix(flag: bool)
    ensures var r := OnTypeParameterOutsideArrowFunction(Listener(flag), PairDeclaration(), 0);
      && r.Some? && r.value.data == MessageData("T", "any") && FixesOwnNode(r.value)
      && ApplyFix(PairSource, FixOf(r.value)) == PairHead + PairMiddle + PairSecondClause + PairTail
  {
    var r := OnTypeParameterOutsideArrowFunction(Listener(flag), PairDeclaration(), 0);
    assert FixOf(r.value) == Fix(Range(12, 24), "");
    var rest := PairMiddle + PairSecondClause + PairTail;
    assert PairSource == PairHead + PairFirstClause + rest;
    assert PairSource[..12] == PairHead && PairSource[24..] == rest;
  }

  /** ... and the second about `U`, whose fix leaves `function f<T extends any, U>() {}`. */
  lemma SecondOfTwoFix(flag: bool)
    ensures var r := OnTypeParameterOutsideArrowFunction(Listener(flag), PairDeclaration(), 1);
      && r.Some? && r.value.data == MessageData("U", "unknown") && FixesOwnNode(r.value)
      && ApplyFix(PairSource, FixOf(r.value)) == PairHead + PairFirstClause + PairMiddle + PairTail
  {
    var r := OnTypeParameterOutsideArrowFunction(Listener(flag), PairDeclaration(), 1);
    assert FixOf(r.value) == Fix(Range(27, 43), "");
    var head := PairHead + PairFirstClause + PairMiddle;
    assert PairSource == head + PairSecondClause + PairTail;
    assert PairSource[..27] == head && PairSource[43..] == PairTail;
  }
}
