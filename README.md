# no-unnecessary-type-constraint, modelled in Dafny

This project models the typescript-eslint rule `no-unnecessary-type-constraint`.
The rule reports a generic type parameter whose constraint is `any` or `unknown`.
Such a constraint restricts nothing, because every type already satisfies it.
Each report carries one suggestion, and the fix deletes the `extends ...` clause.
In `.cts`, `.mts` and `.tsx` files, the lone parameter of an arrow function keeps a trailing comma (`<T,>() => {}`).
Without it, `<T>() => {}` is read as a JSX tag (`.tsx`) or is not accepted as a generic arrow function (`.mts`, `.cts`).

The rule is pure decision logic, so the model is made of datatypes, functions and lemmas:

- `wrappers.dfy` (`Wrappers`): the `Option` returned by the constraint table lookup.
- `ascii.dfy` (`Ascii`): lower-casing of file names, restricted to ASCII letters.
- `posix_path.dfy` (`PosixPath`): Node's `path.extname` for POSIX paths. It handles trailing separators, dot-files and `..` as Node does.
- `tsestree.dfy` (`TSESTree`): the part of the syntax tree the rule reads. It covers type parameters, their names, constraints and defaults with their source offsets, and the declaration list with its owner. It also states what a parsed list looks like.
- `rule_fix.dfy` (`RuleFix`): `fixer.replaceTextRange`, and the host's application of a fix to the text.
- `no_unnecessary_type_constraint.dfy` (`NoUnnecessaryTypeConstraint`): the table, the extension check, `create`, `checkNode` with `shouldAddTrailingComma`, the two selector handlers, and the scan of one declaration list.
- `rule_cases.dfy` (`NoUnnecessaryTypeConstraintCases`): worked cases on concrete file names and declarations.

The token after a parameter (`context.sourceCode.getTokensAfter(node)[0].value`) is not computed. It is recorded on the parameter as `tokenAfter`.
The host's selector matching is modelled by `Visit` and `LintDeclaration`. Each parameter that has a constraint goes to the handler chosen by whether its declaration list hangs from an `ArrowFunctionExpression`.

## Model

| member | source | states |
|---|---|---|
| NoUnnecessaryTypeConstraint.LookupConstraint | packages/eslint-plugin/src/rules/no-unnecessary-type-constraint.ts:38-41 | The table knows exactly two kinds. `TSAnyKeyword` maps to `"any"`, `TSUnknownKeyword` maps to `"unknown"`, and every other kind finds nothing. |
| NoUnnecessaryTypeConstraint.IsDisambiguatedExtension | packages/eslint-plugin/src/rules/no-unnecessary-type-constraint.ts:47-55 | The extensions that need disambiguation are `.cts`, `.mts` and `.tsx`. Each is four characters long: a dot and three lower-case letters. |
| NoUnnecessaryTypeConstraint.CheckRequiresGenericDeclarationDisambiguation | packages/eslint-plugin/src/rules/no-unnecessary-type-constraint.ts:43-56 | When the flag holds, the path's extension is four characters long, starts with a dot, and ends the path's last component. The full characterisation is DisambiguationBySuffix. |
| NoUnnecessaryTypeConstraint.DisambiguationBySuffix | packages/eslint-plugin/src/rules/no-unnecessary-type-constraint.ts:43-56 | A file needs disambiguation iff the last component of its path is longer than four characters and ends, ignoring case, in `.cts`, `.mts` or `.tsx`. So a name without an extension, another extension, or a bare dot-file `.tsx` never needs it. |
| NoUnnecessaryTypeConstraint.Create | packages/eslint-plugin/src/rules/no-unnecessary-type-constraint.ts:58-59 | The flag is computed once per file, from its name. It holds iff the name's last component is longer than four characters and ends, ignoring case, in `.cts`, `.mts` or `.tsx`. |
| NoUnnecessaryTypeConstraint.DisambiguationIgnoresCase | packages/eslint-plugin/src/rules/no-unnecessary-type-constraint.ts:46 | File names that agree up to case give the same answer. |
| PosixPath.Extname | packages/eslint-plugin/src/rules/no-unnecessary-type-constraint.ts:46 | The extension is empty or starts with a dot. It is a suffix of the path's last component, contains no separator, and contains no other dot. It is non-empty iff the last component is not `..` and has a dot after its first character. |
| PosixPath.ExtnameSameUpToCase | packages/eslint-plugin/src/rules/no-unnecessary-type-constraint.ts:46 | Paths that agree up to case have extensions that agree up to case. |
| Ascii.LowerCharFixed | packages/eslint-plugin/src/rules/no-unnecessary-type-constraint.ts:46 | Lower-casing never creates or removes a dot or a separator. |
| Ascii.Lower | packages/eslint-plugin/src/rules/no-unnecessary-type-constraint.ts:46 | Lower-casing keeps the length. LowerChars says what it does to each character. |
| Ascii.LowerChars | packages/eslint-plugin/src/rules/no-unnecessary-type-constraint.ts:46 | No upper-case letter is left. Each upper-case letter becomes its own lower-case letter (`A` to `a`, ..., `Z` to `z`), and every other character is kept. |
| NoUnnecessaryTypeConstraint.ShouldAddTrailingComma | packages/eslint-plugin/src/rules/no-unnecessary-type-constraint.ts:66-77 | No comma outside an arrow function or in a file that needs no disambiguation. No comma either with more than one parameter, with a comma already following, or with a default. |
| NoUnnecessaryTypeConstraint.CheckNode | packages/eslint-plugin/src/rules/no-unnecessary-type-constraint.ts:61-103 | A report exists iff the constraint is `any` or `unknown`. The report is about the node, and its data is the parameter's name and that label. It has exactly one suggestion, with the same label. The fix covers exactly the end of the name to the end of the constraint. Its text is `","` or `""`, and it is `","` iff ShouldAddTrailingComma holds. |
| NoUnnecessaryTypeConstraint.OnTypeParameterOutsideArrowFunction | packages/eslint-plugin/src/rules/no-unnecessary-type-constraint.ts:106-110 | The non-arrow handler reports exactly the `any`/`unknown` constraints, and its fix never inserts a comma. |
| NoUnnecessaryTypeConstraint.OnTypeParameterOfArrowFunction | packages/eslint-plugin/src/rules/no-unnecessary-type-constraint.ts:111-115 | The arrow handler's fix inserts a comma iff the file needs disambiguation, the list has one parameter, no comma follows, and there is no default. |
| NoUnnecessaryTypeConstraint.Visit | packages/eslint-plugin/src/rules/no-unnecessary-type-constraint.ts:105-116 | A constrained parameter is reported iff its constraint is `any` or `unknown`. The report is the one `checkNode` makes, with `inArrowFunction` set exactly when the declaration list hangs from an `ArrowFunctionExpression`. |
| NoUnnecessaryTypeConstraint.ReportFor | packages/eslint-plugin/src/rules/no-unnecessary-type-constraint.ts:79-115 | The report the matching handler makes about a parameter constrained to `any` or `unknown` is about that parameter, and its one fix spans the parameter's `extends` clause. Its fix inserts a comma only for the single parameter of an arrow function in a file that needs disambiguation. |
| NoUnnecessaryTypeConstraint.UnnecessaryIndicesSpec | packages/eslint-plugin/src/rules/no-unnecessary-type-constraint.ts:105-116 | The positions of the parameters constrained to `any` or `unknown` are all of them, each once, in increasing order, and as many as there are such parameters. |
| NoUnnecessaryTypeConstraint.LintFrom | packages/eslint-plugin/src/rules/no-unnecessary-type-constraint.ts:105-116 | Scanning a declaration list gives, in source order, exactly the report for each of those positions. |
| NoUnnecessaryTypeConstraint.LintDeclaration | packages/eslint-plugin/src/rules/no-unnecessary-type-constraint.ts:105-116 | One report per parameter constrained to `any` or `unknown`. Each report is about such a parameter and carries one fix over that parameter's clause. |
| NoUnnecessaryTypeConstraint.LintDeclarationSpec | packages/eslint-plugin/src/rules/no-unnecessary-type-constraint.ts:79-116 | The reports of a list correspond to its `any`/`unknown` parameters in both directions. Each fix lies inside its parameter, and the fixes do not overlap. Commas appear only in the one ambiguous shape. |
| NoUnnecessaryTypeConstraint.FixDeletesConstraintClause | packages/eslint-plugin/src/rules/no-unnecessary-type-constraint.ts:92-95 | Applying the fix keeps the text up to the end of the name, and everything from the end of the constraint on (the default, the following tokens). Between them it puts a comma or nothing. The length shrinks by the clause's length, plus 1 when a comma is added. |
| NoUnnecessaryTypeConstraint.ReportsWithoutFixed | packages/eslint-plugin/src/rules/no-unnecessary-type-constraint.ts:79-116 | Once the parameter's constraint is removed, the reports are the earlier ones without the report about that parameter, in the same order. The other reports keep their parameters, labels and comma decisions. Offsets stay as they were, as noted under "## Left out". |
| NoUnnecessaryTypeConstraint.FixedParameterNotReportedAgain | packages/eslint-plugin/src/rules/no-unnecessary-type-constraint.ts:79-116 | Once the parameter's constraint is removed, the list has one report fewer, and none of them is about that parameter. The other reports keep their parameters, labels and comma decisions, in the same order. Offsets stay as they were, as noted under "## Left out". |
| NoUnnecessaryTypeConstraint.ReportsIgnoreFilenameCase | packages/eslint-plugin/src/rules/no-unnecessary-type-constraint.ts:58-59 | The flag is computed once per file from its name. Files whose names agree up to case get identical reports and fixes. |
| RuleFix.ReplaceTextRange | packages/eslint-plugin/src/rules/no-unnecessary-type-constraint.ts:92-95 | `replaceTextRange` builds the fix for exactly the given range and text. |
| RuleFix.ReplaceTextRangeReplaces | packages/eslint-plugin/src/rules/no-unnecessary-type-constraint.ts:92-95 | Applied to a text that holds the range, that fix puts the text where the range was and keeps the rest. |
| RuleFix.ApplyFix | packages/eslint-plugin/src/rules/no-unnecessary-type-constraint.ts:92-95 | Applying a replacement keeps the text before the range and after it. The replacement text sits in between, and the length changes by the text's length minus the range's. |
| RuleFix.ApplyFixPieces | packages/eslint-plugin/src/rules/no-unnecessary-type-constraint.ts:92-95 | Those three pieces and the length determine the result uniquely. |
| NoUnnecessaryTypeConstraintCases.ArrowFunctionReport | packages/eslint-plugin/src/rules/no-unnecessary-type-constraint.ts:66-95 | `<T extends unknown>() => {}` is reported with data (`T`, `unknown`). Its fix replaces offsets 2 to 18 by `","` when the file needs disambiguation, and by `""` otherwise. |
| NoUnnecessaryTypeConstraintCases.ArrowFunctionFix | packages/eslint-plugin/src/rules/no-unnecessary-type-constraint.ts:92-95 | Applying that fix gives `<T,>() => {}` when the file needs disambiguation, and `<T>() => {}` otherwise. |
| NoUnnecessaryTypeConstraintCases.ArrowFunctionInTsxFile | packages/eslint-plugin/src/rules/no-unnecessary-type-constraint.ts:58-95 | In `component.tsx`, the fix turns `<T extends unknown>() => {}` into `<T,>() => {}`. |
| NoUnnecessaryTypeConstraintCases.ArrowFunctionInTsFile | packages/eslint-plugin/src/rules/no-unnecessary-type-constraint.ts:58-95 | In `module.ts`, it turns it into `<T>() => {}`. |
| NoUnnecessaryTypeConstraintCases.ArrowFunctionWithDefaultReport | packages/eslint-plugin/src/rules/no-unnecessary-type-constraint.ts:70-76 | With a default, `<T extends any = string>() => {}` gets a plain deletion even in a file that needs disambiguation. |
| NoUnnecessaryTypeConstraintCases.ArrowFunctionWithDefaultFix | packages/eslint-plugin/src/rules/no-unnecessary-type-constraint.ts:92-95 | Applying it gives `<T = string>() => {}`. |
| NoUnnecessaryTypeConstraintCases.TwoParametersReports | packages/eslint-plugin/src/rules/no-unnecessary-type-constraint.ts:105-110 | `function f<T extends any, U extends unknown>() {}` gives two reports. |
| NoUnnecessaryTypeConstraintCases.FirstOfTwoFix | packages/eslint-plugin/src/rules/no-unnecessary-type-constraint.ts:79-110 | The report about `T` has data (`T`, `any`). Applying its fix alone gives `function f<T, U extends unknown>() {}`. |
| NoUnnecessaryTypeConstraintCases.SecondOfTwoFix | packages/eslint-plugin/src/rules/no-unnecessary-type-constraint.ts:79-110 | The report about `U` has data (`U`, `unknown`). Applying its fix alone gives `function f<T extends any, U>() {}`. |
| NoUnnecessaryTypeConstraintCases.TsxInDirectory | packages/eslint-plugin/src/rules/no-unnecessary-type-constraint.ts:47-51 | `src/app.tsx` needs disambiguation. |
| NoUnnecessaryTypeConstraintCases.UpperCaseTsx | packages/eslint-plugin/src/rules/no-unnecessary-type-constraint.ts:46-51 | `Component.TSX` needs disambiguation, because the extension is compared in lower case. |
| NoUnnecessaryTypeConstraintCases.MtsFile | packages/eslint-plugin/src/rules/no-unnecessary-type-constraint.ts:49 | `index.mts` needs disambiguation. |
| NoUnnecessaryTypeConstraintCases.CtsFile | packages/eslint-plugin/src/rules/no-unnecessary-type-constraint.ts:48 | `index.cts` needs disambiguation. |
| NoUnnecessaryTypeConstraintCases.TsxFile | packages/eslint-plugin/src/rules/no-unnecessary-type-constraint.ts:50 | `component.tsx` needs disambiguation. |
| NoUnnecessaryTypeConstraintCases.TsFile | packages/eslint-plugin/src/rules/no-unnecessary-type-constraint.ts:53-54 | `module.ts` does not. |
| NoUnnecessaryTypeConstraintCases.JsxFile | packages/eslint-plugin/src/rules/no-unnecessary-type-constraint.ts:53-54 | `app.jsx` does not. |
| NoUnnecessaryTypeConstraintCases.DotFileHasNoExtension | packages/eslint-plugin/src/rules/no-unnecessary-type-constraint.ts:46-54 | A file named just `.tsx` has no extension and does not. |

## Left out

- ESLint host plumbing is not modelled: `createRule`, the `meta` object, and rendering the message templates (lines 24-29) into text. The report carries the message ids and the interpolation data instead.
- Delivery through `context.report` is not modelled. A report is a returned value.
- Selector matching is modelled only as the choice between the two handlers, made from the owner of the declaration list. Owners other than the seven listed in `TSESTree.Owner` are `OtherOwner`.
- The TypeScript parser and tokenizer are not modelled. Offsets and the token after each parameter are inputs. `WellFormedDeclaration` states what the parser guarantees about them, and FixDeletesConstraintClause assumes it. The worked cases give their offsets explicitly and check them against their texts.
- RuleFix.ApplyFix: requires the fix's range to lie inside the text. The host applies only fixes computed from that text.
- Offsets are taken as indices into the modelled text, one per character. ESLint's ranges count UTF-16 code units, so a character outside the Basic Multilingual Plane before a declaration shifts the host's offsets relative to the model's.
- Node's `path.extname` is modelled for POSIX paths only. Windows separators (`\`) and drive letters are not modelled.
- Lower-casing covers ASCII letters only, and every other character is left unchanged. `toLocaleLowerCase` also maps non-ASCII letters, and its result can depend on the locale.
- The `typescript` module is used only for the three extension strings. The rule deliberately uses no type information, so there is nothing more to model.
- Re-parsing the fixed text is not modelled, because it would need a TypeScript grammar. FixedParameterNotReportedAgain models the fixed parameter as one without a constraint.
- NoUnnecessaryTypeConstraint.ReportsWithoutFixed, FixedParameterNotReportedAgain: the fixed declaration (`WithoutConstraint`) keeps every other parameter's offsets. In the fixed text, the parameters after the fixed one move left by the clause's length, less 1 when a comma is put in. So the remaining reports match the earlier ones except for that shift in their node and fix ranges. The model does not restate offsets after a fix.
