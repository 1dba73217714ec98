# Unnecessary-import rule of the Gosu SonarQube plugin, in Dafny

This project models `UnnecessaryImportRule`, the rule of the Gosu plugin for
SonarQube that reports unnecessary `uses` statements (Gosu's imports). The rule
is a parse-tree listener. One instance handles one file, and a single
depth-first walk over the Gosu parse tree calls its exit callbacks. The
instance keeps:

- the current package;
- a first-seen-wins table from each import's simple class name to the uses
  statement that declared it first;
- the set of class names the file references;
- a latch that is set when the list of uses statements ends;
- the diagnostics emitted so far.

At each uses statement the rule runs four checks, in this order:

1. the name starts with `java.lang.`;
2. the name starts with `typekey.` or `entity.`;
3. the name is the current package or a direct member of it;
4. the simple name is already in the table.

At the end of the file it reports every imported simple name that was never
referenced.

The project has three modules, one file each:

- `import_names.dfy` (`ImportNames`): the pure string functions. They are
  class-name extraction (`getClassName`), the two prefix tests, the
  same-package test and the capitalised-identifier test. Java's `lastIndexOf`
  and `indexOf` are modelled by `LastIndexOf` and `IndexOf`, so the conditions
  read as the rule writes them. Lemmas state what the conditions mean.
- `import_checks.dfy` (`ImportChecks`): the diagnostics as functions of the
  rule's state.
  - `DeclarationIssues`: what one uses statement emits, in order.
  - `DeclarationFailure`: the exception that can end the handling of a uses
    statement.
  - `InsertIfAbsent`: Java's `putIfAbsent`.
  - `UnusedIssues`: what the end of the file emits.
  - `ImportsAfter`: the table after a run of uses statements.
- `unnecessary_import_rule.dfy` (`UnnecessaryImport`): the class
  `UnnecessaryImportRule`. It has the rule's fields, one method per callback,
  and one method per check helper. Each method's postcondition ties the new
  state to the old state through the functions above. `RunUses` feeds a run
  of uses statements to the object and proves that its table and its
  diagnostics follow the trace functions `ImportsAfter` and `RunIssues`.

Parse-tree nodes are inputs:

- a package or uses statement is its namespace text;
- a uses statement without a namespace is `None`;
- the span of the uses statement is a `Span`;
- an identifier is its text;
- a feature literal is its list of children, each either a parser-rule
  subtree (`RuleChild`) or a token (`TokenChild`), with its text.

The rule can throw two exceptions:

- a `NullPointerException`, when a uses statement arrives before any package
  declaration;
- an `IllegalArgumentException("No package found.")`, for a name without any
  '.'.

Both are modelled as the `Outcome` returned by `ExitUsesStatement`. Diagnostics
emitted before the throw stay. The import table is left unchanged.

In these details the model follows the rule's code:

- The java.lang message reads "Unnecessary import, java.lang classes are always
  available.", as the code has it.
- The unused-import diagnostics come out in the order of a `HashMap`, which is
  unspecified. They do not come out in declaration order. The model states them
  as a multiset.
- A uses statement that arrives before the package declaration still gets its
  java.lang and typekey/entity diagnostics before the rule throws.
- An identifier counts as capitalised when it matches `[A-Z].*` exactly as
  Java's `String.matches` reads it: an ASCII capital letter, followed only by
  characters that are not line terminators.

## Model

| member | source | states |
|---|---|---|
| `ImportNames.LastIndexOf` | src/main/java/de/friday/sonarqube/gosu/plugin/rules/smells/UnnecessaryImportRule.java:141-142 | the result is -1 exactly when the character does not occur; otherwise it is a position holding the character with no later occurrence |
| `ImportNames.IndexOf` | src/main/java/de/friday/sonarqube/gosu/plugin/rules/smells/UnnecessaryImportRule.java:121 | the result is -1 exactly when no position at or after `from` holds the character; otherwise it is the first such position |
| `ImportNames.ClassName` | src/main/java/de/friday/sonarqube/gosu/plugin/rules/smells/UnnecessaryImportRule.java:140-147 | a name without '.' is rejected with `NoPackageFound`, and only such a name; otherwise the result is a dot-free suffix that follows a '.', which is the text after the last '.' |
| `ImportNames.ClassNameOfQualified` | src/main/java/de/friday/sonarqube/gosu/plugin/rules/smells/UnnecessaryImportRule.java:140-147 | for any prefix and any dot-free name, the class name of `prefix + "." + name` is `name` |
| `ImportNames.ClassNameExamples` | src/test/java/de/friday/sonarqube/gosu/plugin/rules/smells/UnnecessaryImportRuleTest.java:69-85 | `de.friday.claims.SomeClass` gives `SomeClass`, and `JustClassName` is rejected |
| `ImportNames.PreludesExclusive` | src/main/java/de/friday/sonarqube/gosu/plugin/rules/smells/UnnecessaryImportRule.java:103-113 | no name passes both the java.lang prefix test and the typekey/entity prefix test |
| `ImportNames.StartsWith` | src/main/java/de/friday/sonarqube/gosu/plugin/rules/smells/UnnecessaryImportRule.java:104 | `startsWith`: holds exactly when the string is the prefix followed by the rest of the string |
| `ImportNames.IsJavaLang` | src/main/java/de/friday/sonarqube/gosu/plugin/rules/smells/UnnecessaryImportRule.java:104 | holds exactly when the name is `java.lang.` followed by anything; such a name holds a '.', so its class name is defined |
| `ImportNames.IsGwPersisted` | src/main/java/de/friday/sonarqube/gosu/plugin/rules/smells/UnnecessaryImportRule.java:110 | holds exactly when the name is `typekey.` or `entity.` followed by anything; such a name holds a '.', so its class name is defined |
| `ImportNames.IsSamePackage` | src/main/java/de/friday/sonarqube/gosu/plugin/rules/smells/UnnecessaryImportRule.java:118-121 | the condition as written (equality, or a prefix followed by '.' and no further '.') holds exactly when the name is the package or `package + "." + rest` with a dot-free `rest` |
| `ImportNames.IsCapitalised` | src/main/java/de/friday/sonarqube/gosu/plugin/rules/smells/UnnecessaryImportRule.java:82 | `matches("[A-Z].*")`: an ASCII capital letter followed only by characters that are not line terminators |
| `ImportNames.SamePackageMembers` | src/main/java/de/friday/sonarqube/gosu/plugin/rules/smells/UnnecessaryImportRule.java:115-124 | `package + "." + rest` is a same-package import exactly when `rest` has no '.', so importing from a sub-package never is one |
| `ImportChecks.UnusedMessageInjective` | src/main/java/de/friday/sonarqube/gosu/plugin/rules/smells/UnnecessaryImportRule.java:92 | two unused-import messages are equal exactly when they name the same class |
| `ImportChecks.MessageRanks` | src/main/java/de/friday/sonarqube/gosu/plugin/rules/smells/UnnecessaryImportRule.java:96-130 | the four declaration-time messages are pairwise distinct and are ranked in the order the checks run |
| `ImportChecks.DeclarationIssues` | src/main/java/de/friday/sonarqube/gosu/plugin/rules/smells/UnnecessaryImportRule.java:96-130 | one uses statement emits at most three diagnostics, all located at that statement |
| `ImportChecks.DeclarationFailure` | src/main/java/de/friday/sonarqube/gosu/plugin/rules/smells/UnnecessaryImportRule.java:115-147 | handling a uses statement completes exactly when a package is known and the name contains a '.' |
| `ImportChecks.DeclarationIssueIff` | src/main/java/de/friday/sonarqube/gosu/plugin/rules/smells/UnnecessaryImportRule.java:96-130 | each check's diagnostic is emitted exactly when that check fires: java.lang prefix; typekey/entity prefix; known package and same package; known package, a '.', and the class name already a key of the table before the statement |
| `ImportChecks.PreludeChecksIgnoreState` | src/main/java/de/friday/sonarqube/gosu/plugin/rules/smells/UnnecessaryImportRule.java:103-113 | whether the two prefix diagnostics are emitted does not depend on the package or on the import table |
| `ImportChecks.DeclarationIssuesOrdered` | src/main/java/de/friday/sonarqube/gosu/plugin/rules/smells/UnnecessaryImportRule.java:96-101 | the diagnostics of one statement come in strictly increasing check order (java.lang, typekey/entity, same package, duplicate), so each appears at most once |
| `ImportChecks.InsertIfAbsent` | src/main/java/de/friday/sonarqube/gosu/plugin/rules/smells/UnnecessaryImportRule.java:55 | `putIfAbsent`: the keys grow by the class name; existing entries keep their sites; a new name gets the given site |
| `ImportChecks.UnusedIssues` | src/main/java/de/friday/sonarqube/gosu/plugin/rules/smells/UnnecessaryImportRule.java:89-93 | the reference definition of the end-of-file report: one diagnostic per key that was never referenced, at that key's site |
| `ImportChecks.UnusedIssueIff` | src/main/java/de/friday/sonarqube/gosu/plugin/rules/smells/UnnecessaryImportRule.java:87-94 | the end-of-file report holds "There is unused import of K." at site s exactly when K is a key of the table, K was never referenced, and s is K's first declaration site |
| `ImportChecks.ImportsAfterKeys` | src/main/java/de/friday/sonarqube/gosu/plugin/rules/smells/UnnecessaryImportRule.java:50-57 | after a run of uses statements, the table's keys are exactly the simple names declared so far |
| `ImportChecks.ImportsAfterFirstSite` | src/main/java/de/friday/sonarqube/gosu/plugin/rules/smells/UnnecessaryImportRule.java:53-55 | each simple name in the table keeps the site of its first declaration, whatever follows |
| `ImportChecks.DuplicateOnLaterOccurrences` | src/main/java/de/friday/sonarqube/gosu/plugin/rules/smells/UnnecessaryImportRule.java:50-57 | in a run of uses statements, a statement gets the duplicate diagnostic exactly when an earlier statement has the same simple name: never the first occurrence, once for every later one |
| `UnnecessaryImport.RunUses` | src/main/java/de/friday/sonarqube/gosu/plugin/rules/smells/UnnecessaryImportRule.java:49-57 | feeding a run of qualified uses statements to a rule with a package and an empty table: the table ends as `ImportsAfter` of the run, the appended diagnostics are `RunIssues` of the run (so the trace lemmas above hold of the object), and package, references and latch are unchanged |
| `UnnecessaryImport.RunUsesNext` | src/main/java/de/friday/sonarqube/gosu/plugin/rules/smells/UnnecessaryImportRule.java:49-57 | one uses statement of such a run completes; the table and the diagnostics advance from `ImportsAfter` and `RunIssues` at `i` to those at `i + 1` |
| `UnnecessaryImport.RuleTexts` | src/main/java/de/friday/sonarqube/gosu/plugin/rules/smells/UnnecessaryImportRule.java:60-66 | a text is collected exactly when a parser-rule child carries it; token children are dropped |
| `UnnecessaryImport.UnnecessaryImportRule.constructor` | src/main/java/de/friday/sonarqube/gosu/plugin/rules/smells/UnnecessaryImportRule.java:34-37 | a new rule has an empty table, no references, no package, the latch unset and no diagnostics |
| `UnnecessaryImport.UnnecessaryImportRule.ExitPackageDeclaration` | src/main/java/de/friday/sonarqube/gosu/plugin/rules/smells/UnnecessaryImportRule.java:44-47 | records the namespace as the current package; nothing else changes |
| `UnnecessaryImport.UnnecessaryImportRule.ExitUsesStatement` | src/main/java/de/friday/sonarqube/gosu/plugin/rules/smells/UnnecessaryImportRule.java:49-57 | without a namespace nothing changes. With one, it appends `DeclarationIssues` for the table as it was before the statement. It completes or throws as `DeclarationFailure` says. On completion the table becomes `InsertIfAbsent(old table, class name, site)`. Existing entries never change and the table never shrinks. Package, references and latch are untouched |
| `UnnecessaryImport.UnnecessaryImportRule.CheckUnnecessaryImport` | src/main/java/de/friday/sonarqube/gosu/plugin/rules/smells/UnnecessaryImportRule.java:96-101 | appends exactly `DeclarationIssues` for the current package and table, and throws exactly as `DeclarationFailure` says |
| `UnnecessaryImport.UnnecessaryImportRule.CheckJavaLangImport` | src/main/java/de/friday/sonarqube/gosu/plugin/rules/smells/UnnecessaryImportRule.java:103-107 | appends the java.lang diagnostic exactly when the name starts with `java.lang.` |
| `UnnecessaryImport.UnnecessaryImportRule.CheckGwPersistedObjectsImport` | src/main/java/de/friday/sonarqube/gosu/plugin/rules/smells/UnnecessaryImportRule.java:109-113 | appends the typekey/entity diagnostic exactly when the name starts with `typekey.` or `entity.` |
| `UnnecessaryImport.UnnecessaryImportRule.CheckSamePackageImport` | src/main/java/de/friday/sonarqube/gosu/plugin/rules/smells/UnnecessaryImportRule.java:115-124 | throws `PackageNotSet` without a package; otherwise appends the same-package diagnostic exactly when the same-package condition holds |
| `UnnecessaryImport.UnnecessaryImportRule.CheckDuplicateImport` | src/main/java/de/friday/sonarqube/gosu/plugin/rules/smells/UnnecessaryImportRule.java:126-130 | throws `NoPackageFound` exactly when the name has no '.'; otherwise appends the duplicate diagnostic exactly when the class name is already a key of the table |
| `UnnecessaryImport.UnnecessaryImportRule.ExitUsesFeatureLiteral` | src/main/java/de/friday/sonarqube/gosu/plugin/rules/smells/UnnecessaryImportRule.java:59-67 | the referenced names become the old ones plus the text of every parser-rule child, wherever the literal stands; nothing else changes |
| `UnnecessaryImport.UnnecessaryImportRule.ExitUsesStatementList` | src/main/java/de/friday/sonarqube/gosu/plugin/rules/smells/UnnecessaryImportRule.java:73-76 | sets the latch; no callback ever clears it |
| `UnnecessaryImport.UnnecessaryImportRule.ExitIdentifier` | src/main/java/de/friday/sonarqube/gosu/plugin/rules/smells/UnnecessaryImportRule.java:78-85 | the identifier is added to the referenced names exactly when the latch is set and it matches `[A-Z].*`; otherwise nothing changes |
| `UnnecessaryImport.UnnecessaryImportRule.ExitStart` | src/main/java/de/friday/sonarqube/gosu/plugin/rules/smells/UnnecessaryImportRule.java:87-94 | keeps the earlier diagnostics and appends one diagnostic per unreferenced key, at that key's first site; as a multiset the appended diagnostics equal `UnusedIssues`; the table and references are unchanged |
| `UnnecessaryImport.ReportUnused` | src/main/java/de/friday/sonarqube/gosu/plugin/rules/smells/UnnecessaryImportRule.java:89-93 | the filtered stream over the table yields one diagnostic per unreferenced key: as many as there are such keys, and as a multiset exactly `UnusedIssues` |

## Left out

- The ANTLR parser, its context classes, `getText()` and the payload filter are
  not modelled. Nodes arrive as texts, and a feature literal's children arrive
  already split into parser-rule and token children.
- `addIssue`, the `GosuIssue` builder, `BaseGosuRule`, `getKey` with its `KEY`
  constant, and the `@Rule` registration are left out. These belong to the Sonar
  host. Emitting a diagnostic is modelled as appending a message and a `Span` to
  `issues`. How the host derives the span from the context is not modelled.
- The parse-tree walker that calls the callbacks is not modelled. Each callback
  is a method, so the model does not fix the order of calls.
- The model does not state what the host does after a callback throws. The
  exception is returned as an `Outcome` and the rule's state is left as described.
- Java strings are UTF-16 code units. Here a `char` is a Unicode scalar value.
  The rule only compares characters with ASCII characters, and Java's `.`
  matches whole code points, so this does not change its decisions.
- UnnecessaryImport.UnnecessaryImportRule.ExitStart: states the unused-import diagnostics as a multiset, not in `HashMap` iteration order, which Java leaves unspecified.
- UnnecessaryImport.UnnecessaryImportRule.ExitStart: computes the diagnostics (`ReportUnused`) and then appends them together. Java appends them one at a time, and no other callback runs in between, so the final state is the same.
- UnnecessaryImport.ReportUnused: leaves the order of its result open, for the same reason.
- No lemma covers a whole file with every kind of callback. `RunUses` covers a
  run of uses statements after the package declaration. The rest follows from
  the per-callback postconditions. Determinism across runs is not stated,
  because the order of the unused-import diagnostics is left open.
