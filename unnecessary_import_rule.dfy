/**
  The unnecessary-import rule as the listener it is: one object per file,
  whose exit callbacks are invoked by a single depth-first walk over the
  Gosu parse tree and update the package name, the first-seen-wins table
  of imports, the set of referenced class names, the end-of-imports latch
  and the diagnostics emitted so far.

  Parse-tree nodes are given as their text: a namespace string, the span
  of a uses statement, an identifier's text, and the children of a
  feature literal.
*/
module UnnecessaryImport {
  import opened ImportNames
  import opened ImportChecks

  /** A child of a feature-literal node: a parser-rule subtree or a bare token, with its text. */
  datatype Child = RuleChild(text: string) | TokenChild(text: string)

  /** The texts of the parser-rule children, in order; token children are dropped. */
  function RuleTexts(children: seq<Child>): (r: seq<string>)
    ensures |r| <= |children|
    ensures forall t :: t in r <==> RuleChild(t) in children
  {
    if children == [] then []
    else
      var rest := RuleTexts(children[1..]);
      assert forall c :: c in children <==> c == children[0] || c in children[1..];
      match children[0]
      case RuleChild(t) => [t] + rest
      case TokenChild(_) => rest
  }

  /** How a callback ended: normally, or with one of the rule's exceptions. */
  datatype Outcome = Completed | Thrown(failure: Failure)

  function AsOutcome(failure: Option<Failure>): Outcome {
    match failure
    case None => Completed
    case Some(f) => Thrown(f)
  }

  class UnnecessaryImportRule {
    /** Simple class name to the uses statement that declared it first. */
    var allImports: map<string, Span>
    /** Class names referenced in the file. */
    var referenced: set<string>
    /** The package of the file, once its declaration has been left. */
    var currentPackage: Option<string>
    /** Set once the list of uses statements has ended. */
    var afterUses: bool
    /** The diagnostics emitted so far, in emission order. */
    var issues: seq<Issue>

    constructor ()
      ensures allImports == map[] && referenced == {} && currentPackage == None
      ensures !afterUses && issues == []
    {
      allImports := map[];
      referenced := {};
      currentPackage := None;
      afterUses := false;
      issues := [];
    }

    /** Leaving the package declaration records its namespace as the current package. */
    method ExitPackageDeclaration(namespace: string)
      modifies this
      ensures currentPackage == Some(namespace)
      ensures allImports == old(allImports) && referenced == old(referenced)
      ensures afterUses == old(afterUses) && issues == old(issues)
    {
      currentPackage := Some(namespace);
    }

    /**
      Leaving a uses statement. Without a namespace nothing happens. With one,
      the four checks run in order against the table as it was before this
      statement; then the class name is inserted if it is new. A missing
      package or a name without '.' throws part-way, keeping the diagnostics
      emitted before the throw and leaving the table as it was.
    */
    method ExitUsesStatement(namespace: Option<string>, site: Span) returns (outcome: Outcome)
      modifies this
      ensures namespace.None? ==> outcome == Completed && allImports == old(allImports) && issues == old(issues)
      ensures namespace.Some? ==>
        issues == old(issues) + DeclarationIssues(namespace.value, old(currentPackage), old(allImports), site)
      ensures namespace.Some? ==>
        outcome == AsOutcome(DeclarationFailure(namespace.value, old(currentPackage)))
      ensures outcome.Completed? && namespace.Some? ==>
        allImports == InsertIfAbsent(old(allImports), ClassName(namespace.value).value, site)
      ensures outcome.Thrown? ==> allImports == old(allImports)
      ensures old(allImports).Keys <= allImports.Keys
      ensures forall k :: k in old(allImports) ==> allImports[k] == old(allImports)[k]
      ensures currentPackage == old(currentPackage) && referenced == old(referenced)
      ensures afterUses == old(afterUses)
    {
      outcome := Completed;
      if namespace.None? {
        return;
      }
      var usesStatement := namespace.value;
      outcome := CheckUnnecessaryImport(usesStatement, site);
      if outcome.Thrown? {
        return;
      }
      var className := ClassName(usesStatement).value;
      if className !in allImports {
        allImports := allImports[className := site];
      }
    }

    /** The four declaration-time checks, in order; the first exception ends them. */
    method CheckUnnecessaryImport(usesStatement: string, site: Span) returns (outcome: Outcome)
      modifies this`issues
      ensures issues == old(issues) + DeclarationIssues(usesStatement, currentPackage, allImports, site)
      ensures outcome == AsOutcome(DeclarationFailure(usesStatement, currentPackage))
    {
      CheckJavaLangImport(usesStatement, site);
      CheckGwPersistedObjectsImport(usesStatement, site);
      outcome := CheckSamePackageImport(usesStatement, site);
      if outcome.Thrown? {
        return;
      }
      outcome := CheckDuplicateImport(usesStatement, site);
    }

    method CheckJavaLangImport(usesStatement: string, site: Span)
      modifies this`issues
      ensures issues == old(issues) + IssueIf(JavaLangCheck, usesStatement, currentPackage, allImports, site)
    {
      if IsJavaLang(usesStatement) {
        issues := issues + [Issue(JavaLangMessage, site)];
      }
    }

    method CheckGwPersistedObjectsImport(usesStatement: string, site: Span)
      modifies this`issues
      ensures issues == old(issues) + IssueIf(GwPersistedCheck, usesStatement, currentPackage, allImports, site)
    {
      if IsGwPersisted(usesStatement) {
        issues := issues + [Issue(GwPersistedMessage, site)];
      }
    }

    /** Throws when no package has been declared; otherwise reports a same-package import. */
    method CheckSamePackageImport(usesStatement: string, site: Span) returns (outcome: Outcome)
      modifies this`issues
      ensures outcome == if currentPackage.None? then Thrown(PackageNotSet) else Completed
      ensures issues == old(issues) + IssueIf(SamePackageCheck, usesStatement, currentPackage, allImports, site)
    {
      if currentPackage.None? {
        return Thrown(PackageNotSet);
      }
      if IsSamePackage(usesStatement, currentPackage.value) {
        issues := issues + [Issue(SamePackageMessage, site)];
      }
      return Completed;
    }

    /** Throws when the name has no '.'; otherwise reports a class name already in the table. */
    method CheckDuplicateImport(usesStatement: string, site: Span) returns (outcome: Outcome)
      modifies this`issues
      ensures outcome == if '.' in usesStatement then Completed else Thrown(NoPackageFound)
      ensures issues == old(issues) +
        if ClassName(usesStatement).Ok? && ClassName(usesStatement).value in allImports
        then [Issue(DuplicateMessage, site)] else []
    {
      var className := ClassName(usesStatement);
      if className.Err? {
        return Thrown(className.error);
      }
      if className.value in allImports {
        issues := issues + [Issue(DuplicateMessage, site)];
      }
      return Completed;
    }

    /** Leaving a feature literal adds the text of each of its rule children to the referenced names. */
    method ExitUsesFeatureLiteral(children: seq<Child>)
      modifies this
      ensures forall t :: t in referenced <==> t in old(referenced) || RuleChild(t) in children
      ensures allImports == old(allImports) && currentPackage == old(currentPackage)
      ensures afterUses == old(afterUses) && issues == old(issues)
    {
      var staticImportClasses := RuleTexts(children);
      referenced := referenced + set t | t in staticImportClasses;
    }

    /** Leaving the list of uses statements closes the import section for good. */
    method ExitUsesStatementList()
      modifies this
      ensures afterUses
      ensures allImports == old(allImports) && referenced == old(referenced)
      ensures currentPackage == old(currentPackage) && issues == old(issues)
    {
      afterUses := true;
    }

    /**
      Leaving an identifier: after the import section, a capitalised
      identifier is taken for a class reference.
    */
    method ExitIdentifier(identifier: string)
      modifies this
      ensures referenced == if old(afterUses) && IsCapitalised(identifier)
                            then old(referenced) + {identifier}
                            else old(referenced)
      ensures allImports == old(allImports) && currentPackage == old(currentPackage)
      ensures afterUses == old(afterUses) && issues == old(issues)
    {
      if afterUses && IsCapitalised(identifier) {
        referenced := referenced + {identifier};
      }
    }

    /**
      Leaving the root of the file: one unused-import diagnostic for each
      class name of the table that was never referenced, at its first site.
      The order among them is left open, as the table's iteration order is.
    */
    method ExitStart()
      modifies this
      ensures |issues| == |old(issues)| + |UnusedNames(allImports, referenced)|
      ensures issues[..|old(issues)|] == old(issues)
      ensures multiset(issues[|old(issues)|..]) == multiset(UnusedIssues(allImports, referenced))
      ensures allImports == old(allImports) && referenced == old(referenced)
      ensures currentPackage == old(currentPackage) && afterUses == old(afterUses)
    {
      var unused := ReportUnused(allImports, referenced);
      issues := issues + unused;
      assert issues[|old(issues)|..] == unused;
    }
  }

  /**
    The unused-import diagnostics of a table, one per class name that is not
    among the referenced names, each at the class name's first site, in an
    order the model leaves open (the table's iteration order).
  */
  method ReportUnused(allImports: map<string, Span>, referenced: set<string>) returns (emitted: seq<Issue>)
    ensures |emitted| == |UnusedNames(allImports, referenced)|
    ensures multiset(emitted) == multiset(UnusedIssues(allImports, referenced))
  {
    var pending := UnusedNames(allImports, referenced);
    ghost var reported: set<string> := {};
    emitted := [];
    assert UnusedReport(allImports, reported) == {};
    while pending != {}
      invariant pending !! reported
      invariant pending + reported == UnusedNames(allImports, referenced)
      invariant |emitted| == |reported|
      invariant multiset(emitted) == multiset(UnusedReport(allImports, reported))
      decreases pending
    {
      var k :| k in pending;
      UnusedReportEmit(allImports, reported, k, emitted);
      emitted := emitted + [Issue(UnusedMessage(k), allImports[k])];
      pending := pending - {k};
      reported := reported + {k};
    }
  }

  /** Appending diagnostics in two steps is appending them in one. */
  lemma ConcatAssociative(a: seq<Issue>, b: seq<Issue>, c: seq<Issue>)
    ensures a + b + c == a + (b + c)
  {
  }

  /**
    A run of qualified uses statements after the package declaration, fed to
    `ExitUsesStatement` one by one as the tree walk does: none of them
    throws, the table ends as the trace function `ImportsAfter` says, and
    the diagnostics are those of `RunIssues`, so that the lemmas about the
    trace hold of the rule object itself.
  */
  method RunUses(rule: UnnecessaryImportRule, decls: seq<UsesDecl>, currentPackage: string)
    requires AllQualified(decls)
    requires rule.allImports == map[] && rule.currentPackage == Some(currentPackage)
    modifies rule
    ensures rule.allImports == ImportsAfter(Entries(decls), |decls|)
    ensures rule.issues == old(rule.issues) + RunIssues(decls, currentPackage, |decls|)
    ensures rule.currentPackage == Some(currentPackage)
    ensures rule.referenced == old(rule.referenced) && rule.afterUses == old(rule.afterUses)
  {
    ghost var start, refs, latch := rule.issues, rule.referenced, rule.afterUses;
    var i := 0;
    while i < |decls|
      invariant 0 <= i <= |decls|
      invariant rule.allImports == ImportsAfter(Entries(decls), i)
      invariant rule.issues == start + RunIssues(decls, currentPackage, i)
      invariant rule.currentPackage == Some(currentPackage)
      invariant rule.referenced == refs && rule.afterUses == latch
    {
      RunUsesNext(rule, decls, currentPackage, i, start, refs, latch);
      i := i + 1;
    }
  }

  /**
    The loop step of `RunUses`: statement `i` of the run completes, and the
    table and the diagnostics advance by one statement of the run.
  */
  method RunUsesNext(rule: UnnecessaryImportRule, decls: seq<UsesDecl>, currentPackage: string, i: nat,
                     ghost start: seq<Issue>, ghost refs: set<string>, ghost latch: bool)
    requires AllQualified(decls) && i < |decls|
    requires rule.referenced == refs && rule.afterUses == latch
    requires rule.allImports == ImportsAfter(Entries(decls), i) && rule.currentPackage == Some(currentPackage)
    requires rule.issues == start + RunIssues(decls, currentPackage, i)
    modifies rule
    ensures rule.allImports == ImportsAfter(Entries(decls), i + 1)
    ensures rule.issues == start + RunIssues(decls, currentPackage, i + 1)
    ensures rule.currentPackage == Some(currentPackage)
    ensures rule.referenced == refs && rule.afterUses == latch
  {
    RunStep(decls, currentPackage, i);
    ghost var run := RunIssues(decls, currentPackage, i);
    ghost var emitted := DeclarationIssues(decls[i].namespace, Some(currentPackage),
                                           ImportsAfter(Entries(decls), i), decls[i].site);
    var outcome := rule.ExitUsesStatement(Some(decls[i].namespace), decls[i].site);
    ConcatAssociative(start, run, emitted);
  }
}
