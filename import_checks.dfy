/**
  The diagnostics of the unnecessary-import rule, as functions of the
  rule's state: which of the four declaration-time checks fire on a uses
  statement (and in which order), what inserting an import into the
  first-seen-wins table does, and which unused-import diagnostics the end
  of the file produces.
*/
module ImportChecks {
  import opened ImportNames

  /** The source span of a uses statement (1-based lines and columns). */
  datatype Span = Span(startLine: nat, startColumn: nat, endLine: nat, endColumn: nat)

  /** A diagnostic handed to the issue sink. */
  datatype Issue = Issue(message: string, location: Span)

  const JavaLangMessage := "Unnecessary import, java.lang classes are always available."
  const GwPersistedMessage := "Unnecessary import, typekey and entity classes are always available."
  const SamePackageMessage := "Unnecessary import, same package classes are always available."
  const DuplicateMessage := "Unnecessary import, it is a duplicate."

  const UnusedPrefix := "There is unused import of "

  function UnusedMessage(className: string): string {
    UnusedPrefix + className + "."
  }

  /** The class name an unused-import message is about can be read back from it. */
  lemma UnusedMessageInjective(a: string, b: string)
    ensures UnusedMessage(a) == UnusedMessage(b) <==> a == b
  {
    if UnusedMessage(a) == UnusedMessage(b) {
      var m := UnusedMessage(a);
      assert a == m[|UnusedPrefix|..|m| - 1];
      assert b == UnusedMessage(b)[|UnusedPrefix|..|m| - 1];
    }
  }

  /** The four checks run on every uses statement, in the order they run. */
  datatype Check = JavaLangCheck | GwPersistedCheck | SamePackageCheck | DuplicateCheck

  function Message(check: Check): string {
    match check
    case JavaLangCheck => JavaLangMessage
    case GwPersistedCheck => GwPersistedMessage
    case SamePackageCheck => SamePackageMessage
    case DuplicateCheck => DuplicateMessage
  }

  /** The position of the check whose message this is, or 4 for any other message. */
  function MessageRank(message: string): (r: nat)
    ensures r <= 4
  {
    if message == JavaLangMessage then 0
    else if message == GwPersistedMessage then 1
    else if message == SamePackageMessage then 2
    else if message == DuplicateMessage then 3
    else 4
  }

  /** Each check has its own message, and the messages are ranked in running order. */
  lemma MessageRanks(check: Check)
    ensures MessageRank(Message(check)) ==
      match check
      case JavaLangCheck => 0
      case GwPersistedCheck => 1
      case SamePackageCheck => 2
      case DuplicateCheck => 3
  {
    assert |JavaLangMessage| == 59;
    assert |GwPersistedMessage| == 68;
    assert |SamePackageMessage| == 62;
    assert |DuplicateMessage| == 38;
  }

  /**
    Whether `check` reports the uses statement `usesStatement`, given the
    package seen so far and the table of imports declared before it. The
    same-package check needs a package: without one the rule throws before
    reaching it, so neither it nor the duplicate check can fire. The
    duplicate check needs a class name: without a '.' the extraction throws.
  */
  predicate Fires(check: Check, usesStatement: string, currentPackage: Option<string>,
                  allImports: map<string, Span>)
  {
    match check
    case JavaLangCheck => IsJavaLang(usesStatement)
    case GwPersistedCheck => IsGwPersisted(usesStatement)
    case SamePackageCheck =>
      currentPackage.Some? && IsSamePackage(usesStatement, currentPackage.value)
    case DuplicateCheck =>
      currentPackage.Some? && ClassName(usesStatement).Ok?
      && ClassName(usesStatement).value in allImports
  }

  function IssueIf(check: Check, usesStatement: string, currentPackage: Option<string>,
                   allImports: map<string, Span>, site: Span): seq<Issue>
  {
    if Fires(check, usesStatement, currentPackage, allImports) then [Issue(Message(check), site)] else []
  }

  /**
    The diagnostics one uses statement produces while it is declared: the
    firing checks' messages at the statement's site, in running order.
  */
  function DeclarationIssues(usesStatement: string, currentPackage: Option<string>,
                             allImports: map<string, Span>, site: Span): (r: seq<Issue>)
    ensures |r| <= 3
    ensures forall i :: 0 <= i < |r| ==> r[i].location == site
  {
    PreludesExclusive(usesStatement);
    IssueIf(JavaLangCheck, usesStatement, currentPackage, allImports, site)
    + IssueIf(GwPersistedCheck, usesStatement, currentPackage, allImports, site)
    + IssueIf(SamePackageCheck, usesStatement, currentPackage, allImports, site)
    + IssueIf(DuplicateCheck, usesStatement, currentPackage, allImports, site)
  }

  /** The exception, if any, that ends the handling of a uses statement. */
  function DeclarationFailure(usesStatement: string, currentPackage: Option<string>): (r: Option<Failure>)
    ensures r == None <==> currentPackage.Some? && '.' in usesStatement
  {
    if currentPackage.None? then Some(PackageNotSet)
    else if ClassName(usesStatement).Err? then Some(ClassName(usesStatement).error)
    else None
  }

  /**
    A check's diagnostic is among a statement's diagnostics exactly when the
    check fires; so the two prefix checks depend on the name alone, the
    same-package check on the name and the package, and the duplicate check
    on whether the class name was already a key of the table.
  */
  lemma DeclarationIssueIff(check: Check, usesStatement: string, currentPackage: Option<string>,
                            allImports: map<string, Span>, site: Span)
    ensures Issue(Message(check), site) in DeclarationIssues(usesStatement, currentPackage, allImports, site)
            <==> Fires(check, usesStatement, currentPackage, allImports)
  {
    MessageRanks(JavaLangCheck);
    MessageRanks(GwPersistedCheck);
    MessageRanks(SamePackageCheck);
    MessageRanks(DuplicateCheck);
    var x := Issue(Message(check), site);
    assert forall other: Check ::
      (x in IssueIf(other, usesStatement, currentPackage, allImports, site)
       <==> other == check && Fires(check, usesStatement, currentPackage, allImports));
  }

  /**
    Whether the java.lang and the typekey/entity diagnostics are produced
    depends on the qualified name alone: not on the package, and not on
    what was imported before.
  */
  lemma PreludeChecksIgnoreState(usesStatement: string, site: Span,
                                 package1: Option<string>, imports1: map<string, Span>,
                                 package2: Option<string>, imports2: map<string, Span>)
    ensures Issue(JavaLangMessage, site) in DeclarationIssues(usesStatement, package1, imports1, site)
            <==> Issue(JavaLangMessage, site) in DeclarationIssues(usesStatement, package2, imports2, site)
    ensures Issue(GwPersistedMessage, site) in DeclarationIssues(usesStatement, package1, imports1, site)
            <==> Issue(GwPersistedMessage, site) in DeclarationIssues(usesStatement, package2, imports2, site)
  {
    DeclarationIssueIff(JavaLangCheck, usesStatement, package1, imports1, site);
    DeclarationIssueIff(JavaLangCheck, usesStatement, package2, imports2, site);
    DeclarationIssueIff(GwPersistedCheck, usesStatement, package1, imports1, site);
    DeclarationIssueIff(GwPersistedCheck, usesStatement, package2, imports2, site);
  }

  /**
    The diagnostics of one statement appear in the order the checks run,
    each at most once: java.lang, typekey/entity, same package, duplicate.
  */
  lemma DeclarationIssuesOrdered(usesStatement: string, currentPackage: Option<string>,
                                 allImports: map<string, Span>, site: Span)
    ensures var r := DeclarationIssues(usesStatement, currentPackage, allImports, site);
      forall i, j :: 0 <= i < j < |r| ==> MessageRank(r[i].message) < MessageRank(r[j].message) < 4
  {
    MessageRanks(JavaLangCheck);
    MessageRanks(GwPersistedCheck);
    MessageRanks(SamePackageCheck);
    MessageRanks(DuplicateCheck);
  }

  /**
    `putIfAbsent`: a new class name is recorded with its site; a name that is
    already a key keeps its first site, and no other entry changes.
  */
  function InsertIfAbsent(allImports: map<string, Span>, className: string, site: Span): (r: map<string, Span>)
    ensures r.Keys == allImports.Keys + {className}
    ensures forall k :: k in allImports ==> r[k] == allImports[k]
    ensures className !in allImports ==> r[className] == site
  {
    if className in allImports then allImports else allImports[className := site]
  }

  /** The class names the table holds that were never referenced. */
  function UnusedNames(allImports: map<string, Span>, referenced: set<string>): set<string> {
    allImports.Keys - referenced
  }

  /** The unused-import diagnostics for the given class names of the table. */
  function UnusedReport(allImports: map<string, Span>, names: set<string>): set<Issue>
    requires names <= allImports.Keys
  {
    set k | k in names :: Issue(UnusedMessage(k), allImports[k])
  }

  /** The diagnostics the end of the file produces: one per unused class name. */
  function UnusedIssues(allImports: map<string, Span>, referenced: set<string>): set<Issue> {
    UnusedReport(allImports, UnusedNames(allImports, referenced))
  }

  /**
    An unused-import diagnostic names a class `k` exactly when `k` is in the
    table and was never referenced, and it then stands at `k`'s first site;
    no diagnostic of this kind is produced for a referenced name.
  */
  lemma UnusedIssueIff(allImports: map<string, Span>, referenced: set<string>, k: string, site: Span)
    ensures Issue(UnusedMessage(k), site) in UnusedIssues(allImports, referenced)
            <==> k in allImports && k !in referenced && site == allImports[k]
  {
    if Issue(UnusedMessage(k), site) in UnusedIssues(allImports, referenced) {
      var k' :| k' in UnusedNames(allImports, referenced)
                && Issue(UnusedMessage(k'), allImports[k']) == Issue(UnusedMessage(k), site);
      UnusedMessageInjective(k, k');
    }
  }

  /** Reporting one more name adds one diagnostic that was not there yet. */
  lemma UnusedReportStep(allImports: map<string, Span>, names: set<string>, k: string)
    requires names <= allImports.Keys && k in allImports && k !in names
    ensures Issue(UnusedMessage(k), allImports[k]) !in UnusedReport(allImports, names)
    ensures UnusedReport(allImports, names + {k})
            == UnusedReport(allImports, names) + {Issue(UnusedMessage(k), allImports[k])}
  {
    if Issue(UnusedMessage(k), allImports[k]) in UnusedReport(allImports, names) {
      var k' :| k' in names && Issue(UnusedMessage(k'), allImports[k']) == Issue(UnusedMessage(k), allImports[k]);
      UnusedMessageInjective(k, k');
    }
  }

  /**
    Emitting the diagnostic of one more unreported name keeps the emitted
    diagnostics equal, as a multiset, to the report of the names handled so far.
  */
  lemma UnusedReportEmit(allImports: map<string, Span>, names: set<string>, k: string, emitted: seq<Issue>)
    requires names <= allImports.Keys && k in allImports && k !in names
    requires multiset(emitted) == multiset(UnusedReport(allImports, names))
    ensures multiset(emitted + [Issue(UnusedMessage(k), allImports[k])])
            == multiset(UnusedReport(allImports, names + {k}))
  {
    var x := Issue(UnusedMessage(k), allImports[k]);
    var report := UnusedReport(allImports, names);
    UnusedReportStep(allImports, names, k);
    assert multiset(report + {x}) == multiset(report) + multiset{x};
  }

  /* ---- A run of uses statements, as the tree walk presents them ---- */

  /** A uses statement that carries a namespace: its qualified name and its site. */
  datatype UsesDecl = UsesDecl(namespace: string, site: Span)

  /** What a uses statement contributes to the table: its simple name and its site. */
  datatype ImportEntry = ImportEntry(className: string, site: Span)

  predicate AllQualified(decls: seq<UsesDecl>) {
    forall i :: 0 <= i < |decls| ==> '.' in decls[i].namespace
  }

  /** The table entries of a run of qualified uses statements, one per statement. */
  function Entries(decls: seq<UsesDecl>): (r: seq<ImportEntry>)
    requires AllQualified(decls)
    ensures |r| == |decls|
    ensures forall i :: 0 <= i < |decls| ==>
      r[i] == ImportEntry(ClassName(decls[i].namespace).value, decls[i].site)
  {
    seq(|decls|, i requires 0 <= i < |decls| => ImportEntry(ClassName(decls[i].namespace).value, decls[i].site))
  }

  /** The import table after the first `n` entries, starting from an empty table. */
  function ImportsAfter(entries: seq<ImportEntry>, n: nat): map<string, Span>
    requires n <= |entries|
  {
    if n == 0 then map[]
    else InsertIfAbsent(ImportsAfter(entries, n - 1), entries[n - 1].className, entries[n - 1].site)
  }

  /**
    The diagnostics the first `n` statements of a run emit after the package
    `currentPackage` has been declared, each checked against the table the
    statements before it have built.
  */
  function RunIssues(decls: seq<UsesDecl>, currentPackage: string, n: nat): seq<Issue>
    requires AllQualified(decls) && n <= |decls|
  {
    if n == 0 then []
    else RunIssues(decls, currentPackage, n - 1)
         + DeclarationIssues(decls[n - 1].namespace, Some(currentPackage),
                             ImportsAfter(Entries(decls), n - 1), decls[n - 1].site)
  }

  /** One more statement of a run: it completes, inserts its simple name, and appends its diagnostics. */
  lemma RunStep(decls: seq<UsesDecl>, currentPackage: string, i: nat)
    requires AllQualified(decls) && i < |decls|
    ensures DeclarationFailure(decls[i].namespace, Some(currentPackage)) == None
    ensures ImportsAfter(Entries(decls), i + 1)
            == InsertIfAbsent(ImportsAfter(Entries(decls), i), ClassName(decls[i].namespace).value, decls[i].site)
    ensures RunIssues(decls, currentPackage, i + 1)
            == RunIssues(decls, currentPackage, i)
               + DeclarationIssues(decls[i].namespace, Some(currentPackage), ImportsAfter(Entries(decls), i), decls[i].site)
  {
  }

  /** Some of the first `n` entries has the simple name `k`. */
  predicate DeclaredAmong(entries: seq<ImportEntry>, n: nat, k: string)
    requires n <= |entries|
  {
    exists j :: 0 <= j < n && entries[j].className == k
  }

  /** The table's keys are exactly the simple names declared so far. */
  lemma {:induction false} ImportsAfterKeys(entries: seq<ImportEntry>, n: nat, k: string)
    requires n <= |entries|
    ensures k in ImportsAfter(entries, n) <==> DeclaredAmong(entries, n, k)
  {
    if n > 0 {
      ImportsAfterKeys(entries, n - 1, k);
      if DeclaredAmong(entries, n, k) && entries[n - 1].className != k {
        var j :| 0 <= j < n && entries[j].className == k;
        assert DeclaredAmong(entries, n - 1, k);
      }
    }
  }

  /** Each simple name keeps the site of its first declaration. */
  lemma {:induction false} ImportsAfterFirstSite(entries: seq<ImportEntry>, n: nat, j: nat)
    requires j < n <= |entries|
    requires !DeclaredAmong(entries, j, entries[j].className)
    ensures entries[j].className in ImportsAfter(entries, n)
    ensures ImportsAfter(entries, n)[entries[j].className] == entries[j].site
  {
    if j == n - 1 {
      ImportsAfterKeys(entries, n - 1, entries[j].className);
    } else {
      ImportsAfterFirstSite(entries, n - 1, j);
    }
  }

  /**
    In a run of uses statements (after the package declaration), the
    duplicate diagnostic is produced for a statement exactly when an earlier
    statement has the same simple name: never for the first occurrence, and
    once for each later one.
  */
  lemma DuplicateOnLaterOccurrences(decls: seq<UsesDecl>, currentPackage: string, i: nat)
    requires AllQualified(decls) && i < |decls|
    ensures var entries := Entries(decls);
      Issue(DuplicateMessage, decls[i].site)
        in DeclarationIssues(decls[i].namespace, Some(currentPackage), ImportsAfter(entries, i), decls[i].site)
      <==> DeclaredAmong(entries, i, entries[i].className)
  {
    var entries := Entries(decls);
    DeclarationIssueIff(DuplicateCheck, decls[i].namespace, Some(currentPackage), ImportsAfter(entries, i), decls[i].site);
    ImportsAfterKeys(entries, i, entries[i].className);
  }
}
