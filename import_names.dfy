/**
  The string functions behind the unnecessary-import rule: extracting the
  simple class name of a qualified import, the two "always available"
  prefix tests, the same-package test, and the lexical test that decides
  whether an identifier is taken for a class reference.

  Java's `String.lastIndexOf(char)` and `String.indexOf(char, from)` are
  modelled by `LastIndexOf` and `IndexOf`, so that the conditions read as
  the rule writes them; lemmas then say what those conditions mean.
*/
module ImportNames {

  datatype Option<+T> = None | Some(value: T)

  /** The exceptions the rule can raise while it handles a uses statement. */
  datatype Failure =
    | NoPackageFound   // IllegalArgumentException("No package found.") from the class-name extraction
    | PackageNotSet    // NullPointerException: a uses statement was seen before any package declaration

  datatype Result<+T> = Ok(value: T) | Err(error: Failure)

  /** `s.startsWith(prefix)`: `s` is `prefix` followed by the rest of `s`. */
  predicate StartsWith(s: string, prefix: string): (r: bool)
    ensures r <==> |prefix| <= |s| && s == prefix + s[|prefix|..]
  {
    |prefix| <= |s| && s[..|prefix|] == prefix
  }

  /** `s.lastIndexOf(c)`: the position of the last `c` in `s`, or -1 when there is none. */
  function LastIndexOf(s: string, c: char): (r: int)
    ensures -1 <= r < |s|
    ensures r == -1 <==> c !in s
    ensures r >= 0 ==> s[r] == c && c !in s[r + 1..]
  {
    var r := LastIndexOfBefore(s, c, |s|);
    r
  }

  /** The backward scan behind `LastIndexOf`: the last `c` among the first `n` characters. */
  function LastIndexOfBefore(s: string, c: char, n: nat): (r: int)
    requires n <= |s|
    ensures -1 <= r < n
    ensures r == -1 <==> forall i :: 0 <= i < n ==> s[i] != c
    ensures r >= 0 ==> s[r] == c && forall i :: r < i < n ==> s[i] != c
  {
    if n == 0 then -1
    else if s[n - 1] == c then n - 1
    else LastIndexOfBefore(s, c, n - 1)
  }

  /** `s.indexOf(c, from)`: the first position at or after `from` holding `c`, or -1. */
  function IndexOf(s: string, c: char, from: nat): (r: int)
    ensures r == -1 || from <= r < |s|
    ensures r == -1 <==> forall i :: from <= i < |s| ==> s[i] != c
    ensures r >= 0 ==> s[r] == c && forall i :: from <= i < r ==> s[i] != c
    decreases |s| - from
  {
    if from >= |s| then -1
    else if s[from] == c then from
    else IndexOf(s, c, from + 1)
  }

  /**
    The simple class name of a qualified import: the text after its last
    '.'. A name without any '.' is rejected with `NoPackageFound`.
  */
  function ClassName(qualified: string): (r: Result<string>)
    ensures r.Err? <==> '.' !in qualified
    ensures r.Err? ==> r.error == NoPackageFound
    ensures r.Ok? ==> '.' !in r.value && |r.value| < |qualified|
    ensures r.Ok? ==> qualified[|qualified| - |r.value| - 1] == '.'
    ensures r.Ok? ==> r.value == qualified[|qualified| - |r.value|..]
  {
    var lastIndexOfDot := LastIndexOf(qualified, '.');
    if lastIndexOfDot == -1 then Err(NoPackageFound)
    else Ok(qualified[lastIndexOfDot + 1..])
  }

  /** Any prefix followed by '.' and a dot-free name has that name as its class name. */
  lemma ClassNameOfQualified(prefix: string, name: string)
    requires '.' !in name
    ensures ClassName(prefix + "." + name) == Ok(name)
  {
    var q := prefix + "." + name;
    assert q[|prefix|] == '.';
    var r := ClassName(q);
    assert r.Ok?;
    var n := r.value;
    assert n == q[|q| - |n|..] == name;
  }

  /** The two cases the rule's tests exercise: a qualified name, and a bare one. */
  lemma ClassNameExamples()
    ensures ClassName("de.friday.claims.SomeClass") == Ok("SomeClass")
    ensures ClassName("JustClassName") == Err(NoPackageFound)
  {
    ClassNameOfQualified("de.friday.claims", "SomeClass");
    assert forall i :: 0 <= i < |"JustClassName"| ==> "JustClassName"[i] != '.';
  }

  const JavaLangPrefix := "java.lang."
  const TypekeyPrefix := "typekey."
  const EntityPrefix := "entity."

  /**
    The import names a class of `java.lang`, which Gosu makes available
    everywhere. Such a name has a package part, so its class name is defined.
  */
  predicate IsJavaLang(usesStatement: string): (r: bool)
    ensures r <==> exists rest :: usesStatement == JavaLangPrefix + rest
    ensures r ==> '.' in usesStatement
  {
    StartsWith(usesStatement, JavaLangPrefix)
  }

  /**
    The import names a Guidewire typekey or entity class, which are
    available everywhere. Such a name has a package part, so its class name
    is defined.
  */
  predicate IsGwPersisted(usesStatement: string): (r: bool)
    ensures r <==> exists rest :: usesStatement == TypekeyPrefix + rest || usesStatement == EntityPrefix + rest
    ensures r ==> '.' in usesStatement
  {
    StartsWith(usesStatement, TypekeyPrefix) || StartsWith(usesStatement, EntityPrefix)
  }

  /** No name is both a `java.lang` class and a typekey or entity class. */
  lemma PreludesExclusive(usesStatement: string)
    ensures !(IsJavaLang(usesStatement) && IsGwPersisted(usesStatement))
  {
    if IsJavaLang(usesStatement) {
      assert usesStatement[0] == JavaLangPrefix[0] == 'j';
    }
    if StartsWith(usesStatement, TypekeyPrefix) {
      assert usesStatement[0] == TypekeyPrefix[0] == 't';
    }
    if StartsWith(usesStatement, EntityPrefix) {
      assert usesStatement[0] == EntityPrefix[0] == 'e';
    }
  }

  /**
    The same-package condition as the rule evaluates it: the import is the
    package itself, or it starts with the package, the next character is '.',
    and no further '.' follows. The index `|currentPackage|` is in range
    whenever it is read, because the first disjunct has failed. What it
    decides: the import is the package itself, or a direct member
    `currentPackage + "." + rest` whose `rest` holds no '.'.
  */
  predicate IsSamePackage(usesStatement: string, currentPackage: string): (r: bool)
    ensures r <==>
      usesStatement == currentPackage
      || (StartsWith(usesStatement, currentPackage + ".")
          && '.' !in usesStatement[|currentPackage| + 1..])
  {
    usesStatement == currentPackage
    || (StartsWith(usesStatement, currentPackage)
        && usesStatement[|currentPackage|] == '.'
        && IndexOf(usesStatement, '.', |currentPackage| + 1) == -1)
  }

  /**
    A direct member of the package is a same-package import; a member of a
    sub-package (a `rest` that still holds a '.') never is.
  */
  lemma SamePackageMembers(currentPackage: string, rest: string)
    ensures IsSamePackage(currentPackage + "." + rest, currentPackage) <==> '.' !in rest
  {
    var q := currentPackage + "." + rest;
    assert q[..|currentPackage| + 1] == currentPackage + ".";
    assert q[|currentPackage| + 1..] == rest;
  }

  /** The characters Java's regular-expression '.' does not match. */
  predicate IsLineTerminator(c: char) {
    c == '\n' || c == '\r' || c == '\U{85}' || c == '\U{2028}' || c == '\U{2029}'
  }

  /**
    `identifier.matches("[A-Z].*")`: an ASCII capital letter followed by any
    characters other than line terminators.
  */
  predicate IsCapitalised(identifier: string) {
    |identifier| > 0
    && 'A' <= identifier[0] <= 'Z'
    && forall i :: 1 <= i < |identifier| ==> !IsLineTerminator(identifier[i])
  }
}
