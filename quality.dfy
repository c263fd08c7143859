/** The quality evaluator and the admission filter. The evaluator combines
    what eight regular expressions (seven compiled patterns and the word
    pattern) find in a Java file into four scores in [0, 1]; the filter
    admits a file when all four clear their thresholds. The regular
    expressions themselves are not modelled: their findings are the
    `PatternFindings` record passed in. */
module Quality {
  import opened Text

  /** What the regular expressions find in one file: whether a license phrase
      follows a comment marker; the type, method and variable names; whether a
      package line and an import line are present; the number of words inside
      `/** ... */` blocks and in the whole text. */
  datatype PatternFindings = PatternFindings(
    licenseFound: bool,
    classNames: seq<string>,
    methodNames: seq<string>,
    variableNames: seq<string>,
    packageFound: bool,
    importFound: bool,
    docWords: nat,
    totalWords: nat)

  datatype Scores = Scores(license: real, naming: real, docQuality: real, structure: real)

  /** Every score lies in [0, 1]. */
  predicate InUnitRange(s: Scores)
  {
    && 0.0 <= s.license <= 1.0
    && 0.0 <= s.naming <= 1.0
    && 0.0 <= s.docQuality <= 1.0
    && 0.0 <= s.structure <= 1.0
  }

  predicate IsAsciiUpper(c: char) { 'A' <= c <= 'Z' }
  predicate IsAsciiLower(c: char) { 'a' <= c <= 'z' }
  predicate IsAsciiDigit(c: char) { '0' <= c <= '9' }

  /** The type-name rule: `re.match` of `[A-Z][a-zA-Z0-9]*`, which holds
      when some prefix of the name is a word of the pattern. The match is
      anchored only at the start and the trailing `*` may match nothing, so
      only the first character decides. */
  function IsCamelCase(name: string): (r: bool)
    ensures r <==> exists k :: CamelPrefix(name, k)
  {
    if |name| > 0 && IsAsciiUpper(name[0]) then
      assert CamelPrefix(name, 1);
      true
    else false
  }

  /** The method- and variable-name rule: `re.match` of
      `[a-z][a-zA-Z0-9_]*`, decided by the first character for the same
      reason. */
  function IsSnakeCase(name: string): (r: bool)
    ensures r <==> exists k :: SnakePrefix(name, k)
  {
    if |name| > 0 && IsAsciiLower(name[0]) then
      assert SnakePrefix(name, 1);
      true
    else false
  }

  /** `name[..k]` is a word of `[A-Z][a-zA-Z0-9]*`. */
  predicate CamelPrefix(name: string, k: int)
  {
    1 <= k <= |name| && IsAsciiUpper(name[0])
    && forall i :: 1 <= i < k ==>
         IsAsciiUpper(name[i]) || IsAsciiLower(name[i]) || IsAsciiDigit(name[i])
  }

  /** `name[..k]` is a word of `[a-z][a-zA-Z0-9_]*`. */
  predicate SnakePrefix(name: string, k: int)
  {
    1 <= k <= |name| && IsAsciiLower(name[0])
    && forall i :: 1 <= i < k ==>
         IsAsciiUpper(name[i]) || IsAsciiLower(name[i]) || IsAsciiDigit(name[i]) || name[i] == '_'
  }

  /** How many names satisfy the rule. */
  function CountCompliant(names: seq<string>, rule: string -> bool): (r: nat)
    ensures r <= |names|
  {
    if names == [] then 0
    else CountCompliant(names[..|names| - 1], rule) + (if rule(names[|names| - 1]) then 1 else 0)
  }

  /** The share of names that satisfy the rule. */
  function CompliantFraction(names: seq<string>, rule: string -> bool): (r: real)
    requires names != []
    ensures 0.0 <= r <= 1.0
  {
    CountCompliant(names, rule) as real / |names| as real
  }

  /** Every name satisfies the rule exactly when all of them are counted. */
  lemma {:induction false} AllCompliant(names: seq<string>, rule: string -> bool)
    ensures CountCompliant(names, rule) == |names| <==> forall k :: 0 <= k < |names| ==> rule(names[k])
  {
    if names != [] {
      var init := names[..|names| - 1];
      AllCompliant(init, rule);
      if CountCompliant(names, rule) == |names| {
        forall k | 0 <= k < |names| ensures rule(names[k]) {
          if k < |init| {
            assert init[k] == names[k];
          }
        }
      }
    }
  }

  /** The naming score: over the name lists that are non-empty, the mean of
      their compliant shares; 0 when all three lists are empty. */
  function NamingScore(classNames: seq<string>, methodNames: seq<string>, variableNames: seq<string>): (r: real)
    ensures 0.0 <= r <= 1.0
  {
    var classPart := if classNames != [] then CompliantFraction(classNames, IsCamelCase) else 0.0;
    var methodPart := if methodNames != [] then CompliantFraction(methodNames, IsSnakeCase) else 0.0;
    var variablePart := if variableNames != [] then CompliantFraction(variableNames, IsSnakeCase) else 0.0;
    var checks := (if classNames != [] then 1 else 0) + (if methodNames != [] then 1 else 0)
                  + (if variableNames != [] then 1 else 0);
    (classPart + methodPart + variablePart) / (if checks < 1 then 1 else checks) as real
  }

  /** The naming score lies in [0, 1] and is 0 when no names were found. */
  lemma NamingScoreRange(classNames: seq<string>, methodNames: seq<string>, variableNames: seq<string>)
    ensures 0.0 <= NamingScore(classNames, methodNames, variableNames) <= 1.0
    ensures classNames == [] && methodNames == [] && variableNames == [] ==>
            NamingScore(classNames, methodNames, variableNames) == 0.0
  {
  }

  /** Empty name lists are left out of the mean rather than counted as 0:
      with only one non-empty list, the score is that list's share. */
  lemma NamingSkipsEmptyLists(classNames: seq<string>, methodNames: seq<string>, variableNames: seq<string>)
    ensures classNames != [] && methodNames == [] && variableNames == [] ==>
            NamingScore(classNames, methodNames, variableNames) == CompliantFraction(classNames, IsCamelCase)
    ensures classNames == [] && methodNames != [] && variableNames == [] ==>
            NamingScore(classNames, methodNames, variableNames) == CompliantFraction(methodNames, IsSnakeCase)
    ensures classNames == [] && methodNames == [] && variableNames != [] ==>
            NamingScore(classNames, methodNames, variableNames) == CompliantFraction(variableNames, IsSnakeCase)
  {
  }

  /** When some names were found and all of them follow their rule, the
      naming score is 1. */
  lemma NamingPerfect(classNames: seq<string>, methodNames: seq<string>, variableNames: seq<string>)
    requires classNames != [] || methodNames != [] || variableNames != []
    requires forall k :: 0 <= k < |classNames| ==> IsCamelCase(classNames[k])
    requires forall k :: 0 <= k < |methodNames| ==> IsSnakeCase(methodNames[k])
    requires forall k :: 0 <= k < |variableNames| ==> IsSnakeCase(variableNames[k])
    ensures NamingScore(classNames, methodNames, variableNames) == 1.0
  {
    AllCompliant(classNames, IsCamelCase);
    AllCompliant(methodNames, IsSnakeCase);
    AllCompliant(variableNames, IsSnakeCase);
    assert classNames != [] ==> CompliantFraction(classNames, IsCamelCase) == 1.0;
    assert methodNames != [] ==> CompliantFraction(methodNames, IsSnakeCase) == 1.0;
    assert variableNames != [] ==> CompliantFraction(variableNames, IsSnakeCase) == 1.0;
  }

  /** Twice the share of documentation words, capped at 1; the denominator
      carries 1e-6 so that a text without words divides by a non-zero value. */
  function DocQuality(docWords: nat, totalWords: nat): (r: real)
    ensures 0.0 <= r <= 1.0
    ensures docWords == 0 ==> r == 0.0
    ensures docWords > 0 ==> r > 0.0
  {
    var ratio := docWords as real / (totalWords as real + 0.000001) * 2.0;
    if ratio < 1.0 then ratio else 1.0
  }

  /** The structure score: 0.2 for a package line, 0.3 for an import line,
      0.5 for at least one type declaration. */
  function StructureScore(packageFound: bool, importFound: bool, classFound: bool): (r: real)
    ensures 0.0 <= r <= 1.0
  {
    (if packageFound then 0.2 else 0.0)
      + (if importFound then 0.3 else 0.0)
      + (if classFound then 0.5 else 0.0)
  }

  /** The structure score lies in [0, 1], and it reaches the admission
      threshold 0.8 exactly when both an import line and a type declaration
      were found: the package line alone can never make up for either. */
  lemma StructureThreshold(packageFound: bool, importFound: bool, classFound: bool)
    ensures 0.0 <= StructureScore(packageFound, importFound, classFound) <= 1.0
    ensures StructureScore(packageFound, importFound, classFound) >= 0.8 <==> importFound && classFound
  {
  }

  /** `evaluate_code_quality`: a text that strips to nothing scores 0
      everywhere; otherwise the license score is 1 or 0 as a license phrase
      was found, and the other three scores combine the findings. */
  function EvaluateCodeQuality(code: string, found: PatternFindings): (s: Scores)
    ensures InUnitRange(s)
  {
    if Strip(code) == [] then Scores(0.0, 0.0, 0.0, 0.0)
    else
      NamingScoreRange(found.classNames, found.methodNames, found.variableNames);
      StructureThreshold(found.packageFound, found.importFound, found.classNames != []);
      Scores(
        if found.licenseFound then 1.0 else 0.0,
        NamingScore(found.classNames, found.methodNames, found.variableNames),
        DocQuality(found.docWords, found.totalWords),
        StructureScore(found.packageFound, found.importFound, found.classNames != []))
  }

  /** A whitespace-only text scores 0 on all four counts, whatever the
      findings say. */
  lemma BlankTextScoresZero(code: string, found: PatternFindings)
    requires AllSpace(code)
    ensures EvaluateCodeQuality(code, found) == Scores(0.0, 0.0, 0.0, 0.0)
  {
    StripEmptyIffAllSpace(code);
  }

  /** The license score is binary: on a text that is not all whitespace it is
      1 exactly when a license phrase was found, and 0 otherwise. */
  lemma LicenseIsBinary(code: string, found: PatternFindings)
    ensures var s := EvaluateCodeQuality(code, found);
      (s.license == 0.0 || s.license == 1.0)
      && (!AllSpace(code) ==> (s.license == 1.0 <==> found.licenseFound))
  {
    StripEmptyIffAllSpace(code);
  }

  /** `filter_high_quality`: a license, a near-complete structure, at least
      a little documentation and mostly conventional names. */
  function FilterHighQuality(s: Scores): bool
  {
    s.license > 0.0 && s.structure >= 0.8 && s.docQuality >= 0.05 && s.naming >= 0.5
  }

  /** Raising scores never turns an admission into a rejection. */
  lemma FilterMonotone(s: Scores, t: Scores)
    requires s.license <= t.license && s.naming <= t.naming
    requires s.docQuality <= t.docQuality && s.structure <= t.structure
    ensures FilterHighQuality(s) ==> FilterHighQuality(t)
  {
  }

  /** An admitted text is not blank and has a license phrase, an import
      line, at least one type declaration and some documentation words. */
  lemma AdmissionNeeds(code: string, found: PatternFindings)
    requires FilterHighQuality(EvaluateCodeQuality(code, found))
    ensures !AllSpace(code)
    ensures found.licenseFound && found.importFound && found.classNames != []
    ensures found.docWords > 0
  {
    StripEmptyIffAllSpace(code);
    StructureThreshold(found.packageFound, found.importFound, found.classNames != []);
  }

  /** The admission decision for a text that is not blank, in terms of the
      findings alone. */
  lemma AdmissionFromFindings(code: string, found: PatternFindings)
    requires !AllSpace(code)
    ensures FilterHighQuality(EvaluateCodeQuality(code, found)) <==>
      && found.licenseFound && found.importFound && found.classNames != []
      && DocQuality(found.docWords, found.totalWords) >= 0.05
      && NamingScore(found.classNames, found.methodNames, found.variableNames) >= 0.5
  {
    StripEmptyIffAllSpace(code);
    StructureThreshold(found.packageFound, found.importFound, found.classNames != []);
  }
}
