/** The rule-based code analyser: a table of line rules per language, the
    per-line pass that reports every rule whose pattern matches, and the
    file-level checks (file size, long lines, missing docstrings, wildcard
    imports, missing semicolons).

    The regular-expression engine is not modelled: `re.search` with
    `re.IGNORECASE` is the `Matcher` parameter, whose outcome may also be
    the `re.error` a bad pattern raises or any other exception. */
module CodeAnalyzer {
  import opened Text

  // ---------------------------------------------------------------------------
  // Issues and rules

  datatype Kind = Security | BestPractice | CodeQuality | AnalysisError

  datatype Severity = Critical | High | Medium | Low

  /** The `type` field of an issue. */
  function KindText(k: Kind): string {
    match k
    case Security => "Security"
    case BestPractice => "Best Practice"
    case CodeQuality => "Code Quality"
    case AnalysisError => "Analysis Error"
  }

  /** The `severity` field of an issue. */
  function SeverityText(s: Severity): string {
    match s
    case Critical => "critical"
    case High => "high"
    case Medium => "medium"
    case Low => "low"
  }

  /** What an issue says: the description of a line rule, or one of the
      file-level findings. */
  datatype Note =
    | RuleHit(description: string)
    | LargeFile
    | LineTooLong(length: nat)
    | FunctionWithoutDocstring
    | ClassWithoutDocstring
    | WildcardImport
    | MissingSemicolon
    | CouldNotAnalyze(reason: string)

  /** The `description` field of an issue. */
  function Describe(n: Note): string {
    match n
    case RuleHit(d) => d
    case LargeFile => "Large file size - consider splitting into smaller modules"
    case LineTooLong(length) => "Line too long (" + Decimal(length) + " characters)"
    case FunctionWithoutDocstring => "Public function missing docstring"
    case ClassWithoutDocstring => "Class missing docstring"
    case WildcardImport => "Avoid wildcard imports (import *)"
    case MissingSemicolon => "Missing semicolon"
    case CouldNotAnalyze(reason) => "Could not fully analyze file: " + reason
  }

  /** An issue; `snippet` is `None` for the findings that carry no
      `code_snippet`. */
  datatype Issue = Issue(kind: Kind, note: Note, severity: Severity, line: nat, file: string, snippet: Option<string>)

  datatype Rule = Rule(kind: Kind, pattern: string, description: string, severity: Severity)

  const PythonRules: seq<Rule> := [
    Rule(Security, "eval\\s*\\(", "Use of eval() function can be dangerous", High),
    Rule(Security, "exec\\s*\\(", "Use of exec() function can be dangerous", High),
    Rule(BestPractice, "except\\s*:", "Bare except clause catches all exceptions", Medium),
    Rule(CodeQuality, "print\\s*\\(", "Consider using logging instead of print statements", Low),
    Rule(Security, "shell\\s*=\\s*True", "subprocess with shell=True can be dangerous", High)]

  const JavaScriptRules: seq<Rule> := [
    Rule(Security, "eval\\s*\\(", "Use of eval() function can be dangerous", High),
    Rule(BestPractice, "var\\s+\\w+", "Consider using let or const instead of var", Medium),
    Rule(Security, "innerHTML\\s*=", "Direct innerHTML assignment can lead to XSS", High),
    Rule(CodeQuality, "console\\.log\\s*\\(", "Remove console.log statements in production", Low)]

  const SqlRules: seq<Rule> := [
    Rule(Security, "SELECT\\s+.*\\+.*FROM", "Potential SQL injection vulnerability", Critical),
    Rule(Security, "INSERT\\s+.*\\+.*VALUES", "Potential SQL injection vulnerability", Critical),
    Rule(Security, "UPDATE\\s+.*\\+.*SET", "Potential SQL injection vulnerability", Critical)]

  const GeneralRules: seq<Rule> := [
    Rule(Security, "password\\s*=\\s*[\"'][^\"']+[\"']", "Hardcoded password detected", Critical),
    Rule(Security, "api_key\\s*=\\s*[\"'][^\"']+[\"']", "Hardcoded API key detected", Critical),
    Rule(Security, "secret\\s*=\\s*[\"'][^\"']+[\"']", "Hardcoded secret detected", Critical),
    Rule(BestPractice, "TODO|FIXME|HACK", "TODO/FIXME comment found", Low)]

  /** The extensions analysed as JavaScript, by the rule choice and by the
      structural checks alike. */
  predicate IsJavaScript(extension: string) {
    extension == "js" || extension == "jsx" || extension == "ts" || extension == "tsx"
  }

  /** The rules applied to each line: the language's table, chosen from the
      extension, followed by the general rules, which always apply. */
  function RulesFor(extension: string): (rules: seq<Rule>)
    ensures extension == "py" ==> rules == PythonRules + GeneralRules
    ensures IsJavaScript(extension) ==> rules == JavaScriptRules + GeneralRules
    ensures extension == "sql" ==> rules == SqlRules + GeneralRules
    ensures extension != "py" && !IsJavaScript(extension) && extension != "sql" ==> rules == GeneralRules
  {
    (if extension == "py" then PythonRules
     else if IsJavaScript(extension) then JavaScriptRules
     else if extension == "sql" then SqlRules
     else [])
    + GeneralRules
  }

  /** No table rule is of the kind reserved for analysis failures. */
  predicate NoFailureKind(rules: seq<Rule>) {
    forall k :: 0 <= k < |rules| ==> rules[k].kind != AnalysisError
  }

  lemma TablesHaveNoFailureKind()
    ensures NoFailureKind(PythonRules) && NoFailureKind(JavaScriptRules)
    ensures NoFailureKind(SqlRules) && NoFailureKind(GeneralRules)
  {
  }

  /** Whichever table the extension picks, the general rules come last and
      no rule is of the failure kind. */
  lemma RulesForEndsWithGeneral(extension: string)
    ensures |RulesFor(extension)| >= |GeneralRules|
    ensures RulesFor(extension)[|RulesFor(extension)| - |GeneralRules|..] == GeneralRules
    ensures NoFailureKind(RulesFor(extension))
  {
    TablesHaveNoFailureKind();
    var rules := RulesFor(extension);
    var front := rules[..|rules| - |GeneralRules|];
    assert rules == front + GeneralRules;
    forall k | 0 <= k < |rules|
      ensures rules[k].kind != AnalysisError
    {
      if k < |front| {
        assert rules[k] == front[k];
      } else {
        assert rules[k] == GeneralRules[k - |front|];
      }
    }
  }

  // ---------------------------------------------------------------------------
  // _analyze_line

  /** The outcome of `re.search(pattern, line, re.IGNORECASE)`. */
  datatype Match = Found | NotFound | BadPattern | Raised(reason: string)

  /** The abstract matcher, applied to a pattern and a line. */
  type Matcher = (string, string) -> Match

  /** The rules whose pattern matches the line, in rule order. */
  function Matching(rules: seq<Rule>, line: string, matcher: Matcher): (hits: seq<Rule>)
    ensures |hits| <= |rules|
    ensures forall r :: r in hits ==> r in rules && matcher(r.pattern, line) == Found
    ensures forall k :: 0 <= k < |rules| && matcher(rules[k].pattern, line) == Found ==> rules[k] in hits
  {
    if rules == [] then []
    else
      var last := rules[|rules| - 1];
      var front := rules[..|rules| - 1];
      assert forall k :: 0 <= k < |front| ==> front[k] == rules[k];
      Matching(front, line, matcher) + (if matcher(last.pattern, line) == Found then [last] else [])
  }

  /** The reason of the first rule whose matching raised something other
      than `re.error`; `None` when none did. */
  function FirstRaised(rules: seq<Rule>, line: string, matcher: Matcher): (r: Option<string>)
    ensures r.None? <==> forall k :: 0 <= k < |rules| ==> !matcher(rules[k].pattern, line).Raised?
    ensures r.Some? ==> exists k :: 0 <= k < |rules| && matcher(rules[k].pattern, line) == Raised(r.value)
                                    && forall j :: 0 <= j < k ==> !matcher(rules[j].pattern, line).Raised?
  {
    if rules == [] then None
    else
      var front := rules[..|rules| - 1];
      var last := rules[|rules| - 1];
      assert forall k :: 0 <= k < |front| ==> front[k] == rules[k];
      match FirstRaised(front, line, matcher)
      case Some(e) => Some(e)
      case None =>
        (match matcher(last.pattern, line)
         case Raised(e) => Some(e)
         case _ => None)
  }

  /** No issue is of the failure kind, and every issue names the file. */
  predicate Clean(issues: seq<Issue>, filename: string) {
    forall i :: i in issues ==> i.kind != AnalysisError && i.file == filename
  }

  /** The issue a matching rule produces on a line. */
  function Hit(rule: Rule, line: string, lineNum: nat, filename: string): Issue {
    Issue(rule.kind, RuleHit(rule.description), rule.severity, lineNum, filename, Some(Strip(line)))
  }

  function HitIssues(hits: seq<Rule>, line: string, lineNum: nat, filename: string): (issues: seq<Issue>)
    ensures |issues| == |hits|
    ensures forall k :: 0 <= k < |hits| ==> issues[k] == Hit(hits[k], line, lineNum, filename)
  {
    seq(|hits|, k requires 0 <= k < |hits| => Hit(hits[k], line, lineNum, filename))
  }

  /** What `_analyze_line` gives back: the issues of the matching rules, or
      the exception that escapes it. */
  function LineResult(line: string, lineNum: nat, filename: string, rules: seq<Rule>,
                      matcher: Matcher): (r: Result<seq<Issue>>)
    ensures r.Err? <==> exists k :: 0 <= k < |rules| && matcher(rules[k].pattern, line).Raised?
    // the exception that escapes is the first one raised
    ensures r.Err? ==> exists k :: 0 <= k < |rules| && matcher(rules[k].pattern, line) == Raised(r.error)
                                   && forall j :: 0 <= j < k ==> !matcher(rules[j].pattern, line).Raised?
    // every issue is the hit of a matching rule, and every matching rule has its hit
    ensures r.Ok? ==> forall i :: i in r.value ==>
              exists k :: 0 <= k < |rules| && matcher(rules[k].pattern, line) == Found
                          && i == Hit(rules[k], line, lineNum, filename)
    ensures r.Ok? ==> forall k :: 0 <= k < |rules| && matcher(rules[k].pattern, line) == Found ==>
              Hit(rules[k], line, lineNum, filename) in r.value
    ensures r.Ok? ==> forall i :: i in r.value ==>
              i.line == lineNum && i.file == filename && i.snippet == Some(Strip(line)) && i.note.RuleHit?
    ensures r.Ok? ==> forall i :: i in r.value ==> exists k :: 0 <= k < |rules| && i.kind == rules[k].kind
    ensures r.Ok? && NoFailureKind(rules) ==> Clean(r.value, filename)
  {
    match FirstRaised(rules, line, matcher)
    case Some(e) => Err(e)
    case None =>
      var issues := HitIssues(Matching(rules, line, matcher), line, lineNum, filename);
      HitsOnLine(line, lineNum, filename, rules, matcher);
      HitsOfRules(line, lineNum, filename, rules, matcher);
      HitsOfMatches(line, lineNum, filename, rules, matcher);
      Ok(issues)
  }

  /** Every issue of a matching rule is a rule hit on the line. */
  lemma HitsOnLine(line: string, lineNum: nat, filename: string, rules: seq<Rule>, matcher: Matcher)
    ensures forall i :: i in HitIssues(Matching(rules, line, matcher), line, lineNum, filename) ==>
              i.line == lineNum && i.file == filename && i.snippet == Some(Strip(line)) && i.note.RuleHit?
  {
    var hits := Matching(rules, line, matcher);
    var issues := HitIssues(hits, line, lineNum, filename);
    forall i | i in issues
      ensures i.line == lineNum && i.file == filename && i.snippet == Some(Strip(line)) && i.note.RuleHit?
    {
      var j :| 0 <= j < |issues| && issues[j] == i;
      assert i == Hit(hits[j], line, lineNum, filename);
    }
  }

  /** The issues of the matching rules are exactly the hits of the rules
      whose pattern is found on the line. */
  lemma HitsOfMatches(line: string, lineNum: nat, filename: string, rules: seq<Rule>, matcher: Matcher)
    ensures forall i :: i in HitIssues(Matching(rules, line, matcher), line, lineNum, filename) ==>
              exists k :: 0 <= k < |rules| && matcher(rules[k].pattern, line) == Found
                          && i == Hit(rules[k], line, lineNum, filename)
    ensures forall k :: 0 <= k < |rules| && matcher(rules[k].pattern, line) == Found ==>
              Hit(rules[k], line, lineNum, filename) in HitIssues(Matching(rules, line, matcher), line, lineNum, filename)
  {
    var hits := Matching(rules, line, matcher);
    var issues := HitIssues(hits, line, lineNum, filename);
    forall i | i in issues
      ensures exists k :: 0 <= k < |rules| && matcher(rules[k].pattern, line) == Found
                          && i == Hit(rules[k], line, lineNum, filename)
    {
      var j :| 0 <= j < |issues| && issues[j] == i;
      assert hits[j] in hits;
      var k :| 0 <= k < |rules| && rules[k] == hits[j];
    }
    forall k | 0 <= k < |rules| && matcher(rules[k].pattern, line) == Found
      ensures Hit(rules[k], line, lineNum, filename) in issues
    {
      var j :| 0 <= j < |hits| && hits[j] == rules[k];
      assert issues[j] == Hit(rules[k], line, lineNum, filename);
    }
  }

  /** Every issue of a matching rule has the type of some rule, so none is of
      the failure kind when no rule is. */
  lemma HitsOfRules(line: string, lineNum: nat, filename: string, rules: seq<Rule>, matcher: Matcher)
    ensures forall i :: i in HitIssues(Matching(rules, line, matcher), line, lineNum, filename) ==>
              exists k :: 0 <= k < |rules| && i.kind == rules[k].kind
    ensures NoFailureKind(rules) ==> Clean(HitIssues(Matching(rules, line, matcher), line, lineNum, filename), filename)
  {
    var hits := Matching(rules, line, matcher);
    var issues := HitIssues(hits, line, lineNum, filename);
    forall i | i in issues
      ensures exists k :: 0 <= k < |rules| && i.kind == rules[k].kind
    {
      var j :| 0 <= j < |issues| && issues[j] == i;
      assert i == Hit(hits[j], line, lineNum, filename);
      assert hits[j] in rules;
      var k :| 0 <= k < |rules| && rules[k] == hits[j];
    }
  }

  /** `_analyze_line`: one issue per matching rule, in rule order; a pattern
      that raises `re.error` is skipped, any other exception escapes. */
  method AnalyzeLine(line: string, lineNum: nat, filename: string, rules: seq<Rule>, matcher: Matcher)
    returns (r: Result<seq<Issue>>)
    ensures r.Err? <==> FirstRaised(rules, line, matcher).Some?
    ensures r.Err? ==> r.error == FirstRaised(rules, line, matcher).value
    ensures r.Ok? ==> r.value == HitIssues(Matching(rules, line, matcher), line, lineNum, filename)
    ensures r == LineResult(line, lineNum, filename, rules, matcher)
  {
    var issues: seq<Issue> := [];
    var i := 0;
    while i < |rules|
      invariant 0 <= i <= |rules|
      invariant FirstRaised(rules[..i], line, matcher).None?
      invariant issues == HitIssues(Matching(rules[..i], line, matcher), line, lineNum, filename)
    {
      var outcome := matcher(rules[i].pattern, line);
      if outcome.Raised? {
        FirstRaisedPrefix(rules, line, matcher, i);
        return Err(outcome.reason);
      }
      PrefixStep(rules, line, lineNum, filename, matcher, i);
      if outcome == Found {
        issues := issues + [Hit(rules[i], line, lineNum, filename)];
      }
      i := i + 1;
    }
    assert rules[..i] == rules;
    return Ok(issues);
  }

  /** One more rule that does not raise adds its hit, if it matches, and
      leaves the prefix without a raise. */
  lemma PrefixStep(rules: seq<Rule>, line: string, lineNum: nat, filename: string, matcher: Matcher, i: nat)
    requires i < |rules| && !matcher(rules[i].pattern, line).Raised?
    ensures FirstRaised(rules[..i + 1], line, matcher) == FirstRaised(rules[..i], line, matcher)
    ensures HitIssues(Matching(rules[..i + 1], line, matcher), line, lineNum, filename)
            == HitIssues(Matching(rules[..i], line, matcher), line, lineNum, filename)
               + (if matcher(rules[i].pattern, line) == Found then [Hit(rules[i], line, lineNum, filename)] else [])
  {
    assert rules[..i + 1][..i] == rules[..i];
    assert rules[..i + 1][i] == rules[i];
    var hits := Matching(rules[..i], line, matcher);
    if matcher(rules[i].pattern, line) == Found {
      assert Matching(rules[..i + 1], line, matcher) == hits + [rules[i]];
      HitIssuesAppend(hits, rules[i], line, lineNum, filename);
    } else {
      assert Matching(rules[..i + 1], line, matcher) == hits;
    }
  }

  lemma HitIssuesAppend(hits: seq<Rule>, rule: Rule, line: string, lineNum: nat, filename: string)
    ensures HitIssues(hits + [rule], line, lineNum, filename)
            == HitIssues(hits, line, lineNum, filename) + [Hit(rule, line, lineNum, filename)]
  {
    var a := HitIssues(hits + [rule], line, lineNum, filename);
    var b := HitIssues(hits, line, lineNum, filename) + [Hit(rule, line, lineNum, filename)];
    assert |a| == |b|;
    forall k | 0 <= k < |a|
      ensures a[k] == b[k]
    {
      if k < |hits| { assert (hits + [rule])[k] == hits[k]; }
    }
  }

  /** A rule that raises after a prefix that did not is the first to raise. */
  lemma FirstRaisedPrefix(rules: seq<Rule>, line: string, matcher: Matcher, i: nat)
    requires i < |rules| && FirstRaised(rules[..i], line, matcher).None?
    requires matcher(rules[i].pattern, line).Raised?
    ensures FirstRaised(rules, line, matcher) == Some(matcher(rules[i].pattern, line).reason)
  {
    FirstRaisedExtends(rules, line, matcher, i + 1);
    assert rules[..i + 1][..i] == rules[..i];
  }

  /** Once some prefix has raised, every longer prefix reports the same. */
  lemma {:induction false} FirstRaisedExtends(rules: seq<Rule>, line: string, matcher: Matcher, n: nat)
    requires n <= |rules| && FirstRaised(rules[..n], line, matcher).Some?
    ensures FirstRaised(rules, line, matcher) == FirstRaised(rules[..n], line, matcher)
    decreases |rules| - n
  {
    if n < |rules| {
      assert rules[..n + 1][..n] == rules[..n];
      FirstRaisedExtends(rules, line, matcher, n + 1);
    } else {
      assert rules[..n] == rules;
    }
  }

  // ---------------------------------------------------------------------------
  // analyze_file

  /** The line pass of `analyze_file` from line index `from` on: the issues
      of the lines analysed, and the exception that stopped the pass. */
  function LinesPass(lines: seq<string>, from: nat, filename: string, rules: seq<Rule>,
                     matcher: Matcher): (r: (seq<Issue>, Option<string>))
    decreases |lines| - from
    ensures forall i :: i in r.0 ==> from < i.line <= |lines| && i.file == filename
  {
    if from >= |lines| then ([], None)
    else
      match LineResult(lines[from], from + 1, filename, rules, matcher)
      case Err(e) => ([], Some(e))
      case Ok(found) =>
        var rest := LinesPass(lines, from + 1, filename, rules, matcher);
        (found + rest.0, rest.1)
  }

  /** The issues the line pass reports at line `n + 1` are those
      `_analyze_line` gives for that line; and when no line from `from` up
      to it raised, all of them are reported. */
  lemma {:induction false} LinesPassLine(lines: seq<string>, from: nat, n: nat, filename: string, rules: seq<Rule>,
                                         matcher: Matcher)
    requires from <= n < |lines|
    ensures var pass := LinesPass(lines, from, filename, rules, matcher);
      var here := LineResult(lines[n], n + 1, filename, rules, matcher);
      && (forall i :: i in pass.0 && i.line == n + 1 ==> here.Ok? && i in here.value)
      && ((forall m :: from <= m <= n ==> FirstRaised(rules, lines[m], matcher).None?) ==>
            here.Ok? && forall i :: i in here.value ==> i in pass.0)
    decreases n - from
  {
    var pass := LinesPass(lines, from, filename, rules, matcher);
    var first := LineResult(lines[from], from + 1, filename, rules, matcher);
    if first.Ok? {
      var rest := LinesPass(lines, from + 1, filename, rules, matcher);
      assert pass.0 == first.value + rest.0;
      if n > from {
        LinesPassLine(lines, from + 1, n, filename, rules, matcher);
      }
    } else {
      assert FirstRaised(rules, lines[from], matcher).Some?;
    }
  }

  /** With no rule of the failure kind, the line pass reports none. */
  lemma {:induction false} LinesPassClean(lines: seq<string>, from: nat, filename: string, rules: seq<Rule>,
                                          matcher: Matcher)
    requires NoFailureKind(rules)
    ensures Clean(LinesPass(lines, from, filename, rules, matcher).0, filename)
    decreases |lines| - from
  {
    if from < |lines| {
      var line := LineResult(lines[from], from + 1, filename, rules, matcher);
      if line.Ok? {
        LinesPassClean(lines, from + 1, filename, rules, matcher);
        CleanConcat(line.value, LinesPass(lines, from + 1, filename, rules, matcher).0, filename);
      }
    }
  }

  /** The line pass stops with an exception exactly when the matching of
      some line from `from` on raises one. */
  lemma {:induction false} LinesPassRaises(lines: seq<string>, from: nat, filename: string, rules: seq<Rule>,
                                           matcher: Matcher)
    ensures LinesPass(lines, from, filename, rules, matcher).1.Some? <==>
            exists n :: from <= n < |lines| && FirstRaised(rules, lines[n], matcher).Some?
    decreases |lines| - from
  {
    if from < |lines| {
      LinesPassRaises(lines, from + 1, filename, rules, matcher);
      var here := FirstRaised(rules, lines[from], matcher);
      var line := LineResult(lines[from], from + 1, filename, rules, matcher);
      assert line.Err? <==> here.Some?;
      if here.None? {
        assert LinesPass(lines, from, filename, rules, matcher).1 == LinesPass(lines, from + 1, filename, rules, matcher).1;
        assert forall n :: from <= n < |lines| && FirstRaised(rules, lines[n], matcher).Some? ==> from + 1 <= n;
      }
    }
  }

  /** The issue appended when the analysis raises. */
  function FailureIssue(filename: string, reason: string): Issue {
    Issue(AnalysisError, CouldNotAnalyze(reason), Low, 0, filename, None)
  }

  /** `analyze_file`: the issues of every line, then the file-level issues;
      when the line pass raises, the issues of the lines before the failing
      one and a single analysis-failure issue at line 0. */
  function AnalyzeFile(filename: string, content: string, extension: string, matcher: Matcher): (issues: seq<Issue>)
    ensures var pass := LinesPass(Split(content, '\n'), 0, filename, RulesFor(extension), matcher);
      pass.1.Some? ==> issues == pass.0 + [FailureIssue(filename, pass.1.value)] && Clean(pass.0, filename)
    ensures var pass := LinesPass(Split(content, '\n'), 0, filename, RulesFor(extension), matcher);
      pass.1.None? ==> StartsWithIssues(issues, pass.0) && Clean(issues, filename)
    ensures var pass := LinesPass(Split(content, '\n'), 0, filename, RulesFor(extension), matcher);
      pass.1.None? ==> issues == pass.0 + FileStructure(filename, content, extension)
  {
    var lines := Split(content, '\n');
    var rules := RulesFor(extension);
    RulesForEndsWithGeneral(extension);
    var pass := LinesPass(lines, 0, filename, rules, matcher);
    LinesPassClean(lines, 0, filename, rules, matcher);
    match pass.1
    case Some(e) => pass.0 + [FailureIssue(filename, e)]
    case None =>
      var tail := FileStructure(filename, content, extension);
      assert (pass.0 + tail)[..|pass.0|] == pass.0;
      pass.0 + tail
  }

  predicate StartsWithIssues(issues: seq<Issue>, front: seq<Issue>) {
    |front| <= |issues| && issues[..|front|] == front
  }

  /** Each line's issues carry that line's 1-based number, never beyond the
      last line. */
  lemma LineNumbersInRange(filename: string, content: string, extension: string, matcher: Matcher)
    ensures var lines := Split(content, '\n');
      forall i :: i in LinesPass(lines, 0, filename, RulesFor(extension), matcher).0 ==> 1 <= i.line <= |lines|
  {
  }

  // ---------------------------------------------------------------------------
  // _analyze_file_structure

  const LargeFileChars: nat := 50000
  const LongLineChars: nat := 120
  const LongLineReports: nat := 5
  const SnippetChars: nat := 100

  /** The issue reported for a file larger than 50000 characters. */
  function LargeFileIssues(filename: string, content: string): (r: seq<Issue>)
    ensures |r| <= 1
    ensures r != [] <==> |content| > LargeFileChars
    ensures forall i :: i in r ==> i.note == LargeFile && i.line == 0
    ensures Clean(r, filename)
  {
    if |content| > LargeFileChars then [Issue(CodeQuality, LargeFile, Medium, 0, filename, None)] else []
  }

  /** Entries of lines after index `from`, numbered from 1, each longer
      than 120 characters. */
  predicate LongEntries(lines: seq<string>, from: nat, r: seq<(nat, string)>) {
    forall k :: 0 <= k < |r| ==> from < r[k].0 <= |lines| && r[k].1 == lines[r[k].0 - 1]
                                 && |r[k].1| > LongLineChars
  }

  predicate Ascending(r: seq<(nat, string)>) {
    forall k, m :: 0 <= k < m < |r| ==> r[k].0 < r[m].0
  }

  /** Every line from index `from` on that is longer than 120 characters has
      its entry. */
  predicate EveryLongListed(lines: seq<string>, from: nat, r: seq<(nat, string)>) {
    forall j :: from <= j < |lines| && |lines[j]| > LongLineChars ==> (j + 1, lines[j]) in r
  }

  /** The lines longer than 120 characters from index `from` on, with their
      1-based numbers. */
  function LongLines(lines: seq<string>, from: nat): (r: seq<(nat, string)>)
    decreases |lines| - from
    ensures LongEntries(lines, from, r) && Ascending(r) && EveryLongListed(lines, from, r)
  {
    if from >= |lines| then []
    else
      var head := if |lines[from]| > LongLineChars then [(from + 1, lines[from])] else [];
      var rest := LongLines(lines, from + 1);
      LongEntriesCons(lines, from, head, rest);
      AscendingCons(lines, from, head, rest);
      EveryLongCons(lines, from, head, rest);
      head + rest
  }

  lemma LongEntriesCons(lines: seq<string>, from: nat, head: seq<(nat, string)>, rest: seq<(nat, string)>)
    requires from < |lines|
    requires head == if |lines[from]| > LongLineChars then [(from + 1, lines[from])] else []
    requires LongEntries(lines, from + 1, rest)
    ensures LongEntries(lines, from, head + rest)
  {
    var r := head + rest;
    forall k | 0 <= k < |r|
      ensures from < r[k].0 <= |lines| && r[k].1 == lines[r[k].0 - 1] && |r[k].1| > LongLineChars
    {
      if k >= |head| { assert r[k] == rest[k - |head|]; }
    }
  }

  lemma AscendingCons(lines: seq<string>, from: nat, head: seq<(nat, string)>, rest: seq<(nat, string)>)
    requires from < |lines|
    requires head == if |lines[from]| > LongLineChars then [(from + 1, lines[from])] else []
    requires LongEntries(lines, from + 1, rest) && Ascending(rest)
    ensures Ascending(head + rest)
  {
    var r := head + rest;
    forall k, m | 0 <= k < m < |r|
      ensures r[k].0 < r[m].0
    {
      assert r[m] == rest[m - |head|];
      if k >= |head| { assert r[k] == rest[k - |head|]; }
    }
  }

  lemma EveryLongCons(lines: seq<string>, from: nat, head: seq<(nat, string)>, rest: seq<(nat, string)>)
    requires from < |lines|
    requires head == if |lines[from]| > LongLineChars then [(from + 1, lines[from])] else []
    requires EveryLongListed(lines, from + 1, rest)
    ensures EveryLongListed(lines, from, head + rest)
  {
    var r := head + rest;
    forall j | from <= j < |lines| && |lines[j]| > LongLineChars
      ensures (j + 1, lines[j]) in r
    {
      if j == from {
        assert r[0] == (from + 1, lines[from]);
      } else {
        assert (j + 1, lines[j]) in rest;
      }
    }
  }

  /** The snippet of a long line: its first 100 characters and `...`. */
  function Snippet(line: string): (s: string)
    ensures |line| > SnippetChars ==> |s| == SnippetChars + 3 && StartsWith(line, s[..SnippetChars])
    ensures |line| <= SnippetChars ==> s == line
  {
    if |line| > SnippetChars then line[..SnippetChars] + "..." else line
  }

  function LongLineIssue(filename: string, long: (nat, string)): Issue {
    Issue(CodeQuality, LineTooLong(|long.1|), Low, long.0, filename, Some(Snippet(long.1)))
  }

  /** The issues of the long lines shown. */
  function LongLineReportsOf(filename: string, shown: seq<(nat, string)>): (r: seq<Issue>)
    ensures |r| == |shown|
    ensures forall k :: 0 <= k < |shown| ==> r[k] == LongLineIssue(filename, shown[k])
  {
    seq(|shown|, k requires 0 <= k < |shown| => LongLineIssue(filename, shown[k]))
  }

  /** Issues of long lines: each is the issue of a line longer than 120
      characters, in ascending line order, and none is of the failure kind. */
  predicate LongLineReportsFor(filename: string, lines: seq<string>, r: seq<Issue>) {
    && (forall k :: 0 <= k < |r| ==> 1 <= r[k].line <= |lines| && |lines[r[k].line - 1]| > LongLineChars
                                     && r[k] == LongLineIssue(filename, (r[k].line, lines[r[k].line - 1])))
    && (forall k, m :: 0 <= k < m < |r| ==> r[k].line < r[m].line)
    && Clean(r, filename)
  }

  /** Every line longer than 120 characters numbered at most `upTo` has an
      issue in `r`. */
  predicate LongLinesShown(lines: seq<string>, r: seq<Issue>, upTo: int) {
    forall j :: 0 <= j < |lines| && |lines[j]| > LongLineChars && j + 1 <= upTo ==>
      exists k :: 0 <= k < |r| && r[k].line == j + 1
  }

  /** The long-line issues: the first five long lines, in order. */
  function LongLineIssues(filename: string, lines: seq<string>): (r: seq<Issue>)
    ensures |r| <= LongLineReports
    ensures LongLineReportsFor(filename, lines, r)
    ensures |r| < LongLineReports ==> LongLinesShown(lines, r, |lines|)
    ensures r != [] ==> LongLinesShown(lines, r, r[|r| - 1].line)
  {
    var long := LongLines(lines, 0);
    var shown := if |long| > LongLineReports then long[..LongLineReports] else long;
    LongPrefix(lines, long, |shown|);
    assert shown == long[..|shown|];
    var r := LongLineReportsOf(filename, shown);
    ShownReports(filename, lines, shown);
    NoLongLineSkipped(filename, lines, long, |shown|);
    if |long| < LongLineReports then
      AllLongLinesShown(filename, lines, long, r);
      r
    else r
  }

  /** The first `n` long lines keep the properties of the whole list. */
  lemma LongPrefix(lines: seq<string>, long: seq<(nat, string)>, n: nat)
    requires n <= |long| && LongEntries(lines, 0, long) && Ascending(long)
    ensures LongEntries(lines, 0, long[..n]) && Ascending(long[..n])
  {
    assert forall k :: 0 <= k < n ==> long[..n][k] == long[k];
  }

  /** The issues of long lines are for those lines, in ascending order. */
  lemma ShownReports(filename: string, lines: seq<string>, shown: seq<(nat, string)>)
    requires LongEntries(lines, 0, shown) && Ascending(shown)
    ensures LongLineReportsFor(filename, lines, LongLineReportsOf(filename, shown))
  {
  }

  /** No long line before the last one shown is left out. */
  lemma NoLongLineSkipped(filename: string, lines: seq<string>, long: seq<(nat, string)>, n: nat)
    requires Ascending(long) && EveryLongListed(lines, 0, long) && n <= |long|
    ensures var r := LongLineReportsOf(filename, long[..n]);
      r != [] ==> LongLinesShown(lines, r, r[|r| - 1].line)
  {
    var r := LongLineReportsOf(filename, long[..n]);
    forall j | r != [] && 0 <= j < |lines| && |lines[j]| > LongLineChars && j + 1 <= r[|r| - 1].line
      ensures exists k :: 0 <= k < |r| && r[k].line == j + 1
    {
      assert (j + 1, lines[j]) in long;
      var m :| 0 <= m < |long| && long[m] == (j + 1, lines[j]);
      assert r[n - 1].line == long[n - 1].0;
      assert m < n;
      assert r[m].line == j + 1;
    }
  }

  lemma AllLongLinesShown(filename: string, lines: seq<string>, long: seq<(nat, string)>, r: seq<Issue>)
    requires EveryLongListed(lines, 0, long) && r == LongLineReportsOf(filename, long)
    ensures LongLinesShown(lines, r, |lines|)
  {
    forall j | 0 <= j < |lines| && |lines[j]| > LongLineChars
      ensures exists k :: 0 <= k < |r| && r[k].line == j + 1
    {
      assert (j + 1, lines[j]) in long;
      var k :| 0 <= k < |long| && long[k] == (j + 1, lines[j]);
      assert r[k] == LongLineIssue(filename, long[k]);
    }
  }

  /** The checks of the file's language: Python's structure checks, the
      JavaScript semicolon check, or none. */
  function LanguageStructure(filename: string, lines: seq<string>, extension: string): (r: seq<Issue>)
    ensures Clean(r, filename)
    ensures extension == "py" ==>
              r == Gather(Docstrings, lines, filename) + Gather(WildcardImports, lines, filename)
    ensures extension in ["js", "jsx", "ts", "tsx"] ==> r == Gather(Semicolons, lines, filename)
    ensures extension != "py" && extension !in ["js", "jsx", "ts", "tsx"] ==> r == []
  {
    if extension == "py" then PythonStructure(filename, lines)
    else if IsJavaScript(extension) then Gather(Semicolons, lines, filename)
    else []
  }

  /** `_analyze_file_structure`: size, long lines, then the checks of the
      file's language. */
  function FileStructure(filename: string, content: string, extension: string): (r: seq<Issue>)
    ensures Clean(r, filename)
    ensures var lines := Split(content, '\n');
      r == LargeFileIssues(filename, content) + LongLineIssues(filename, lines) + LanguageStructure(filename, lines, extension)
  {
    var lines := Split(content, '\n');
    var a := LargeFileIssues(filename, content);
    var b := LongLineIssues(filename, lines);
    var c := LanguageStructure(filename, lines, extension);
    CleanConcat(a, b, filename);
    CleanConcat(a + b, c, filename);
    a + b + c
  }

  lemma CleanConcat(a: seq<Issue>, b: seq<Issue>, filename: string)
    requires Clean(a, filename) && Clean(b, filename)
    ensures Clean(a + b, filename)
  {
  }

  // ---------------------------------------------------------------------------
  // Checks made line by line on the stripped line

  /** `stripped.startswith('import ') or stripped.startswith('from ')` and
      the line holds `import *`. */
  predicate IsWildcardImport(stripped: string) {
    (StartsWith(stripped, "import ") || StartsWith(stripped, "from ")) && Contains(stripped, "import *")
  }

  /** The length of the longest prefix of word characters. */
  function WordPrefix(s: string): (n: nat)
    ensures n <= |s|
    ensures forall i :: 0 <= i < n ==> IsWordChar(s[i])
    ensures n < |s| ==> !IsWordChar(s[n])
  {
    if s != [] && IsWordChar(s[0]) then 1 + WordPrefix(s[1..]) else 0
  }

  /** The length of the longest prefix of whitespace. */
  function SpacePrefix(s: string): (n: nat)
    ensures n <= |s|
    ensures forall i :: 0 <= i < n ==> IsSpace(s[i])
    ensures n < |s| ==> !IsSpace(s[n])
  {
    if s != [] && IsSpace(s[0]) then 1 + SpacePrefix(s[1..]) else 0
  }

  /** `re.match(r'\w+\s*=', s)`: word characters, optional whitespace, `=`.
      A shorter run of word characters cannot match, because the character
      after it is a word character, so the longest run decides. */
  predicate AssignmentStart(s: string) {
    var w := WordPrefix(s);
    w > 0 && w + SpacePrefix(s[w..]) < |s| && s[w + SpacePrefix(s[w..])] == '='
  }

  /** `re.match(r'^(var|let|const|return|\w+\s*=)', s)` */
  predicate StatementStart(s: string) {
    StartsWith(s, "var") || StartsWith(s, "let") || StartsWith(s, "const") || StartsWith(s, "return")
    || AssignmentStart(s)
  }

  /** The condition under which `_analyze_javascript_structure` reports a
      missing semicolon. */
  predicate NeedsSemicolon(stripped: string) {
    && stripped != []
    && !EndsWith(stripped, ";") && !EndsWith(stripped, "{") && !EndsWith(stripped, "}")
    && !StartsWith(stripped, "//") && !StartsWith(stripped, "/*") && !StartsWith(stripped, "*")
    && StatementStart(stripped)
  }

  /** A statement that already ends in `;`, or a comment line, is never
      reported. */
  lemma TerminatedNeverFlagged(body: string)
    ensures !NeedsSemicolon(body + ";")
    ensures !NeedsSemicolon("//" + body)
  {
    assert (body + ";")[|body + ";"| - 1..] == ";";
    assert ("//" + body)[..2] == "//";
  }

  // ---------------------------------------------------------------------------
  // _analyze_python_structure

  /** A line of whitespace only. */
  predicate Blank(line: string) {
    forall i :: 0 <= i < |line| ==> IsSpace(line[i])
  }

  /** A line is blank exactly when stripping it leaves nothing, the test
      `not lines[j].strip()` of the docstring check. */
  lemma BlankIffStripsEmpty(line: string)
    ensures Blank(line) <==> Strip(line) == []
  {
  }

  /** The index of the first non-blank line from `j` on, or a value at least
      `|lines|` when there is none. */
  function NextNonBlank(lines: seq<string>, j: nat): (k: nat)
    decreases |lines| - j
    ensures j <= k
    ensures k < |lines| ==> !Blank(lines[k])
    ensures k >= |lines| ==> k == j || k == |lines|
    ensures forall m :: j <= m < k && m < |lines| ==> Blank(lines[m])
  {
    if j < |lines| && Blank(lines[j]) then NextNonBlank(lines, j + 1) else j
  }

  /** The definition on line index `i` is followed by a docstring: the next
      non-blank line starts with three double or three single quotes. */
  predicate HasDocstring(lines: seq<string>, i: nat) {
    var k := NextNonBlank(lines, i + 1);
    k < |lines| && (StartsWith(Strip(lines[k]), "\"\"\"") || StartsWith(Strip(lines[k]), "'''"))
  }

  predicate IsPublicDef(stripped: string) {
    StartsWith(stripped, "def ") && !StartsWith(stripped, "def _")
  }

  predicate IsClassDef(stripped: string) {
    StartsWith(stripped, "class ")
  }

  function FunctionIssue(filename: string, n: nat, stripped: string): Issue {
    Issue(BestPractice, FunctionWithoutDocstring, Low, n, filename, Some(stripped))
  }

  function ClassIssue(filename: string, n: nat, stripped: string): Issue {
    Issue(BestPractice, ClassWithoutDocstring, Low, n, filename, Some(stripped))
  }

  // ---------------------------------------------------------------------------
  // The passes made line by line on the stripped line

  datatype Pass = Docstrings | WildcardImports | Semicolons

  /** The issues one pass reports for the line at index `j`: the docstring
      pass gives the function issue and then the class issue. */
  function LineIssues(pass: Pass, lines: seq<string>, j: nat, filename: string): (r: seq<Issue>)
    requires j < |lines|
    ensures forall i :: i in r ==> i.line == j + 1 && i.kind != AnalysisError && i.file == filename
  {
    var stripped := Strip(lines[j]);
    match pass
    case Docstrings =>
      var undocumented := !HasDocstring(lines, j);
      (if IsPublicDef(stripped) && undocumented then [FunctionIssue(filename, j + 1, stripped)] else [])
      + (if IsClassDef(stripped) && undocumented then [ClassIssue(filename, j + 1, stripped)] else [])
    case WildcardImports =>
      if IsWildcardImport(stripped) then [Issue(BestPractice, WildcardImport, Medium, j + 1, filename, Some(stripped))]
      else []
    case Semicolons =>
      if NeedsSemicolon(stripped) then [Issue(CodeQuality, MissingSemicolon, Low, j + 1, filename, Some(stripped))]
      else []
  }

  /** The concatenation of the groups from index `from` on. */
  function Collect(groups: seq<seq<Issue>>, from: nat): seq<Issue>
    decreases |groups| - from
  {
    if from >= |groups| then [] else groups[from] + Collect(groups, from + 1)
  }

  lemma {:induction false} CollectMember(groups: seq<seq<Issue>>, from: nat, x: Issue)
    requires x in Collect(groups, from)
    ensures exists k :: from <= k < |groups| && x in groups[k]
    decreases |groups| - from
  {
    if x !in groups[from] {
      CollectMember(groups, from + 1, x);
    }
  }

  /** When group `k` holds only issues naming line `k + 1`, an issue naming
      line `j + 1` is collected exactly when group `j` holds it. */
  lemma {:induction false} CollectLine(groups: seq<seq<Issue>>, from: nat, j: nat, x: Issue)
    requires forall k, i :: 0 <= k < |groups| && i in groups[k] ==> i.line == k + 1
    requires from <= j < |groups| && x.line == j + 1
    ensures x in Collect(groups, from) <==> x in groups[j]
    decreases |groups| - from
  {
    if j > from {
      CollectLine(groups, from + 1, j, x);
    } else if x in Collect(groups, from + 1) {
      CollectMember(groups, from + 1, x);
    }
  }

  function PerLine(pass: Pass, lines: seq<string>, filename: string): (groups: seq<seq<Issue>>)
    ensures |groups| == |lines|
    ensures forall k :: 0 <= k < |lines| ==> groups[k] == LineIssues(pass, lines, k, filename)
  {
    seq(|lines|, k requires 0 <= k < |lines| => LineIssues(pass, lines, k, filename))
  }

  /** A pass over all the lines, in line order. */
  function Gather(pass: Pass, lines: seq<string>, filename: string): (r: seq<Issue>)
    ensures forall i :: i in r ==> 1 <= i.line <= |lines|
    ensures Clean(r, filename)
  {
    var groups := PerLine(pass, lines, filename);
    var r := Collect(groups, 0);
    forall i | i in r
      ensures 1 <= i.line <= |lines| && i.kind != AnalysisError && i.file == filename
    {
      CollectMember(groups, 0, i);
    }
    r
  }

  /** An issue naming line `j + 1` is reported by the pass exactly when the
      pass reports it for that line. */
  lemma GatherLine(pass: Pass, lines: seq<string>, filename: string, j: nat, x: Issue)
    requires j < |lines| && x.line == j + 1
    ensures x in Gather(pass, lines, filename) <==> x in LineIssues(pass, lines, j, filename)
  {
    CollectLine(PerLine(pass, lines, filename), 0, j, x);
  }

  /** `_analyze_python_structure`: a public function or a class on line
      index `j` is reported exactly when no docstring follows it. */
  lemma DocstringReported(lines: seq<string>, filename: string, j: nat)
    requires j < |lines|
    ensures var stripped := Strip(lines[j]);
      && (FunctionIssue(filename, j + 1, stripped) in Gather(Docstrings, lines, filename)
          <==> IsPublicDef(stripped) && !HasDocstring(lines, j))
      && (ClassIssue(filename, j + 1, stripped) in Gather(Docstrings, lines, filename)
          <==> IsClassDef(stripped) && !HasDocstring(lines, j))
  {
    var stripped := Strip(lines[j]);
    GatherLine(Docstrings, lines, filename, j, FunctionIssue(filename, j + 1, stripped));
    GatherLine(Docstrings, lines, filename, j, ClassIssue(filename, j + 1, stripped));
  }

  /** `_check_python_imports`: exactly the lines starting with `import ` or
      `from ` that hold `import *` are reported, with the stripped line. */
  lemma WildcardImportsReported(lines: seq<string>, filename: string, j: nat)
    requires j < |lines|
    ensures var issue := Issue(BestPractice, WildcardImport, Medium, j + 1, filename, Some(Strip(lines[j])));
      issue in Gather(WildcardImports, lines, filename) <==> IsWildcardImport(Strip(lines[j]))
  {
    var issue := Issue(BestPractice, WildcardImport, Medium, j + 1, filename, Some(Strip(lines[j])));
    GatherLine(WildcardImports, lines, filename, j, issue);
  }

  /** `_analyze_javascript_structure`: exactly the lines the semicolon
      condition flags are reported, with the stripped line. */
  lemma MissingSemicolonsReported(lines: seq<string>, filename: string, j: nat)
    requires j < |lines|
    ensures var issue := Issue(CodeQuality, MissingSemicolon, Low, j + 1, filename, Some(Strip(lines[j])));
      issue in Gather(Semicolons, lines, filename) <==> NeedsSemicolon(Strip(lines[j]))
  {
    var issue := Issue(CodeQuality, MissingSemicolon, Low, j + 1, filename, Some(Strip(lines[j])));
    GatherLine(Semicolons, lines, filename, j, issue);
  }

  /** `_analyze_python_structure`: the docstring issues, then the import
      issues. */
  function PythonStructure(filename: string, lines: seq<string>): (r: seq<Issue>)
    ensures Clean(r, filename)
    ensures r == Gather(Docstrings, lines, filename) + Gather(WildcardImports, lines, filename)
  {
    var a, b := Gather(Docstrings, lines, filename), Gather(WildcardImports, lines, filename);
    CleanConcat(a, b, filename);
    a + b
  }
}
