/**
 * InspectCodeProvider.ReadIssues: reads the issues of a JetBrains InspectCode
 * XML report. The report arrives already parsed, as the text of its Solution
 * elements and the attributes of its Issue elements in document order.
 */
module InspectCodeProvider {
  import opened Wrappers
  import opened Text
  import opened Int32Parse
  import opened Paths

  /** The attributes of one Issue element, by attribute name. */
  type Attributes = map<string, string>

  /** A parsed InspectCode report. */
  datatype LogDocument = LogDocument(solutions: seq<string>, issues: seq<Attributes>)

  /** The record the reader emits for an accepted Issue element. */
  datatype CodeAnalysisIssue =
    CodeAnalysisIssue(filePath: string, line: int, message: string, priority: int, rule: string)

  /** The exceptions that abort the whole read. */
  datatype ReadError =
    | SolutionNotSingle(count: nat)   // Enumerable.Single: no Solution element, or several
    | SolutionDirectoryNull           // Path.Combine(null, ...): the solution path has no directory
    | LineNotNumber(text: string)     // int.Parse: FormatException
    | LineOutOfRange(text: string)    // int.Parse: OverflowException

  /** The outcome of one field check: a value, a skip of the issue, or an exception. */
  datatype Check<T> = Pass(value: T) | Skip | Throw(error: ReadError)

  /** The attribute is present and string.IsNullOrWhiteSpace is false for it. */
  predicate HasText(issue: Attributes, name: string) {
    name in issue && !IsBlank(issue[name])
  }

  /** What every emitted record satisfies. */
  predicate IsWellFormedIssue(r: CodeAnalysisIssue) {
    !IsBlank(r.filePath) && InInt32Range(r.line) && !IsBlank(r.rule) && !IsBlank(r.message)
    && r.priority == 0
  }

  /** TryGetFile: the File attribute combined with the solution directory. */
  function TryGetFile(issue: Attributes, solutionPath: Option<string>): (r: Check<string>)
    ensures r.Skip? <==> !HasText(issue, "File")
    ensures r.Throw? <==> HasText(issue, "File") && solutionPath.None?
    ensures r.Throw? ==> r.error == SolutionDirectoryNull
    ensures r.Pass? ==> solutionPath.Some? && r.value == Combine(solutionPath.value, issue["File"])
    ensures r.Pass? ==> !IsBlank(r.value)
  {
    if "File" !in issue then Skip
    else
      var fileName := issue["File"];
      if IsBlank(fileName) then Skip
      else if solutionPath.None? then Throw(SolutionDirectoryNull)
      else
        var combined := Combine(solutionPath.value, fileName);
        assert combined[|combined| - |fileName|..] == fileName;
        Pass(combined)
  }

  /** TryGetLine: the Line attribute parsed as an Int32; a present, non-blank value that does not parse throws. */
  function TryGetLine(issue: Attributes): (r: Check<int>)
    ensures r.Skip? <==> !HasText(issue, "Line")
    ensures r.Pass? ==> ParseInt32(issue["Line"]) == Success(r.value)
    ensures r.Throw? <==> HasText(issue, "Line") && ParseInt32(issue["Line"]).Failure?
    ensures r.Throw? ==> (r.error ==
      if ParseInt32(issue["Line"]).error == FormatError then LineNotNumber(issue["Line"])
      else LineOutOfRange(issue["Line"]))
  {
    if !HasText(issue, "Line") then Skip
    else
      match ParseInt32(issue["Line"])
      case Success(line) => Pass(line)
      case Failure(FormatError) => Throw(LineNotNumber(issue["Line"]))
      case Failure(OverflowError) => Throw(LineOutOfRange(issue["Line"]))
  }

  /** The shared shape of TryGetRule and TryGetMessage: the attribute text, unchanged, unless absent or blank. */
  function TryGetText(issue: Attributes, name: string): (r: Option<string>)
    ensures r.Some? <==> HasText(issue, name)
    ensures r.Some? ==> r.value == issue[name] && !IsBlank(r.value)
  {
    if name in issue && !IsBlank(issue[name]) then Some(issue[name]) else None
  }

  /** TryGetRule: the rule comes from the TypeId attribute. */
  function TryGetRule(issue: Attributes): (r: Option<string>)
    ensures r.Some? <==> HasText(issue, "TypeId")
    ensures r.Some? ==> r.value == issue["TypeId"]
  {
    TryGetText(issue, "TypeId")
  }

  /** TryGetMessage: the message comes from the Message attribute. */
  function TryGetMessage(issue: Attributes): (r: Option<string>)
    ensures r.Some? <==> HasText(issue, "Message")
    ensures r.Some? ==> r.value == issue["Message"]
  {
    TryGetText(issue, "Message")
  }

  /** One turn of the loop in ReadIssues: the four checks in the order File, Line, TypeId, Message. */
  function ReadIssue(issue: Attributes, solutionPath: Option<string>): (r: Check<CodeAnalysisIssue>)
    ensures r.Pass? <==>
      HasText(issue, "File") && solutionPath.Some? && HasText(issue, "Line")
      && ParseInt32(issue["Line"]).Success? && HasText(issue, "TypeId") && HasText(issue, "Message")
    ensures r.Pass? ==> r.value == CodeAnalysisIssue(
      Combine(solutionPath.value, issue["File"]), ParseInt32(issue["Line"]).value,
      issue["Message"], 0, issue["TypeId"])
    ensures r.Pass? ==> IsWellFormedIssue(r.value)
    ensures r.Throw? <==>
      HasText(issue, "File")
      && (solutionPath.None? || (HasText(issue, "Line") && ParseInt32(issue["Line"]).Failure?))
    ensures r.Throw? ==> (r.error ==
      if solutionPath.None? then SolutionDirectoryNull
      else if ParseInt32(issue["Line"]).error == FormatError then LineNotNumber(issue["Line"])
      else LineOutOfRange(issue["Line"]))
    ensures !HasText(issue, "File") ==> r == Skip
  {
    match TryGetFile(issue, solutionPath)
    case Skip => Skip
    case Throw(e) => Throw(e)
    case Pass(fileName) =>
      match TryGetLine(issue)
      case Skip => Skip
      case Throw(e) => Throw(e)
      case Pass(line) =>
        match TryGetRule(issue)
        case None => Skip
        case Some(rule) =>
          match TryGetMessage(issue)
          case None => Skip
          case Some(message) => Pass(CodeAnalysisIssue(fileName, line, message, 0, rule))
  }

  /**
   * The filter-map the loop of ReadIssues performs on the outcomes of its
   * checks, in order: a passed check adds its value, a skipped one adds
   * nothing, and the first exception ends the read.
   */
  function Collect<T>(checks: seq<Check<T>>): (r: Result<seq<T>, ReadError>)
    ensures r.Success? ==> |r.value| <= |checks|
  {
    if |checks| == 0 then Success([])
    else
      match Collect(checks[..|checks| - 1])
      case Failure(e) => Failure(e)
      case Success(result) =>
        match checks[|checks| - 1]
        case Skip => Success(result)
        case Throw(e) => Failure(e)
        case Pass(v) => Success(result + [v])
  }

  /** The outcome of ReadIssue for each Issue element, in document order. */
  function Checks(issues: seq<Attributes>, solutionPath: Option<string>): (cs: seq<Check<CodeAnalysisIssue>>)
    ensures |cs| == |issues|
    ensures forall j :: 0 <= j < |issues| ==> cs[j] == ReadIssue(issues[j], solutionPath)
  {
    seq(|issues|, j requires 0 <= j < |issues| => ReadIssue(issues[j], solutionPath))
  }

  /** What ReadIssues returns or throws for a parsed report. */
  function ReadLog(doc: LogDocument): (r: Result<seq<CodeAnalysisIssue>, ReadError>)
    ensures |doc.solutions| != 1 ==> r == Failure(SolutionNotSingle(|doc.solutions|))
    ensures r.Success? ==> |r.value| <= |doc.issues|
  {
    if |doc.solutions| != 1 then Failure(SolutionNotSingle(|doc.solutions|))
    else Collect(Checks(doc.issues, SolutionDirectory(doc)))
  }

  /**
   * ReadIssues: computes the solution directory once, then walks the Issue
   * elements, skipping an issue at its first failed check and adding a record
   * for every issue that passes all four.
   */
  method ReadIssues(doc: LogDocument) returns (r: Result<seq<CodeAnalysisIssue>, ReadError>)
    ensures r == ReadLog(doc)
  {
    if |doc.solutions| != 1 {
      return Failure(SolutionNotSingle(|doc.solutions|));
    }
    var solutionPath := DirectoryName(doc.solutions[0]);
    ghost var checks := Checks(doc.issues, solutionPath);
    var result: seq<CodeAnalysisIssue> := [];
    for i := 0 to |doc.issues|
      invariant Collect(checks[..i]) == Success(result)
    {
      assert checks[..i + 1][..i] == checks[..i];
      var issue := doc.issues[i];
      assert checks[i] == ReadIssue(issue, solutionPath);

      var fileName := TryGetFile(issue, solutionPath);
      if fileName.Skip? {
        continue;
      } else if fileName.Throw? {
        FailureIsFinal(checks, i + 1);
        return Failure(fileName.error);
      }

      var line := TryGetLine(issue);
      if line.Skip? {
        continue;
      } else if line.Throw? {
        FailureIsFinal(checks, i + 1);
        return Failure(line.error);
      }

      var rule := TryGetRule(issue);
      if rule.None? {
        continue;
      }

      var message := TryGetMessage(issue);
      if message.None? {
        continue;
      }

      result := result + [CodeAnalysisIssue(fileName.value, line.value, message.value, 0, rule.value)];
    }
    assert checks[..|checks|] == checks;
    return Success(result);
  }

  /** Once the checks of a prefix throw, the whole read throws the same exception. */
  lemma {:induction false} FailureIsFinal<T>(checks: seq<Check<T>>, n: nat)
    requires n <= |checks|
    requires Collect(checks[..n]).Failure?
    ensures Collect(checks) == Collect(checks[..n])
  {
    if n < |checks| {
      var m := |checks| - 1;
      assert checks[..m][..n] == checks[..n];
      FailureIsFinal(checks[..m], n);
    } else {
      assert checks[..n] == checks;
    }
  }

  /** The positions, in order, of the checks that passed. */
  ghost function PassIndices<T>(checks: seq<Check<T>>): (idx: seq<nat>)
    ensures forall k :: 0 <= k < |idx| ==> idx[k] < |checks|
    ensures forall k, l :: 0 <= k < l < |idx| ==> idx[k] < idx[l]
    ensures forall j :: 0 <= j < |checks| ==> (j in idx <==> checks[j].Pass?)
  {
    if |checks| == 0 then []
    else
      var m := |checks| - 1;
      var before := PassIndices(checks[..m]);
      assert forall j :: 0 <= j < m ==> checks[..m][j] == checks[j];
      if checks[m].Pass? then before + [m] else before
  }

  /**
   * A read that does not throw is an order-preserving filter-map: one value per
   * passed check, in order, and nothing for the others.
   */
  lemma {:induction false} CollectIsFilterMap<T>(checks: seq<Check<T>>)
    requires Collect(checks).Success?
    ensures var rs, idx := Collect(checks).value, PassIndices(checks);
      |rs| == |idx| && forall k :: 0 <= k < |rs| ==> checks[idx[k]] == Pass(rs[k])
  {
    if |checks| > 0 {
      var m := |checks| - 1;
      CollectIsFilterMap(checks[..m]);
      assert forall j :: 0 <= j < m ==> checks[..m][j] == checks[j];
    }
  }

  /** The read throws exactly when some check throws, and then with the exception of the first one that does. */
  lemma {:induction false} CollectFailsAtFirstThrow<T>(checks: seq<Check<T>>)
    ensures Collect(checks).Failure? <==> exists j :: 0 <= j < |checks| && checks[j].Throw?
    ensures Collect(checks).Failure? ==>
      exists j :: 0 <= j < |checks| && checks[j] == Throw(Collect(checks).error)
        && forall i :: 0 <= i < j ==> !checks[i].Throw?
  {
    if |checks| > 0 {
      var m := |checks| - 1;
      CollectFailsAtFirstThrow(checks[..m]);
      assert forall j :: 0 <= j < m ==> checks[..m][j] == checks[j];
    }
  }

  /** A skipped issue leaves no trace: removing it changes nothing in the result. */
  lemma {:induction false} SkipIsInvisible<T>(before: seq<Check<T>>, after: seq<Check<T>>)
    ensures Collect(before + [Skip] + after) == Collect(before + after)
  {
    if |after| == 0 {
      assert before + [Skip] + after == before + [Skip];
      assert (before + [Skip])[..|before|] == before;
      assert before + after == before;
    } else {
      var m := |after| - 1;
      SkipIsInvisible(before, after[..m]);
      assert (before + [Skip] + after)[..|before| + 1 + m] == before + [Skip] + after[..m];
      assert (before + after)[..|before| + m] == before + after[..m];
    }
  }

  /** When every check passes, the read returns exactly one value per check, in order. */
  lemma {:induction false} CollectAllPassed<T>(checks: seq<Check<T>>)
    requires forall j :: 0 <= j < |checks| ==> checks[j].Pass?
    ensures Collect(checks).Success? && |Collect(checks).value| == |checks|
    ensures forall k :: 0 <= k < |checks| ==> checks[k] == Pass(Collect(checks).value[k])
  {
    if |checks| > 0 {
      var m := |checks| - 1;
      assert forall j :: 0 <= j < m ==> checks[..m][j] == checks[j];
      CollectAllPassed(checks[..m]);
    }
  }

  /** The solution directory ReadIssues computes once, for a report with a single Solution element. */
  function SolutionDirectory(doc: LogDocument): Option<string>
    requires |doc.solutions| == 1
  {
    DirectoryName(doc.solutions[0])
  }

  /**
   * A report that reads without an exception gives one well-formed record per
   * Issue element that passes all four checks, in document order, and nothing
   * for any other element.
   */
  lemma ReadLogIsFilterMap(doc: LogDocument)
    requires ReadLog(doc).Success?
    ensures |doc.solutions| == 1
    ensures var rs, dir, idx := ReadLog(doc).value, SolutionDirectory(doc), PassIndices(Checks(doc.issues, SolutionDirectory(doc)));
      && |rs| == |idx|
      && (forall k, l :: 0 <= k < l < |idx| ==> idx[k] < idx[l])
      && (forall j :: 0 <= j < |doc.issues| ==> (j in idx <==> ReadIssue(doc.issues[j], dir).Pass?))
      && (forall k :: 0 <= k < |rs| ==> idx[k] < |doc.issues| && ReadIssue(doc.issues[idx[k]], dir) == Pass(rs[k]))
      && (forall k :: 0 <= k < |rs| ==> IsWellFormedIssue(rs[k]))
  {
    var checks := Checks(doc.issues, SolutionDirectory(doc));
    CollectIsFilterMap(checks);
  }

  /**
   * A report with a single Solution element fails exactly when one of its Issue
   * elements throws, and then with the exception of the first such element.
   */
  lemma ReadLogFailsAtFirstThrow(doc: LogDocument)
    requires |doc.solutions| == 1
    ensures var dir := SolutionDirectory(doc);
      ReadLog(doc).Failure? <==> exists j :: 0 <= j < |doc.issues| && ReadIssue(doc.issues[j], dir).Throw?
    ensures var dir := SolutionDirectory(doc);
      ReadLog(doc).Failure? ==>
        exists j :: 0 <= j < |doc.issues| && ReadIssue(doc.issues[j], dir) == Throw(ReadLog(doc).error)
          && forall i :: 0 <= i < j ==> !ReadIssue(doc.issues[i], dir).Throw?
  {
    CollectFailsAtFirstThrow(Checks(doc.issues, SolutionDirectory(doc)));
  }

  /** Removing an Issue element that is skipped does not change what the report reads as. */
  lemma ReadLogIgnoresSkipped(solution: string, before: seq<Attributes>, issue: Attributes, after: seq<Attributes>)
    requires ReadIssue(issue, DirectoryName(solution)) == Skip
    ensures ReadLog(LogDocument([solution], before + [issue] + after))
         == ReadLog(LogDocument([solution], before + after))
  {
    var dir := DirectoryName(solution);
    assert Checks(before + [issue] + after, dir) == Checks(before, dir) + [Skip] + Checks(after, dir);
    assert Checks(before + after, dir) == Checks(before, dir) + Checks(after, dir);
    SkipIsInvisible(Checks(before, dir), Checks(after, dir));
  }

  /** A report whose Issue elements all pass reads as exactly one record per element, in order. */
  lemma ReadLogKeepsAllAccepted(doc: LogDocument)
    requires |doc.solutions| == 1
    requires forall j :: 0 <= j < |doc.issues| ==> ReadIssue(doc.issues[j], SolutionDirectory(doc)).Pass?
    ensures ReadLog(doc).Success? && |ReadLog(doc).value| == |doc.issues|
    ensures forall k :: 0 <= k < |doc.issues| ==>
      ReadIssue(doc.issues[k], SolutionDirectory(doc)) == Pass(ReadLog(doc).value[k])
  {
    CollectAllPassed(Checks(doc.issues, SolutionDirectory(doc)));
  }
}
