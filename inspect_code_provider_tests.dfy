/**
 * The expectations of InspectCodeProviderTests, stated about the model. The
 * test's report file is not part of this model; the document below carries the
 * values the test expects, with the solution in the repository root
 * c:\Source\Cake.Prca that the test fixture configures.
 */
module InspectCodeProviderTests {
  import opened Wrappers
  import opened Text
  import opened Int32Parse
  import opened Paths
  import opened InspectCodeProvider

  const SolutionFile := "c:\\Source\\Cake.Prca\\Cake.Prca.sln"
  const SolutionDir := "c:\\Source\\Cake.Prca"
  const AffectedFile := "src" + "\\Cake.Prca\\CakeAliasConstants.cs"
  const Rule := "UnusedMember.Global"
  const Message := "Constant '" + "PullRequestSystemCakeAliasCategory" + "' is never used"

  const FixtureIssue: Attributes :=
    map["TypeId" := Rule, "File" := AffectedFile, "Offset" := "238-276", "Line" := "16", "Message" := Message]

  const FixtureLog := LogDocument([SolutionFile], [FixtureIssue])

  lemma SolutionDirectoryOfFixture()
    ensures DirectoryName(SolutionFile) == Some(SolutionDir)
  {
    var tail := SolutionFile[3..];
    assert RootLength(SolutionFile) == 3;
    assert tail == "Source\\Cake.Prca\\Cake.Prca.sln";
    assert IsSeparator(tail[16]);
    assert forall i :: 16 < i < |tail| ==> !IsSeparator(tail[i]);
    assert LastSeparator(tail) == Some(16);
    assert SolutionFile[..19] == SolutionDir;
  }

  lemma NotBlank(s: string)
    requires |s| > 0 && !IsWhiteSpace(s[0])
    ensures !IsBlank(s)
  {
  }

  lemma SixteenIsNoNumber()
    ensures ParseInt32("sixteen") == Failure(FormatError)
  {
    assert Split("sixteen", NumberWhite) == ([], "sixteen");
    assert SplitSign("sixteen") == (NoSign, "sixteen");
    assert Split("sixteen", Digit) == ([], "sixteen");
  }

  /** The test expects src\Cake.Prca\CakeAliasConstants.cs relative to the repository root c:\Source\Cake.Prca. */
  const ExpectedIssue := CodeAnalysisIssue(SolutionDir + "\\" + AffectedFile, 16, Message, 0, Rule)

  lemma CombineFixture()
    ensures Combine(SolutionDir, AffectedFile) == SolutionDir + "\\" + AffectedFile
  {
    assert AffectedFile[0] == 's' && AffectedFile[1] == 'r';
    assert SolutionDir[|SolutionDir| - 1] == 'a';
  }

  lemma FixtureFile()
    ensures TryGetFile(FixtureIssue, Some(SolutionDir)) == Pass(SolutionDir + "\\" + AffectedFile)
  {
    assert "File" in FixtureIssue && FixtureIssue["File"] == AffectedFile;
    NotBlank(AffectedFile);
    CombineFixture();
  }

  lemma FixtureLine()
    ensures TryGetLine(FixtureIssue) == Pass(16)
  {
    assert FixtureIssue["Line"] == "16";
    NotBlank("16");
    SixteenParses();
  }

  lemma SixteenFormats()
    ensures Format(16) == "16"
  {
    assert DecimalDigits(1) == "1";
    assert DecimalDigits(16) == DecimalDigits(1) + "6";
  }

  lemma SixteenParses()
    ensures ParseInt32("16") == Success(16)
  {
    SixteenFormats();
    ParseFormat(16);
  }

  lemma FixtureRuleAndMessage()
    ensures TryGetRule(FixtureIssue) == Some(Rule)
    ensures TryGetMessage(FixtureIssue) == Some(Message)
  {
    assert FixtureIssue["TypeId"] == Rule;
    NotBlank(Rule);
    assert FixtureIssue["Message"] == Message;
    assert Message[0] == 'C';
    NotBlank(Message);
  }

  lemma FixtureFields()
    ensures TryGetFile(FixtureIssue, Some(SolutionDir)) == Pass(SolutionDir + "\\" + AffectedFile)
    ensures TryGetLine(FixtureIssue) == Pass(16)
    ensures TryGetRule(FixtureIssue) == Some(Rule)
    ensures TryGetMessage(FixtureIssue) == Some(Message)
  {
    FixtureFile();
    FixtureLine();
    FixtureRuleAndMessage();
  }

  lemma FixtureIssueReads()
    ensures ReadIssue(FixtureIssue, Some(SolutionDir)) == Pass(ExpectedIssue)
  {
    FixtureFields();
  }

  lemma FixtureLogChecks()
    ensures ReadLog(FixtureLog) == Collect(Checks([FixtureIssue], Some(SolutionDir)))
  {
    SolutionDirectoryOfFixture();
  }

  lemma FixtureChecksPass()
    ensures Checks([FixtureIssue], Some(SolutionDir)) == [Pass(ExpectedIssue)]
  {
    FixtureIssueReads();
  }

  lemma CollectOnePass<T>(v: T)
    ensures Collect([Pass(v)]) == Success([v])
  {
    var cs: seq<Check<T>> := [Pass(v)];
    assert cs[..0] == [];
    assert Collect<T>([]) == Success([]);
    assert [] + [v] == [v];
  }

  /** Should_Read_Issue_Correct: exactly one issue, with line 16, the rule, priority 0 and the message. */
  lemma ShouldReadIssueCorrect()
    ensures ReadLog(FixtureLog) == Success([ExpectedIssue])
  {
    FixtureLogChecks();
    FixtureChecksPass();
    CollectOnePass(ExpectedIssue);
  }

  /** An issue without a File attribute is skipped before its malformed Line is ever parsed. */
  lemma MissingFileSkipsBadLine()
    ensures ReadLog(LogDocument([SolutionFile], [map["Line" := "sixteen", "TypeId" := Rule, "Message" := Message]]))
         == Success([])
  {
    var issue := map["Line" := "sixteen", "TypeId" := Rule, "Message" := Message];
    assert "File" !in issue;
    assert Checks([issue], DirectoryName(SolutionFile)) == [Skip];
    assert Collect<CodeAnalysisIssue>([Skip]) == Success([]);
  }

  lemma BadLineThrows()
    ensures ReadIssue(FixtureIssue["Line" := "sixteen"], Some(SolutionDir)) == Throw(LineNotNumber("sixteen"))
  {
    var bad := FixtureIssue["Line" := "sixteen"];
    assert "File" in bad && bad["File"] == FixtureIssue["File"];
    assert TryGetFile(bad, Some(SolutionDir)) == TryGetFile(FixtureIssue, Some(SolutionDir));
    FixtureFile();
    SixteenIsNoNumber();
    NotBlank("sixteen");
    assert TryGetLine(bad) == Throw(LineNotNumber("sixteen"));
  }

  lemma CollectFirstThrows<T>(checks: seq<Check<T>>, e: ReadError)
    requires |checks| > 0 && checks[0] == Throw(e)
    ensures Collect(checks) == Failure(e)
  {
    assert checks[..1][..0] == [];
    assert Collect(checks[..1]) == Failure(e);
    FailureIsFinal(checks, 1);
  }

  /** The same malformed Line behind a valid File attribute aborts the whole read. */
  lemma BadLineAbortsRead()
    ensures ReadLog(LogDocument([SolutionFile], [FixtureIssue["Line" := "sixteen"], FixtureIssue]))
         == Failure(LineNotNumber("sixteen"))
  {
    var issues := [FixtureIssue["Line" := "sixteen"], FixtureIssue];
    SolutionDirectoryOfFixture();
    assert ReadLog(LogDocument([SolutionFile], issues)) == Collect(Checks(issues, Some(SolutionDir)));
    BadLineThrows();
    CollectFirstThrows(Checks(issues, Some(SolutionDir)), LineNotNumber("sixteen"));
  }

  /** A report with two Solution elements reads as an exception, whatever its issues. */
  lemma TwoSolutionsAbortRead()
    ensures ReadLog(LogDocument([SolutionFile, SolutionFile], [FixtureIssue])) == Failure(SolutionNotSingle(2))
  {
  }
}
