/**
 * One run of the checker: find the environment file, read it, parse and
 * analyse it, and derive the report. Which files exist and what each
 * readable file holds are parameters; a file that exists but has no
 * content in `contents` is one whose read fails.
 */
module Roulette {
  import opened Wrappers
  import opened Text
  import opened Entries
  import opened Locator
  import opened Parser
  import opened Reporter

  /** The report of a run: the variables, the value shown for each, the
      issues and the confidence score. */
  datatype Report = Report(variables: seq<Variable>, shown: seq<string>, issues: seq<Issue>, score: int)

  /** How a run ends: no candidate file, a file that could not be read,
      or a report on the file found. */
  datatype Outcome =
    | NoEnvFile
    | ReadError(file: string)
    | Checked(file: string, report: Report)

  /** The report on the content of a file. */
  function Analyze(content: string): Report {
    var kinds := ClassifyAll(Split(content, '\n'));
    var variables, issues := Variables(kinds), Issues(kinds);
    Report(variables, Shown(variables), issues, ConfidenceScore(|issues|))
  }

  /** The whole run. It ends without a report exactly when no candidate
      exists; otherwise it names the first candidate that exists, and
      reports on its content unless the read fails. */
  method PlayEnvRoulette(present: set<string>, contents: map<string, string>) returns (outcome: Outcome)
    ensures outcome.NoEnvFile? <==> forall i :: 0 <= i < |EnvFiles| ==> EnvFiles[i] !in present
    ensures !outcome.NoEnvFile? ==>
              exists i :: FirstPresentAt(EnvFiles, present, i) && EnvFiles[i] == outcome.file
    ensures outcome.ReadError? ==> outcome.file !in contents
    ensures outcome.Checked? ==>
              outcome.file in contents && outcome.report == Analyze(contents[outcome.file])
  {
    var found := FindEnvFile(EnvFiles, present);
    if found.None? {
      return NoEnvFile;
    }
    var file := found.value;
    if file !in contents {
      return ReadError(file);
    }
    var variables, issues := ParseEnv(contents[file]);
    var shown := ShowValues(variables);
    assert shown == Shown(variables);
    outcome := Checked(file, Report(variables, shown, issues, ConfidenceScore(|issues|)));
  }

  /** What every report says about its file: the variables and Unparsable
      issues account for exactly the significant lines, issues come in
      line order, and the score is 100 exactly when there is no issue and
      otherwise between 10 and 90. */
  lemma ReportSummary(content: string)
    ensures var r := Analyze(content);
            |r.variables| + CountUnparsable(r.issues) == CountSignificant(Split(content, '\n'))
            && (forall j, k :: 0 <= j < k < |r.issues| ==> r.issues[j].line <= r.issues[k].line)
            && (r.score == 100 <==> r.issues == [])
            && (r.issues != [] ==> 10 <= r.score <= 90)
  {
    var lines := Split(content, '\n');
    SignificantLinesAccounted(lines);
    IssuesInLineOrder(ClassifyAll(lines));
  }
}
