/**
 * The parse-and-analyse pass over the content of the environment file:
 * split on '\n', trim each line, skip blank and comment lines, match the
 * rest against the key pattern, and collect variables and issues in file
 * order. Line numbers are 1-based and count every line, skipped or not.
 */
module Parser {
  import opened Wrappers
  import opened Text
  import opened LineSyntax
  import opened Entries
  import opened Analyzer

  /** A trimmed line that is neither empty nor a `#` comment. */
  predicate IsSignificant(t: string) {
    t != [] && t[0] != '#'
  }

  /** What one line is once trimmed: skipped (blank or a comment), an
      assignment with the matched key and value, or a line the pattern
      rejects, kept with its trimmed text. */
  datatype LineKind = Skipped | Assignment(key: string, value: string) | Malformed(text: string)

  /** The classification of one raw line of the file: blank and comment
      lines are skipped; any other trimmed line is an assignment exactly
      when the pattern matches it, with the match's key and value, and is
      otherwise kept as malformed with its trimmed text. */
  function Classify(raw: string): (k: LineKind)
    ensures k.Skipped? <==> !IsSignificant(Trim(raw))
    ensures k.Assignment? <==> IsSignificant(Trim(raw)) && MatchLine(Trim(raw)).Some?
    ensures k.Assignment? ==> MatchLine(Trim(raw)) == Some(Match(k.key, k.value))
    ensures k.Malformed? ==> k.text == Trim(raw) && MatchLine(Trim(raw)).None?
  {
    var t := Trim(raw);
    if !IsSignificant(t) then Skipped
    else
      match MatchLine(t)
      case Some(m) => Assignment(m.key, m.value)
      case None => Malformed(t)
  }

  /** Every line of the file, classified. */
  function ClassifyAll(lines: seq<string>): (kinds: seq<LineKind>)
    ensures |kinds| == |lines|
    ensures forall i :: 0 <= i < |lines| ==> kinds[i] == Classify(lines[i])
  {
    seq(|lines|, i requires 0 <= i < |lines| => Classify(lines[i]))
  }

  /** The variable the line numbered `n` contributes, if any. */
  function LineVariables(k: LineKind, n: nat): (vs: seq<Variable>)
    ensures |vs| <= 1
    ensures forall v :: v in vs ==> v.line == n
  {
    match k
    case Assignment(key, value) => [Variable(key, value, n)]
    case _ => []
  }

  /** The issues the line numbered `n` contributes, in the order they are
      raised. */
  function LineIssues(k: LineKind, n: nat): (issues: seq<Issue>)
    ensures forall i :: i in issues ==> i.line == n
  {
    match k
    case Skipped => []
    case Assignment(key, value) =>
      WarningsSpec(Variable(key, value, n));
      Warnings(Variable(key, value, n))
    case Malformed(t) => [Unparsable(n, t)]
  }

  /** The variables of a whole file, line by line. */
  function Variables(kinds: seq<LineKind>): seq<Variable>
    decreases |kinds|
  {
    if kinds == [] then []
    else Variables(kinds[..|kinds| - 1]) + LineVariables(kinds[|kinds| - 1], |kinds|)
  }

  /** The issues of a whole file, line by line. */
  function Issues(kinds: seq<LineKind>): seq<Issue>
    decreases |kinds|
  {
    if kinds == [] then []
    else Issues(kinds[..|kinds| - 1]) + LineIssues(kinds[|kinds| - 1], |kinds|)
  }

  /** The parse loop: the variables and issues arrays it builds are those
      of Variables and Issues on the classified lines of the split content. */
  method ParseEnv(content: string) returns (variables: seq<Variable>, issues: seq<Issue>)
    ensures variables == Variables(ClassifyAll(Split(content, '\n')))
    ensures issues == Issues(ClassifyAll(Split(content, '\n')))
  {
    var lines := Split(content, '\n');
    ghost var kinds := ClassifyAll(lines);
    variables, issues := [], [];
    for index := 0 to |lines|
      invariant variables == Variables(kinds[..index])
      invariant issues == Issues(kinds[..index])
    {
      PrefixStep(kinds, index);
      var line := Trim(lines[index]);
      if line == [] || line[0] == '#' {
        continue;
      }
      match MatchLine(line) {
        case Some(m) =>
          var key, value := m.key, m.value;
          variables := variables + [Variable(key, value, index + 1)];
          ghost var v, before := Variable(key, value, index + 1), issues;
          if value == "" {
            issues := issues + [EmptyValue(index + 1, key)];
          }
          assert issues == before + EmptyRule(v);
          if Contains(value, " ") {
            issues := issues + [HasSpaces(index + 1, key)];
          }
          assert issues == before + EmptyRule(v) + SpacesRule(v);
          if IsSecretKey(key) && |value| < 10 {
            issues := issues + [WeakSecret(index + 1, key)];
          }
          assert issues == before + EmptyRule(v) + SpacesRule(v) + WeakRule(v);
          AppendRules(before, v);
        case None =>
          issues := issues + [Unparsable(index + 1, line)];
      }
    }
    assert kinds[..|lines|] == kinds;
  }

  /** One more line of the file adds what that line yields. */
  lemma PrefixStep(kinds: seq<LineKind>, index: nat)
    requires index < |kinds|
    ensures Variables(kinds[..index + 1]) == Variables(kinds[..index]) + LineVariables(kinds[index], index + 1)
    ensures Issues(kinds[..index + 1]) == Issues(kinds[..index]) + LineIssues(kinds[index], index + 1)
  {
    assert kinds[..index + 1][..index] == kinds[..index];
  }

  /** Appending the rules' outcomes one by one appends the warnings. */
  lemma AppendRules(before: seq<Issue>, v: Variable)
    ensures before + EmptyRule(v) + SpacesRule(v) + WeakRule(v) == before + Warnings(v)
  {
  }

  // ------------------------------------------------------------ counting

  /** The number of lines that are neither blank nor comments once trimmed. */
  function CountSignificant(lines: seq<string>): nat
    decreases |lines|
  {
    if lines == [] then 0
    else CountSignificant(lines[..|lines| - 1])
         + (if IsSignificant(Trim(lines[|lines| - 1])) then 1 else 0)
  }

  /** The number of classified lines that are not skipped. */
  function CountNotSkipped(kinds: seq<LineKind>): nat
    decreases |kinds|
  {
    if kinds == [] then 0
    else CountNotSkipped(kinds[..|kinds| - 1]) + (if kinds[|kinds| - 1].Skipped? then 0 else 1)
  }

  /** The number of Unparsable issues. */
  function CountUnparsable(issues: seq<Issue>): nat
    decreases |issues|
  {
    if issues == [] then 0
    else CountUnparsable(issues[..|issues| - 1])
         + (if issues[|issues| - 1].Unparsable? then 1 else 0)
  }

  lemma {:induction false} CountUnparsableAppend(a: seq<Issue>, b: seq<Issue>)
    ensures CountUnparsable(a + b) == CountUnparsable(a) + CountUnparsable(b)
    decreases |b|
  {
    if b != [] {
      assert (a + b)[..|a + b| - 1] == a + b[..|b| - 1];
      assert (a + b)[|a + b| - 1] == b[|b| - 1];
      CountUnparsableAppend(a, b[..|b| - 1]);
    } else {
      assert a + b == a;
    }
  }

  lemma {:induction false} CountUnparsableNone(issues: seq<Issue>)
    requires forall i :: i in issues ==> !i.Unparsable?
    ensures CountUnparsable(issues) == 0
    decreases |issues|
  {
    if issues != [] {
      assert issues[|issues| - 1] in issues;
      CountUnparsableNone(issues[..|issues| - 1]);
    }
  }

  /** Every line that is not skipped gives either one variable or one
      Unparsable issue, and a skipped line gives neither. */
  lemma {:induction false} EachKeptLineCountsOnce(kinds: seq<LineKind>)
    ensures |Variables(kinds)| + CountUnparsable(Issues(kinds)) == CountNotSkipped(kinds)
    decreases |kinds|
  {
    if kinds != [] {
      var init, last, n := kinds[..|kinds| - 1], kinds[|kinds| - 1], |kinds|;
      EachKeptLineCountsOnce(init);
      CountUnparsableAppend(Issues(init), LineIssues(last, n));
      match last
      case Skipped =>
      case Assignment(key, value) =>
        WarningsSpec(Variable(key, value, n));
        CountUnparsableNone(Warnings(Variable(key, value, n)));
      case Malformed(t) =>
        assert CountUnparsable(LineIssues(last, n)) == CountUnparsable([] + [Unparsable(n, t)]);
    }
  }

  lemma {:induction false} NotSkippedAreSignificant(lines: seq<string>)
    ensures CountNotSkipped(ClassifyAll(lines)) == CountSignificant(lines)
    decreases |lines|
  {
    if lines != [] {
      var init := lines[..|lines| - 1];
      NotSkippedAreSignificant(init);
      assert ClassifyAll(lines)[..|lines| - 1] == ClassifyAll(init);
    }
  }

  /** Blank and comment lines give nothing; every other line gives either
      one variable or one Unparsable issue: the variables plus the
      Unparsable issues are as many as the significant lines. */
  lemma SignificantLinesAccounted(lines: seq<string>)
    ensures |Variables(ClassifyAll(lines))| + CountUnparsable(Issues(ClassifyAll(lines)))
            == CountSignificant(lines)
  {
    EachKeptLineCountsOnce(ClassifyAll(lines));
    NotSkippedAreSignificant(lines);
  }

  // ------------------------------------------------------------ ordering

  /** Variables come in file order, each carrying the number of the line it
      was parsed from, and each is exactly what that line yields. */
  lemma {:induction false} VariablesInFileOrder(kinds: seq<LineKind>)
    ensures forall j :: 0 <= j < |Variables(kinds)| ==>
              1 <= Variables(kinds)[j].line <= |kinds|
              && LineVariables(kinds[Variables(kinds)[j].line - 1], Variables(kinds)[j].line)
                 == [Variables(kinds)[j]]
    ensures forall j, k :: 0 <= j < k < |Variables(kinds)| ==>
              Variables(kinds)[j].line < Variables(kinds)[k].line
    decreases |kinds|
  {
    if kinds != [] {
      var init, n := kinds[..|kinds| - 1], |kinds|;
      VariablesInFileOrder(init);
      var vs, here := Variables(kinds), LineVariables(kinds[n - 1], n);
      assert vs == Variables(init) + here;
      forall j | 0 <= j < |vs|
        ensures 1 <= vs[j].line <= n
        ensures LineVariables(kinds[vs[j].line - 1], vs[j].line) == [vs[j]]
      {
        if j < |Variables(init)| {
          assert vs[j] == Variables(init)[j];
          assert kinds[vs[j].line - 1] == init[vs[j].line - 1];
        } else {
          assert vs[j] in here;
        }
      }
      forall j, k | 0 <= j < k < |vs|
        ensures vs[j].line < vs[k].line
      {
        if k >= |Variables(init)| {
          assert vs[k] in here;
        }
      }
    }
  }

  /** No assignment line is lost: what line `i` yields is among the
      variables of the file. */
  lemma {:induction false} AssignmentLineKept(kinds: seq<LineKind>, i: nat)
    requires i < |kinds|
    ensures forall v :: v in LineVariables(kinds[i], i + 1) ==> v in Variables(kinds)
    decreases |kinds|
  {
    var init := kinds[..|kinds| - 1];
    if i < |kinds| - 1 {
      AssignmentLineKept(init, i);
      assert kinds[i] == init[i];
    }
  }

  /** The issues of the line numbered `n`, in their order. */
  function IssuesOn(issues: seq<Issue>, n: nat): seq<Issue>
    decreases |issues|
  {
    if issues == [] then []
    else IssuesOn(issues[..|issues| - 1], n)
         + (if issues[|issues| - 1].line == n then [issues[|issues| - 1]] else [])
  }

  lemma {:induction false} IssuesOnAppend(a: seq<Issue>, b: seq<Issue>, n: nat)
    ensures IssuesOn(a + b, n) == IssuesOn(a, n) + IssuesOn(b, n)
    decreases |b|
  {
    if b != [] {
      assert (a + b)[..|a + b| - 1] == a + b[..|b| - 1];
      assert (a + b)[|a + b| - 1] == b[|b| - 1];
      IssuesOnAppend(a, b[..|b| - 1], n);
    } else {
      assert a + b == a;
    }
  }

  lemma {:induction false} IssuesOnOneLine(issues: seq<Issue>, m: nat, n: nat)
    requires forall i :: i in issues ==> i.line == m
    ensures IssuesOn(issues, n) == if m == n then issues else []
    decreases |issues|
  {
    if issues != [] {
      assert issues[|issues| - 1] in issues;
      IssuesOnOneLine(issues[..|issues| - 1], m, n);
    }
  }

  /** The issues of each line of the file are exactly those the line
      yields on its own, in the same order; other numbers have none. */
  lemma {:induction false} IssuesOfLine(kinds: seq<LineKind>, n: nat)
    ensures IssuesOn(Issues(kinds), n) == if 1 <= n <= |kinds| then LineIssues(kinds[n - 1], n) else []
    decreases |kinds|
  {
    if kinds != [] {
      var init, last, l := kinds[..|kinds| - 1], kinds[|kinds| - 1], |kinds|;
      IssuesOfLine(init, n);
      IssuesOnAppend(Issues(init), LineIssues(last, l), n);
      IssuesOnOneLine(LineIssues(last, l), l, n);
      if 1 <= n < l {
        assert init[n - 1] == kinds[n - 1];
      }
    }
  }

  /** Issues come in line order: all issues of a line come before those of
      any later line, and each names a line of the file. */
  lemma {:induction false} IssuesInLineOrder(kinds: seq<LineKind>)
    ensures forall j :: 0 <= j < |Issues(kinds)| ==> 1 <= Issues(kinds)[j].line <= |kinds|
    ensures forall j, k :: 0 <= j < k < |Issues(kinds)| ==>
              Issues(kinds)[j].line <= Issues(kinds)[k].line
    decreases |kinds|
  {
    if kinds != [] {
      var init, n := kinds[..|kinds| - 1], |kinds|;
      IssuesInLineOrder(init);
      var all, here := Issues(kinds), LineIssues(kinds[n - 1], n);
      assert all == Issues(init) + here;
      forall j | 0 <= j < |all|
        ensures 1 <= all[j].line <= n
      {
        if j < |Issues(init)| {
          assert all[j] == Issues(init)[j];
        } else {
          assert all[j] in here;
        }
      }
      forall j, k | 0 <= j < k < |all|
        ensures all[j].line <= all[k].line
      {
        if k >= |Issues(init)| {
          assert all[k] in here;
        } else {
          assert all[j] == Issues(init)[j] && all[k] == Issues(init)[k];
        }
      }
    }
  }

  /** A classified line gives a variable under its number exactly when it
      is an assignment, and then exactly one, with its key and value. */
  lemma VariableOfLine(kinds: seq<LineKind>, i: nat)
    requires i < |kinds|
    ensures !kinds[i].Assignment? ==> forall v :: v in Variables(kinds) ==> v.line != i + 1
    ensures kinds[i].Assignment? ==>
              var v := Variable(kinds[i].key, kinds[i].value, i + 1);
              v in Variables(kinds) && forall u :: u in Variables(kinds) && u.line == i + 1 ==> u == v
  {
    VariablesInFileOrder(kinds);
    AssignmentLineKept(kinds, i);
    forall u | u in Variables(kinds) && u.line == i + 1
      ensures kinds[i].Assignment? && u == Variable(kinds[i].key, kinds[i].value, i + 1)
    {
      var j :| 0 <= j < |Variables(kinds)| && Variables(kinds)[j] == u;
    }
  }

  /** What a classified line contributes to the whole file, in one place:
      its own issues under its number, and its variable if it has one. */
  lemma LineInFile(kinds: seq<LineKind>, i: nat)
    requires i < |kinds|
    ensures IssuesOn(Issues(kinds), i + 1) == LineIssues(kinds[i], i + 1)
    ensures !kinds[i].Assignment? ==> forall v :: v in Variables(kinds) ==> v.line != i + 1
    ensures kinds[i].Assignment? ==>
              var v := Variable(kinds[i].key, kinds[i].value, i + 1);
              v in Variables(kinds) && forall u :: u in Variables(kinds) && u.line == i + 1 ==> u == v
  {
    IssuesOfLine(kinds, i + 1);
    VariableOfLine(kinds, i);
  }

  // ------------------------------------------------- lines in the file

  /** A blank or comment line yields no variable and no issue. */
  lemma SkippedLineInFile(lines: seq<string>, i: nat)
    requires i < |lines| && !IsSignificant(Trim(lines[i]))
    ensures IssuesOn(Issues(ClassifyAll(lines)), i + 1) == []
    ensures forall v :: v in Variables(ClassifyAll(lines)) ==> v.line != i + 1
  {
    assert Classify(lines[i]) == Skipped;
    LineInFile(ClassifyAll(lines), i);
  }

  /** A line that does not fit the pattern yields exactly one Unparsable
      issue, with its number and trimmed text, and no variable. */
  lemma UnparsableLineInFile(lines: seq<string>, i: nat)
    requires i < |lines|
    requires IsSignificant(Trim(lines[i])) && MatchLine(Trim(lines[i])).None?
    ensures IssuesOn(Issues(ClassifyAll(lines)), i + 1) == [Unparsable(i + 1, Trim(lines[i]))]
    ensures forall v :: v in Variables(ClassifyAll(lines)) ==> v.line != i + 1
  {
    assert Classify(lines[i]) == Malformed(Trim(lines[i]));
    LineInFile(ClassifyAll(lines), i);
  }

  /** A line that fits the pattern yields exactly one variable, carrying the
      matched key and value, and its issues are that variable's warnings. */
  lemma AssignmentLineInFile(lines: seq<string>, i: nat)
    requires i < |lines|
    requires IsSignificant(Trim(lines[i])) && MatchLine(Trim(lines[i])).Some?
    ensures var m := MatchLine(Trim(lines[i])).value;
            var v := Variable(m.key, m.value, i + 1);
            v in Variables(ClassifyAll(lines))
            && (forall u :: u in Variables(ClassifyAll(lines)) && u.line == i + 1 ==> u == v)
            && IssuesOn(Issues(ClassifyAll(lines)), i + 1) == Warnings(v)
  {
    var m := MatchLine(Trim(lines[i])).value;
    assert Classify(lines[i]) == Assignment(m.key, m.value);
    LineInFile(ClassifyAll(lines), i);
  }
}
