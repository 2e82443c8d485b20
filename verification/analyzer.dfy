/**
 * What one run of the checker records: the variables it parsed and the
 * issues it raised, with the three heuristic rules applied to each
 * variable.
 */
module Entries {

  /** A parsed assignment with the 1-based number of the line it came from. */
  datatype Variable = Variable(key: string, value: string, line: nat)

  /** An issue of the report. A line that does not fit the pattern gives
      Unparsable with the trimmed text; the three rules give the others. */
  datatype Issue =
    | Unparsable(line: nat, text: string)
    | EmptyValue(line: nat, key: string)
    | HasSpaces(line: nat, key: string)
    | WeakSecret(line: nat, key: string)

  /** The position of each kind of issue among those one line can raise. */
  function Rank(i: Issue): nat {
    match i
    case Unparsable(_, _) => 0
    case EmptyValue(_, _) => 1
    case HasSpaces(_, _) => 2
    case WeakSecret(_, _) => 3
  }
}

module Analyzer {
  import opened Text
  import opened Entries

  /** The key marks a secret: `key.includes('SECRET')`. */
  predicate IsSecretKey(key: string) {
    Contains(key, "SECRET")
  }

  /** The warnings for one variable, in the order the rules run. */
  function Warnings(v: Variable): seq<Issue> {
    EmptyRule(v) + SpacesRule(v) + WeakRule(v)
  }

  /** The three rules run in a fixed order (empty value, then a space in
      the value, then a secret key whose value is shorter than 10
      characters), and each fires on its own condition, independently of
      the others; every warning names the variable's line and key. */
  lemma WarningsSpec(v: Variable)
    ensures |Warnings(v)| <= 3
    ensures forall w :: w in Warnings(v) ==> !w.Unparsable? && w.line == v.line && w.key == v.key
    ensures EmptyValue(v.line, v.key) in Warnings(v) <==> v.value == ""
    ensures HasSpaces(v.line, v.key) in Warnings(v) <==> ' ' in v.value
    ensures WeakSecret(v.line, v.key) in Warnings(v) <==> IsSecretKey(v.key) && |v.value| < 10
    ensures forall i, j :: 0 <= i < j < |Warnings(v)| ==> Rank(Warnings(v)[i]) < Rank(Warnings(v)[j])
  {
    ContainsChar(v.value, ' ');
  }

  /** Rule 1: the value is the empty string. */
  function EmptyRule(v: Variable): seq<Issue> {
    if v.value == "" then [EmptyValue(v.line, v.key)] else []
  }

  /** Rule 2: `value.includes(' ')`. */
  function SpacesRule(v: Variable): seq<Issue> {
    if Contains(v.value, " ") then [HasSpaces(v.line, v.key)] else []
  }

  /** Rule 3: a secret key with a value shorter than 10 characters. */
  function WeakRule(v: Variable): seq<Issue> {
    if IsSecretKey(v.key) && |v.value| < 10 then [WeakSecret(v.line, v.key)] else []
  }

  /** An empty value never draws the spaces warning: it can draw the
      empty-value warning and, for a secret key, the weak-secret one. */
  lemma EmptyValueWarnings(v: Variable)
    requires v.value == ""
    ensures Warnings(v) == [EmptyValue(v.line, v.key)]
                           + (if IsSecretKey(v.key) then [WeakSecret(v.line, v.key)] else [])
  {
    WarningsSpec(v);
    var ws := Warnings(v);
    assert EmptyValue(v.line, v.key) in ws;
    if IsSecretKey(v.key) {
      assert WeakSecret(v.line, v.key) in ws;
      assert |ws| == 2;
    } else {
      assert |ws| == 1;
    }
  }
}
