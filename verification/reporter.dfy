/**
 * What the report derives from the parsed variables and issues: the value
 * shown for each variable and the confidence score.
 */
module Reporter {
  import opened Text
  import opened Entries
  import opened Analyzer

  /** The fixed token shown in place of a sensitive value. */
  const Mask: string := "********"

  /** `key.includes('SECRET') || key.includes('KEY')`. */
  predicate IsSensitiveKey(key: string) {
    Contains(key, "SECRET") || Contains(key, "KEY")
  }

  /** The value shown for a variable in the report. */
  function DisplayValue(v: Variable): string {
    if IsSensitiveKey(v.key) then Mask else v.value
  }

  /** A sensitive key shows the mask whatever its value (even an empty
      one); any other key shows its value verbatim. The shown text equals
      the mask exactly when the key is sensitive or the value is itself
      the mask text. */
  lemma DisplayValueSpec(v: Variable)
    ensures IsSensitiveKey(v.key) ==> DisplayValue(v) == Mask && |DisplayValue(v)| == 8
    ensures !IsSensitiveKey(v.key) ==> DisplayValue(v) == v.value
    ensures DisplayValue(v) == Mask <==> IsSensitiveKey(v.key) || v.value == Mask
  {
  }

  /** Masking hides the value: two variables with the same sensitive key
      show the same text, whatever their values. */
  lemma MaskHidesValue(v: Variable, w: Variable)
    requires v.key == w.key && IsSensitiveKey(v.key)
    ensures DisplayValue(v) == DisplayValue(w)
  {
  }

  /** A key is sensitive exactly when "SECRET" or "KEY" occurs in it at
      some position. */
  lemma SensitiveKeyOccurrence(key: string)
    ensures IsSensitiveKey(key) <==>
              (exists i :: OccursAt(key, "SECRET", i)) || (exists i :: OccursAt(key, "KEY", i))
  {
    ContainsIffOccurs(key, "SECRET");
    ContainsIffOccurs(key, "KEY");
  }

  /** Every variable flagged as a weak secret is masked in the report. */
  lemma WeakSecretIsMasked(v: Variable)
    requires WeakSecret(v.line, v.key) in Warnings(v)
    ensures DisplayValue(v) == Mask
  {
    WarningsSpec(v);
  }

  /** The shown value of each variable, in order. */
  function Shown(variables: seq<Variable>): seq<string> {
    seq(|variables|, j requires 0 <= j < |variables| => DisplayValue(variables[j]))
  }

  /** The loop over the variables that prints each as `KEY=VALUE`: one
      shown value per variable, in order, each its display value. */
  method ShowValues(variables: seq<Variable>) returns (shown: seq<string>)
    ensures |shown| == |variables|
    ensures forall j :: 0 <= j < |variables| ==> shown[j] == DisplayValue(variables[j])
  {
    shown := [];
    for j := 0 to |variables|
      invariant |shown| == j
      invariant forall k :: 0 <= k < j ==> shown[k] == DisplayValue(variables[k])
    {
      shown := shown + [DisplayValue(variables[j])];
    }
  }

  function Max(a: int, b: int): int {
    if a < b then b else a
  }

  /** The confidence score for `issueCount` issues: 100 with no issue,
      otherwise `Math.max(10, 100 - issueCount * 10)`. */
  function ConfidenceScore(issueCount: nat): (score: int)
    ensures 10 <= score <= 100
    ensures score == 100 <==> issueCount == 0
    ensures issueCount >= 9 ==> score == 10
    ensures 1 <= issueCount <= 9 ==> score == 100 - 10 * issueCount
  {
    if issueCount == 0 then 100 else Max(10, 100 - issueCount * 10)
  }

  /** More issues never raise the score. */
  lemma ScoreNonIncreasing(m: nat, n: nat)
    requires m <= n
    ensures ConfidenceScore(n) <= ConfidenceScore(m)
  {
  }

  /** The special case for no issues agrees with the general formula: the
      score is `max(10, 100 - 10 * n)` for every count. */
  lemma ScoreIsFormula(n: nat)
    ensures ConfidenceScore(n) == Max(10, 100 - 10 * n)
  {
  }
}
