/**
 * The search for the environment file: the candidate names are tried in
 * a fixed order and the first one that exists wins. Which files exist is
 * a parameter (the set of names present in the working directory).
 */
module Locator {
  import opened Wrappers

  /** The candidate names, in priority order. */
  const EnvFiles: seq<string> := [".env", ".env.local", ".env.development", ".env.production"]

  /** `candidates[i]` is present and no earlier candidate is. */
  predicate FirstPresentAt(candidates: seq<string>, present: set<string>, i: int) {
    0 <= i < |candidates| && candidates[i] in present
    && forall j :: 0 <= j < i ==> candidates[j] !in present
  }

  /** The `for ... of` loop with `break`: the result is the first candidate
      that exists, or None when none does. */
  method FindEnvFile(candidates: seq<string>, present: set<string>) returns (found: Option<string>)
    ensures found.None? <==> forall i :: 0 <= i < |candidates| ==> candidates[i] !in present
    ensures found.Some? ==> exists i :: FirstPresentAt(candidates, present, i) && candidates[i] == found.value
  {
    found := None;
    for i := 0 to |candidates|
      invariant forall j :: 0 <= j < i ==> candidates[j] !in present
    {
      if candidates[i] in present {
        found := Some(candidates[i]);
        assert FirstPresentAt(candidates, present, i);
        break;
      }
    }
  }

  /** At most one candidate is first: the name FindEnvFile returns is
      determined by the candidates and the files present. */
  lemma FirstPresentUnique(candidates: seq<string>, present: set<string>, i: int, j: int)
    requires FirstPresentAt(candidates, present, i) && FirstPresentAt(candidates, present, j)
    ensures i == j
  {
  }
}
