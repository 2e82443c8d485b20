/**
 * Single lines and what the checker makes of them, including the
 * permissive cases of the pattern: a space instead of `=`, a doubled `=`,
 * and a carriage return inside the line.
 */
module LineExamples {
  import opened Wrappers
  import opened Text
  import opened LineSyntax
  import opened Entries
  import opened Analyzer

  /** The match of a line whose key is its first three characters. */
  lemma ThreeCharacterKey(t: string)
    requires |t| > 3 && IsKeyStart(t[0]) && IsKeyChar(t[1]) && IsKeyChar(t[2]) && !IsKeyChar(t[3])
    requires forall k :: 0 <= k < |t| ==> !IsLineTerminator(t[k])
    ensures MatchLine(t) == Some(Match(t[..3], if t[3] == '=' then t[4..] else t[3..]))
  {
    var m := MatchLine(t).value;
    assert |m.key| == 3;
  }

  lemma PlainAssignment()
    ensures MatchLine("FOO=bar") == Some(Match("FOO", "bar"))
  {
    var t := "FOO=bar";
    assert forall k :: 0 <= k < |t| ==> !IsLineTerminator(t[k]);
    ThreeCharacterKey(t);
    assert t[..3] == "FOO" && t[4..] == "bar";
  }

  lemma PlainAssignmentWarnings()
    ensures Warnings(Variable("FOO", "bar", 1)) == []
  {
    ContainsChar("bar", ' ');
    ContainsIffOccurs("FOO", "SECRET");
  }

  lemma SpaceInsteadOfEquals()
    ensures MatchLine("FOO bar") == Some(Match("FOO", " bar"))
  {
    var t := "FOO bar";
    assert forall k :: 0 <= k < |t| ==> !IsLineTerminator(t[k]);
    ThreeCharacterKey(t);
    assert t[..3] == "FOO" && t[3..] == " bar";
  }

  lemma SpaceInsteadOfEqualsWarnings()
    ensures Warnings(Variable("FOO", " bar", 1)) == [HasSpaces(1, "FOO")]
  {
    ContainsChar(" bar", ' ');
    assert ' ' == " bar"[0];
    ContainsIffOccurs("FOO", "SECRET");
  }

  lemma DoubledEquals()
    ensures MatchLine("FOO==x") == Some(Match("FOO", "=x"))
  {
    var t := "FOO==x";
    assert forall k :: 0 <= k < |t| ==> !IsLineTerminator(t[k]);
    ThreeCharacterKey(t);
    assert t[..3] == "FOO" && t[4..] == "=x";
  }

  lemma ShortSecretIsWeak()
    ensures Warnings(Variable("API_SECRET", "abc", 2)) == [WeakSecret(2, "API_SECRET")]
  {
    ContainsChar("abc", ' ');
    ContainsIffOccurs("API_SECRET", "SECRET");
    assert OccursAt("API_SECRET", "SECRET", 4);
  }

  lemma TenCharacterSecretIsNotWeak()
    ensures Warnings(Variable("API_SECRET", "abcdefghij", 2)) == []
  {
    ContainsChar("abcdefghij", ' ');
  }

  lemma NotAnAssignment()
    ensures MatchLine("not a valid line !!") == None
  {
    assert !IsKeyStart('n');
  }

  lemma InteriorCarriageReturn()
    ensures MatchLine("A=1\rB=2") == None
  {
    assert IsLineTerminator("A=1\rB=2"[3]);
  }
}
