/**
 * The one pattern the checker matches a significant trimmed line against,
 * `/^([A-Z_][A-Z0-9_]*)=?(.*)$/` (no flags), and what `line.match` returns
 * for it: the key group and the value group of the first match found by
 * the regular-expression engine's backtracking search.
 */
module LineSyntax {
  import opened Wrappers

  /** `[A-Z_]`: the first character of a key. */
  predicate IsKeyStart(c: char) {
    ('A' <= c <= 'Z') || c == '_'
  }

  /** `[A-Z0-9_]`: every later character of a key. */
  predicate IsKeyChar(c: char) {
    IsKeyStart(c) || ('0' <= c <= '9')
  }

  /** The characters `.` does not match without the `s` flag. */
  predicate IsLineTerminator(c: char) {
    c == '\n' || c == '\r' || c == '\U{2028}' || c == '\U{2029}'
  }

  predicate HasLineTerminator(t: string) {
    exists k :: 0 <= k < |t| && IsLineTerminator(t[k])
  }

  /** The key and value groups of a successful match. */
  datatype Match = Match(key: string, value: string)

  /** The length of the longest run of key characters at the front of `t`:
      how far the greedy group `[A-Z0-9_]*` reaches. */
  function KeyLength(t: string): (n: nat)
    ensures n <= |t|
    ensures forall k :: 0 <= k < n ==> IsKeyChar(t[k])
    ensures n == |t| || !IsKeyChar(t[n])
    decreases |t|
  {
    if t != [] && IsKeyChar(t[0]) then 1 + KeyLength(t[1..]) else 0
  }

  /** `t.match(/^([A-Z_][A-Z0-9_]*)=?(.*)$/)`. The match fails exactly when
      `t` does not start with `[A-Z_]` or holds a line terminator anywhere
      (`.` cannot cross one and `$` needs the end of input). Otherwise the
      key is the longest run of key characters and the value is the rest
      of `t` after at most one `=`, unchanged. */
  function MatchLine(t: string): (m: Option<Match>)
    ensures m.None? <==> (t == [] || !IsKeyStart(t[0]) || HasLineTerminator(t))
    ensures m.Some? ==>
              1 <= |m.value.key| <= |t| && m.value.key == t[..|m.value.key|]
              && (forall k :: 0 <= k < |m.value.key| ==> IsKeyChar(t[k]))
              && (|m.value.key| == |t| || !IsKeyChar(t[|m.value.key|]))
    ensures m.Some? ==>
              var n := |m.value.key|;
              m.value.value == if n < |t| && t[n] == '=' then t[n + 1..] else t[n..]
  {
    if t == [] || !IsKeyStart(t[0]) || HasLineTerminator(t) then None
    else
      var n := KeyLength(t);
      var rest := t[n..];
      Some(Match(t[..n], if rest != [] && rest[0] == '=' then rest[1..] else rest))
  }

  /** One way the pattern can match all of `t`: key group `key`, an `=`
      consumed by `=?` exactly when `eq`, and value group `value`. */
  ghost predicate RegexSplit(t: string, key: string, eq: bool, value: string) {
    key != [] && IsKeyStart(key[0])
    && (forall k :: 0 <= k < |key| ==> IsKeyChar(key[k]))
    && t == key + (if eq then "=" else "") + value
    && (forall k :: 0 <= k < |value| ==> !IsLineTerminator(value[k]))
  }

  /** MatchLine picks, among all the ways the pattern can match, one with
      the longest key, and it consumes `=` whenever the character after
      that key is one. This is the match the backtracking engine finds
      first, since the greedy key group tries longer keys before shorter
      ones and `=?` tries consuming before skipping. No way to match
      exists when MatchLine fails. */
  lemma MatchLineIsFirstRegexMatch(t: string, key: string, eq: bool, value: string)
    ensures MatchLine(t).None? ==> !RegexSplit(t, key, eq, value)
    ensures MatchLine(t).Some? ==>
              var m := MatchLine(t).value;
              var n := |m.key|;
              RegexSplit(t, m.key, n < |t| && t[n] == '=', m.value)
              && (RegexSplit(t, key, eq, value) ==> |key| <= n)
  {
    if MatchLine(t).Some? {
      var m := MatchLine(t).value;
      var n := |m.key|;
      var eqW := n < |t| && t[n] == '=';
      assert t == m.key + (if eqW then "=" else "") + m.value;
      assert forall k :: 0 <= k < |m.value| ==> !IsLineTerminator(m.value[k]) by {
        forall k | 0 <= k < |m.value|
          ensures !IsLineTerminator(m.value[k])
        {
          assert m.value[k] == t[k + n + (if eqW then 1 else 0)];
        }
      }
      assert RegexSplit(t, m.key, eqW, m.value);
    }
  }
}
