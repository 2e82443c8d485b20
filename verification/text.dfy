/**
 * The JavaScript string operations the checker relies on: `split('\n')`,
 * `trim()` and `includes(...)`, over strings as sequences of characters.
 */
module Text {

  /** The characters `String.prototype.trim` strips: ECMAScript WhiteSpace
      (tab, vertical tab, form feed, the byte-order mark and every space
      separator) and LineTerminator (LF, CR, LS, PS). */
  predicate IsWhite(c: char) {
    c == '\t' || c == '\n' || c == '\U{000B}' || c == '\U{000C}' || c == '\r'
    || c == ' ' || c == '\U{00A0}' || c == '\U{1680}'
    || ('\U{2000}' <= c <= '\U{200A}')
    || c == '\U{2028}' || c == '\U{2029}' || c == '\U{202F}' || c == '\U{205F}'
    || c == '\U{3000}' || c == '\U{FEFF}'
  }

  // ---------------------------------------------------------------- split

  /** `s.split(sep)` for a one-character separator: the maximal pieces
      between separators, always at least one (possibly empty) piece. */
  function Split(s: string, sep: char): (parts: seq<string>)
    ensures |parts| >= 1
    ensures forall i :: 0 <= i < |parts| ==> sep !in parts[i]
    decreases |s|
  {
    if s == [] then [[]]
    else
      var rest := Split(s[1..], sep);
      if s[0] == sep then [[]] + rest
      else [[s[0]] + rest[0]] + rest[1..]
  }

  /** `parts.join(sep)`: the inverse of Split. */
  function Join(parts: seq<string>, sep: char): string
    requires |parts| >= 1
    decreases |parts|
  {
    if |parts| == 1 then parts[0] else parts[0] + [sep] + Join(parts[1..], sep)
  }

  /** Splitting loses nothing: joining the pieces gives the text back. */
  lemma {:induction false} JoinSplit(s: string, sep: char)
    ensures Join(Split(s, sep), sep) == s
    decreases |s|
  {
    if s != [] {
      var rest := Split(s[1..], sep);
      JoinSplit(s[1..], sep);
      if s[0] == sep {
        assert Split(s, sep)[1..] == rest;
      } else {
        var parts := Split(s, sep);
        assert parts[0] == [s[0]] + rest[0];
        if |rest| == 1 {
          assert Join(parts, sep) == [s[0]] + rest[0];
        } else {
          assert parts[1..] == rest[1..];
          assert Join(parts, sep) == [s[0]] + (rest[0] + [sep] + Join(rest[1..], sep));
        }
      }
    }
  }

  /** Splitting undoes joining, as long as no piece holds the separator. */
  lemma {:induction false} SplitJoin(parts: seq<string>, sep: char)
    requires |parts| >= 1
    requires forall i :: 0 <= i < |parts| ==> sep !in parts[i]
    ensures Split(Join(parts, sep), sep) == parts
    decreases |Join(parts, sep)|
  {
    var p := parts[0];
    if |parts| == 1 {
      if p != [] {
        assert p[0] in p;
        assert sep !in p[1..] by { assert forall c :: c in p[1..] ==> c in p; }
        SplitJoin([p[1..]], sep);
        assert Split(p[1..], sep) == [p[1..]];
        assert [p[0]] + p[1..] == p;
      }
    } else {
      var tail := Join(parts[1..], sep);
      assert Join(parts, sep) == p + [sep] + tail;
      if p == [] {
        SplitJoin(parts[1..], sep);
        assert Join(parts, sep)[1..] == tail;
      } else {
        var shorter := [p[1..]] + parts[1..];
        assert shorter[1..] == parts[1..];
        assert Join(shorter, sep) == p[1..] + [sep] + tail;
        assert Join(parts, sep)[1..] == Join(shorter, sep);
        assert sep !in p[1..] by { assert forall c :: c in p[1..] ==> c in p; }
        SplitJoin(shorter, sep);
        assert p[0] in p;
        assert Join(parts, sep)[0] == p[0] != sep;
        assert [p[0]] + p[1..] == p;
        assert [[p[0]] + p[1..]] + parts[1..] == parts;
      }
    }
  }

  // ----------------------------------------------------------------- trim

  /** The number of white characters at the front of `s`. */
  function LeadingWhite(s: string): (n: nat)
    ensures n <= |s|
    ensures forall k :: 0 <= k < n ==> IsWhite(s[k])
    ensures n < |s| ==> !IsWhite(s[n])
    decreases |s|
  {
    if s != [] && IsWhite(s[0]) then 1 + LeadingWhite(s[1..]) else 0
  }

  /** The number of white characters at the back of `s`. */
  function TrailingWhite(s: string): (n: nat)
    ensures n <= |s|
    ensures forall k :: |s| - n <= k < |s| ==> IsWhite(s[k])
    ensures n < |s| ==> !IsWhite(s[|s| - 1 - n])
    decreases |s|
  {
    if s != [] && IsWhite(s[|s| - 1]) then 1 + TrailingWhite(s[..|s| - 1]) else 0
  }

  /** `t` stands at position `i` of `s`, with only white characters around it. */
  predicate WhiteAround(s: string, i: int, t: string) {
    0 <= i <= |s| - |t| && t == s[i..i + |t|]
    && (forall k :: 0 <= k < i ==> IsWhite(s[k]))
    && (forall k :: i + |t| <= k < |s| ==> IsWhite(s[k]))
  }

  /** `s.trim()`: `s` is white characters, then `t`, then white characters,
      and `t` neither starts nor ends with a white character. */
  function Trim(s: string): (t: string)
    ensures |t| <= |s|
    ensures t == [] || (!IsWhite(t[0]) && !IsWhite(t[|t| - 1]))
    ensures exists i :: WhiteAround(s, i, t)
  {
    var a := LeadingWhite(s);
    var rest := s[a..];
    var b := TrailingWhite(rest);
    var t := rest[..|rest| - b];
    assert t == s[a..a + |t|];
    assert forall k :: a + |t| <= k < |s| ==> IsWhite(s[k]) by {
      forall k | a + |t| <= k < |s| ensures IsWhite(s[k]) {
        assert s[k] == rest[k - a];
      }
    }
    assert t != [] ==> t[0] == s[a];
    assert WhiteAround(s, a, t);
    t
  }

  /** Trimming a trimmed string changes nothing. */
  lemma TrimIdempotent(s: string)
    ensures Trim(Trim(s)) == Trim(s)
  {
    var t := Trim(s);
    assert LeadingWhite(t) == 0;
    assert TrailingWhite(t) == 0;
    assert t[0..][..|t|] == t;
  }

  // ------------------------------------------------------------- includes

  /** `s.startsWith(p)`. */
  predicate StartsWith(s: string, p: string) {
    |p| <= |s| && s[..|p|] == p
  }

  /** `s.includes(p)`, searched position by position. */
  predicate Contains(s: string, p: string)
    decreases |s|
  {
    StartsWith(s, p) || (s != [] && Contains(s[1..], p))
  }

  /** `p` occurs in `s` starting at position `i`. */
  predicate OccursAt(s: string, p: string, i: int) {
    0 <= i <= |s| - |p| && s[i..i + |p|] == p
  }

  /** Contains holds exactly when `p` occurs at some position of `s`. */
  lemma {:induction false} ContainsIffOccurs(s: string, p: string)
    ensures Contains(s, p) <==> exists i :: OccursAt(s, p, i)
    decreases |s|
  {
    if StartsWith(s, p) {
      assert OccursAt(s, p, 0);
    }
    if s != [] {
      ContainsIffOccurs(s[1..], p);
      if Contains(s[1..], p) {
        var i :| OccursAt(s[1..], p, i);
        assert s[1..][i..i + |p|] == s[i + 1..i + 1 + |p|];
        assert OccursAt(s, p, i + 1);
      }
      if i :| OccursAt(s, p, i) && i > 0 {
        assert s[1..][i - 1..i - 1 + |p|] == s[i..i + |p|];
        assert OccursAt(s[1..], p, i - 1);
      }
    }
    if i :| OccursAt(s, p, i) && i == 0 {
      assert StartsWith(s, p);
    }
  }

  /** Searching for a one-character string is membership. */
  lemma ContainsChar(s: string, c: char)
    ensures Contains(s, [c]) <==> c in s
  {
    ContainsIffOccurs(s, [c]);
    if c in s {
      var i :| 0 <= i < |s| && s[i] == c;
      assert OccursAt(s, [c], i);
    }
    if i :| OccursAt(s, [c], i) {
      assert s[i] == s[i..i + 1][0];
    }
  }
}
