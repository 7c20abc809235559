/** String helpers shared by the scanner, the probes and the dispatchers.
    Case conversion is ASCII-only: every literal the program compares against is ASCII. */
module Text {

  /** ASCII lower-casing of one character; other characters are left alone. */
  function LowerChar(c: char): char
  {
    if 'A' <= c <= 'Z' then (c as int - 'A' as int + 'a' as int) as char else c
  }

  /** String.toLowerCase, restricted to ASCII letters. */
  function Lower(s: string): (r: string)
    ensures |r| == |s|
    ensures forall i | 0 <= i < |s| :: r[i] == LowerChar(s[i])
  {
    seq(|s|, i requires 0 <= i < |s| => LowerChar(s[i]))
  }

  lemma LowerIdempotent(s: string)
    ensures Lower(Lower(s)) == Lower(s)
  {
  }

  /** String.equalsIgnoreCase, restricted to ASCII letters. */
  predicate EqualsIgnoreCase(a: string, b: string)
  {
    |a| == |b| && forall i | 0 <= i < |a| :: LowerChar(a[i]) == LowerChar(b[i])
  }

  /** String.contains: `t` occurs somewhere in `s`. */
  predicate Contains(s: string, t: string)
  {
    exists i | 0 <= i <= |s| - |t| :: OccursAt(s, t, i)
  }

  predicate OccursAt(s: string, t: string, i: int)
  {
    0 <= i <= |s| - |t| && s[i..i + |t|] == t
  }

  predicate StartsWith(s: string, p: string)
  {
    |p| <= |s| && s[..|p|] == p
  }

  /** The characters String.trim removes: every code point up to U+0020. */
  predicate IsTrimmed(c: char)
  {
    c <= ' '
  }

  predicate IsBlank(s: string)
  {
    forall k | 0 <= k < |s| :: IsTrimmed(s[k])
  }

  /** `r` sits at position `a` of `s` with only trimmed characters before and after it. */
  predicate FramedAt(s: string, r: string, a: int)
  {
    && 0 <= a <= |s| - |r|
    && s[a..a + |r|] == r
    && (forall k | 0 <= k < a :: IsTrimmed(s[k]))
    && (forall k | a + |r| <= k < |s| :: IsTrimmed(s[k]))
  }

  /** String.trim: drop leading and trailing characters up to U+0020. */
  function Trim(s: string): (r: string)
    ensures |r| == 0 <==> IsBlank(s)
    ensures |r| > 0 ==> !IsTrimmed(r[0]) && !IsTrimmed(r[|r| - 1])
    ensures exists a :: FramedAt(s, r, a)
    decreases |s|
  {
    if |s| > 0 && IsTrimmed(s[0]) then
      var r := Trim(s[1..]);
      DropFirst(s, s[1..], r);
      r
    else if |s| > 0 && IsTrimmed(s[|s| - 1]) then
      var p := s[..|s| - 1];
      var r := Trim(p);
      DropLast(s, p, r);
      r
    else
      assert FramedAt(s, s, 0);
      s
  }

  /** trim() returns a string whose ends are not blank unchanged. */
  lemma TrimKeeps(s: string)
    requires |s| > 0 && !IsTrimmed(s[0]) && !IsTrimmed(s[|s| - 1])
    ensures Trim(s) == s
  {
    var r := Trim(s);
    var a :| FramedAt(s, r, a);
    assert a == 0;
    assert a + |r| == |s|;
  }

  /** Framing carries over from `s[1..]` to `s` when `s[0]` is trimmed. */
  lemma DropFirst(s: string, t: string, r: string)
    requires |s| > 0 && IsTrimmed(s[0]) && t == s[1..]
    requires |r| == 0 <==> IsBlank(t)
    requires exists a :: FramedAt(t, r, a)
    ensures |r| == 0 <==> IsBlank(s)
    ensures exists a :: FramedAt(s, r, a)
  {
    var a :| FramedAt(t, r, a);
    assert forall k | 1 <= k < |s| :: s[k] == t[k - 1];
    assert s[a + 1..a + 1 + |r|] == t[a..a + |r|];
    assert FramedAt(s, r, a + 1);
  }

  /** Framing carries over from the prefix to `s` when its last character is trimmed. */
  lemma DropLast(s: string, p: string, r: string)
    requires |s| > 0 && IsTrimmed(s[|s| - 1]) && p == s[..|s| - 1]
    requires |r| == 0 <==> IsBlank(p)
    requires exists a :: FramedAt(p, r, a)
    ensures |r| == 0 <==> IsBlank(s)
    ensures exists a :: FramedAt(s, r, a)
  {
    var a :| FramedAt(p, r, a);
    assert forall k | 0 <= k < |p| :: s[k] == p[k];
    assert s[a..a + |r|] == p[a..a + |r|];
    assert FramedAt(s, r, a);
  }
}
