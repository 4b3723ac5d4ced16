/** Character and string helpers shared by the Ruby and the JavaScript
    revisions: an Option type for absent request parameters, ASCII case
    folding, Ruby's `String#strip`, and suffix tests. */
module Text {

  /** An optional request parameter: `None` is Ruby's `nil` or JavaScript's `undefined`. */
  datatype Option<+T> = None | Some(value: T)

  /** Lower-case mapping of one character, restricted to ASCII letters: no
      upper-case letter is left, and letters stay letters while every other
      character stays a non-letter. */
  function LowerChar(c: char): (d: char)
    ensures !('A' <= d <= 'Z')
    ensures ('a' <= d <= 'z') <==> ('a' <= c <= 'z' || 'A' <= c <= 'Z')
  {
    if 'A' <= c <= 'Z' then (c as int + 32) as char else c
  }

  /** Ruby's `downcase` and JavaScript's `toLowerCase` on ASCII text. */
  function Lower(s: string): (r: string)
    ensures |r| == |s|
    ensures forall i :: 0 <= i < |s| ==> r[i] == LowerChar(s[i])
  {
    if s == [] then [] else [LowerChar(s[0])] + Lower(s[1..])
  }

  /** Lowering twice is lowering once. */
  lemma {:induction false} LowerIdempotent(s: string)
    ensures Lower(Lower(s)) == Lower(s)
  {
    assert forall i :: 0 <= i < |s| ==> Lower(Lower(s))[i] == Lower(s)[i];
  }

  /** Lowering works character by character, so it distributes over concatenation. */
  lemma {:induction false} LowerConcat(a: string, b: string)
    ensures Lower(a + b) == Lower(a) + Lower(b)
  {
    assert forall i :: 0 <= i < |a + b| ==> Lower(a + b)[i] == (Lower(a) + Lower(b))[i];
  }

  /** Text without upper-case letters is its own lower-case form. */
  lemma {:induction false} LowerKeeps(s: string)
    requires forall i :: 0 <= i < |s| ==> !('A' <= s[i] <= 'Z')
    ensures Lower(s) == s
  {
    assert forall i :: 0 <= i < |s| ==> Lower(s)[i] == s[i];
  }

  /** Appending text without upper-case letters commutes with lowering. */
  lemma {:induction false} LowerAppendLowercase(a: string, b: string)
    requires forall i :: 0 <= i < |b| ==> !('A' <= b[i] <= 'Z')
    ensures Lower(a + b) == Lower(a) + b
  {
    LowerConcat(a, b);
    LowerKeeps(b);
  }

  /** `l` is the lower-case form of `s` when it lowers `s` character by character. */
  lemma {:induction false} LowerPointwise(s: string, l: string)
    requires |s| == |l|
    requires forall i :: 0 <= i < |s| ==> LowerChar(s[i]) == l[i]
    ensures Lower(s) == l
  {
    assert forall i :: 0 <= i < |s| ==> Lower(s)[i] == l[i];
  }

  /** Lowering a prefix gives the prefix of the lowered text. */
  lemma {:induction false} LowerPrefix(s: string, n: nat)
    requires n <= |s|
    ensures Lower(s)[..n] == Lower(s[..n])
  {
    assert forall i :: 0 <= i < n ==> Lower(s)[..n][i] == Lower(s[..n])[i];
  }

  /** The characters Ruby's `strip` removes: NUL, horizontal tab, line feed,
      vertical tab, form feed, carriage return and space. */
  predicate IsSpace(c: char) {
    c == '\0' || c == '\t' || c == '\n' || c == '\U{000B}' || c == '\U{000C}' || c == '\r' || c == ' '
  }

  /** Leading whitespace removed (Ruby's `lstrip`). */
  function TrimStart(s: string): (r: string)
    ensures |r| <= |s| && r == s[|s| - |r|..]
    ensures forall i :: 0 <= i < |s| - |r| ==> IsSpace(s[i])
    ensures r != [] ==> !IsSpace(r[0])
  {
    if s != [] && IsSpace(s[0]) then TrimStart(s[1..]) else s
  }

  /** Trailing whitespace removed (Ruby's `rstrip`). */
  function TrimEnd(s: string): (r: string)
    ensures |r| <= |s| && r == s[..|r|]
    ensures forall i :: |r| <= i < |s| ==> IsSpace(s[i])
    ensures r != [] ==> !IsSpace(r[|r| - 1])
  {
    if s != [] && IsSpace(s[|s| - 1]) then TrimEnd(s[..|s| - 1]) else s
  }

  /** Ruby's `strip`: leading and trailing whitespace removed. The result is
      the middle of the text, and everything around it is whitespace. */
  function Strip(s: string): (r: string)
    ensures |r| <= |s|
    ensures r != [] ==> !IsSpace(r[0]) && !IsSpace(r[|r| - 1])
    ensures (forall i :: 0 <= i < |s| ==> !IsSpace(s[i])) ==> r == s
    ensures exists i {:trigger s[i..]} :: 0 <= i <= |s| - |r| && r == s[i..i + |r|]
              && (forall k :: 0 <= k < i ==> IsSpace(s[k]))
              && (forall k :: i + |r| <= k < |s| ==> IsSpace(s[k]))
  {
    var t := TrimStart(s);
    var i := |s| - |t|;
    assert s[i..] == t;
    TrimEnd(t)
  }

  /** Whitespace in front of text that does not open with whitespace is all
      that `lstrip` removes. */
  lemma {:induction false} TrimStartPadding(p: string, x: string)
    requires forall i :: 0 <= i < |p| ==> IsSpace(p[i])
    requires x == [] || !IsSpace(x[0])
    ensures TrimStart(p + x) == x
    decreases |p|
  {
    if p == [] {
      assert p + x == x;
    } else {
      assert (p + x)[0] == p[0];
      assert (p + x)[1..] == p[1..] + x;
      TrimStartPadding(p[1..], x);
    }
  }

  /** Whitespace after text that does not end with whitespace is all that
      `rstrip` removes. */
  lemma {:induction false} TrimEndPadding(x: string, q: string)
    requires forall i :: 0 <= i < |q| ==> IsSpace(q[i])
    requires x == [] || !IsSpace(x[|x| - 1])
    ensures TrimEnd(x + q) == x
    decreases |q|
  {
    if q == [] {
      assert x + q == x;
    } else {
      assert (x + q)[|x + q| - 1] == q[|q| - 1];
      assert (x + q)[..|x + q| - 1] == x + q[..|q| - 1];
      TrimEndPadding(x, q[..|q| - 1]);
    }
  }

  /** `strip` removes exactly the whitespace padding around text whose ends
      are not whitespace, and keeps its middle, whitespace included. */
  lemma {:induction false} StripPadding(p: string, a: string, q: string)
    requires forall i :: 0 <= i < |p| ==> IsSpace(p[i])
    requires forall i :: 0 <= i < |q| ==> IsSpace(q[i])
    requires a == [] || (!IsSpace(a[0]) && !IsSpace(a[|a| - 1]))
    ensures Strip(p + a + q) == a
  {
    if a == [] {
      assert p + a + q == (p + q) + [];
      TrimStartPadding(p + q, []);
    } else {
      assert p + a + q == p + (a + q);
      assert (a + q)[0] == a[0];
      TrimStartPadding(p, a + q);
      TrimEndPadding(a, q);
    }
  }

  /** Whitespace is its own lower-case form. */
  lemma {:induction false} SpaceUnlowered(p: string)
    requires forall i :: 0 <= i < |p| ==> IsSpace(p[i])
    ensures Lower(p) == p
  {
    LowerKeeps(p);
  }

  /** Text without whitespace is left alone by stripping, before or after lowering. */
  lemma {:induction false} StripLowerNoSpace(a: string)
    requires forall i :: 0 <= i < |a| ==> !IsSpace(a[i])
    ensures forall i :: 0 <= i < |a| ==> !IsSpace(Lower(a)[i])
    ensures Strip(Lower(a)) == Lower(a) && Strip(a) == a
  {
    var l := Lower(a);
    assert forall i :: 0 <= i < |l| ==> !IsSpace(l[i]);
  }

  /** JavaScript's `endsWith` and Ruby's `end_with?`. */
  predicate EndsWith(s: string, suffix: string) {
    |suffix| <= |s| && s[|s| - |suffix|..] == suffix
  }
}
