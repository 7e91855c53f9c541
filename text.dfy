/**
 * The two JavaScript string operations the core relies on: `String.prototype.trim` and
 * `String.prototype.includes`. Strings are sequences of Unicode scalar values.
 */
module Text {

  /** ECMAScript WhiteSpace and LineTerminator code points, the set `trim` removes. */
  predicate IsJsWhitespace(c: char) {
    || c == '\t' || c == '\n' || c == '\U{B}' || c == '\U{C}' || c == '\r' || c == ' '
    || c == '\U{A0}' || c == '\U{1680}' || ('\U{2000}' <= c <= '\U{200A}')
    || c == '\U{2028}' || c == '\U{2029}' || c == '\U{202F}' || c == '\U{205F}'
    || c == '\U{3000}' || c == '\U{FEFF}'
  }

  predicate AllWhitespace(s: string) {
    forall c :: c in s ==> IsJsWhitespace(c)
  }

  /** `s` without its leading whitespace: a suffix of `s` that does not start with whitespace. */
  function TrimStart(s: string): (r: string)
    ensures |r| <= |s| && r == s[|s| - |r|..]
    ensures AllWhitespace(s[..|s| - |r|])
    ensures r != [] ==> !IsJsWhitespace(r[0])
  {
    if |s| > 0 && IsJsWhitespace(s[0]) then TrimStart(s[1..]) else s
  }

  /** `s` without its trailing whitespace: a prefix of `s` that does not end with whitespace. */
  function TrimEnd(s: string): (r: string)
    ensures |r| <= |s| && r == s[..|r|]
    ensures AllWhitespace(s[|r|..])
    ensures r != [] ==> !IsJsWhitespace(r[|r| - 1])
  {
    if |s| > 0 && IsJsWhitespace(s[|s| - 1]) then TrimEnd(s[..|s| - 1]) else s
  }

  /** `r` is `s` with whitespace-only text cut off at position `i` and after `r`. */
  predicate TrimmedAt(s: string, r: string, i: nat) {
    i + |r| <= |s| && s[i..i + |r|] == r && AllWhitespace(s[..i]) && AllWhitespace(s[i + |r|..])
  }

  /** The number of whitespace characters `s` starts with. */
  function LeadingWhitespace(s: string): nat {
    |s| - |TrimStart(s)|
  }

  /**
   * `s.trim()`: the part of `s` between its leading and its trailing whitespace. It is
   * the slice of `s` after the leading whitespace with whitespace-only text after it,
   * neither of its ends is whitespace, and it is empty exactly when `s` is whitespace only.
   */
  function Trim(s: string): (r: string)
    ensures TrimmedAt(s, r, LeadingWhitespace(s))
    ensures r == [] <==> AllWhitespace(s)
    ensures r != [] ==> !IsJsWhitespace(r[0]) && !IsJsWhitespace(r[|r| - 1])
  {
    var t := TrimStart(s);
    var r := TrimEnd(t);
    TrimParts(s, t, r);
    r
  }

  /** Cutting the leading whitespace of `s` to get `t`, then the trailing whitespace of `t` to get `r`, trims `s`. */
  lemma TrimParts(s: string, t: string, r: string)
    requires |t| <= |s| && t == s[|s| - |t|..] && AllWhitespace(s[..|s| - |t|])
    requires t != [] ==> !IsJsWhitespace(t[0])
    requires |r| <= |t| && r == t[..|r|] && AllWhitespace(t[|r|..])
    requires r != [] ==> !IsJsWhitespace(r[|r| - 1])
    ensures TrimmedAt(s, r, |s| - |t|)
    ensures r == [] <==> AllWhitespace(s)
    ensures r != [] ==> !IsJsWhitespace(r[0]) && !IsJsWhitespace(r[|r| - 1])
  {
    var i := |s| - |t|;
    assert s[i..i + |r|] == r;
    assert s[i + |r|..] == t[|r|..];
    if r == [] {
      assert s == s[..i] + t;
      forall c | c in s ensures IsJsWhitespace(c) {
        if c !in s[..i] { assert c in t; }
      }
    } else {
      assert r[0] == t[0];
      assert r[0] in s;
    }
  }

  /** Trimming twice is trimming once. */
  lemma TrimIdempotent(s: string)
    ensures Trim(Trim(s)) == Trim(s)
  {
    var r := Trim(s);
    var x := Trim(r);
    var i := LeadingWhitespace(r);
    assert TrimmedAt(r, x, i);
    if r != [] {
      assert r[0] !in r[..i] || i == 0;
    }
  }

  /** `q` occurs in `s` starting at index `i`. */
  predicate OccursAt(s: string, q: string, i: nat) {
    i + |q| <= |s| && s[i..i + |q|] == q
  }

  /** `s.includes(q)`: whether `q` occurs in `s` at some position. */
  function Contains(s: string, q: string): (r: bool)
    ensures r <==> exists i: nat :: OccursAt(s, q, i)
    decreases |s|
  {
    if q <= s then
      assert OccursAt(s, q, 0);
      true
    else if |s| == 0 then
      false
    else
      var r := Contains(s[1..], q);
      assert r ==> exists i: nat :: OccursAt(s, q, i) by {
        if r {
          var j: nat :| OccursAt(s[1..], q, j);
          assert s[1..][j..j + |q|] == s[j + 1..j + 1 + |q|];
          assert OccursAt(s, q, j + 1);
        }
      }
      assert (exists i: nat :: OccursAt(s, q, i)) ==> r by {
        if exists i: nat :: OccursAt(s, q, i) {
          var i: nat :| OccursAt(s, q, i);
          assert s[1..][i - 1..i - 1 + |q|] == s[i..i + |q|];
          assert OccursAt(s[1..], q, i - 1);
        }
      }
      r
  }

  /** Every string includes the empty string. */
  lemma ContainsEmpty(s: string)
    ensures Contains(s, "")
  {
    assert OccursAt(s, "", 0);
  }
}
