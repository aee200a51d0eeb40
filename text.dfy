/** String operations the three programs rely on: JavaScript's `trim()`,
    its `\s` character class, `toLowerCase()` and `includes()`, and the
    "last `/`-separated segment" of a key that Python's `split('/')[-1]`
    yields. */
module Text {

  /** The characters ECMAScript calls WhiteSpace or LineTerminator: the set
      `String.prototype.trim` strips and the regular-expression class `\s`
      matches. It is tab, line feed, vertical tab, form feed, carriage
      return, the Unicode space separators (space, no-break space, U+1680,
      U+2000 to U+200A, U+202F, U+205F, U+3000), the line and paragraph
      separators and the byte order mark. */
  predicate IsSpace(c: char) {
    || c == '\t' || c == '\n' || c == '\U{B}' || c == '\U{C}' || c == '\r'
    || c == ' ' || c == '\U{A0}' || c == '\U{1680}'
    || ('\U{2000}' <= c <= '\U{200A}')
    || c == '\U{2028}' || c == '\U{2029}' || c == '\U{202F}' || c == '\U{205F}'
    || c == '\U{3000}' || c == '\U{FEFF}'
  }

  predicate AllSpace(s: string) {
    forall i :: 0 <= i < |s| ==> IsSpace(s[i])
  }

  /** Drops the leading white space: the result is the suffix of `s` that
      starts at its first non-space character. */
  function TrimStart(s: string): (r: string)
    ensures |r| <= |s| && r == s[|s| - |r|..]
    ensures forall k :: 0 <= k < |s| - |r| ==> IsSpace(s[k])
    ensures r == [] || !IsSpace(r[0])
  {
    if |s| > 0 && IsSpace(s[0]) then TrimStart(s[1..]) else s
  }

  /** Drops the trailing white space: the result is the prefix of `s` that
      ends at its last non-space character. */
  function TrimEnd(s: string): (r: string)
    ensures |r| <= |s| && r == s[..|r|]
    ensures forall k :: |r| <= k < |s| ==> IsSpace(s[k])
    ensures r == [] || !IsSpace(r[|r| - 1])
  {
    if |s| > 0 && IsSpace(s[|s| - 1]) then TrimEnd(s[..|s| - 1]) else s
  }

  /** JavaScript's `s.trim()`. */
  function Trim(s: string): string {
    TrimEnd(TrimStart(s))
  }

  /** A string trims to the empty string exactly when it is all white
      space, which is how "`x && x.trim()`" tests for a blank input. */
  lemma TrimEmptyIffBlank(s: string)
    ensures Trim(s) == [] <==> AllSpace(s)
  {
    var t := TrimStart(s);
    if !AllSpace(s) {
      var k :| 0 <= k < |s| && !IsSpace(s[k]);
      assert t[k - (|s| - |t|)] == s[k];
    }
  }

  /** Trimming twice is trimming once: a trimmed string neither starts nor
      ends with white space. */
  lemma TrimIdempotent(s: string)
    ensures Trim(Trim(s)) == Trim(s)
  {
    var u := TrimStart(s);
    var t := TrimEnd(u);
    if t != [] {
      assert t[0] == u[0];
      assert TrimStart(t) == t;
      assert TrimEnd(t) == t;
    }
  }

  /** Surrounding white space does not change what `trim()` returns. */
  lemma TrimIgnoresPadding(pre: string, s: string, post: string)
    requires AllSpace(pre) && AllSpace(post)
    ensures Trim(pre + s + post) == Trim(s)
  {
    TrimStartPadding(pre, s + post);
    assert pre + s + post == pre + (s + post);
    TrimStartSuffix(s, post);
  }

  lemma {:induction false} TrimStartPadding(pre: string, s: string)
    requires AllSpace(pre)
    ensures TrimStart(pre + s) == TrimStart(s)
  {
    if pre != [] {
      assert (pre + s)[0] == pre[0];
      assert (pre + s)[1..] == pre[1..] + s;
      TrimStartPadding(pre[1..], s);
    } else {
      assert pre + s == s;
    }
  }

  lemma {:induction false} TrimEndPadding(s: string, post: string)
    requires AllSpace(post)
    ensures TrimEnd(s + post) == TrimEnd(s)
  {
    if post != [] {
      var n := |s + post|;
      assert (s + post)[n - 1] == post[|post| - 1];
      assert (s + post)[..n - 1] == s + post[..|post| - 1];
      TrimEndPadding(s, post[..|post| - 1]);
    } else {
      assert s + post == s;
    }
  }

  /** Trailing white space after `s` does not survive trimming. */
  lemma {:induction false} TrimStartSuffix(s: string, post: string)
    requires AllSpace(post)
    ensures TrimEnd(TrimStart(s + post)) == TrimEnd(TrimStart(s))
  {
    if s == [] {
      assert s + post == post;
      var t := TrimStart(post);
      assert t == [];
    } else if IsSpace(s[0]) {
      assert (s + post)[0] == s[0];
      assert (s + post)[1..] == s[1..] + post;
      TrimStartSuffix(s[1..], post);
    } else {
      assert (s + post)[0] == s[0];
      TrimEndPadding(s, post);
    }
  }

  /** ASCII letters and digits, the classes `[a-zA-Z]` and `\d`. */
  predicate IsAsciiLetter(c: char) {
    ('a' <= c <= 'z') || ('A' <= c <= 'Z')
  }

  predicate IsAsciiDigit(c: char) {
    '0' <= c <= '9'
  }

  /** `toLowerCase` on one character, for the ASCII upper-case letters. */
  function LowerChar(c: char): char {
    if 'A' <= c <= 'Z' then (c as int - 'A' as int + 'a' as int) as char else c
  }

  function ToLower(s: string): string {
    seq(|s|, i requires 0 <= i < |s| => LowerChar(s[i]))
  }

  /** JavaScript's `s.includes(q)`: `q` occurs in `s` at some offset. */
  predicate Contains(s: string, q: string) {
    exists i :: 0 <= i <= |s| - |q| && OccursAt(s, q, i)
  }

  predicate OccursAt(s: string, q: string, i: int)
    requires 0 <= i <= |s| - |q|
  {
    s[i..i + |q|] == q
  }

  /** Every string includes the empty string. */
  lemma ContainsEmpty(s: string)
    ensures Contains(s, "")
  {
    assert OccursAt(s, "", 0);
  }

  /** `s.startsWith(p)`. */
  predicate StartsWith(s: string, p: string) {
    |p| <= |s| && s[..|p|] == p
  }

  /** Python's `s.split('/')[-1]`: the text after the last `/`, or all of
      `s` when it has none. */
  function LastSegment(s: string): (r: string)
    ensures |r| <= |s| && r == s[|s| - |r|..]
    ensures '/' !in r
    ensures |r| < |s| ==> s[|s| - |r| - 1] == '/'
  {
    if |s| == 0 then ""
    else if s[|s| - 1] == '/' then ""
    else LastSegment(s[..|s| - 1]) + [s[|s| - 1]]
  }

  /** The last segment of `p + "/" + name` is `name` when `name` holds no
      `/`, and a string without `/` is its own last segment. */
  lemma LastSegmentAfterSlash(p: string, name: string)
    requires '/' !in name
    ensures LastSegment(p + "/" + name) == name
    ensures LastSegment(name) == name
  {
    var s := p + "/" + name;
    assert s[|s| - |name| - 1] == '/';
    assert s[|s| - |name|..] == name;
  }
}
