/** The string operations the program relies on, over ASCII text. */
module Text {

  /** The ASCII characters that strings.TrimSpace removes. */
  predicate IsSpace(c: char) {
    c == ' ' || '\t' <= c <= '\r'
  }

  function TrimLeft(s: string): (t: string)
    ensures |t| <= |s|
    ensures t != "" ==> !IsSpace(t[0])
  {
    if s != "" && IsSpace(s[0]) then TrimLeft(s[1..]) else s
  }

  function TrimRight(s: string): (t: string)
    ensures t <= s
    ensures t != "" ==> !IsSpace(t[|t| - 1])
  {
    if s != "" && IsSpace(s[|s| - 1]) then TrimRight(s[..|s| - 1]) else s
  }

  function TrimSpace(s: string): string {
    TrimRight(TrimLeft(s))
  }

  function LowerChar(c: char): char {
    if 'A' <= c <= 'Z' then (c as int + 32) as char else c
  }

  function ToLower(s: string): string {
    seq(|s|, i requires 0 <= i < |s| => LowerChar(s[i]))
  }

  /** strings.TrimSpace followed by strings.ToLower: how names are compared. */
  function NormalizeIdentifier(s: string): string {
    ToLower(TrimSpace(s))
  }

  /** strings.Join. */
  function Join(words: seq<string>, separator: string): string {
    if |words| == 0 then ""
    else if |words| == 1 then words[0]
    else Join(words[..|words| - 1], separator) + separator + words[|words| - 1]
  }

  /** Joining keeps the order of the words, with one separator between any two. */
  lemma {:induction false} JoinConcat(a: seq<string>, b: seq<string>, separator: string)
    requires a != [] && b != []
    ensures Join(a + b, separator) == Join(a, separator) + separator + Join(b, separator)
    ensures Join([], separator) == "" && forall w :: Join([w], separator) == w
  {
    if |b| == 1 {
      assert (a + b)[..|a + b| - 1] == a && (a + b)[|a|] == b[0];
    } else {
      var front, last := b[..|b| - 1], b[|b| - 1];
      assert (a + b)[..|a + b| - 1] == a + front && (a + b)[|a + b| - 1] == last;
      JoinConcat(a, front, separator);
    }
  }

  /** `^[A-Za-z_][A-Za-z0-9_]*$`: what may be quoted as an SQL identifier. */
  predicate IsSafeIdentifier(s: string) {
    && s != ""
    && !('0' <= s[0] <= '9')
    && forall i :: 0 <= i < |s| ==> s[i] == '_' || '0' <= s[i] <= '9' || 'a' <= s[i] <= 'z' || 'A' <= s[i] <= 'Z'
  }

  /** Text with no surrounding whitespace, which TrimSpace leaves alone. */
  predicate Trimmed(s: string) {
    s != "" ==> !IsSpace(s[0]) && !IsSpace(s[|s| - 1])
  }

  lemma TrimSpaceKeepsTrimmed(s: string)
    requires Trimmed(s)
    ensures TrimSpace(s) == s
  {}

  /** Go's `<` on strings. */
  predicate LexLess(a: string, b: string) {
    if a == "" then b != ""
    else b != "" && (a[0] < b[0] || (a[0] == b[0] && LexLess(a[1..], b[1..])))
  }

  /** The first difference decides, and a proper prefix comes first. */
  lemma {:induction false} LexLessIff(a: string, b: string)
    ensures LexLess(a, b) <==>
              exists k :: 0 <= k <= |a| && k < |b| && a[..k] == b[..k] && (k == |a| || a[k] < b[k])
  {
    if a != "" && b != "" && a[0] == b[0] {
      LexLessIff(a[1..], b[1..]);
      var p, q := a[1..], b[1..];
      if k :| 0 <= k <= |p| && k < |q| && p[..k] == q[..k] && (k == |p| || p[k] < q[k]) {
        assert a[..k + 1] == [a[0]] + a[1..][..k] && b[..k + 1] == [b[0]] + b[1..][..k];
        assert a[..k + 1] == b[..k + 1];
      }
      if k :| 0 <= k <= |a| && k < |b| && a[..k] == b[..k] && (k == |a| || a[k] < b[k]) {
        assert k > 0;
        assert a[1..][..k - 1] == a[..k][1..] && b[1..][..k - 1] == b[..k][1..];
        assert a[1..][..k - 1] == b[1..][..k - 1];
      }
    } else {
      CommonPrefix(a, b);
      assert a[..0] == b[..0];
    }
  }

  lemma CommonPrefix(a: string, b: string)
    ensures forall k :: 0 < k <= |a| && k < |b| && a[..k] == b[..k] ==> a[0] == b[0]
  {
    forall k | 0 < k <= |a| && k < |b| && a[..k] == b[..k] ensures a[0] == b[0] {
      assert a[..k][0] == b[..k][0];
    }
  }

  lemma {:induction false} LexLessTotal(a: string, b: string)
    ensures a == b || LexLess(a, b) || LexLess(b, a)
  {
    if a != "" && b != "" && a[0] == b[0] {
      LexLessTotal(a[1..], b[1..]);
      assert a == [a[0]] + a[1..] && b == [b[0]] + b[1..];
    }
  }

  lemma {:induction false} LexLessAsymmetric(a: string, b: string)
    requires LexLess(a, b)
    ensures a != b && !LexLess(b, a)
  {
    if a != "" && b != "" && a[0] == b[0] {
      LexLessAsymmetric(a[1..], b[1..]);
    }
  }

  lemma {:induction false} LexLessTransitive(a: string, b: string, c: string)
    requires LexLess(a, b) && LexLess(b, c)
    ensures LexLess(a, c)
  {
    if a != "" && a[0] == b[0] == c[0] {
      LexLessTransitive(a[1..], b[1..], c[1..]);
    }
  }
}
