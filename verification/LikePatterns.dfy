/** `*` patterns of the list query against the LIKE patterns they are compiled to. */
module LikePatterns {
  import opened Text

  /** A `*` pattern: `*` stands for any text, every other character for itself. */
  predicate GlobMatch(p: string, s: string)
    decreases |p| + |s|
  {
    if p == "" then s == ""
    else if p[0] == '*' then GlobMatch(p[1..], s) || (s != "" && GlobMatch(p, s[1..]))
    else s != "" && s[0] == p[0] && GlobMatch(p[1..], s[1..])
  }

  /** SQL LIKE with the default escape character; a dangling escape matches nothing. */
  predicate LikeMatch(p: string, s: string)
    decreases |p| + |s|
  {
    if p == "" then s == ""
    else if p[0] == '%' then LikeMatch(p[1..], s) || (s != "" && LikeMatch(p, s[1..]))
    else if p[0] == '_' then s != "" && LikeMatch(p[1..], s[1..])
    else if p[0] == '\\' then |p| >= 2 && s != "" && s[0] == p[1] && LikeMatch(p[2..], s[1..])
    else s != "" && s[0] == p[0] && LikeMatch(p[1..], s[1..])
  }

  /** Case-insensitive LIKE. */
  predicate ILike(p: string, s: string) { LikeMatch(ToLower(p), ToLower(s)) }

  predicate IGlob(p: string, s: string) { GlobMatch(ToLower(p), ToLower(s)) }

  /** strings.ReplaceAll(value, "*", "%"). */
  function StarsToPercents(s: string): (t: string)
    ensures |t| == |s| && forall i :: 0 <= i < |s| ==> t[i] == if s[i] == '*' then '%' else s[i]
  {
    if s == "" then "" else [if s[0] == '*' then '%' else s[0]] + StarsToPercents(s[1..])
  }

  /** The characters LIKE treats specially. */
  predicate IsLikeSpecial(c: char) { c == '%' || c == '_' || c == '\\' }

  predicate LikeFree(s: string) { forall c :: c in s ==> !IsLikeSpecial(c) }

  lemma {:induction false} LikeIsGlob(v: string, s: string)
    requires LikeFree(v)
    ensures LikeMatch(StarsToPercents(v), s) == GlobMatch(v, s)
    decreases |v| + |s|
  {
    if v != "" {
      assert v[0] in v && StarsToPercents(v)[1..] == StarsToPercents(v[1..]);
      LikeIsGlob(v[1..], s);
      if s != "" {
        LikeIsGlob(v, s[1..]);
        LikeIsGlob(v[1..], s[1..]);
      }
    }
  }

  lemma LowerCommutes(v: string)
    ensures ToLower(StarsToPercents(v)) == StarsToPercents(ToLower(v))
    ensures LikeFree(v) <==> LikeFree(ToLower(v))
  {
    forall i | 0 <= i < |v| ensures IsLikeSpecial(v[i]) <==> IsLikeSpecial(ToLower(v)[i]) {}
    if LikeFree(v) {
      assert forall c :: c in ToLower(v) ==> exists i :: 0 <= i < |v| && ToLower(v)[i] == c;
    } else {
      var i :| 0 <= i < |v| && IsLikeSpecial(v[i]);
      assert ToLower(v)[i] in ToLower(v);
    }
  }

  // ---- A value with a special character: some text tells the two apart ----

  function Count(s: string, c: char): nat {
    if s == "" then 0 else (if s[0] == c then 1 else 0) + Count(s[1..], c)
  }

  lemma {:induction false} CountPositive(s: string, c: char)
    ensures 0 < Count(s, c) <==> c in s
  {
    if s != "" {
      CountPositive(s[1..], c);
      assert s == [s[0]] + s[1..];
    }
  }

  lemma {:induction false} GlobKeepsCharacters(v: string, s: string, c: char)
    requires c != '*' && GlobMatch(v, s)
    ensures Count(v, c) <= Count(s, c)
    decreases |v| + |s|
  {
    if v != "" {
      if v[0] == '*' {
        if GlobMatch(v[1..], s) { GlobKeepsCharacters(v[1..], s, c); } else { GlobKeepsCharacters(v, s[1..], c); }
      } else {
        GlobKeepsCharacters(v[1..], s[1..], c);
      }
    }
  }

  /** The pattern ends in an escape character with nothing to escape. */
  predicate Dangling(p: string) {
    if p == "" then false
    else if p[0] == '\\' then |p| == 1 || Dangling(p[2..])
    else Dangling(p[1..])
  }

  lemma {:induction false} DanglingMatchesNothing(p: string, s: string)
    requires Dangling(p)
    ensures !LikeMatch(p, s)
    decreases |p| + |s|
  {
    if p[0] == '\\' {
      if |p| >= 2 && s != "" { DanglingMatchesNothing(p[2..], s[1..]); }
    } else {
      DanglingMatchesNothing(p[1..], s);
      if s != "" {
        DanglingMatchesNothing(p[1..], s[1..]);
        DanglingMatchesNothing(p, s[1..]);
      }
    }
  }

  function WithoutStars(v: string): string {
    if v == "" then "" else (if v[0] == '*' then "" else [v[0]]) + WithoutStars(v[1..])
  }

  lemma {:induction false} GlobMatchesItself(v: string)
    ensures GlobMatch(v, WithoutStars(v))
  {
    if v != "" {
      GlobMatchesItself(v[1..]);
      if v[0] == '*' {
        assert WithoutStars(v) == WithoutStars(v[1..]);
      } else {
        assert WithoutStars(v)[1..] == WithoutStars(v[1..]);
      }
    }
  }

  /** The shortest text a LIKE pattern matches, with `a` wherever it takes any character. */
  function Shortest(p: string): string
    requires !Dangling(p)
  {
    if p == "" then ""
    else if p[0] == '%' then Shortest(p[1..])
    else if p[0] == '_' then "a" + Shortest(p[1..])
    else if p[0] == '\\' then [p[1]] + Shortest(p[2..])
    else [p[0]] + Shortest(p[1..])
  }

  lemma {:induction false} ShortestMatches(p: string)
    requires !Dangling(p)
    ensures LikeMatch(p, Shortest(p))
  {
    if p != "" {
      if p[0] == '\\' {
        ShortestMatches(p[2..]);
        assert Shortest(p)[1..] == Shortest(p[2..]);
      } else {
        ShortestMatches(p[1..]);
        assert p[0] != '%' ==> Shortest(p)[1..] == Shortest(p[1..]);
      }
    }
  }

  lemma {:induction false} ShortestLosesEscapes(p: string)
    requires !Dangling(p)
    ensures Count(Shortest(p), '\\') <= Count(p, '\\')
    ensures '\\' in p ==> Count(Shortest(p), '\\') < Count(p, '\\')
  {
    if p != "" {
      assert p == [p[0]] + p[1..];
      if p[0] == '\\' {
        ShortestLosesEscapes(p[2..]);
        assert Shortest(p)[1..] == Shortest(p[2..]);
        assert Count(p, '\\') == 1 + Count(p[1..], '\\') && p[1..][1..] == p[2..];
      } else {
        ShortestLosesEscapes(p[1..]);
        assert p[0] != '%' ==> Shortest(p)[1..] == Shortest(p[1..]);
      }
    }
  }

  lemma {:induction false} ShortestLosesWildcards(p: string)
    requires '\\' !in p
    ensures !Dangling(p) && '%' !in Shortest(p) && '_' !in Shortest(p)
  {
    if p != "" {
      assert p == [p[0]] + p[1..];
      ShortestLosesWildcards(p[1..]);
    }
  }

  lemma CountStarsToPercents(v: string, c: char)
    requires c != '*' && c != '%'
    ensures Count(StarsToPercents(v), c) == Count(v, c)
  {
    if v != "" {
      assert StarsToPercents(v)[1..] == StarsToPercents(v[1..]);
      CountStarsToPercents(v[1..], c);
    }
  }

  /** For a value with a special character, a text on which LIKE and `*` matching differ. */
  lemma Distinguisher(v: string) returns (s: string)
    requires !LikeFree(v)
    ensures LikeMatch(StarsToPercents(v), s) != GlobMatch(v, s)
    ensures forall i :: 0 <= i < |s| ==> s[i] in v || s[i] in StarsToPercents(v) || s[i] == 'a'
  {
    var p := StarsToPercents(v);
    if Dangling(p) {
      s := WithoutStars(v);
      DanglingMatchesNothing(p, s);
      GlobMatchesItself(v);
      WithoutStarsFrom(v);
    } else {
      s := Shortest(p);
      ShortestMatches(p);
      ShortestFrom(p);
      var c :| c in v && IsLikeSpecial(c);
      if '\\' in v {
        CountStarsToPercents(v, '\\');
        CountPositive(v, '\\');
        CountPositive(p, '\\');
        ShortestLosesEscapes(p);
        if GlobMatch(v, s) { GlobKeepsCharacters(v, s, '\\'); }
      } else {
        assert '\\' !in p;
        ShortestLosesWildcards(p);
        CountPositive(v, c);
        CountPositive(s, c);
        if GlobMatch(v, s) { GlobKeepsCharacters(v, s, c); }
      }
    }
  }

  lemma {:induction false} ShortestFrom(p: string)
    requires !Dangling(p)
    ensures forall i :: 0 <= i < |Shortest(p)| ==> Shortest(p)[i] in p || Shortest(p)[i] == 'a'
  {
    if p != "" {
      assert p == [p[0]] + p[1..];
      if p[0] == '\\' {
        assert p == [p[0], p[1]] + p[2..];
        ShortestFrom(p[2..]);
      } else {
        ShortestFrom(p[1..]);
      }
    }
  }

  lemma {:induction false} WithoutStarsFrom(v: string)
    ensures forall i :: 0 <= i < |WithoutStars(v)| ==> WithoutStars(v)[i] in v
  {
    if v != "" {
      assert v == [v[0]] + v[1..];
      WithoutStarsFrom(v[1..]);
    }
  }

  /**
   * `ILIKE` on the translated value is `*` matching on every text exactly when the
   * value has no `%`, `_` or backslash.
   */
  lemma ILikeIsGlobIff(v: string)
    ensures (forall s :: ILike(StarsToPercents(v), s) == IGlob(v, s)) <==> LikeFree(v)
  {
    LowerCommutes(v);
    var w := ToLower(v);
    if LikeFree(v) {
      forall s ensures ILike(StarsToPercents(v), s) == IGlob(v, s) {
        LikeIsGlob(w, ToLower(s));
      }
    } else {
      var s := Distinguisher(w);
      forall i | 0 <= i < |s| ensures LowerChar(s[i]) == s[i] {}
      assert ToLower(s) == s;
      assert ILike(StarsToPercents(v), s) != IGlob(v, s);
    }
  }

  /** `a_*` also finds `abc`, although no `*` stands for the `b`. */
  lemma UnderscoreExample()
    ensures ILike(StarsToPercents("a_*"), "abc") && !IGlob("a_*", "abc")
  {
    assert ToLower(StarsToPercents("a_*")) == "a_%" && ToLower("a_*") == "a_*" && ToLower("abc") == "abc";
    assert "a_%"[1..] == "_%" && "_%"[1..] == "%" && "%"[1..] == "";
    assert "abc"[1..] == "bc" && "bc"[1..] == "c" && "c"[1..] == "";
    assert "a_*"[1..] == "_*";
    assert LikeMatch("%", "c") by { assert LikeMatch("%", ""); }
    assert LikeMatch("_%", "bc");
    assert !GlobMatch("_*", "bc");
  }
}
