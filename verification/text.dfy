/** Whitespace and trimming as the browser's String.prototype.trim and the
    regular-expression class \s see them. Both use the same character set:
    the ECMAScript WhiteSpace and LineTerminator code points. */
module Text {

  predicate IsWhitespace(c: char)
  {
    c == '\t' || c == '\n' || c == '\U{000B}' || c == '\U{000C}' || c == '\r' || c == ' '
    || c == '\U{00A0}' || c == '\U{1680}' || ('\U{2000}' <= c <= '\U{200A}')
    || c == '\U{2028}' || c == '\U{2029}' || c == '\U{202F}' || c == '\U{205F}'
    || c == '\U{3000}' || c == '\U{FEFF}'
  }

  predicate AllWhitespace(s: string)
  {
    forall i :: 0 <= i < |s| ==> IsWhitespace(s[i])
  }

  predicate NoWhitespace(s: string)
  {
    forall i :: 0 <= i < |s| ==> !IsWhitespace(s[i])
  }

  /** `s` without its leading whitespace. */
  function TrimStart(s: string): (t: string)
    ensures |t| <= |s|
  {
    if s != [] && IsWhitespace(s[0]) then TrimStart(s[1..]) else s
  }

  /** `s` without its trailing whitespace. */
  function TrimEnd(s: string): (t: string)
    ensures |t| <= |s|
  {
    if s != [] && IsWhitespace(s[|s| - 1]) then TrimEnd(s[..|s| - 1]) else s
  }

  /** JavaScript `value.trim()`. */
  function Trim(s: string): (t: string)
    ensures |t| <= |s|
  {
    TrimEnd(TrimStart(s))
  }

  /** TrimStart removes a whitespace-only prefix and stops at the first other character. */
  lemma {:induction false} TrimStartSpec(s: string)
    ensures var t := TrimStart(s);
      t == s[|s| - |t|..] && AllWhitespace(s[..|s| - |t|]) && (t != [] ==> !IsWhitespace(t[0]))
  {
    if s != [] && IsWhitespace(s[0]) {
      TrimStartSpec(s[1..]);
      var t := TrimStart(s);
      assert s[1..][|s| - 1 - |t|..] == s[|s| - |t|..];
      var skipped := s[..|s| - |t|];
      forall i | 0 <= i < |skipped| ensures IsWhitespace(skipped[i]) {
        if i > 0 { assert skipped[i] == s[1..][..|s| - 1 - |t|][i - 1]; }
      }
    }
  }

  /** TrimEnd removes a whitespace-only suffix and stops at the last other character. */
  lemma {:induction false} TrimEndSpec(s: string)
    ensures var t := TrimEnd(s);
      t == s[..|t|] && AllWhitespace(s[|t|..]) && (t != [] ==> !IsWhitespace(t[|t| - 1]))
  {
    if s != [] && IsWhitespace(s[|s| - 1]) {
      var p := s[..|s| - 1];
      TrimEndSpec(p);
      var t := TrimEnd(s);
      assert p[..|t|] == s[..|t|];
      var dropped := s[|t|..];
      forall i | 0 <= i < |dropped| ensures IsWhitespace(dropped[i]) {
        if i < |s| - 1 - |t| { assert dropped[i] == p[|t|..][i]; }
      }
    }
  }

  /** Trim(s) is the slice of `s` left after dropping a whitespace prefix and
      a whitespace suffix, and (unless empty) starts and ends with a
      non-whitespace character. These facts determine it uniquely. */
  lemma {:induction false} TrimSpec(s: string)
    ensures var lo := |s| - |TrimStart(s)|; var t := Trim(s);
      lo + |t| <= |s| && t == s[lo..lo + |t|]
      && AllWhitespace(s[..lo]) && AllWhitespace(s[lo + |t|..])
      && (t != [] ==> !IsWhitespace(t[0]) && !IsWhitespace(t[|t| - 1]))
  {
    var u := TrimStart(s);
    var lo := |s| - |u|;
    TrimStartSpec(s);
    TrimEndSpec(u);
    var t := Trim(s);
    assert t == u[..|t|];
    assert s[lo + |t|..] == u[|t|..];
  }

  /** A value is blank after trimming exactly when it is made of whitespace. */
  lemma {:induction false} TrimEmptyIff(s: string)
    ensures Trim(s) == [] <==> AllWhitespace(s)
  {
    TrimSpec(s);
    var lo := |s| - |TrimStart(s)|;
    if Trim(s) == [] {
      forall i | 0 <= i < |s| ensures IsWhitespace(s[i]) {
        if i < lo { assert s[i] == s[..lo][i]; } else { assert s[i] == s[lo..][i - lo]; }
      }
    } else {
      assert s[lo] == Trim(s)[0];
    }
  }

  /** Trimming twice is trimming once. */
  lemma {:induction false} TrimIdempotent(s: string)
    ensures Trim(Trim(s)) == Trim(s)
  {
    TrimSpec(s);
    var t := Trim(s);
    if t != [] {
      assert TrimStart(t) == t;
      assert TrimEnd(t) == t;
    }
  }
}
