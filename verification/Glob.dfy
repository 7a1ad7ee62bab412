/** File name patterns of the shell: ? stands for one character, * for any run of them. */
module Glob {

  /** What one pattern character may stand for. */
  predicate Fits(c: char, part: string) {
    if c == '*' then true else if c == '?' then |part| == 1 else part == [c]
  }

  function Concat(parts: seq<string>): string {
    if parts == [] then "" else parts[0] + Concat(parts[1..])
  }

  /** parts is a way of reading s as pat. */
  ghost predicate Reading(pat: string, s: string, parts: seq<string>) {
    |parts| == |pat| && Concat(parts) == s && forall i :: 0 <= i < |pat| ==> Fits(pat[i], parts[i])
  }

  /** s falls into one piece for each pattern character. */
  ghost predicate Matches(pat: string, s: string) {
    exists parts :: Reading(pat, s, parts)
  }

  /** Some end of s matches. */
  ghost predicate SomeEnd(pat: string, s: string) {
    exists k :: 0 <= k <= |s| && Matches(pat, s[k..])
  }

  lemma ReadingTail(pat: string, s: string, parts: seq<string>)
    requires pat != "" && Reading(pat, s, parts)
    ensures |parts[0]| <= |s| && s[..|parts[0]|] == parts[0] && Fits(pat[0], parts[0])
    ensures Matches(pat[1..], s[|parts[0]|..])
  {
    var rest := Concat(parts[1..]);
    assert s == parts[0] + rest;
    assert s[|parts[0]|..] == rest;
    assert Reading(pat[1..], rest, parts[1..]);
  }

  lemma ReadingJoin(c: char, p: string, part: string, s: string)
    requires Fits(c, part) && Matches(p, s)
    ensures Matches([c] + p, part + s)
  {
    var parts :| Reading(p, s, parts);
    assert ([part] + parts)[1..] == parts;
    assert Reading([c] + p, part + s, [part] + parts);
  }

  lemma EmptyIff(s: string)
    ensures Matches("", s) <==> s == ""
  {
    assert Reading("", "", []);
  }

  /** A character other than * takes exactly one character it allows. */
  lemma OneIff(pat: string, s: string)
    requires pat != "" && pat[0] != '*'
    ensures Matches(pat, s) <==> s != "" && (pat[0] == '?' || pat[0] == s[0]) && Matches(pat[1..], s[1..])
  {
    if Matches(pat, s) {
      var parts :| Reading(pat, s, parts);
      ReadingTail(pat, s, parts);
      assert s[..1][0] == s[0];
    }
    if s != "" && (pat[0] == '?' || pat[0] == s[0]) && Matches(pat[1..], s[1..]) {
      ReadingJoin(pat[0], pat[1..], s[..1], s[1..]);
      assert [pat[0]] + pat[1..] == pat && s[..1] + s[1..] == s;
    }
  }

  /** A * lets the rest match any end. */
  lemma StarIff(pat: string, s: string)
    requires pat != "" && pat[0] == '*'
    ensures Matches(pat, s) <==> SomeEnd(pat[1..], s)
  {
    if Matches(pat, s) {
      var parts :| Reading(pat, s, parts);
      ReadingTail(pat, s, parts);
    }
    if k :| 0 <= k <= |s| && Matches(pat[1..], s[k..]) {
      ReadingJoin('*', pat[1..], s[..k], s[k..]);
      assert ['*'] + pat[1..] == pat && s[..k] + s[k..] == s;
    }
  }

  /** Further stars add nothing. */
  lemma StarsIff(pat: string, s: string)
    requires pat != "" && pat[0] == '*'
    ensures SomeEnd(pat, s) <==> SomeEnd(pat[1..], s)
  {
    if k :| 0 <= k <= |s| && Matches(pat, s[k..]) {
      StarIff(pat, s[k..]);
      var j :| 0 <= j <= |s[k..]| && Matches(pat[1..], s[k..][j..]);
      assert s[k..][j..] == s[k + j..];
    }
    if SomeEnd(pat[1..], s) {
      StarIff(pat, s);
      assert s[0..] == s;
    }
  }

  /** What is left of SomeEnd once the first character of s is passed over. */
  lemma EndsFrom(pat: string, s: string)
    ensures s == "" ==> (SomeEnd(pat, s) <==> Matches(pat, s))
    ensures s != "" ==> (SomeEnd(pat, s) <==> Matches(pat, s) || SomeEnd(pat, s[1..]))
  {
    assert s[0..] == s;
    if s != "" {
      if k :| 0 <= k <= |s| && Matches(pat, s[k..]) {
        if k > 0 { assert s[1..][k - 1..] == s[k..]; }
      }
      if k :| 0 <= k <= |s[1..]| && Matches(pat, s[1..][k..]) {
        assert s[1..][k..] == s[k + 1..];
      }
    }
  }

  /** Without * and ? a pattern matches itself only. */
  lemma {:induction false} PlainIff(pat: string, s: string)
    requires '*' !in pat && '?' !in pat
    ensures Matches(pat, s) <==> pat == s
    decreases pat
  {
    if pat == "" {
      EmptyIff(s);
    } else {
      assert pat[0] in pat;
      OneIff(pat, s);
      if s != "" {
        PlainIff(pat[1..], s[1..]);
        assert pat == [pat[0]] + pat[1..] && s == [s[0]] + s[1..];
      }
    }
  }

  /** has_glob_char. */
  method HasGlobChar(s: string) returns (r: bool)
    ensures !r <==> '*' !in s && '?' !in s
  {
    for i := 0 to |s|
      invariant forall k :: 0 <= k < i ==> s[k] != '*' && s[k] != '?'
    {
      if s[i] == '*' || s[i] == '?' { return true; }
    }
    return false;
  }

  /** glob_match decides Matches. */
  method GlobMatch(pat: string, s: string) returns (r: bool)
    ensures r <==> Matches(pat, s)
    decreases |pat|, 0
  {
    var p, t := pat, s;
    while p != ""
      invariant |p| <= |pat| && (Matches(pat, s) <==> Matches(p, t))
      decreases |p|
    {
      if p[0] == '*' {
        StarIff(p, t);
        p := p[1..];
        while p != "" && p[0] == '*'
          invariant |p| < |pat| && (Matches(pat, s) <==> SomeEnd(p, t))
          decreases |p|
        {
          StarsIff(p, t);
          p := p[1..];
        }
        r := AnyEnd(p, t);
        return;
      }
      OneIff(p, t);
      if t == "" { return false; }
      if p[0] != '?' && p[0] != t[0] { return false; }
      p, t := p[1..], t[1..];
    }
    EmptyIff(t);
    return t == "";
  }

  /** What glob_match does behind stars: true at the end of the pattern, and otherwise every end of s in turn. */
  method AnyEnd(pat: string, s: string) returns (r: bool)
    requires pat == "" || pat[0] != '*'
    ensures r <==> SomeEnd(pat, s)
    decreases |pat|, 1
  {
    if pat == "" {
      EmptyIff(s[|s|..]);
      return true;
    }
    var t := s;
    while t != ""
      invariant SomeEnd(pat, s) <==> SomeEnd(pat, t)
      decreases |t|
    {
      EndsFrom(pat, t);
      var found := GlobMatch(pat, t);
      if found { return true; }
      t := t[1..];
    }
    EndsFrom(pat, t);
    OneIff(pat, t);
    return false;
  }
}
