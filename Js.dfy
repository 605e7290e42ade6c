/**
 * The JavaScript built-ins the filtering module relies on, stated over sequences:
 * Array.prototype.indexOf, the module's own removeElementFromArray (indexOf + splice),
 * String.prototype.indexOf, String.prototype.trim and String.prototype.replace with a
 * string pattern (first occurrence only, with the `$` substitution patterns of
 * ECMAScript's GetSubstitution).
 */
module Js {
  import opened Base

  /** Array.prototype.indexOf: the index of the first element equal to `x`, or -1. */
  function IndexOf<T(==)>(s: seq<T>, x: T): (i: int)
    ensures -1 <= i < |s|
    ensures i == -1 <==> x !in s
    ensures 0 <= i ==> s[i] == x && x !in s[..i]
  {
    if s == [] then -1
    else if s[0] == x then 0
    else
      var j := IndexOf(s[1..], x);
      assert j >= 0 ==> s[..j + 1] == [s[0]] + s[1..][..j];
      if j == -1 then -1 else j + 1
  }

  /**
   * removeElementFromArray (modules/FilterThreads.js): when `x` occurs, splice out its
   * first occurrence; otherwise leave the array alone.
   */
  function RemoveFirst<T(==)>(s: seq<T>, x: T): seq<T>
  {
    var index := IndexOf(s, x);
    if index > -1 then s[..index] + s[index + 1..] else s
  }

  /** An absent `x` leaves the array alone; a present one is removed exactly once, and nothing is added. */
  lemma RemoveFirstSpec<T>(s: seq<T>, x: T)
    ensures x !in s ==> RemoveFirst(s, x) == s
    ensures x in s ==> |RemoveFirst(s, x)| == |s| - 1 && multiset(RemoveFirst(s, x)) + multiset{x} == multiset(s)
    ensures forall y :: y in RemoveFirst(s, x) ==> y in s
  {
    var index := IndexOf(s, x);
    if index > -1 {
      assert s == s[..index] + [s[index]] + s[index + 1..];
    }
  }

  /** What is removed is the first occurrence of `x`; everything before and after it stays in order. */
  lemma RemoveFirstOccurrence<T>(s: seq<T>, x: T)
    requires x in s
    ensures exists k :: 0 <= k < |s| && s[k] == x && x !in s[..k] && RemoveFirst(s, x) == s[..k] + s[k + 1..]
  {
    var k := IndexOf(s, x);
    assert s[k] == x && x !in s[..k];
  }

  /** Pushing `x` and then removing it gives the array back, when `x` was not in it. */
  lemma RemoveFirstAfterPush<T>(s: seq<T>, x: T)
    requires x !in s
    ensures RemoveFirst(s + [x], x) == s
  {
    assert (s + [x])[..|s|] == s;
    assert IndexOf(s + [x], x) == |s|;
  }

  /** Removing `x` and pushing it again keeps exactly the same members. */
  lemma RemoveFirstThenPushSameMembers<T>(s: seq<T>, x: T)
    requires x in s
    ensures forall y :: y in RemoveFirst(s, x) + [x] <==> y in s
  {
    var r := RemoveFirst(s, x);
    forall y
      ensures y in r + [x] <==> y in s
    {
      assert y in r + [x] <==> y in multiset(r) || y == x;
      assert y in s <==> y in multiset(s);
    }
  }

  /** In a duplicate-free array, removing `x` leaves no copy of it and no duplicates. */
  lemma RemoveFirstNoDup<T>(s: seq<T>, x: T)
    requires NoDup(s)
    ensures x !in RemoveFirst(s, x)
    ensures NoDup(RemoveFirst(s, x))
  {
    if x in s {
      NoDupWithout(s, IndexOf(s, x));
    }
  }

  /** The characters String.prototype.trim removes: WhiteSpace and LineTerminator. */
  predicate IsWhiteSpace(c: char)
  {
    c == '\t' || c == '\n' || c == '\U{B}' || c == '\U{C}' || c == '\r' || c == ' '
    || c == '\U{A0}' || c == '\U{1680}' || ('\U{2000}' <= c <= '\U{200A}')
    || c == '\U{2028}' || c == '\U{2029}' || c == '\U{202F}' || c == '\U{205F}'
    || c == '\U{3000}' || c == '\U{FEFF}'
  }

  /** `s` with its leading white space removed. */
  function TrimStart(s: string): string
  {
    if s != [] && IsWhiteSpace(s[0]) then TrimStart(s[1..]) else s
  }

  /** `s` with its trailing white space removed. */
  function TrimEnd(s: string): string
  {
    if s != [] && IsWhiteSpace(s[|s| - 1]) then TrimEnd(s[..|s| - 1]) else s
  }

  /** String.prototype.trim. */
  function Trim(s: string): string
  {
    TrimEnd(TrimStart(s))
  }

  /**
   * TrimStart keeps a suffix of `s`: what it removes is white space, and what it keeps
   * does not start with any.
   */
  lemma {:induction false} TrimStartSpec(s: string)
    ensures |TrimStart(s)| <= |s| && TrimStart(s) == s[|s| - |TrimStart(s)|..]
    ensures forall i :: 0 <= i < |s| - |TrimStart(s)| ==> IsWhiteSpace(s[i])
    ensures TrimStart(s) != [] ==> !IsWhiteSpace(TrimStart(s)[0])
  {
    if s != [] && IsWhiteSpace(s[0]) {
      var t := s[1..];
      TrimStartSpec(t);
      assert TrimStart(s) == TrimStart(t);
      assert t[|t| - |TrimStart(t)|..] == s[|s| - |TrimStart(s)|..];
      forall i | 0 < i < |s| - |TrimStart(s)|
        ensures IsWhiteSpace(s[i])
      {
        assert s[i] == t[i - 1];
      }
    }
  }

  /**
   * TrimEnd keeps a prefix of `s`: what it removes is white space, and what it keeps
   * does not end with any.
   */
  lemma {:induction false} TrimEndSpec(s: string)
    ensures |TrimEnd(s)| <= |s| && TrimEnd(s) == s[..|TrimEnd(s)|]
    ensures forall i :: |TrimEnd(s)| <= i < |s| ==> IsWhiteSpace(s[i])
    ensures TrimEnd(s) != [] ==> !IsWhiteSpace(TrimEnd(s)[|TrimEnd(s)| - 1])
  {
    if s != [] && IsWhiteSpace(s[|s| - 1]) {
      var t := s[..|s| - 1];
      TrimEndSpec(t);
      assert TrimEnd(s) == TrimEnd(t);
      assert t[..|TrimEnd(t)|] == s[..|TrimEnd(s)|];
      forall i | |TrimEnd(s)| <= i < |s| - 1
        ensures IsWhiteSpace(s[i])
      {
        assert s[i] == t[i];
      }
    }
  }

  /**
   * trim removes exactly the white space at both ends: the result is the slice of `s`
   * starting at offset |s| - |TrimStart(s)|, before and after it `s` holds only white
   * space, and the result neither starts nor ends with white space.
   */
  lemma TrimSpec(s: string)
    ensures |TrimStart(s)| <= |s|
    ensures var a := |s| - |TrimStart(s)|;
      a + |Trim(s)| <= |s| && Trim(s) == s[a..a + |Trim(s)|]
    ensures forall i :: 0 <= i < |s| - |TrimStart(s)| ==> IsWhiteSpace(s[i])
    ensures forall i :: |s| - |TrimStart(s)| + |Trim(s)| <= i < |s| ==> IsWhiteSpace(s[i])
    ensures Trim(s) != [] ==> !IsWhiteSpace(Trim(s)[0]) && !IsWhiteSpace(Trim(s)[|Trim(s)| - 1])
  {
    var t := TrimStart(s);
    var a := |s| - |t|;
    var r := Trim(s);
    TrimStartSpec(s);
    TrimEndSpec(t);
    assert r == t[..|r|];
    assert r == s[a..a + |r|];
    forall i | a + |r| <= i < |s|
      ensures IsWhiteSpace(s[i])
    {
      assert s[i] == t[i - a];
    }
    if r != [] {
      assert r[0] == t[0];
    }
  }

  /** `pat` occurs in `s` at offset `i`. */
  predicate OccursAt(s: string, pat: string, i: nat)
  {
    i + |pat| <= |s| && s[i..i + |pat|] == pat
  }

  /** The first offset at or after `from` where `pat` occurs in `s`, or -1. */
  function IndexOfFrom(s: string, pat: string, from: nat): (i: int)
    ensures i == -1 || (from <= i && i + |pat| <= |s|)
    decreases |s| - from
  {
    if from + |pat| > |s| then -1
    else if OccursAt(s, pat, from) then from
    else IndexOfFrom(s, pat, from + 1)
  }

  /** String.prototype.indexOf: the first offset where `pat` occurs in `s`, or -1. */
  function IndexOfString(s: string, pat: string): int
  {
    IndexOfFrom(s, pat, 0)
  }

  /** The search from `from` finds the first occurrence at or after `from`, if there is one. */
  lemma {:induction false} IndexOfFromSpec(s: string, pat: string, from: nat)
    ensures var i := IndexOfFrom(s, pat, from);
      i == -1 || (from <= i && OccursAt(s, pat, i))
    ensures var i := IndexOfFrom(s, pat, from);
      forall j :: from <= j && (i == -1 || j < i) ==> !OccursAt(s, pat, j)
    decreases |s| - from
  {
    if from + |pat| <= |s| && !OccursAt(s, pat, from) {
      IndexOfFromSpec(s, pat, from + 1);
    }
  }

  /**
   * indexOf returns an offset where `pat` occurs and none occurs before it, or -1 when
   * `pat` occurs nowhere.
   */
  lemma IndexOfStringSpec(s: string, pat: string)
    ensures var i := IndexOfString(s, pat);
      i == -1 || (0 <= i && OccursAt(s, pat, i))
    ensures var i := IndexOfString(s, pat);
      forall j: nat :: (i == -1 || j < i) ==> !OccursAt(s, pat, j)
  {
    IndexOfFromSpec(s, pat, 0);
  }

  /** No character of `s` is a `$`. */
  predicate NoDollar(s: string)
  {
    '$' !in s
  }

  /**
   * ECMAScript GetSubstitution for a string pattern (no capture groups): in the
   * replacement, `$$` stands for `$`, `$&` for the matched text, `` $` `` for the text
   * before the match and `$'` for the text after it; every other character, including a
   * `$` in any other position, stands for itself.
   */
  function Substitute(replacement: string, matched: string, before: string, after: string): string
    decreases |replacement|
  {
    if replacement == [] then []
    else if replacement[0] == '$' && |replacement| >= 2 && replacement[1] == '$' then
      "$" + Substitute(replacement[2..], matched, before, after)
    else if replacement[0] == '$' && |replacement| >= 2 && replacement[1] == '&' then
      matched + Substitute(replacement[2..], matched, before, after)
    else if replacement[0] == '$' && |replacement| >= 2 && replacement[1] == '`' then
      before + Substitute(replacement[2..], matched, before, after)
    else if replacement[0] == '$' && |replacement| >= 2 && replacement[1] == '\'' then
      after + Substitute(replacement[2..], matched, before, after)
    else
      [replacement[0]] + Substitute(replacement[1..], matched, before, after)
  }

  /** A `$`-free prefix of a replacement is copied as it is. */
  lemma {:induction false} SubstituteLiteralPrefix(p: string, q: string, matched: string, before: string, after: string)
    requires NoDollar(p)
    ensures Substitute(p + q, matched, before, after) == p + Substitute(q, matched, before, after)
  {
    if p != [] {
      assert (p + q)[0] == p[0] != '$';
      assert (p + q)[1..] == p[1..] + q;
      SubstituteLiteralPrefix(p[1..], q, matched, before, after);
      calc {
        Substitute(p + q, matched, before, after);
        [p[0]] + Substitute(p[1..] + q, matched, before, after);
        [p[0]] + (p[1..] + Substitute(q, matched, before, after));
        { assert [p[0]] + p[1..] == p; }
        p + Substitute(q, matched, before, after);
      }
    } else {
      assert p + q == q;
    }
  }

  /** A `$`-free replacement is inserted literally. */
  lemma SubstituteLiteral(p: string, matched: string, before: string, after: string)
    requires NoDollar(p)
    ensures Substitute(p, matched, before, after) == p
  {
    SubstituteLiteralPrefix(p, [], matched, before, after);
    assert p + [] == p;
  }

  /**
   * String.prototype.replace(pat, replacement) with a string `pat`: only the first
   * occurrence of `pat` is replaced, by the replacement's substitution; when there is none
   * the string is returned as it is.
   */
  function ReplaceFirst(s: string, pat: string, replacement: string): string
  {
    var p := IndexOfString(s, pat);
    if p == -1 then s
    else s[..p] + Substitute(replacement, pat, s[..p], s[p + |pat|..]) + s[p + |pat|..]
  }

  /**
   * Without an occurrence the text is returned as it is; with one and a `$`-free
   * replacement, the first occurrence and nothing else is replaced by the replacement.
   */
  lemma ReplaceFirstSpec(s: string, pat: string, replacement: string)
    ensures IndexOfString(s, pat) == -1 ==> ReplaceFirst(s, pat, replacement) == s
    ensures var p := IndexOfString(s, pat);
      NoDollar(replacement) && p >= 0 ==>
      p + |pat| <= |s| && ReplaceFirst(s, pat, replacement) == s[..p] + replacement + s[p + |pat|..]
  {
    var p := IndexOfString(s, pat);
    IndexOfStringSpec(s, pat);
    if p >= 0 && NoDollar(replacement) {
      SubstituteLiteral(replacement, pat, s[..p], s[p + |pat|..]);
    }
  }

  /**
   * When the replacement starts with a `$`-free prefix `p`, the text put in place of the
   * first occurrence starts with `p`, whatever the rest `q` of the replacement holds.
   */
  lemma ReplaceFirstLiteralPrefix(s: string, pat: string, replacement: string, p: string, q: string, before: string, after: string)
    requires replacement == p + q && NoDollar(p)
    requires IndexOfString(s, pat) >= 0
    requires before == s[..IndexOfString(s, pat)] && after == s[IndexOfString(s, pat) + |pat|..]
    ensures ReplaceFirst(s, pat, replacement) == before + p + Substitute(q, pat, before, after) + after
  {
    SubstituteLiteralPrefix(p, q, pat, before, after);
  }
}
