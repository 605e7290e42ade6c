/**
 * getRegex (modules/FilterThreads.js): the pattern a user preference is turned into.
 * In regular-expression mode the text is used as it is; in literal mode it is a comma
 * separated list that is escaped, stripped of a trailing separator, folded so that each
 * vowel also matches its accented forms, joined with `|` and wrapped in the
 * "word break or space" guards. Only the pattern text is modelled here; compiling it
 * is the regular-expression engine's business.
 */
module Patterns {

  /** What `new RegExp(source, "i")` is given. */
  datatype RegexSpec = RegexSpec(source: string, ignoreCase: bool)

  /** The guard put before and after a literal list: `(\b|\ )`. */
  const Boundary: string := "(\\b|\\ )"

  // ---------------------------------------------------------------------------------
  // Escaping

  /** The characters `[\-\[\]\/\{\}\(\)\*\+\?\.\\\^\$\|]` of the escaping step. */
  const MetaChars: set<char> := {'-', '[', ']', '/', '{', '}', '(', ')', '*', '+', '?', '.', '\\', '^', '$', '|'}

  function EscapeChar(c: char): string
  {
    if c in MetaChars then ['\\', c] else [c]
  }

  /** `replace(/[...]/g, "\\$&")`: a backslash before every metacharacter. */
  function Escape(s: string): string
  {
    if s == [] then [] else EscapeChar(s[0]) + Escape(s[1..])
  }

  /** Reads an escaped text back: a backslash stands for the character after it. */
  function Unescape(r: string): string
    decreases |r|
  {
    if r == [] then []
    else if r[0] == '\\' && |r| >= 2 then [r[1]] + Unescape(r[2..])
    else [r[0]] + Unescape(r[1..])
  }

  /** Every metacharacter of `r` is preceded by a backslash that escapes it. */
  predicate WellEscaped(r: string)
    decreases |r|
  {
    r == []
    || (|r| >= 2 && r[0] == '\\' && r[1] in MetaChars && WellEscaped(r[2..]))
    || (r[0] !in MetaChars && WellEscaped(r[1..]))
  }

  /** Escaping loses nothing: the literal can be read back from the pattern. */
  lemma {:induction false} EscapeRoundTrip(s: string)
    ensures Unescape(Escape(s)) == s
  {
    if s != [] {
      var e := Escape(s);
      assert e == EscapeChar(s[0]) + Escape(s[1..]);
      EscapeRoundTrip(s[1..]);
      if s[0] in MetaChars {
        assert e[0] == '\\' && e[1] == s[0] && e[2..] == Escape(s[1..]);
      } else {
        assert e[0] == s[0] != '\\' && e[1..] == Escape(s[1..]);
      }
      assert s == [s[0]] + s[1..];
    }
  }

  /** Escaping leaves no metacharacter unescaped. */
  lemma {:induction false} EscapeIsWellEscaped(s: string)
    ensures WellEscaped(Escape(s))
  {
    if s != [] {
      var e := Escape(s);
      EscapeIsWellEscaped(s[1..]);
      if s[0] in MetaChars {
        assert e[0] == '\\' && e[1] == s[0] && e[2..] == Escape(s[1..]);
      } else {
        assert e[0] == s[0] && e[1..] == Escape(s[1..]);
      }
    }
  }

  // ---------------------------------------------------------------------------------
  // Comma runs: the regular expression `[\ ]*[\,]+[\ ]*`

  predicate AllSpaces(t: string)
  {
    forall i :: 0 <= i < |t| ==> t[i] == ' '
  }

  /** `t` matches `,* *` as a whole. */
  predicate AfterComma(t: string)
    decreases |t|
  {
    t == [] || (t[0] == ',' && AfterComma(t[1..])) || (t[0] == ' ' && AllSpaces(t[1..]))
  }

  /** `t` matches ` *,+ *` as a whole: spaces, at least one comma, spaces. */
  predicate CommaRun(t: string)
    decreases |t|
  {
    |t| > 0 && ((t[0] == ' ' && CommaRun(t[1..])) || (t[0] == ',' && AfterComma(t[1..])))
  }

  /** A comma run holds nothing but spaces and commas. */
  lemma {:induction false} CommaRunChars(t: string, i: nat)
    requires CommaRun(t) && i < |t|
    ensures t[i] == ' ' || t[i] == ','
  {
    if i > 0 {
      if t[0] == ' ' {
        CommaRunChars(t[1..], i - 1);
      } else {
        AfterCommaChars(t[1..], i - 1);
      }
    }
  }

  lemma {:induction false} AfterCommaChars(t: string, i: nat)
    requires AfterComma(t) && i < |t|
    ensures t[i] == ' ' || t[i] == ','
  {
    if i > 0 && t[0] == ',' {
      AfterCommaChars(t[1..], i - 1);
    }
  }

  // ---------------------------------------------------------------------------------
  // Stripping the trailing separator: `replace(/[\ ]*[\,]+[\ ]*$/, "")`

  /**
   * The leftmost offset at or after `from` from which the rest of `s` is a comma run:
   * where a search for the `$`-anchored pattern succeeds first; -1 when it fails.
   */
  function FirstRunFrom(s: string, from: nat): (k: int)
    requires from <= |s|
    decreases |s| - from
    ensures k == -1 || (from <= k <= |s| && CommaRun(s[k..]))
    ensures forall i :: from <= i <= |s| && (k == -1 || i < k) ==> !CommaRun(s[i..])
  {
    if CommaRun(s[from..]) then from
    else if from == |s| then -1
    else FirstRunFrom(s, from + 1)
  }

  /**
   * Removes the suffix the anchored pattern matches first, when there is one: the
   * result is a prefix of `s`, what was removed is a comma run, and no longer suffix of
   * `s` is one.
   */
  function StripTrailingCommas(s: string): (r: string)
    ensures |r| <= |s| && r == s[..|r|]
    ensures r == s || CommaRun(s[|r|..])
    ensures forall i :: 0 <= i <= |s| && i < |r| ==> !CommaRun(s[i..])
    ensures r == s ==> forall i :: 0 <= i <= |s| ==> !CommaRun(s[i..])
  {
    var k := FirstRunFrom(s, 0);
    if k == -1 then s else s[..k]
  }

  // ---------------------------------------------------------------------------------
  // Replacing every comma run by `|`: `replace(/[\ ]*[\,]+[\ ]*/g, "|")`

  /** The number of spaces `s` starts with: the greedy ` *`. */
  function LeadingSpaces(s: string): (n: nat)
    ensures n <= |s|
    ensures forall i :: 0 <= i < n ==> s[i] == ' '
    ensures n < |s| ==> s[n] != ' '
  {
    if s != [] && s[0] == ' ' then 1 + LeadingSpaces(s[1..]) else 0
  }

  /** The greedy match of `,* *` at the start of `s` (it always succeeds). */
  function CommasThenSpaces(s: string): (n: nat)
    ensures n <= |s|
  {
    if s != [] && s[0] == ',' then 1 + CommasThenSpaces(s[1..]) else LeadingSpaces(s)
  }

  /**
   * The length of the match of ` *,+ *` at the start of `s`, 0 when there is none: the
   * greedy engine takes all the spaces, then all the commas, then all the spaces after
   * them, and giving back spaces never lets a comma follow.
   */
  function RunLength(s: string): (n: nat)
    ensures n <= |s|
  {
    if s == [] then 0
    else if s[0] == ' ' then (var n := RunLength(s[1..]); if n == 0 then 0 else n + 1)
    else if s[0] == ',' then 1 + CommasThenSpaces(s[1..])
    else 0
  }

  lemma {:induction false} CommasThenSpacesLongest(s: string)
    ensures AfterComma(s[..CommasThenSpaces(s)])
    ensures forall k :: CommasThenSpaces(s) < k <= |s| ==> !AfterComma(s[..k])
  {
    var n := CommasThenSpaces(s);
    if s != [] && s[0] == ',' {
      CommasThenSpacesLongest(s[1..]);
      forall k | 0 < k <= |s|
        ensures AfterComma(s[..k]) <==> AfterComma(s[1..][..k - 1])
      {
        assert s[..k][0] == ',' && s[..k][1..] == s[1..][..k - 1];
      }
    } else {
      assert AllSpaces(s[..n]);
      if n > 0 {
        assert s[..n][0] == ' ' && AllSpaces(s[..n][1..]);
      }
      forall k | n < k <= |s|
        ensures !AfterComma(s[..k])
      {
        if s[0] == ' ' {
          assert s[..k][n] == s[n] != ' ';
          assert s[..k][1..][n - 1] == s[n];
        } else {
          assert s[..k][0] == s[0];
        }
      }
    }
  }

  /** The match found is the longest prefix of `s` that is a comma run. */
  lemma {:induction false} RunLengthLongest(s: string)
    ensures RunLength(s) > 0 ==> CommaRun(s[..RunLength(s)])
    ensures forall k :: RunLength(s) < k <= |s| ==> !CommaRun(s[..k])
  {
    if s != [] {
      var n := RunLength(s);
      if s[0] == ' ' {
        RunLengthLongest(s[1..]);
        forall k | 0 < k <= |s|
          ensures CommaRun(s[..k]) <==> CommaRun(s[1..][..k - 1])
        {
          assert s[..k][0] == ' ' && s[..k][1..] == s[1..][..k - 1];
        }
        assert !CommaRun(s[1..][..0]);
      } else if s[0] == ',' {
        CommasThenSpacesLongest(s[1..]);
        forall k | 0 < k <= |s|
          ensures CommaRun(s[..k]) <==> AfterComma(s[1..][..k - 1])
        {
          assert s[..k][0] == ',' && s[..k][1..] == s[1..][..k - 1];
        }
      } else {
        forall k | 0 < k <= |s|
          ensures !CommaRun(s[..k])
        {
          assert s[..k][0] == s[0];
        }
      }
    }
  }

  /** A text with no comma has no comma run at its start. */
  lemma {:induction false} RunLengthNoComma(s: string)
    requires forall i :: 0 <= i < |s| ==> s[i] != ','
    ensures RunLength(s) == 0
  {
    if s != [] && s[0] == ' ' {
      RunLengthNoComma(s[1..]);
    }
  }

  /** The global replacement, scanning left to right and resuming after each match. */
  function ReplaceCommaRuns(s: string): (r: string)
    decreases |s|
    ensures forall i :: 0 <= i < |r| ==> r[i] != ','
  {
    if s == [] then []
    else
      var n := RunLength(s);
      if n > 0 then "|" + ReplaceCommaRuns(s[n..])
      else
        assert s[0] != ',';
        [s[0]] + ReplaceCommaRuns(s[1..])
  }

  /** Text without commas passes the replacement unchanged. */
  lemma {:induction false} ReplaceCommaRunsNoComma(s: string)
    requires forall i :: 0 <= i < |s| ==> s[i] != ','
    ensures ReplaceCommaRuns(s) == s
  {
    if s != [] {
      RunLengthNoComma(s);
      ReplaceCommaRunsNoComma(s[1..]);
      assert s == [s[0]] + s[1..];
    }
  }

  /** An item with no comma that does not end in a space starts no match. */
  lemma {:induction false} NoRunInItem(item: string, tail: string)
    requires item != []
    requires forall i :: 0 <= i < |item| ==> item[i] != ','
    requires item[|item| - 1] != ' '
    ensures RunLength(item + tail) == 0
  {
    var s := item + tail;
    assert s[0] == item[0];
    if item[0] == ' ' {
      assert s[1..] == item[1..] + tail;
      NoRunInItem(item[1..], tail);
    }
  }

  /**
   * One separator between an item and the rest of the list becomes one `|`: the item
   * has no comma and does not end in a space, the rest does not start with a space or
   * a comma.
   */
  lemma {:induction false} ReplaceCommaRunsSplit(item: string, sep: string, rest: string)
    requires forall i :: 0 <= i < |item| ==> item[i] != ','
    requires item == [] || item[|item| - 1] != ' '
    requires CommaRun(sep)
    requires rest == [] || (rest[0] != ' ' && rest[0] != ',')
    ensures ReplaceCommaRuns(item + sep + rest) == item + "|" + ReplaceCommaRuns(rest)
  {
    var s := item + sep + rest;
    if item == [] {
      assert s == sep + rest;
      SeparatorMatch(sep, rest);
      assert item + "|" + ReplaceCommaRuns(rest) == "|" + ReplaceCommaRuns(rest);
    } else {
      var tail := item[1..];
      var r := ReplaceCommaRuns(rest);
      assert s == item + (sep + rest);
      assert s[1..] == tail + sep + rest by {
        assert s[1..] == item[1..] + (sep + rest);
        Assoc(tail, sep, rest);
      }
      assert forall i :: 0 <= i < |tail| ==> tail[i] == item[i + 1];
      calc {
        ReplaceCommaRuns(s);
        { NoRunInItem(item, sep + rest); PlainStep(s); }
        [s[0]] + ReplaceCommaRuns(s[1..]);
        { assert s[0] == item[0]; }
        [item[0]] + ReplaceCommaRuns(tail + sep + rest);
        { ReplaceCommaRunsSplit(tail, sep, rest); }
        [item[0]] + (tail + "|" + r);
        { assert item == [item[0]] + tail; Assoc(tail, "|", r); Assoc([item[0]], tail, "|" + r); Assoc(item, "|", r); }
        item + "|" + r;
      }
    }
  }

  /** Concatenation is associative. */
  lemma Assoc(a: string, b: string, c: string)
    ensures a + b + c == a + (b + c)
  {
  }

  /** A character that starts no comma run is copied and the scan goes on after it. */
  lemma PlainStep(s: string)
    requires s != [] && RunLength(s) == 0
    ensures ReplaceCommaRuns(s) == [s[0]] + ReplaceCommaRuns(s[1..])
  {
  }

  /** A whole separator is matched at once, and the scan resumes at the rest. */
  lemma SeparatorMatch(sep: string, rest: string)
    requires CommaRun(sep)
    requires rest == [] || (rest[0] != ' ' && rest[0] != ',')
    ensures ReplaceCommaRuns(sep + rest) == "|" + ReplaceCommaRuns(rest)
  {
    var s := sep + rest;
    var n := RunLength(s);
    RunLengthLongest(s);
    assert s[..|sep|] == sep;
    assert n >= |sep|;
    if n > |sep| {
      CommaRunChars(s[..n], |sep|);
    }
    assert s[n..] == rest;
  }

  // ---------------------------------------------------------------------------------
  // Folding the vowels: five `replace(/[xyz]/ig, "[xyz]")` calls

  /** What `[aáà]` matches under the `i` flag, and so on for the other vowels. */
  const GroupA: set<char> := {'a', 'A', '\U{E1}', '\U{C1}', '\U{E0}', '\U{C0}'}
  const GroupE: set<char> := {'e', 'E', '\U{E9}', '\U{C9}', '\U{E8}', '\U{C8}'}
  const GroupI: set<char> := {'i', 'I', '\U{ED}', '\U{CD}', '\U{EF}', '\U{CF}'}
  const GroupO: set<char> := {'o', 'O', '\U{F3}', '\U{D3}', '\U{F2}', '\U{D2}'}
  const GroupU: set<char> := {'u', 'U', '\U{FA}', '\U{DA}', '\U{FC}', '\U{DC}'}

  /** The bracket classes inserted: `[aáà]`, `[eéè]`, `[iíï]`, `[oóò]`, `[uúü]`. */
  const ClassA: string := "[a\U{E1}\U{E0}]"
  const ClassE: string := "[e\U{E9}\U{E8}]"
  const ClassI: string := "[i\U{ED}\U{EF}]"
  const ClassO: string := "[o\U{F3}\U{F2}]"
  const ClassU: string := "[u\U{FA}\U{FC}]"

  /** One global replacement: every character of `group` becomes `cls`. */
  function ReplaceGroup(s: string, group: set<char>, cls: string): string
  {
    if s == [] then [] else (if s[0] in group then cls else [s[0]]) + ReplaceGroup(s[1..], group, cls)
  }

  /** The five replacements, applied one after the other as the source chains them. */
  function FoldVowels(s: string): string
  {
    ReplaceGroup(ReplaceGroup(ReplaceGroup(ReplaceGroup(ReplaceGroup(
      s, GroupA, ClassA), GroupE, ClassE), GroupI, ClassI), GroupO, ClassO), GroupU, ClassU)
  }

  /** The fold of one character, all five groups at once. */
  function FoldChar(c: char): (r: string)
    ensures c !in GroupA + GroupE + GroupI + GroupO + GroupU ==> r == [c]
    ensures c in GroupA ==> r == ClassA
    ensures c in GroupE ==> r == ClassE
    ensures c in GroupI ==> r == ClassI
    ensures c in GroupO ==> r == ClassO
    ensures c in GroupU ==> r == ClassU
  {
    if c in GroupA then ClassA
    else if c in GroupE then ClassE
    else if c in GroupI then ClassI
    else if c in GroupO then ClassO
    else if c in GroupU then ClassU
    else [c]
  }

  /** A single left-to-right pass folding every character. */
  function FoldEach(s: string): string
  {
    if s == [] then [] else FoldChar(s[0]) + FoldEach(s[1..])
  }

  lemma {:induction false} ReplaceGroupConcat(x: string, y: string, group: set<char>, cls: string)
    ensures ReplaceGroup(x + y, group, cls) == ReplaceGroup(x, group, cls) + ReplaceGroup(y, group, cls)
  {
    if x == [] {
      assert x + y == y;
    } else {
      assert (x + y)[0] == x[0] && (x + y)[1..] == x[1..] + y;
      ReplaceGroupConcat(x[1..], y, group, cls);
    }
  }

  lemma {:induction false} ReplaceGroupUntouched(s: string, group: set<char>, cls: string)
    requires forall i :: 0 <= i < |s| ==> s[i] !in group
    ensures ReplaceGroup(s, group, cls) == s
  {
    if s != [] {
      ReplaceGroupUntouched(s[1..], group, cls);
      assert s == [s[0]] + s[1..];
    }
  }

  /** Each inserted class holds only characters of its own group (and brackets). */
  lemma ClassesAreInert()
    ensures forall i :: 0 <= i < |ClassA| ==> ClassA[i] !in GroupE + GroupI + GroupO + GroupU
    ensures forall i :: 0 <= i < |ClassE| ==> ClassE[i] !in GroupI + GroupO + GroupU
    ensures forall i :: 0 <= i < |ClassI| ==> ClassI[i] !in GroupO + GroupU
    ensures forall i :: 0 <= i < |ClassO| ==> ClassO[i] !in GroupU
  {
  }

  lemma ReplaceGroupSingle(c: char, group: set<char>, cls: string)
    ensures ReplaceGroup([c], group, cls) == if c in group then cls else [c]
  {
    assert [c][1..] == [];
  }

  /** A class string, or a character, that a later replacement leaves alone. */
  lemma StepUntouched(c: char, s: string, group: set<char>, cls: string)
    requires s == [c] || forall i :: 0 <= i < |s| ==> s[i] !in group
    ensures ReplaceGroup(s, group, cls) == if s == [c] && c in group then cls else s
  {
    if s == [c] {
      ReplaceGroupSingle(c, group, cls);
      if c !in group { assert forall i :: 0 <= i < |s| ==> s[i] !in group; }
    }
    if forall i :: 0 <= i < |s| ==> s[i] !in group {
      ReplaceGroupUntouched(s, group, cls);
    }
  }

  lemma FoldVowelsChar(c: char)
    ensures FoldVowels([c]) == FoldChar(c)
  {
    ClassesAreInert();
    var s1 := ReplaceGroup([c], GroupA, ClassA);
    ReplaceGroupSingle(c, GroupA, ClassA);
    StepUntouched(c, s1, GroupE, ClassE);
    var s2 := ReplaceGroup(s1, GroupE, ClassE);
    StepUntouched(c, s2, GroupI, ClassI);
    var s3 := ReplaceGroup(s2, GroupI, ClassI);
    StepUntouched(c, s3, GroupO, ClassO);
    var s4 := ReplaceGroup(s3, GroupO, ClassO);
    StepUntouched(c, s4, GroupU, ClassU);
  }

  /**
   * The five chained replacements do not interfere: together they are one pass that
   * folds every character on its own.
   */
  lemma {:induction false} FoldVowelsIsOnePass(s: string)
    ensures FoldVowels(s) == FoldEach(s)
  {
    if s != [] {
      var x := [s[0]];
      var y := s[1..];
      assert s == x + y;
      ReplaceGroupConcat(x, y, GroupA, ClassA);
      var a1, a2 := ReplaceGroup(x, GroupA, ClassA), ReplaceGroup(y, GroupA, ClassA);
      ReplaceGroupConcat(a1, a2, GroupE, ClassE);
      var e1, e2 := ReplaceGroup(a1, GroupE, ClassE), ReplaceGroup(a2, GroupE, ClassE);
      ReplaceGroupConcat(e1, e2, GroupI, ClassI);
      var i1, i2 := ReplaceGroup(e1, GroupI, ClassI), ReplaceGroup(e2, GroupI, ClassI);
      ReplaceGroupConcat(i1, i2, GroupO, ClassO);
      var o1, o2 := ReplaceGroup(i1, GroupO, ClassO), ReplaceGroup(i2, GroupO, ClassO);
      ReplaceGroupConcat(o1, o2, GroupU, ClassU);
      assert FoldVowels(s) == FoldVowels(x) + FoldVowels(y);
      FoldVowelsChar(s[0]);
      FoldVowelsIsOnePass(y);
    }
  }

  // ---------------------------------------------------------------------------------
  // getRegex

  /** The alternation of a literal list, built in the order the source builds it. */
  function LiteralBody(userInput: string): string
  {
    ReplaceCommaRuns(FoldVowels(StripTrailingCommas(Escape(userInput))))
  }

  /**
   * getRegex: regular-expression mode passes the text through; literal mode is
   * `(\b|\ )(` body `)(\b|\ )`, where the body escapes, strips one trailing separator,
   * folds each vowel in one pass and turns every remaining separator into `|`. Both
   * modes ask for a case-insensitive expression.
   */
  function GetRegex(userInput: string, isRegex: bool): (r: RegexSpec)
    ensures r.ignoreCase
    ensures isRegex ==> r.source == userInput
    ensures !isRegex ==>
      r.source == Boundary + "(" + ReplaceCommaRuns(FoldEach(StripTrailingCommas(Escape(userInput)))) + ")" + Boundary
  {
    if isRegex then RegexSpec(userInput, true)
    else
      FoldVowelsIsOnePass(StripTrailingCommas(Escape(userInput)));
      RegexSpec(Boundary + "(" + LiteralBody(userInput) + ")" + Boundary, true)
  }
}
