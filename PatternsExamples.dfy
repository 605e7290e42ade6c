/**
 * getRegex on two literal lists: `café, sol`, and `a, ,`, whose trailing separators are
 * stripped only in part.
 */
module PatternsExamples {
  import opened Patterns
  /** A text without metacharacters is not changed by the escaping step. */
  lemma {:induction false} EscapePlain(s: string)
    requires forall i :: 0 <= i < |s| ==> s[i] !in MetaChars
    ensures Escape(s) == s
  {
    if s != [] { EscapePlain(s[1..]); assert s == [s[0]] + s[1..]; }
  }

  /** The one-pass fold works character by character. */
  lemma {:induction false} FoldEachConcat(x: string, y: string)
    ensures FoldEach(x + y) == FoldEach(x) + FoldEach(y)
  {
    if x == [] { assert x + y == y; } else { assert (x + y)[1..] == x[1..] + y; FoldEachConcat(x[1..], y); }
  }
  /** The fold of a one-character text is that character's fold. */
  lemma FoldOne(c: char)
    ensures FoldEach([c]) == FoldChar(c)
  {
    assert [c][1..] == [];
    assert FoldEach([c]) == FoldChar(c) + FoldEach([]);
    assert FoldChar(c) + [] == FoldChar(c);
  }
  /** The fold of a two-character text. */
  lemma FoldPair(c: char, d: char)
    ensures FoldEach([c, d]) == FoldChar(c) + FoldChar(d)
  {
    assert [c, d] == [c] + [d];
    FoldEachConcat([c], [d]);
    FoldOne(c);
    FoldOne(d);
  }
  /** `café` folds to `c[aáà]f[eéè]`. */
  lemma FoldCafe()
    ensures FoldEach("caf\U{E9}") == ("c" + ClassA) + ("f" + ClassE)
  {
    assert "caf\U{E9}" == ['c', 'a'] + ['f', '\U{E9}'];
    FoldEachConcat(['c', 'a'], ['f', '\U{E9}']);
    FoldPair('c', 'a');
    FoldPair('f', '\U{E9}');
  }
  /** `sol` folds to `s[oóò]l`. */
  lemma FoldSol()
    ensures FoldEach("sol") == "s" + ClassO + "l"
  {
    assert "sol" == ['s', 'o'] + ['l'];
    FoldEachConcat(['s', 'o'], ['l']);
    FoldPair('s', 'o');
    FoldOne('l');
  }
  /** The fold of three consecutive pieces. */
  lemma FoldThree(x: string, y: string, z: string)
    ensures FoldEach(x + y + z) == FoldEach(x) + FoldEach(y) + FoldEach(z)
  {
    FoldEachConcat(x + y, z);
    FoldEachConcat(x, y);
  }
  /** The separator `, ` has no vowel and is not changed by folding. */
  lemma FoldSep()
    ensures FoldEach(", ") == ", "
  {
    FoldPair(',', ' ');
    assert FoldChar(',') == [','];
    assert FoldChar(' ') == [' '];
    assert [','] + [' '] == ", ";
  }
  /** The fold of the whole list `café, sol`. */
  lemma CafeSolFold(input: string)
    requires input == "caf\U{E9}, sol"
    ensures FoldEach(input) == (("c" + ClassA) + ("f" + ClassE)) + ", " + ("s" + ClassO + "l")
  {
    var x, y, z := "caf\U{E9}", ", ", "sol";
    assert input == x + y + z;
    FoldThree(x, y, z);
    FoldCafe();
    FoldSep();
    FoldSol();
  }

  /** A text whose last character is neither a space nor a comma has no separator to strip. */
  lemma StripNothing(s: string)
    requires s != [] && s[|s| - 1] != ' ' && s[|s| - 1] != ','
    ensures StripTrailingCommas(s) == s
  {
    var r := StripTrailingCommas(s);
    if r != s {
      CommaRunChars(s[|r|..], |s| - |r| - 1);
      assert false;
    }
  }

  /** The one separator of the folded list becomes `|`. */
  lemma CafeSolAlternation(item: string, rest: string)
    requires item == ("c" + ClassA) + ("f" + ClassE) && rest == "s" + ClassO + "l"
    ensures ReplaceCommaRuns(item + ", " + rest) == item + "|" + rest
  {
    assert forall i :: 0 <= i < |item| ==> item[i] != ',';
    assert forall i :: 0 <= i < |rest| ==> rest[i] != ',';
    assert CommaRun(", ") by { assert ", "[1..] == " "; assert AfterComma(" "); }
    ReplaceCommaRunsSplit(item, ", ", rest);
    ReplaceCommaRunsNoComma(rest);
  }

  /** `café, sol` has nothing to escape and no trailing separator. */
  lemma CafeSolEscaped(input: string)
    requires input == "caf\U{E9}, sol"
    ensures StripTrailingCommas(Escape(input)) == input
  {
    CafeSolPlain(input);
    EscapePlain(input);
    StripNothing(input);
  }

  /** No character of `café, sol` is a metacharacter. */
  lemma CafeSolPlain(input: string)
    requires input == "caf\U{E9}, sol"
    ensures forall i :: 0 <= i < |input| ==> input[i] !in MetaChars
  {
    forall i | 0 <= i < |input|
      ensures input[i] !in MetaChars
    {
      assert input[i] in {'c', 'a', 'f', '\U{E9}', ',', ' ', 's', 'o', 'l'};
    }
  }

  /** The literal list `café, sol` becomes `(\b|\ )(c[aáà]f[eéè]|s[oóò]l)(\b|\ )`. */
  lemma CafeSol(input: string)
    requires input == "caf\U{E9}, sol"
    ensures GetRegex(input, false).source
         == Boundary + "(" + ((("c" + ClassA) + ("f" + ClassE)) + "|" + ("s" + ClassO + "l")) + ")" + Boundary
  {
    var item := ("c" + ClassA) + ("f" + ClassE);
    var rest := "s" + ClassO + "l";
    CafeSolEscaped(input);
    CafeSolFold(input);
    CafeSolAlternation(item, rest);
  }

  /**
   * A list ending in `, ,` loses only its last ` ,`: the anchored pattern matches first
   * from the space, because `,* *` cannot follow the earlier comma with ` ,`.
   */
  lemma StripKeepsEarlierComma(s: string)
    requires s == "a, ,"
    ensures StripTrailingCommas(s) == "a,"
  {
    assert !CommaRun(s[0..]);
    assert s[1..] == ", ,";
    assert s[1..][1..] == " ,";
    assert " ,"[1..][0] == ',';
    assert !AfterComma(" ,");
    assert !CommaRun(s[1..]);
    assert s[2..] == " ,";
    assert s[2..][1..] == ",";
    assert ","[1..] == [];
    assert CommaRun(s[2..]);
    assert FirstRunFrom(s, 1) == 2;
    assert FirstRunFrom(s, 0) == 2;
  }

  /** So `a, ,` gives the body `[aáà]|`, whose empty alternative matches everywhere. */
  lemma EmptyAlternative(input: string)
    requires input == "a, ,"
    ensures GetRegex(input, false).source == Boundary + "(" + (ClassA + "|") + ")" + Boundary
  {
    EmptyAlternativeEscaped(input);
    var stripped := StripTrailingCommas(Escape(input));
    StripKeepsEarlierComma(input);
    assert stripped == "a,";
    var folded := FoldEach(stripped);
    EmptyAlternativeFold();
    assert folded == ClassA + ",";
    var body := ReplaceCommaRuns(folded);
    EmptyAlternativeRuns();
    assert body == ClassA + "|";
    assert GetRegex(input, false).source == Boundary + "(" + body + ")" + Boundary;
  }

  /** `a, ,` has nothing to escape. */
  lemma EmptyAlternativeEscaped(input: string)
    requires input == "a, ,"
    ensures Escape(input) == input
  {
    forall i | 0 <= i < |input|
      ensures input[i] !in MetaChars
    {
      assert input[i] in {'a', ',', ' '};
    }
    EscapePlain(input);
  }

  /** `a,` folds to `[aáà],`. */
  lemma EmptyAlternativeFold()
    ensures FoldEach("a,") == ClassA + ","
  {
    var st: string := "a,";
    assert st == ['a'] + [','];
    FoldEachConcat(['a'], [',']);
    FoldOne('a');
    FoldOne(',');
  }

  /** The comma left at the end becomes an empty last alternative. */
  lemma EmptyAlternativeRuns()
    ensures ReplaceCommaRuns(ClassA + ",") == ClassA + "|"
  {
    assert forall i :: 0 <= i < |ClassA| ==> ClassA[i] != ',';
    assert CommaRun(",") by { assert ","[1..] == []; }
    ReplaceCommaRunsSplit(ClassA, ",", []);
    assert ClassA + "," + [] == ClassA + ",";
  }
}
