/**
 * matchKeywords (modules/FilterThreads.js): the loop that runs a keyword expression over
 * a title or a user name. Each time the expression matches, it wraps the first occurrence
 * of the trimmed match, in the text marked so far, in a `<span>` of a given class. The
 * regular-expression engine is not modelled: an expression is an `Exec`, a function from
 * the text it searches to the position and length of the leftmost match, if any. As the
 * expression has no `g` flag, every `exec` searches its argument from the start.
 */
module Matcher {
  import opened Base
  import opened Js

  /** A match `exec` reports: `matches.index` and `matches[0].length`. */
  datatype Match = Match(index: nat, len: nat)

  /** The expression that never matches. */
  function NoMatch(t: string): Option<Match> { None }

  /** RegExp.prototype.exec: what it reports lies inside the text it was given. */
  type Exec = f: string -> Option<Match> | forall t :: f(t).Some? ==> f(t).value.index + f(t).value.len <= |t|
    witness NoMatch

  const SpanStart: string := "<span class='"
  const SpanEnd: string := "</span>"

  /** The text put before and after every keyword a search marks. */
  datatype Tag = Tag(open: string, close: string)

  /** matchKeywords' mark-up for a class name: `<span class='className'>` and `</span>`. */
  function SpanTag(cls: string): Tag
  {
    Tag(SpanStart + cls + "'>", SpanEnd)
  }

  /** The mark-up put around a keyword. */
  function Span(tag: Tag, word: string): string
  {
    tag.open + word + tag.close
  }

  /**
   * The opening text starts with a character the replace call copies as it is (a `$`
   * could start a substitution pattern).
   */
  predicate Opens(tag: Tag)
  {
    tag.open != [] && tag.open[0] != '$'
  }

  /** matchKeywords' span opens with `<`, whatever the class name. */
  lemma SpanTagOpens(cls: string)
    ensures Opens(SpanTag(cls))
  {
    assert SpanTag(cls).open[0] == SpanStart[0] == '<';
  }

  /** One iteration's replacement: the first occurrence of the trimmed match is wrapped. */
  function MarkStep(highlighted: string, word: string, tag: Tag): string
  {
    var key := Trim(word);
    ReplaceFirst(highlighted, key, Span(tag, key))
  }

  /**
   * The loop from a state where `highlighted` is the marked-up text so far and `text` the
   * part still to be searched: it stops at the first search that finds nothing or only
   * the empty string, and otherwise runs one iteration on the match.
   */
  function MarkRest(highlighted: string, text: string, exec: Exec, tag: Tag): string
    decreases |text|, 0
  {
    match exec(text)
    case None => highlighted
    case Some(m) =>
      if m.len == 0 then highlighted
      else MarkOn(highlighted, text[m.index..m.index + m.len], text[m.index + m.len..], exec, tag)
  }

  /** One iteration on the matched `word`: the step, then the loop on the `rest` after the match. */
  function MarkOn(highlighted: string, word: string, rest: string, exec: Exec, tag: Tag): string
    decreases |rest|, 1
  {
    MarkRest(MarkStep(highlighted, word, tag), rest, exec, tag)
  }

  /** The loop never empties a non-empty text. */
  lemma {:induction false} MarkRestNonEmpty(highlighted: string, text: string, exec: Exec, tag: Tag)
    requires highlighted != [] && Opens(tag)
    ensures MarkRest(highlighted, text, exec, tag) != []
    decreases |text|
  {
    match exec(text)
    case None =>
    case Some(m) =>
      if m.len > 0 {
        var word := text[m.index..m.index + m.len];
        MarkStepNonEmpty(highlighted, word, tag);
        MarkRestNonEmpty(MarkStep(highlighted, word, tag), text[m.index + m.len..], exec, tag);
      }
  }

  /**
   * matchKeywords' result: `false` (None) when the loop body never runs, otherwise the
   * marked-up text.
   */
  function Mark(text: string, exec: Exec, tag: Tag): Option<string>
  {
    match exec(text)
    case None => None
    case Some(m) => if m.len == 0 then None else Some(MarkRest(text, text, exec, tag))
  }

  /**
   * matchKeywords reports no match exactly when the first search finds nothing or only the
   * empty string; a match gives a marked-up text that is never empty, so that the callers'
   * truth test always takes it as a match.
   */
  lemma MarkSpec(text: string, exec: Exec, tag: Tag)
    ensures Mark(text, exec, tag).None? <==> exec(text).None? || exec(text).value.len == 0
    ensures Opens(tag) && Mark(text, exec, tag).Some? ==> Mark(text, exec, tag).value != []
  {
    if text != [] && Opens(tag) {
      MarkRestNonEmpty(text, text, exec, tag);
    }
  }

  /** One iteration of the search goes on from the marked text and the rest after the match. */
  lemma MarkRestStep(highlighted: string, text: string, exec: Exec, tag: Tag)
    requires exec(text).Some? && exec(text).value.len > 0
    ensures var m := exec(text).value;
      MarkRest(highlighted, text, exec, tag)
      == MarkRest(MarkStep(highlighted, text[m.index..m.index + m.len], tag), text[m.index + m.len..], exec, tag)
  {
  }

  /** A search that finds nothing, or only the empty string, ends the loop. */
  lemma MarkRestStop(highlighted: string, text: string, exec: Exec, tag: Tag)
    requires exec(text).None? || exec(text).value.len == 0
    ensures MarkRest(highlighted, text, exec, tag) == highlighted
  {
  }

  /** Before the first iteration: whether the loop runs at all decides between None and Some. */
  lemma MarkStart(text: string, exec: Exec, tag: Tag)
    ensures exec(text).None? || exec(text).value.len == 0 ==> Mark(text, exec, tag).None?
    ensures exec(text).Some? && exec(text).value.len > 0 ==> Mark(text, exec, tag) == Some(MarkRest(text, text, exec, tag))
  {
  }

  /**
   * The body of matchKeywords' loop: wraps the first occurrence of the trimmed match in
   * `highlighted` and cuts the searched text after the match.
   */
  method MarkMatch(highlighted: string, text: string, exec: Exec, tag: Tag)
    returns (highlighted': string, text': string)
    requires exec(text).Some? && exec(text).value.len > 0
    ensures var m := exec(text).value;
      highlighted' == MarkStep(highlighted, text[m.index..m.index + m.len], tag)
      && text' == text[m.index + m.len..]
    ensures |text'| < |text|
    ensures MarkRest(highlighted, text, exec, tag) == MarkRest(highlighted', text', exec, tag)
  {
    highlighted' := MarkStep(highlighted, text[exec(text).value.index..exec(text).value.index + exec(text).value.len], tag);
    text' := text[exec(text).value.index + exec(text).value.len..];
    MarkRestStep(highlighted, text, exec, tag);
  }

  /**
   * The loop of matchKeywords, proved to compute `Mark` and so to terminate. The class
   * name argument is given as the mark-up it stands for, `SpanTag(className)`.
   */
  method MarkKeywords(text: string, exec: Exec, tag: Tag) returns (r: Option<string>)
    ensures r == Mark(text, exec, tag)
    ensures r.None? <==> exec(text).None? || exec(text).value.len == 0
    ensures Opens(tag) && r.Some? ==> r.value != []
  {
    MarkSpec(text, exec, tag);
    var matched := false;
    var rest := text;
    var matches := exec(rest);
    var highlighted := text;
    MarkStart(text, exec, tag);
    while matches.Some? && matches.value.len > 0
      invariant matches == exec(rest)
      invariant !matched ==> rest == text && highlighted == text
      invariant matched ==> Mark(text, exec, tag) == Some(MarkRest(highlighted, rest, exec, tag))
      decreases |rest|
    {
      highlighted, rest := MarkMatch(highlighted, rest, exec, tag);
      matches := exec(rest);
      matched := true;
    }
    if matched {
      MarkRestStop(highlighted, rest, exec, tag);
      r := Some(highlighted);
    } else {
      r := None;
    }
  }

  /**
   * A step either leaves the text as it is or puts the mark-up in place of the first
   * occurrence of the trimmed match; the first character of the opening text is copied as
   * it is whatever `$` patterns the rest of the replacement holds.
   */
  lemma MarkStepNonEmpty(highlighted: string, word: string, tag: Tag)
    requires Opens(tag)
    ensures highlighted != [] ==> MarkStep(highlighted, word, tag) != []
  {
    var key := Trim(word);
    var i := IndexOfString(highlighted, key);
    ReplaceFirstSpec(highlighted, key, Span(tag, key));
    IndexOfStringSpec(highlighted, key);
    if i >= 0 {
      assert Span(tag, key) == tag.open[..1] + (tag.open[1..] + key + tag.close);
      ReplaceFirstLiteralPrefix(highlighted, key, Span(tag, key), tag.open[..1], tag.open[1..] + key + tag.close,
        highlighted[..i], highlighted[i + |key|..]);
    }
  }

  /**
   * The occurrence a step wraps is never after the one the search found: the trimmed
   * match occurs in the searched text where the match starts, past its leading white
   * space, and the replace call takes the first occurrence.
   */
  lemma StepPosition(text: string, m: Match)
    requires m.index + m.len <= |text|
    ensures var word := text[m.index..m.index + m.len];
      |TrimStart(word)| <= |word| &&
      0 <= IndexOfString(text, Trim(word)) <= m.index + (|word| - |TrimStart(word)|)
  {
    var word := text[m.index..m.index + m.len];
    var key := Trim(word);
    TrimSpec(word);
    var a := |word| - |TrimStart(word)|;
    var at := m.index + a;
    assert a + |key| <= |word| && key == word[a..a + |key|];
    forall i | 0 <= i < |key|
      ensures text[at + i] == key[i]
    {
      assert key[i] == word[a + i] == text[m.index + a + i];
    }
    assert text[at..at + |key|] == key;
    assert OccursAt(text, key, at);
    IndexOfStringSpec(text, key);
  }

  /**
   * A single match: when the first search finds a non-empty match, the search after it
   * finds nothing, and neither the mark-up nor the trimmed match holds a `$`, the result
   * is the text with the first occurrence of the trimmed match wrapped in the mark-up.
   */
  lemma MarkSingle(text: string, exec: Exec, tag: Tag)
    requires exec(text).Some? && exec(text).value.len > 0
    requires var m := exec(text).value; exec(text[m.index + m.len..]).None?
    requires NoDollar(tag.open) && NoDollar(tag.close)
    requires NoDollar(Trim(text[exec(text).value.index..exec(text).value.index + exec(text).value.len]))
    ensures var m := exec(text).value;
      var key := Trim(text[m.index..m.index + m.len]);
      var p := IndexOfString(text, key);
      0 <= p && p + |key| <= |text|
      && Mark(text, exec, tag) == Some(text[..p] + Span(tag, key) + text[p + |key|..])
  {
    var m := exec(text).value;
    var word := text[m.index..m.index + m.len];
    var key := Trim(word);
    StepPosition(text, m);
    assert NoDollar(Span(tag, key));
    ReplaceFirstSpec(text, key, Span(tag, key));
    var step := MarkStep(text, word, tag);
    assert step == text[..IndexOfString(text, key)] + Span(tag, key) + text[IndexOfString(text, key) + |key|..];
    MarkRestStep(text, text, exec, tag);
    MarkRestStop(step, text[m.index + m.len..], exec, tag);
    assert MarkRest(text, text, exec, tag) == step;
  }

  /**
   * The expression of a keyword without special characters, such as `/foo/`: its `exec`
   * reports the leftmost occurrence of the keyword.
   */
  function LiteralSearch(pat: string): Exec
  {
    t => if IndexOfString(t, pat) >= 0 then Some(Match(IndexOfString(t, pat), |pat|)) else None
  }

  /** One iteration, for a search known to find `m` and a step known to leave `next`. */
  lemma MarkRestAt(highlighted: string, text: string, exec: Exec, tag: Tag, m: Match, next: string)
    requires exec(text) == Some(m) && m.len > 0
    requires m.index + m.len <= |text| && next == MarkStep(highlighted, text[m.index..m.index + m.len], tag)
    ensures MarkRest(highlighted, text, exec, tag) == MarkRest(next, text[m.index + m.len..], exec, tag)
  {
    assert MarkRest(highlighted, text, exec, tag)
      == MarkOn(highlighted, text[m.index..m.index + m.len], text[m.index + m.len..], exec, tag);
  }

  /**
   * Two iterations: the first search finds `m1`, the search after it `m2`, and the one
   * after that nothing; the result is what the two replace steps leave.
   */
  lemma MarkTwice(text: string, exec: Exec, tag: Tag, m1: Match, m2: Match, first: string, second: string)
    requires exec(text) == Some(m1) && m1.len > 0
    requires var rest := text[m1.index + m1.len..];
      exec(rest) == Some(m2) && m2.len > 0 && exec(rest[m2.index + m2.len..]).None?
    requires first == MarkStep(text, text[m1.index..m1.index + m1.len], tag)
    requires var rest := text[m1.index + m1.len..];
      second == MarkStep(first, rest[m2.index..m2.index + m2.len], tag)
    ensures Mark(text, exec, tag) == Some(second)
  {
    var rest := text[m1.index + m1.len..];
    assert m2.index + m2.len <= |rest| by { assert exec(rest).Some?; }
    var rest' := rest[m2.index + m2.len..];
    calc {
      Mark(text, exec, tag);
      { MarkStart(text, exec, tag); }
      Some(MarkRest(text, text, exec, tag));
      { MarkRestAt(text, text, exec, tag, m1, first); }
      Some(MarkRest(first, rest, exec, tag));
      { MarkRestAt(first, rest, exec, tag, m2, second); }
      Some(MarkRest(second, rest', exec, tag));
      { MarkRestStop(second, rest', exec, tag); }
      Some(second);
    }
  }

  /** A step on a match with no white space around it wraps the match itself. */
  lemma MarkStepTrimmed(highlighted: string, word: string, tag: Tag)
    requires Trim(word) == word
    ensures MarkStep(highlighted, word, tag) == ReplaceFirst(highlighted, word, Span(tag, word))
  {
  }

  /** The mark-up of the worked example below. */
  const Bold: Tag := Tag("<b>", "</b>")

  /** "foo" has no white space to trim and no `$`. */
  lemma FooWord(k: string)
    requires k == "foo"
    ensures Trim(k) == k && NoDollar(k) && |k| == 3 && k[0] == 'f'
  {
    assert k[0] == 'f' && k[2] == 'o';
    assert TrimStart(k) == k;
  }

  /** `/foo/` finds the first word of "foo foo", then the second, then nothing. */
  lemma FooSearches(k: string, text: string)
    requires k == "foo" && text == k + " " + k
    ensures LiteralSearch(k)(text) == Some(Match(0, 3)) && text[0..3] == k
    ensures var rest := text[3..];
      rest == " " + k && LiteralSearch(k)(rest) == Some(Match(1, 3)) && rest[1..4] == k
      && LiteralSearch(k)(rest[4..]) == None
  {
    FooWord(k);
    assert text[0..3] == k;
    assert IndexOfString(text, k) == 0;
    var rest := text[3..];
    assert rest == " " + k;
    assert !OccursAt(rest, k, 0) by { assert rest[0] == ' '; }
    assert rest[1..4] == k;
    assert IndexOfFrom(rest, k, 1) == 1;
    assert IndexOfString(rest, k) == 1;
    assert rest[4..] == [];
  }

  /** The first iteration wraps the first word. */
  lemma FooFirstStep(k: string, text: string, tag: Tag)
    requires k == "foo" && text == k + " " + k && tag == Bold
    ensures MarkStep(text, k, tag) == Span(tag, k) + " " + k
  {
    var w := Span(tag, k);
    FooWord(k);
    assert NoDollar(w) by { assert w == tag.open + k + tag.close; }
    assert OccursAt(text, k, 0);
    assert IndexOfString(text, k) == 0;
    ReplaceFirstSpec(text, k, w);
    assert text[..0] == [] && text[3..] == " " + k;
    MarkStepTrimmed(text, k, tag);
  }

  /** In the text marked once, the first "foo" is the one inside the span. */
  lemma FooInsideSpan(k: string, h: string, tag: Tag)
    requires k == "foo" && h == Span(tag, k) + " " + k && tag == Bold
    ensures IndexOfString(h, k) == 3 && |h| >= 6 && h[..3] == tag.open
  {
    FooWord(k);
    assert h[..3] == tag.open == "<b>" && h[3..] == k + tag.close + " " + k;
    assert h[3..6] == k;
    assert IndexOfFrom(h, k, 3) == 3;
    assert IndexOfFrom(h, k, 2) == 3 by { assert h[2] == '>'; assert h[2..5][0] == h[2]; }
    assert IndexOfFrom(h, k, 1) == 3 by { assert h[1] == 'b'; assert h[1..4][0] == h[1]; }
    assert h[0] == '<'; assert h[0..3][0] == h[0];
  }

  /**
   * The second iteration matched the second word, but the first occurrence of "foo" in the
   * text marked so far is the one already wrapped.
   */
  lemma FooSecondStep(k: string, h: string, tag: Tag)
    requires k == "foo" && h == Span(tag, k) + " " + k && tag == Bold
    ensures MarkStep(h, k, tag) == Span(tag, Span(tag, k)) + " " + k
  {
    var w := Span(tag, k);
    FooWord(k);
    assert NoDollar(w) by { assert w == tag.open + k + tag.close; }
    FooInsideSpan(k, h, tag);
    ReplaceFirstSpec(h, k, w);
    assert h[6..] == tag.close + " " + k;
    MarkStepTrimmed(h, k, tag);
  }

  /**
   * A keyword that occurs twice is wrapped twice at its first occurrence, and the second
   * occurrence is left bare: each iteration replaces the first occurrence of the trimmed
   * match in the text marked so far, not the match the search found. With `k` the word
   * "foo" and the mark-up `<b>`…`</b>`, "foo foo" becomes "<b><b>foo</b></b> foo".
   */
  lemma RepeatedKeywordWrapsFirstTwice(k: string, tag: Tag)
    requires k == "foo" && tag == Bold
    ensures Mark(k + " " + k, LiteralSearch(k), tag) == Some(Span(tag, Span(tag, k)) + " " + k)
  {
    var text := k + " " + k;
    var e := LiteralSearch(k);
    var first := Span(tag, k) + " " + k;
    var second := Span(tag, Span(tag, k)) + " " + k;
    FooSearches(k, text);
    var rest := text[3..];
    assert e(text) == Some(Match(0, 3));
    assert e(rest) == Some(Match(1, 3));
    assert e(rest[4..]).None?;
    FooFirstStep(k, text, tag);
    assert first == MarkStep(text, text[0..3], tag);
    FooSecondStep(k, first, tag);
    assert second == MarkStep(first, rest[1..4], tag);
    MarkTwice(text, e, tag, Match(0, 3), Match(1, 3), first, second);
  }
}
