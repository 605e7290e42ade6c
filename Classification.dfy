/**
 * processThread's decision (modules/FilterThreads.js): which flags a thread row gets,
 * which mark-up its title and creator get, whether it is moved to the top and whether
 * the hidden-threads header is tinted; and how the three keyword rules are built from
 * the preferences. The decision is a function of the thread, the stored lists and the
 * rules; the effects on the page are applied by FilterThreads.FilterState.
 */
module Classification {
  import opened Base
  import opened Patterns
  import opened Matcher

  /** The three pages the module runs on. */
  datatype Page = ForumDisplay | Search | ShowThread

  /** The mark-up the matches of the hiding and of the highlighting rules are wrapped in. */
  datatype Markup = Markup(hidden: Tag, highlight: Tag)

  /** The class names processThread passes to matchKeywords, as their span mark-up. */
  const SpanMarkup: Markup := Markup(SpanTag("hiddenKeyword"), SpanTag("highlightKeyword"))

  /** The compiled rules; None where the preference is empty or did not compile. */
  datatype Rules = Rules(hiddenUsers: Option<Exec>, hiddenKeywords: Option<Exec>, highlightKeywords: Option<Exec>)

  /** What processThread sets on one thread. */
  datatype Verdict = Verdict(
    isFavorite: bool,
    isHidden: bool,
    isHiddenByUser: bool,
    isHiddenByKeywords: bool,
    isHighlighted: bool,
    title: string,          // hilo.title after the call
    titleHtml: string,      // the title link's HTML after the call
    creatorHtml: string,    // the creator span's HTML after the call
    moveFavorite: bool,     // the row goes to the favorites-on-top slot
    moveHighlighted: bool,  // the row goes to the highlighted-on-top slot
    tintHeader: bool)       // the hidden-threads header gets the warning colour

  /** `rule` is present and marks something in `text`. */
  predicate Marks(rule: Option<Exec>, text: string, tag: Tag)
  {
    rule.Some? && Mark(text, rule.value, tag).Some?
  }

  /** The highlight check, run on whatever the title is after the hide/favorite chain. */
  function Highlight(v: Verdict, rules: Rules, tag: Tag, highlightedOnTop: bool): Verdict
  {
    if Marks(rules.highlightKeywords, v.title, tag) then
      v.(isHighlighted := true,
         titleHtml := Mark(v.title, rules.highlightKeywords.value, tag).value,
         moveHighlighted := !v.isHidden && !v.isFavorite && highlightedOnTop,
         tintHeader := v.isHiddenByKeywords)
    else v
  }

  /** processThread for one thread. */
  function Classify(page: Page, id: int, title: string, creator: string,
                    favorites: seq<int>, hiddenThreads: seq<int>, rules: Rules, markup: Markup,
                    favoritesOnTop: bool, highlightedOnTop: bool): Verdict
  {
    if page == Search then
      Plain(title, creator).(isFavorite := id in favorites)
    else
      Highlight(Chain(id, title, creator, favorites, hiddenThreads, rules, markup.hidden, favoritesOnTop),
                rules, markup.highlight, highlightedOnTop)
  }


  /**
   * What processThread decides: on a search page only the favorite flag; elsewhere the
   * else-if chain sets exactly one of its outcomes, and the highlight check then runs on
   * the title the chain left.
   */
  lemma ClassifySpec(page: Page, id: int, title: string, creator: string,
                     favorites: seq<int>, hiddenThreads: seq<int>, rules: Rules, markup: Markup,
                     favoritesOnTop: bool, highlightedOnTop: bool, v: Verdict)
    requires v == Classify(page, id, title, creator, favorites, hiddenThreads, rules, markup, favoritesOnTop, highlightedOnTop)
    // Search pages decide nothing but the favorite flag.
    ensures page == Search ==>
      v == Verdict(id in favorites, false, false, false, false, title, title, creator, false, false, false)
    // The else-if chain: manual hide, then favourite, then user list, then keywords.
    ensures page != Search ==>
      (v.isHidden <==>
         (id in hiddenThreads
          || (id !in favorites
              && (Marks(rules.hiddenUsers, creator, markup.hidden) || Marks(rules.hiddenKeywords, title, markup.hidden)))))
    ensures page != Search ==> (v.isFavorite <==> id !in hiddenThreads && id in favorites)
    ensures page != Search ==>
      (v.isHiddenByUser <==> id !in hiddenThreads && id !in favorites && Marks(rules.hiddenUsers, creator, markup.hidden))
    ensures page != Search ==>
      (v.isHiddenByKeywords <==>
         id !in hiddenThreads && id !in favorites && !Marks(rules.hiddenUsers, creator, markup.hidden)
         && Marks(rules.hiddenKeywords, title, markup.hidden))
    // At most one branch of the chain fires.
    ensures !(v.isHidden && v.isFavorite)
    ensures !(v.isHiddenByUser && v.isHiddenByKeywords)
    ensures v.isHiddenByUser || v.isHiddenByKeywords ==> v.isHidden
    // Only a keyword-hidden thread has its title replaced, by the marked-up title.
    ensures v.isHiddenByKeywords ==> v.title == Mark(title, rules.hiddenKeywords.value, markup.hidden).value
    ensures !v.isHiddenByKeywords ==> v.title == title
    ensures v.isHiddenByUser ==> v.creatorHtml == Mark(creator, rules.hiddenUsers.value, markup.hidden).value
    ensures !v.isHiddenByUser ==> v.creatorHtml == creator
    // The highlight check tests the title as the chain left it.
    ensures page != Search ==> (v.isHighlighted <==> Marks(rules.highlightKeywords, v.title, markup.highlight))
    ensures v.isHighlighted ==> v.titleHtml == Mark(v.title, rules.highlightKeywords.value, markup.highlight).value
    ensures !v.isHighlighted ==> v.titleHtml == v.title
    // Moves and the warning colour.
    ensures v.moveFavorite <==> v.isFavorite && favoritesOnTop && page != Search
    ensures v.moveHighlighted <==> v.isHighlighted && !v.isHidden && !v.isFavorite && highlightedOnTop
    ensures v.tintHeader <==> v.isHighlighted && v.isHiddenByKeywords
  {
    if page != Search {
      if id in hiddenThreads {
      } else if id in favorites {
      } else if Marks(rules.hiddenUsers, creator, markup.hidden) {
      } else if Marks(rules.hiddenKeywords, title, markup.hidden) {
      } else {
      }
    }
  }

  /** A thread as processThread finds it: no flag set, title and creator shown as they are. */
  function Plain(title: string, creator: string): Verdict
  {
    Verdict(false, false, false, false, false, title, title, creator, false, false, false)
  }

  /** The else-if chain of processThread on a forum page, before the highlight check. */
  function Chain(id: int, title: string, creator: string, favorites: seq<int>, hiddenThreads: seq<int>,
                 rules: Rules, tag: Tag, favoritesOnTop: bool): Verdict
  {
    if id in hiddenThreads then Plain(title, creator).(isHidden := true)
    else if id in favorites then Plain(title, creator).(isFavorite := true, moveFavorite := favoritesOnTop)
    else ByRules(title, creator, rules, tag)
  }

  /** The chain never highlights, and moves only a favorite it does not hide. */
  lemma ChainShape(id: int, title: string, creator: string, favorites: seq<int>, hiddenThreads: seq<int>,
                   rules: Rules, tag: Tag, favoritesOnTop: bool)
    ensures var c := Chain(id, title, creator, favorites, hiddenThreads, rules, tag, favoritesOnTop);
      !c.isHighlighted && !c.moveHighlighted && !c.tintHeader
      && (c.isFavorite ==> !c.isHidden) && (c.moveFavorite ==> c.isFavorite)
  {
  }

  /** The two rule branches of the chain: the hidden-users list, then the hidden keywords. */
  function ByRules(title: string, creator: string, rules: Rules, tag: Tag): Verdict
  {
    if Marks(rules.hiddenUsers, creator, tag) then
      Plain(title, creator).(isHidden := true, isHiddenByUser := true,
                             creatorHtml := Mark(creator, rules.hiddenUsers.value, tag).value)
    else ByKeywords(title, creator, rules, tag)
  }

  /** The last branch of the chain: the hidden keywords, which also mark up the title. */
  function ByKeywords(title: string, creator: string, rules: Rules, tag: Tag): Verdict
  {
    if Marks(rules.hiddenKeywords, title, tag) then
      var marked := Mark(title, rules.hiddenKeywords.value, tag).value;
      Plain(title, creator).(isHidden := true, isHiddenByKeywords := true, title := marked, titleHtml := marked)
    else Plain(title, creator)
  }

  /**
   * The highlight decision does not depend on the stored lists: two threads with the same
   * title, neither of them hidden by keywords, are highlighted alike whatever their
   * favorite and hidden status.
   */
  lemma HighlightIgnoresStatus(page: Page, id: int, title: string, creator: string,
                               favorites: seq<int>, hiddenThreads: seq<int>,
                               id': int, creator': string, favorites': seq<int>, hiddenThreads': seq<int>,
                               rules: Rules, markup: Markup, favoritesOnTop: bool, highlightedOnTop: bool)
    requires page != Search
    requires !Classify(page, id, title, creator, favorites, hiddenThreads, rules, markup, favoritesOnTop, highlightedOnTop).isHiddenByKeywords
    requires !Classify(page, id', title, creator', favorites', hiddenThreads', rules, markup, favoritesOnTop, highlightedOnTop).isHiddenByKeywords
    ensures Classify(page, id, title, creator, favorites, hiddenThreads, rules, markup, favoritesOnTop, highlightedOnTop).isHighlighted
         == Classify(page, id', title, creator', favorites', hiddenThreads', rules, markup, favoritesOnTop, highlightedOnTop).isHighlighted
  {
    ClassifySpec(page, id, title, creator, favorites, hiddenThreads, rules, markup, favoritesOnTop, highlightedOnTop,
                 Classify(page, id, title, creator, favorites, hiddenThreads, rules, markup, favoritesOnTop, highlightedOnTop));
    ClassifySpec(page, id', title, creator', favorites', hiddenThreads', rules, markup, favoritesOnTop, highlightedOnTop,
                 Classify(page, id', title, creator', favorites', hiddenThreads', rules, markup, favoritesOnTop, highlightedOnTop));
  }

  // ---------------------------------------------------------------------------------
  // Building the rules

  /** The user's filtering preferences as stored; None where a text preference is unset. */
  datatype Preferences = Preferences(
    hiddenUsers: Option<string>,
    hiddenKeywords: Option<string>,
    hiddenKeywordsRegex: bool,
    highlightKeywords: Option<string>,
    highlightKeywordsRegex: bool)

  /** The three alerts shown when a rule does not compile. */
  datatype Alert = HiddenKeywordsAlert | HiddenUsersAlert | HighlightKeywordsAlert

  /**
   * One rule: a missing or empty preference gives no rule and no alert; otherwise the
   * expression getRegex builds is compiled, and a compile failure (the RegExp constructor
   * throwing) gives no rule and an alert.
   */
  function CompileRule(input: Option<string>, isRegex: bool, compile: RegexSpec -> Option<Exec>): (Option<Exec>, bool)
  {
    if input.None? || input.value == [] then (None, false)
    else
      var compiled := compile(GetRegex(input.value, isRegex));
      (compiled, compiled.None?)
  }

  /**
   * The rule set built on list pages, with the alerts in the order they are raised:
   * hidden keywords (with their own regex switch), hidden users (always literal), then
   * highlight keywords (with their own regex switch).
   */
  function BuildRules(prefs: Preferences, compile: RegexSpec -> Option<Exec>): (r: (Rules, seq<Alert>))
    ensures prefs.hiddenKeywords.None? || prefs.hiddenKeywords.value == [] ==>
      r.0.hiddenKeywords.None? && HiddenKeywordsAlert !in r.1
    ensures prefs.hiddenKeywords.Some? && prefs.hiddenKeywords.value != [] ==>
      && r.0.hiddenKeywords == compile(GetRegex(prefs.hiddenKeywords.value, prefs.hiddenKeywordsRegex))
      && (HiddenKeywordsAlert in r.1 <==> r.0.hiddenKeywords.None?)
    ensures prefs.hiddenUsers.None? || prefs.hiddenUsers.value == [] ==>
      r.0.hiddenUsers.None? && HiddenUsersAlert !in r.1
    ensures prefs.hiddenUsers.Some? && prefs.hiddenUsers.value != [] ==>
      && r.0.hiddenUsers == compile(GetRegex(prefs.hiddenUsers.value, false))
      && (HiddenUsersAlert in r.1 <==> r.0.hiddenUsers.None?)
    ensures prefs.highlightKeywords.None? || prefs.highlightKeywords.value == [] ==>
      r.0.highlightKeywords.None? && HighlightKeywordsAlert !in r.1
    ensures prefs.highlightKeywords.Some? && prefs.highlightKeywords.value != [] ==>
      && r.0.highlightKeywords == compile(GetRegex(prefs.highlightKeywords.value, prefs.highlightKeywordsRegex))
      && (HighlightKeywordsAlert in r.1 <==> r.0.highlightKeywords.None?)
    ensures NoDup(r.1)
  {
    var (keywords, keywordsFailed) := CompileRule(prefs.hiddenKeywords, prefs.hiddenKeywordsRegex, compile);
    var (users, usersFailed) := CompileRule(prefs.hiddenUsers, false, compile);
    var (highlight, highlightFailed) := CompileRule(prefs.highlightKeywords, prefs.highlightKeywordsRegex, compile);
    (Rules(users, keywords, highlight), Alerts(keywordsFailed, usersFailed, highlightFailed))
  }

  /** The alerts raised, in order, each at most once. */
  function Alerts(keywordsFailed: bool, usersFailed: bool, highlightFailed: bool): (r: seq<Alert>)
    ensures HiddenKeywordsAlert in r <==> keywordsFailed
    ensures HiddenUsersAlert in r <==> usersFailed
    ensures HighlightKeywordsAlert in r <==> highlightFailed
    ensures NoDup(r)
  {
    var first := if keywordsFailed then [HiddenKeywordsAlert] else [];
    var second := first + (if usersFailed then [HiddenUsersAlert] else []);
    assert NoDup(second);
    second + (if highlightFailed then [HighlightKeywordsAlert] else [])
  }
}
