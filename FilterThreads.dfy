/**
 * The per-page state of the FilterThreads module (modules/FilterThreads.js): the stored
 * favorite and hidden-thread arrays, the rows of the thread list and of the hidden-threads
 * list, the hidden-thread counter and the block that shows it, and the operations the
 * thread menu, the show-thread star and the page load run on them. Rows are thread ids;
 * the key-value store keeps the arrays themselves where the source keeps their JSON text.
 */
module FilterThreads {
  import opened Base
  import opened Js
  import opened Patterns
  import opened Matcher
  import opened Classification
  import opened Placement

  /** The store keys the two arrays are saved under. */
  const FavoritesKey: string := "FAVORITES"
  const HiddenThreadsKey: string := "HIDDEN_THREADS"

  /** `JSON.parse(getValue(key, '[]'))`: the stored array, or the empty one. */
  function Stored(store: map<string, seq<int>>, key: string): seq<int>
  {
    if key in store then store[key] else []
  }

  /**
   * Saving and reading back: reading an array right after it was saved gives it back,
   * saving under one key does not change what the other key reads, and a key nothing was
   * saved under reads as the empty array.
   */
  lemma StoredAfterSave(store: map<string, seq<int>>, key: string, saved: seq<int>, other: string)
    ensures Stored(store[key := saved], key) == saved
    ensures other != key ==> Stored(store[key := saved], other) == Stored(store, other)
    ensures Stored(map[], key) == []
  {
  }

  /** The hidden list's `append(row)`: the row leaves its place and goes last in the hidden list. */
  function HideRow(l: Layout, row: int): Layout
  {
    Layout(RemoveFirst(l.hidden, row) + [row], RemoveFirst(l.main, row))
  }

  /** The thread list's `append(row)`: the row leaves its place and goes last in the thread list. */
  function ShowRow(l: Layout, row: int): Layout
  {
    Layout(RemoveFirst(l.hidden, row), RemoveFirst(l.main, row) + [row])
  }

  /** One thread row as processThread and the menu see it (the `hilo` object). */
  class Thread {
    const id: int
    const creator: string
    var title: string        // hilo.title: the link's HTML when read, then possibly marked up
    var titleHtml: string    // what the title link shows
    var creatorHtml: string  // what the creator span shows
    var isFavorite: bool
    var isHidden: bool
    var isHiddenByUser: bool
    var isHiddenByKeywords: bool
    var isHighlighted: bool

    /** The thread's flags, title and mark-up are those a verdict gives. */
    predicate Shows(v: Verdict)
      reads this
    {
      && isFavorite == v.isFavorite && isHidden == v.isHidden
      && isHiddenByUser == v.isHiddenByUser && isHiddenByKeywords == v.isHiddenByKeywords
      && isHighlighted == v.isHighlighted
      && title == v.title && titleHtml == v.titleHtml && creatorHtml == v.creatorHtml
    }

    /** A thread as read from its row, before processThread. */
    predicate Unprocessed()
      reads this
    {
      Shows(Plain(title, creator))
    }

    constructor (id: int, title: string, creator: string)
      ensures this.id == id && this.title == title && this.creator == creator
      ensures Unprocessed()
    {
      this.id := id;
      this.title := title;
      this.creator := creator;
      titleHtml := title;
      creatorHtml := creator;
      isFavorite := false;
      isHidden := false;
      isHiddenByUser := false;
      isHiddenByKeywords := false;
      isHighlighted := false;
    }
  }

  /** The two star buttons of the show-thread page and the flag their click handler shares. */
  class Star {
    const threadId: int
    var isFavorite: bool  // is_favorite, and whether the stars have the `fav` class

    constructor (threadId: int, isFavorite: bool)
      ensures this.threadId == threadId && this.isFavorite == isFavorite
    {
      this.threadId := threadId;
      this.isFavorite := isFavorite;
    }
  }

  class FilterState {
    const page: Page
    const favoritesOnTop: bool
    const highlightedOnTop: bool
    const separator: Option<int>  // the row between pinned and normal threads, if any
    const rules: Rules
    const markup: Markup            // the span mark-up matches are wrapped in
    const alerts: seq<Alert>

    var favorites: seq<int>
    var hiddenThreads: seq<int>
    var hiddenCount: int
    var rows: Layout
    var favoriteRows: set<int>     // rows with the `favorite` class
    var highlightedRows: set<int>  // rows with the `highlighted` class
    var blockVisible: bool         // the hidden-threads block is shown
    var headerTinted: bool         // its header has the warning colour
    var store: map<string, seq<int>>

    /**
     * The bookkeeping the counter is meant to keep: it counts the rows of the hidden list,
     * the block is shown exactly when that count is positive, and no row is on the page twice.
     */
    ghost predicate Valid()
      reads this`rows, this`hiddenCount, this`blockVisible
    {
      && hiddenCount == |rows.hidden|
      && blockVisible == (hiddenCount > 0)
      && NoDup(DocumentOrder(rows))
    }

    /**
     * load: the stored favorites, and on list pages the stored hidden threads and the
     * rules built from the preferences; no row is hidden or classed yet.
     */
    constructor Load(page: Page, store: map<string, seq<int>>, prefs: Preferences,
                     compile: RegexSpec -> Option<Exec>, favoritesOnTop: bool, highlightedOnTop: bool,
                     threadRows: seq<int>, separator: Option<int>)
      ensures this.page == page && this.store == store
      ensures this.favoritesOnTop == favoritesOnTop && this.highlightedOnTop == highlightedOnTop
      ensures this.separator == separator
      ensures favorites == Stored(store, FavoritesKey)
      ensures page != ShowThread ==> hiddenThreads == Stored(store, HiddenThreadsKey)
      ensures page != ShowThread ==> (rules, alerts) == BuildRules(prefs, compile)
      ensures markup == SpanMarkup
      ensures page == ShowThread ==> hiddenThreads == [] && rules == Rules(None, None, None) && alerts == []
      ensures hiddenCount == 0 && rows == Layout([], threadRows)
      ensures favoriteRows == {} && highlightedRows == {}
      ensures !blockVisible && !headerTinted
      ensures NoDup(threadRows) ==> Valid()
    {
      this.page := page;
      this.store := store;
      this.favoritesOnTop := favoritesOnTop;
      this.highlightedOnTop := highlightedOnTop;
      this.separator := separator;
      markup := SpanMarkup;
      favorites := Stored(store, FavoritesKey);
      if page != ShowThread {
        hiddenThreads := Stored(store, HiddenThreadsKey);
        var built := BuildRules(prefs, compile);
        rules := built.0;
        alerts := built.1;
      } else {
        hiddenThreads := [];
        rules := Rules(None, None, None);
        alerts := [];
      }
      hiddenCount := 0;
      rows := Layout([], threadRows);
      assert DocumentOrder(Layout([], threadRows)) == threadRows;
      favoriteRows := {};
      highlightedRows := {};
      blockVisible := false;
      headerTinted := false;
    }

    /** saveFavorites. */
    method SaveFavorites()
      modifies this`store
      ensures store == old(store)[FavoritesKey := favorites]
    {
      store := store[FavoritesKey := favorites];
    }

    /** saveHiddenThreads. */
    method SaveHiddenThreads()
      modifies this`store
      ensures store == old(store)[HiddenThreadsKey := hiddenThreads]
    {
      store := store[HiddenThreadsKey := hiddenThreads];
    }

    /** markAsFavorite: the id is pushed, the row gets the class, the array is saved. */
    method MarkAsFavorite(t: Thread)
      modifies this`favorites, this`favoriteRows, this`store, t`isFavorite
      ensures favorites == old(favorites) + [t.id]
      ensures favoriteRows == old(favoriteRows) + {t.id}
      ensures t.isFavorite
      ensures store == old(store)[FavoritesKey := favorites]
    {
      favorites := favorites + [t.id];
      favoriteRows := favoriteRows + {t.id};
      t.isFavorite := true;
      SaveFavorites();
    }

    /** unmarkAsFavorite: one occurrence of the id is removed, the row loses the class, the array is saved. */
    method UnmarkAsFavorite(t: Thread)
      modifies this`favorites, this`favoriteRows, this`store, t`isFavorite
      ensures favorites == RemoveFirst(old(favorites), t.id)
      ensures favoriteRows == old(favoriteRows) - {t.id}
      ensures !t.isFavorite
      ensures store == old(store)[FavoritesKey := favorites]
    {
      favorites := RemoveFirst(favorites, t.id);
      favoriteRows := favoriteRows - {t.id};
      t.isFavorite := false;
      SaveFavorites();
    }

    /** toggleFavorite: the thread's flag decides which of the two runs. */
    method ToggleFavorite(t: Thread)
      modifies this`favorites, this`favoriteRows, this`store, t`isFavorite
      ensures t.isFavorite == !old(t.isFavorite)
      ensures favorites == if old(t.isFavorite) then RemoveFirst(old(favorites), t.id) else old(favorites) + [t.id]
      ensures favoriteRows == if old(t.isFavorite) then old(favoriteRows) - {t.id} else old(favoriteRows) + {t.id}
      ensures store == old(store)[FavoritesKey := favorites]
    {
      if !t.isFavorite {
        MarkAsFavorite(t);
      } else {
        UnmarkAsFavorite(t);
      }
    }

    /**
     * addToHiddenThreads: the row goes last in the hidden list and the counter goes up;
     * the block is shown when the count reaches one.
     */
    method AddToHiddenThreads(t: Thread)
      modifies this`rows, this`hiddenCount, this`blockVisible
      ensures rows == HideRow(old(rows), t.id)
      ensures hiddenCount == old(hiddenCount) + 1
      ensures blockVisible == (old(blockVisible) || hiddenCount == 1)
      ensures old(Valid()) && t.id !in old(rows.hidden) ==> Valid()
    {
      ghost var before := rows;
      rows := HideRow(rows, t.id);
      hiddenCount := hiddenCount + 1;
      if hiddenCount == 1 {
        blockVisible := true;
      }
      if old(Valid()) && t.id !in before.hidden {
        HideRowValid(before, t.id);
      }
    }

    /**
     * removeFromHiddenThreads: the row goes last in the thread list and the counter goes
     * down; at zero the block is hidden.
     */
    method RemoveFromHiddenThreads(t: Thread)
      modifies this`rows, this`hiddenCount, this`blockVisible
      ensures rows == ShowRow(old(rows), t.id)
      ensures hiddenCount == old(hiddenCount) - 1
      ensures blockVisible == (old(blockVisible) && hiddenCount != 0)
      ensures old(Valid()) && t.id in old(rows.hidden) ==> Valid()
    {
      ghost var before := rows;
      rows := ShowRow(rows, t.id);
      hiddenCount := hiddenCount - 1;
      if hiddenCount == 0 {
        blockVisible := false;
      }
      if old(Valid()) && t.id in before.hidden {
        ShowRowValid(before, t.id);
      }
    }

    /**
     * markAsHiddenThread: the id is pushed onto the hidden threads; a favorite stops being
     * one; the row moves to the hidden list; the hidden threads are saved.
     */
    method MarkAsHiddenThread(t: Thread)
      modifies this`hiddenThreads, this`favorites, this`favoriteRows, this`store,
               this`rows, this`hiddenCount, this`blockVisible, t`isFavorite, t`isHidden
      ensures t.isHidden && !t.isFavorite
      ensures hiddenThreads == old(hiddenThreads) + [t.id]
      ensures old(t.isFavorite) || t.id in old(favorites) ==>
        && favorites == RemoveFirst(old(favorites), t.id) && favoriteRows == old(favoriteRows) - {t.id}
        && store == old(store)[FavoritesKey := favorites][HiddenThreadsKey := hiddenThreads]
      ensures !(old(t.isFavorite) || t.id in old(favorites)) ==>
        && favorites == old(favorites) && favoriteRows == old(favoriteRows)
        && store == old(store)[HiddenThreadsKey := hiddenThreads]
      ensures rows == HideRow(old(rows), t.id) && hiddenCount == old(hiddenCount) + 1
      ensures blockVisible == (old(blockVisible) || hiddenCount == 1)
      ensures old(Valid()) && t.id !in old(rows.hidden) ==> Valid()
    {
      t.isHidden := true;
      hiddenThreads := hiddenThreads + [t.id];
      if t.isFavorite || t.id in favorites {
        UnmarkAsFavorite(t);
      }
      AddToHiddenThreads(t);
      SaveHiddenThreads();
    }

    /**
     * unmarkAsHiddenThread: one occurrence of the id leaves the hidden threads; the row
     * goes back, last in the thread list; the hidden threads are saved. Favorite status
     * is not given back.
     */
    method UnmarkAsHiddenThread(t: Thread)
      modifies this`hiddenThreads, this`store, this`rows, this`hiddenCount, this`blockVisible, t`isHidden
      ensures !t.isHidden
      ensures hiddenThreads == RemoveFirst(old(hiddenThreads), t.id)
      ensures store == old(store)[HiddenThreadsKey := hiddenThreads]
      ensures rows == ShowRow(old(rows), t.id) && hiddenCount == old(hiddenCount) - 1
      ensures blockVisible == (old(blockVisible) && hiddenCount != 0)
      ensures old(Valid()) && t.id in old(rows.hidden) ==> Valid()
    {
      hiddenThreads := RemoveFirst(hiddenThreads, t.id);
      t.isHidden := false;
      RemoveFromHiddenThreads(t);
      SaveHiddenThreads();
    }

    /** toggleHidden, once its fade-out has completed. */
    method ToggleHidden(t: Thread)
      modifies this`hiddenThreads, this`favorites, this`favoriteRows, this`store,
               this`rows, this`hiddenCount, this`blockVisible, t`isFavorite, t`isHidden
      ensures t.isHidden == !old(t.isHidden)
      ensures old(t.isHidden) ==>
        && hiddenThreads == RemoveFirst(old(hiddenThreads), t.id)
        && rows == ShowRow(old(rows), t.id) && hiddenCount == old(hiddenCount) - 1
        && blockVisible == (old(blockVisible) && hiddenCount != 0)
        && favorites == old(favorites) && favoriteRows == old(favoriteRows) && t.isFavorite == old(t.isFavorite)
        && store == old(store)[HiddenThreadsKey := hiddenThreads]
      ensures !old(t.isHidden) ==>
        && hiddenThreads == old(hiddenThreads) + [t.id]
        && rows == HideRow(old(rows), t.id) && hiddenCount == old(hiddenCount) + 1
        && blockVisible == (old(blockVisible) || hiddenCount == 1)
        && !t.isFavorite
      ensures !old(t.isHidden) && (old(t.isFavorite) || t.id in old(favorites)) ==>
        && favorites == RemoveFirst(old(favorites), t.id) && favoriteRows == old(favoriteRows) - {t.id}
        && store == old(store)[FavoritesKey := favorites][HiddenThreadsKey := hiddenThreads]
      ensures !old(t.isHidden) && !(old(t.isFavorite) || t.id in old(favorites)) ==>
        && favorites == old(favorites) && favoriteRows == old(favoriteRows)
        && store == old(store)[HiddenThreadsKey := hiddenThreads]
      ensures old(Valid()) && (t.id in old(rows.hidden) <==> old(t.isHidden)) ==> Valid()
    {
      if !t.isHidden {
        MarkAsHiddenThread(t);
      } else {
        UnmarkAsHiddenThread(t);
      }
    }

    /**
     * Hiding a thread from the menu and then showing it again: it ends visible and not a
     * favorite, a favorite loses its place in the favorites for good, a thread that was not
     * in the hidden threads leaves them as they were, and the row ends last in the thread list.
     */
    method HideThenUnhide(t: Thread)
      requires !t.isHidden
      modifies this`hiddenThreads, this`favorites, this`favoriteRows, this`store,
               this`rows, this`hiddenCount, this`blockVisible, t`isFavorite, t`isHidden
      ensures !t.isHidden && !t.isFavorite
      ensures t.id !in old(hiddenThreads) ==> hiddenThreads == old(hiddenThreads)
      ensures old(t.isFavorite) || t.id in old(favorites) ==>
        && favorites == RemoveFirst(old(favorites), t.id) && favoriteRows == old(favoriteRows) - {t.id}
        && Stored(store, FavoritesKey) == favorites
      ensures !(old(t.isFavorite) || t.id in old(favorites)) ==>
        && favorites == old(favorites) && favoriteRows == old(favoriteRows)
        && Stored(store, FavoritesKey) == Stored(old(store), FavoritesKey)
      ensures NoDup(old(favorites)) ==> t.id !in favorites
      ensures Stored(store, HiddenThreadsKey) == hiddenThreads
      ensures rows == ShowRow(HideRow(old(rows), t.id), t.id) && hiddenCount == old(hiddenCount)
      ensures old(Valid()) && t.id !in old(rows.hidden) ==> Valid()
    {
      ghost var favorites0, hiddenThreads0, rows0, store0 := favorites, hiddenThreads, rows, store;
      ghost var wasFavorite := t.isFavorite || t.id in favorites;
      assert FavoritesKey != HiddenThreadsKey by {
        assert FavoritesKey[0] != HiddenThreadsKey[0];
      }
      ToggleHidden(t);
      assert t.isHidden && hiddenThreads == hiddenThreads0 + [t.id] && rows == HideRow(rows0, t.id);
      assert wasFavorite ==> favorites == RemoveFirst(favorites0, t.id);
      assert !wasFavorite ==> favorites == favorites0;
      ghost var favorites1, hiddenThreads1, store1 := favorites, hiddenThreads, store;
      if wasFavorite {
        StoredAfterSave(store0, FavoritesKey, favorites1, HiddenThreadsKey);
        StoredAfterSave(store0[FavoritesKey := favorites1], HiddenThreadsKey, hiddenThreads1, FavoritesKey);
      } else {
        StoredAfterSave(store0, HiddenThreadsKey, hiddenThreads1, FavoritesKey);
      }
      ToggleHidden(t);
      assert favorites == favorites1 && hiddenThreads == RemoveFirst(hiddenThreads1, t.id);
      assert store == store1[HiddenThreadsKey := hiddenThreads];
      StoredAfterSave(store1, HiddenThreadsKey, hiddenThreads, FavoritesKey);
      if NoDup(favorites0) {
        RemoveFirstNoDup(favorites0, t.id);
      }
      if t.id !in hiddenThreads0 {
        RemoveFirstAfterPush(hiddenThreads0, t.id);
      }
      if !wasFavorite {
        RemoveFirstSpec(favorites0, t.id);
      }
    }

    /** The star on the show-thread page, as favoriteThreadsShowthread sets it up. */
    method ShowStar(threadId: int) returns (star: Star)
      ensures fresh(star) && star.threadId == threadId
      ensures star.isFavorite <==> threadId in favorites
    {
      star := new Star(threadId, IndexOf(favorites, threadId) >= 0);
    }

    /** A click on either star: the same flip as toggleFavorite, over the thread's id. */
    method ClickStar(star: Star)
      modifies this`favorites, this`store, star`isFavorite
      ensures star.isFavorite == !old(star.isFavorite)
      ensures favorites == if old(star.isFavorite) then RemoveFirst(old(favorites), star.threadId)
                           else old(favorites) + [star.threadId]
      ensures store == old(store)[FavoritesKey := favorites]
    {
      if star.isFavorite {
        star.isFavorite := false;
        favorites := RemoveFirst(favorites, star.threadId);
      } else {
        star.isFavorite := true;
        favorites := favorites + [star.threadId];
      }
      SaveFavorites();
    }

    /**
     * processThread on a forum or search page: the thread gets exactly the flags, title and creator
     * mark-up Classify decides; its row is hidden, moved to the favorites slot or moved to
     * the highlighted slot as the verdict says, and gets the matching markup.
     */
    method ProcessThread(t: Thread)
      requires page != ShowThread && t.Unprocessed()
      modifies this`rows, this`favoriteRows, this`highlightedRows, this`hiddenCount,
               this`blockVisible, this`headerTinted, t
      ensures var v := Classify(page, t.id, old(t.title), t.creator, favorites, hiddenThreads, rules, markup,
                                favoritesOnTop, highlightedOnTop);
        && t.Shows(v)
        && favoriteRows == old(favoriteRows) + (if v.isFavorite then {t.id} else {})
        && highlightedRows == old(highlightedRows) + (if v.isHighlighted then {t.id} else {})
        && hiddenCount == old(hiddenCount) + (if v.isHidden then 1 else 0)
        && blockVisible == (old(blockVisible) || (v.isHidden && hiddenCount == 1))
        && headerTinted == (old(headerTinted) || v.tintHeader)
        && rows == (if v.isHidden then HideRow(old(rows), t.id)
                    else if v.moveFavorite then PlaceFavorite(old(rows), t.id, old(favoriteRows), old(highlightedRows), separator)
                    else if v.moveHighlighted then PlaceHighlighted(old(rows), t.id, old(favoriteRows), old(highlightedRows), separator)
                    else old(rows))
      ensures old(Valid()) && Placeable(old(rows), t.id, old(favoriteRows), old(highlightedRows), separator) ==> Valid()
    {
      ghost var rows0, favoriteRows0, highlightedRows0 := rows, favoriteRows, highlightedRows;
      ghost var settled := Valid() && Placeable(rows, t.id, favoriteRows, highlightedRows, separator);
      if page == Search {
        ProcessSearch(t);
      } else {
        ProcessListed(t);
      }
      if settled {
        assert t.id !in rows0.hidden by {
          NoDupAppend(rows0.hidden, rows0.main);
        }
        HideRowValid(rows0, t.id);
        PlaceFavoriteKeepsPage(rows0, t.id, favoriteRows0, highlightedRows0, separator);
        PlaceHighlightedKeepsPage(rows0, t.id, favoriteRows0, highlightedRows0, separator);
      }
    }

    /**
     * The loop of favoriteThreadsForumdisplay over the rows of the thread list: every
     * thread, read from its row, is processed in turn. The rules and the two arrays do not
     * change on the way, so each thread gets the verdict its own id, title and creator give.
     */
    method ProcessRows(threads: seq<Thread>)
      requires page != ShowThread
      requires forall i, j :: 0 <= i < j < |threads| ==> threads[i] != threads[j]
      requires forall i :: 0 <= i < |threads| ==> threads[i].Unprocessed()
      modifies this`rows, this`favoriteRows, this`highlightedRows, this`hiddenCount,
               this`blockVisible, this`headerTinted, set t | t in threads
      ensures forall i :: 0 <= i < |threads| ==>
        threads[i].Shows(Classify(page, threads[i].id, old(threads[i].title), threads[i].creator, favorites, hiddenThreads,
                                  rules, markup, favoritesOnTop, highlightedOnTop))
    {
      ghost var titles := seq(|threads|, i requires 0 <= i < |threads| reads threads => threads[i].title);
      assert forall i :: 0 <= i < |threads| ==> titles[i] == old(threads[i].title);
      var k := 0;
      while k < |threads|
        invariant 0 <= k <= |threads|
        invariant forall i :: 0 <= i < k ==>
          threads[i].Shows(Classify(page, threads[i].id, titles[i], threads[i].creator, favorites, hiddenThreads,
                                    rules, markup, favoritesOnTop, highlightedOnTop))
        invariant forall i :: k <= i < |threads| ==> threads[i].Unprocessed() && threads[i].title == titles[i]
      {
        var t := threads[k];
        ghost var v := Classify(page, t.id, titles[k], t.creator, favorites, hiddenThreads,
                                rules, markup, favoritesOnTop, highlightedOnTop);
        ProcessThread(t);
        assert t.Shows(v);
        k := k + 1;
      }
    }

    /** processThread on a search page: only the favorite flag and the favorites' class. */
    method ProcessSearch(t: Thread)
      modifies this`favoriteRows, t`isFavorite
      ensures t.isFavorite == (old(t.isFavorite) || t.id in favorites)
      ensures favoriteRows == old(favoriteRows) + (if t.id in favorites then {t.id} else {})
    {
      if IndexOf(favorites, t.id) >= 0 {
        favoriteRows := favoriteRows + {t.id};
        t.isFavorite := true;
      }
    }

    /** processThread on a forum page: the else-if chain, then the highlight check. */
    method ProcessListed(t: Thread)
      requires t.Unprocessed()
      modifies this`rows, this`favoriteRows, this`highlightedRows, this`hiddenCount,
               this`blockVisible, this`headerTinted, t
      ensures var v := Highlight(Chain(t.id, old(t.title), t.creator, favorites, hiddenThreads, rules, markup.hidden, favoritesOnTop),
                                 rules, markup.highlight, highlightedOnTop);
        && t.Shows(v)
        && favoriteRows == old(favoriteRows) + (if v.isFavorite then {t.id} else {})
        && highlightedRows == old(highlightedRows) + (if v.isHighlighted then {t.id} else {})
        && hiddenCount == old(hiddenCount) + (if v.isHidden then 1 else 0)
        && blockVisible == (old(blockVisible) || (v.isHidden && hiddenCount == 1))
        && headerTinted == (old(headerTinted) || v.tintHeader)
        && rows == (if v.isHidden then HideRow(old(rows), t.id)
                    else if v.moveFavorite then PlaceFavorite(old(rows), t.id, old(favoriteRows), old(highlightedRows), separator)
                    else if v.moveHighlighted then PlaceHighlighted(old(rows), t.id, old(favoriteRows), old(highlightedRows), separator)
                    else old(rows))
    {
      ghost var rows0, favoriteRows0 := rows, favoriteRows;
      ghost var c := Chain(t.id, t.title, t.creator, favorites, hiddenThreads, rules, markup.hidden, favoritesOnTop);
      ApplyChain(t, markup.hidden);
      ghost var rows1 := rows;
      ChainShape(t.id, old(t.title), t.creator, favorites, hiddenThreads, rules, markup.hidden, favoritesOnTop);
      ApplyHighlight(t, markup.highlight, c);
      ghost var v := Highlight(c, rules, markup.highlight, highlightedOnTop);
      if v.moveHighlighted {
        assert rows1 == rows0 && favoriteRows == favoriteRows0;
      } else {
        assert rows == rows1;
      }
    }

    /** The else-if chain of processThread on a forum page: manual hide, favorite, then the rules. */
    method ApplyChain(t: Thread, tag: Tag)
      requires t.Unprocessed()
      modifies this`rows, this`favoriteRows, this`hiddenCount, this`blockVisible, t
      ensures var c := Chain(t.id, old(t.title), t.creator, favorites, hiddenThreads, rules, tag, favoritesOnTop);
        && t.Shows(c)
        && favoriteRows == old(favoriteRows) + (if c.isFavorite then {t.id} else {})
        && hiddenCount == old(hiddenCount) + (if c.isHidden then 1 else 0)
        && blockVisible == (old(blockVisible) || (c.isHidden && hiddenCount == 1))
        && rows == (if c.isHidden then HideRow(old(rows), t.id)
                    else if c.moveFavorite then PlaceFavorite(old(rows), t.id, old(favoriteRows), highlightedRows, separator)
                    else old(rows))
    {
      ghost var c := Chain(t.id, t.title, t.creator, favorites, hiddenThreads, rules, tag, favoritesOnTop);
      if IndexOf(hiddenThreads, t.id) >= 0 {
        assert c == Plain(t.title, t.creator).(isHidden := true);
        HideThread(t);
      } else if IndexOf(favorites, t.id) >= 0 {
        assert c == Plain(t.title, t.creator).(isFavorite := true, moveFavorite := favoritesOnTop);
        ShowFavorite(t);
      } else {
        assert c == ByRules(t.title, t.creator, rules, tag);
        ApplyRules(t, tag);
      }
    }

    /** The favorite branch of the chain: the thread is flagged, moved up when favorites go on top, and classed. */
    method ShowFavorite(t: Thread)
      modifies this`rows, this`favoriteRows, t`isFavorite
      ensures t.isFavorite
      ensures rows == if favoritesOnTop then PlaceFavorite(old(rows), t.id, old(favoriteRows), highlightedRows, separator)
                      else old(rows)
      ensures favoriteRows == old(favoriteRows) + {t.id}
    {
      t.isFavorite := true;
      if favoritesOnTop {
        rows := PlaceFavorite(rows, t.id, favoriteRows, highlightedRows, separator);
      }
      favoriteRows := favoriteRows + {t.id};
    }

    /** The hidden-users branch of the chain, and the keywords branch when the users list does not match. */
    method ApplyRules(t: Thread, tag: Tag)
      requires t.Unprocessed()
      modifies this`rows, this`hiddenCount, this`blockVisible, t
      ensures var c := ByRules(old(t.title), t.creator, rules, tag);
        && t.Shows(c)
        && hiddenCount == old(hiddenCount) + (if c.isHidden then 1 else 0)
        && blockVisible == (old(blockVisible) || (c.isHidden && hiddenCount == 1))
        && rows == (if c.isHidden then HideRow(old(rows), t.id) else old(rows))
    {
      var byUser: Option<string> := None;
      if rules.hiddenUsers.Some? {
        byUser := MarkKeywords(t.creator, rules.hiddenUsers.value, tag);
      }
      if byUser.Some? {
        HideThread(t);
        t.isHiddenByUser := true;
        t.creatorHtml := byUser.value;
      } else {
        ApplyKeywords(t, tag);
      }
    }

    /** The hidden-keywords branch of the chain: a match hides the thread and marks up its title. */
    method ApplyKeywords(t: Thread, tag: Tag)
      requires t.Unprocessed()
      modifies this`rows, this`hiddenCount, this`blockVisible, t
      ensures var c := ByKeywords(old(t.title), t.creator, rules, tag);
        && t.Shows(c)
        && hiddenCount == old(hiddenCount) + (if c.isHidden then 1 else 0)
        && blockVisible == (old(blockVisible) || (c.isHidden && hiddenCount == 1))
        && rows == (if c.isHidden then HideRow(old(rows), t.id) else old(rows))
    {
      var byKeywords: Option<string> := None;
      if rules.hiddenKeywords.Some? {
        byKeywords := MarkKeywords(t.title, rules.hiddenKeywords.value, tag);
      }
      if byKeywords.Some? {
        HideThread(t);
        t.isHiddenByKeywords := true;
        t.title := byKeywords.value;
        t.titleHtml := byKeywords.value;
      }
    }

    /** What every hiding branch of the chain does: the row goes to the hidden list, the thread is flagged. */
    method HideThread(t: Thread)
      modifies this`rows, this`hiddenCount, this`blockVisible, t`isHidden
      ensures t.isHidden
      ensures rows == HideRow(old(rows), t.id) && hiddenCount == old(hiddenCount) + 1
      ensures blockVisible == (old(blockVisible) || hiddenCount == 1)
    {
      AddToHiddenThreads(t);
      t.isHidden := true;
    }

    /**
     * The highlight check of processThread, on the title as the chain left it: a marked
     * title is shown, the row is moved up unless it is hidden or a favorite, gets the
     * class, and a keyword-hidden row tints the hidden-threads header.
     */
    method ApplyHighlight(t: Thread, tag: Tag, ghost c: Verdict)
      requires t.Shows(c) && !c.isHighlighted && !c.moveHighlighted && !c.tintHeader
      modifies this`rows, this`highlightedRows, this`headerTinted, t`isHighlighted, t`titleHtml
      ensures var v := Highlight(c, rules, tag, highlightedOnTop);
        && t.Shows(v)
        && highlightedRows == old(highlightedRows) + (if v.isHighlighted then {t.id} else {})
        && headerTinted == (old(headerTinted) || v.tintHeader)
        && rows == (if v.moveHighlighted
                    then PlaceHighlighted(old(rows), t.id, favoriteRows, old(highlightedRows), separator)
                    else old(rows))
    {
      var highlight: Option<string> := None;
      if rules.highlightKeywords.Some? {
        highlight := MarkKeywords(t.title, rules.highlightKeywords.value, tag);
      }
      if highlight.Some? {
        t.isHighlighted := true;
        t.titleHtml := highlight.value;
        if !t.isHidden && !t.isFavorite && highlightedOnTop {
          rows := PlaceHighlighted(rows, t.id, favoriteRows, highlightedRows, separator);
        }
        highlightedRows := highlightedRows + {t.id};
        if t.isHiddenByKeywords {
          headerTinted := true;
        }
      }
    }
  }

  /** Hiding a row that is not yet in the hidden list keeps the bookkeeping right. */
  lemma HideRowValid(l: Layout, row: int)
    requires NoDup(DocumentOrder(l)) && row !in l.hidden
    ensures |HideRow(l, row).hidden| == |l.hidden| + 1
    ensures NoDup(DocumentOrder(HideRow(l, row)))
  {
    var h := HideRow(l, row);
    NoDupAppend(l.hidden, l.main);
    RemoveFirstSpec(l.hidden, row);
    RemoveFirstSpec(l.main, row);
    RemoveFirstNoDup(l.main, row);
    assert h.hidden == l.hidden + [row];
    NoDupAppend(l.hidden, [row]);
    NoDupAppend(h.hidden, h.main);
  }

  /** Showing a row of the hidden list keeps the bookkeeping right. */
  lemma ShowRowValid(l: Layout, row: int)
    requires NoDup(DocumentOrder(l)) && row in l.hidden
    ensures |ShowRow(l, row).hidden| == |l.hidden| - 1
    ensures NoDup(DocumentOrder(ShowRow(l, row)))
  {
    var h := ShowRow(l, row);
    NoDupAppend(l.hidden, l.main);
    RemoveFirstSpec(l.hidden, row);
    RemoveFirstSpec(l.main, row);
    RemoveFirstNoDup(l.hidden, row);
    assert h.main == l.main + [row];
    NoDupAppend(l.main, [row]);
    NoDupAppend(h.hidden, h.main);
  }
}
