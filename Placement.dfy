/**
 * The favorites-on-top and highlighted-on-top moves of processThread
 * (modules/FilterThreads.js). The page holds two lists of rows: the hidden-threads list,
 * which sits above the thread list, and the thread list itself. The class selectors
 * `.favorite` and `.highlighted` search the whole page in document order, that is the
 * hidden list followed by the thread list; jQuery's `after` and `before` first take the
 * moved row out of wherever it is and then put it next to the target row.
 */
module Placement {
  import opened Base
  import opened Js

  /** The rows on the page, by id: the hidden-threads list and the thread list. */
  datatype Layout = Layout(hidden: seq<int>, main: seq<int>)

  /** All rows in document order. */
  function DocumentOrder(l: Layout): seq<int>
  {
    l.hidden + l.main
  }

  /** `.last()` of a class selector: the last row of `s` that has the class. */
  function LastWith(s: seq<int>, cls: set<int>): (r: Option<int>)
  {
    if s == [] then None
    else if s[|s| - 1] in cls then Some(s[|s| - 1])
    else LastWith(s[..|s| - 1], cls)
  }

  /** `.first()` of a class selector: the first row of `s` that has the class. */
  function FirstWith(s: seq<int>, cls: set<int>): (r: Option<int>)
  {
    if s == [] then None
    else if s[0] in cls then Some(s[0])
    else FirstWith(s[1..], cls)
  }

  /** `row` put at offset `k` of `s`. */
  function InsertAt(s: seq<int>, k: nat, row: int): seq<int>
    requires k <= |s|
  {
    s[..k] + [row] + s[k..]
  }

  /** The first step of `after` and `before`: the moved row leaves the page. */
  function Detach(l: Layout, row: int): Layout
  {
    Layout(RemoveFirst(l.hidden, row), RemoveFirst(l.main, row))
  }

  /**
   * `target.after(row)` (when `after`) or `target.before(row)`: the row is taken out and
   * put right after (before) the target, in whichever list the target is; a target that
   * is not on the page moves nothing.
   */
  function MoveNextTo(l: Layout, target: int, row: int, after: bool): Layout
  {
    var d := Detach(l, row);
    var offset := if after then 1 else 0;
    if target in d.hidden then Layout(InsertAt(d.hidden, IndexOf(d.hidden, target) + offset, row), d.main)
    else if target in d.main then Layout(d.hidden, InsertAt(d.main, IndexOf(d.main, target) + offset, row))
    else l
  }

  /**
   * FilterThreads.js:219-226: a new favorite goes after the last favorite row; when there
   * is none, before the first highlighted row; when there is none either, after the
   * separator between pinned and normal threads, if the page has one.
   */
  function PlaceFavorite(l: Layout, row: int, favoriteRows: set<int>, highlightedRows: set<int>, separator: Option<int>): Layout
  {
    match LastWith(DocumentOrder(l), favoriteRows)
    case Some(t) => MoveNextTo(l, t, row, true)
    case None =>
      match FirstWith(DocumentOrder(l), highlightedRows)
      case Some(t) => MoveNextTo(l, t, row, false)
      case None => if separator.Some? then MoveNextTo(l, separator.value, row, true) else l
  }

  /**
   * FilterThreads.js:248-256: a new on-top highlight goes after the last highlighted row;
   * when there is none, after the last favorite row; when there is none either, after the
   * separator, if the page has one.
   */
  function PlaceHighlighted(l: Layout, row: int, favoriteRows: set<int>, highlightedRows: set<int>, separator: Option<int>): Layout
  {
    match LastWith(DocumentOrder(l), highlightedRows)
    case Some(t) => MoveNextTo(l, t, row, true)
    case None =>
      match LastWith(DocumentOrder(l), favoriteRows)
      case Some(t) => MoveNextTo(l, t, row, true)
      case None => if separator.Some? then MoveNextTo(l, separator.value, row, true) else l
  }

  // ---------------------------------------------------------------------------------
  // The slots, stated on the thread list alone

  /** The offset just past the last row of `s` in `cls`, if there is one. */
  function AfterLast(s: seq<int>, cls: set<int>): (k: Option<nat>)
    ensures k.None? <==> forall i :: 0 <= i < |s| ==> s[i] !in cls
    ensures k.Some? ==> 0 < k.value <= |s| && s[k.value - 1] in cls
    ensures k.Some? ==> forall i :: k.value <= i < |s| ==> s[i] !in cls
  {
    if s == [] then None
    else if s[|s| - 1] in cls then Some(|s|)
    else AfterLast(s[..|s| - 1], cls)
  }

  /** The offset of the first row of `s` in `cls`, if there is one. */
  function AtFirst(s: seq<int>, cls: set<int>): (k: Option<nat>)
    ensures k.None? <==> forall i :: 0 <= i < |s| ==> s[i] !in cls
    ensures k.Some? ==> k.value < |s| && s[k.value] in cls && forall i :: 0 <= i < k.value ==> s[i] !in cls
  {
    if s == [] then None
    else if s[0] in cls then Some(0)
    else match AtFirst(s[1..], cls)
      case None => None
      case Some(k) => Some(k + 1)
  }

  /** The offset just past the separator in `s`, if it is there. */
  function AfterSeparator(s: seq<int>, separator: Option<int>): (k: Option<nat>)
    ensures k.None? <==> separator.None? || separator.value !in s
    ensures k.Some? ==> 0 < k.value <= |s| && s[k.value - 1] == separator.value
  {
    if separator.Some? && separator.value in s then Some(IndexOf(s, separator.value) + 1) else None
  }

  /** Where a new favorite lands in the thread list `rest` (without the moved row). */
  function FavoriteSlot(rest: seq<int>, favoriteRows: set<int>, highlightedRows: set<int>, separator: Option<int>): Option<nat>
  {
    match AfterLast(rest, favoriteRows)
    case Some(k) => Some(k)
    case None =>
      match AtFirst(rest, highlightedRows)
      case Some(k) => Some(k)
      case None => AfterSeparator(rest, separator)
  }

  /** Where a new on-top highlight lands in the thread list `rest` (without the moved row). */
  function HighlightSlot(rest: seq<int>, favoriteRows: set<int>, highlightedRows: set<int>, separator: Option<int>): Option<nat>
  {
    match AfterLast(rest, highlightedRows)
    case Some(k) => Some(k)
    case None =>
      match AfterLast(rest, favoriteRows)
      case Some(k) => Some(k)
      case None => AfterSeparator(rest, separator)
  }

  // ---------------------------------------------------------------------------------
  // Lemmas

  /** The last row with a class in `a + b` is the last one of `b`, or else the last of `a`. */
  lemma {:induction false} LastWithConcat(a: seq<int>, b: seq<int>, cls: set<int>)
    ensures LastWith(a + b, cls) == if LastWith(b, cls).Some? then LastWith(b, cls) else LastWith(a, cls)
    decreases |b|
  {
    if b == [] {
      assert a + b == a;
    } else {
      assert (a + b)[..|a + b| - 1] == a + b[..|b| - 1];
      LastWithConcat(a, b[..|b| - 1], cls);
    }
  }

  /** The first row with a class in `a + b` is the first one of `a`, or else the first of `b`. */
  lemma {:induction false} FirstWithConcat(a: seq<int>, b: seq<int>, cls: set<int>)
    ensures FirstWith(a + b, cls) == if FirstWith(a, cls).Some? then FirstWith(a, cls) else FirstWith(b, cls)
  {
    if a == [] {
      assert a + b == b;
    } else {
      assert (a + b)[1..] == a[1..] + b;
      FirstWithConcat(a[1..], b, cls);
    }
  }

  /** The row `.last()` picks is the one just before the slot AfterLast computes. */
  lemma {:induction false} LastWithAfterLast(s: seq<int>, cls: set<int>)
    ensures LastWith(s, cls) == if AfterLast(s, cls).Some? then Some(s[AfterLast(s, cls).value - 1]) else None
  {
    if s != [] && s[|s| - 1] !in cls {
      LastWithAfterLast(s[..|s| - 1], cls);
    }
  }

  /** The row `.first()` picks is the one at the slot AtFirst computes. */
  lemma {:induction false} FirstWithAtFirst(s: seq<int>, cls: set<int>)
    ensures FirstWith(s, cls) == if AtFirst(s, cls).Some? then Some(s[AtFirst(s, cls).value]) else None
  {
    if s != [] && s[0] !in cls {
      FirstWithAtFirst(s[1..], cls);
    }
  }

  /** `.last()` finds nothing exactly when no row has the class, and otherwise a row with it. */
  lemma {:induction false} LastWithSpec(s: seq<int>, cls: set<int>)
    ensures LastWith(s, cls).None? <==> forall i :: 0 <= i < |s| ==> s[i] !in cls
    ensures LastWith(s, cls).Some? ==> LastWith(s, cls).value in cls && LastWith(s, cls).value in s
  {
    if s != [] && s[|s| - 1] !in cls {
      var t := s[..|s| - 1];
      LastWithSpec(t, cls);
      assert forall i :: 0 <= i < |t| ==> t[i] == s[i];
    }
  }

  /** `.first()` finds nothing exactly when no row has the class, and otherwise a row with it. */
  lemma {:induction false} FirstWithSpec(s: seq<int>, cls: set<int>)
    ensures FirstWith(s, cls).None? <==> forall i :: 0 <= i < |s| ==> s[i] !in cls
    ensures FirstWith(s, cls).Some? ==> FirstWith(s, cls).value in cls && FirstWith(s, cls).value in s
  {
    if s != [] && s[0] !in cls {
      var t := s[1..];
      FirstWithSpec(t, cls);
      assert forall i :: 0 < i < |s| ==> s[i] == t[i - 1];
    }
  }

  /** In a duplicate-free list, indexOf finds every row at its own offset. */
  lemma IndexOfNoDup(s: seq<int>, i: nat)
    requires NoDup(s) && i < |s|
    ensures IndexOf(s, s[i]) == i
  {
  }

  /** Removing a row without the class does not change which row `.last()` picks. */
  lemma LastWithRemove(s: seq<int>, row: int, cls: set<int>)
    requires row !in cls
    ensures LastWith(RemoveFirst(s, row), cls) == LastWith(s, cls)
  {
    if row in s {
      var k := IndexOf(s, row);
      assert s == s[..k] + ([row] + s[k + 1..]);
      LastWithConcat(s[..k], [row] + s[k + 1..], cls);
      LastWithConcat([row], s[k + 1..], cls);
      LastWithConcat(s[..k], s[k + 1..], cls);
      assert LastWith([row], cls) == LastWith([], cls);
    }
  }

  /** Removing a row without the class does not change which row `.first()` picks. */
  lemma FirstWithRemove(s: seq<int>, row: int, cls: set<int>)
    requires row !in cls
    ensures FirstWith(RemoveFirst(s, row), cls) == FirstWith(s, cls)
  {
    if row in s {
      var k := IndexOf(s, row);
      var t := s[k + 1..];
      assert s == s[..k] + ([row] + t);
      FirstWithConcat(s[..k], [row] + t, cls);
      assert ([row] + t)[1..] == t;
      FirstWithConcat(s[..k], t, cls);
    }
  }

  /**
   * The situation the on-top moves are meant for: the moved row is in the thread list
   * and has neither class yet, no row of the hidden list has either class, the separator
   * is not in the hidden list, and no row is on the page twice.
   */
  ghost predicate Placeable(l: Layout, row: int, favoriteRows: set<int>, highlightedRows: set<int>, separator: Option<int>)
  {
    && NoDup(DocumentOrder(l))
    && row in l.main && row !in favoriteRows && row !in highlightedRows
    && (forall i :: 0 <= i < |l.hidden| ==> l.hidden[i] !in favoriteRows && l.hidden[i] !in highlightedRows)
    && (separator.Some? ==> separator.value != row && separator.value !in l.hidden)
  }

  /** Placing after (before) a classed row of the thread list, found on the whole page. */
  lemma MoveNextToMain(l: Layout, row: int, t: int, after: bool)
    requires row !in l.hidden && t !in l.hidden
    ensures var rest := RemoveFirst(l.main, row);
      t in rest ==>
        && IndexOf(rest, t) + (if after then 1 else 0) <= |rest|
        && MoveNextTo(l, t, row, after) == Layout(l.hidden, InsertAt(rest, IndexOf(rest, t) + (if after then 1 else 0), row))
    ensures t !in RemoveFirst(l.main, row) ==> MoveNextTo(l, t, row, after) == l
  {
    RemoveFirstSpec(l.hidden, row);
  }

  /** The two parts of a duplicate-free `a + b` have no row in common. */
  lemma NoDupConcat(a: seq<int>, b: seq<int>)
    requires NoDup(a + b)
    ensures forall i, j :: 0 <= i < |a| && 0 <= j < |b| ==> a[i] != b[j]
  {
    forall i, j | 0 <= i < |a| && 0 <= j < |b|
      ensures a[i] != b[j]
    {
      assert a[i] == (a + b)[i] && b[j] == (a + b)[|a| + j];
    }
  }

  /** What the on-top moves need to know about a placeable page, stated on the thread list. */
  lemma PlaceableRest(l: Layout, row: int, favoriteRows: set<int>, highlightedRows: set<int>, separator: Option<int>)
    requires Placeable(l, row, favoriteRows, highlightedRows, separator)
    ensures PlaceableFacts(l, row, favoriteRows, highlightedRows, separator)
  {
    var p := DocumentOrder(l);
    var rest := RemoveFirst(l.main, row);
    NoDupConcat(l.hidden, l.main);
    assert NoDup(l.main) by {
      forall i, j | 0 <= i < j < |l.main|
        ensures l.main[i] != l.main[j]
      {
        assert l.main[i] == p[|l.hidden| + i] && l.main[j] == p[|l.hidden| + j];
      }
    }
    RemoveFirstNoDup(l.main, row);
    LastWithSpec(l.hidden, favoriteRows);
    LastWithSpec(l.hidden, highlightedRows);
    FirstWithSpec(l.hidden, highlightedRows);
    LastWithConcat(l.hidden, l.main, favoriteRows);
    LastWithConcat(l.hidden, l.main, highlightedRows);
    FirstWithConcat(l.hidden, l.main, highlightedRows);
    LastWithRemove(l.main, row, favoriteRows);
    LastWithRemove(l.main, row, highlightedRows);
    FirstWithRemove(l.main, row, highlightedRows);
    assert row !in l.hidden by {
      assert l.main[IndexOf(l.main, row)] == row;
    }
    assert forall x :: x in l.hidden ==> x !in favoriteRows && x !in highlightedRows by {
      forall x | x in l.hidden
        ensures x !in favoriteRows && x !in highlightedRows
      {
        assert l.hidden[IndexOf(l.hidden, x)] == x;
      }
    }
  }

  /** The facts PlaceableRest derives. */
  ghost predicate PlaceableFacts(l: Layout, row: int, favoriteRows: set<int>, highlightedRows: set<int>, separator: Option<int>)
  {
    var rest := RemoveFirst(l.main, row);
    && NoDup(rest) && row !in rest && row !in l.hidden
    && LastWith(DocumentOrder(l), favoriteRows) == LastWith(rest, favoriteRows)
    && LastWith(DocumentOrder(l), highlightedRows) == LastWith(rest, highlightedRows)
    && FirstWith(DocumentOrder(l), highlightedRows) == FirstWith(rest, highlightedRows)
    && (forall x :: x in l.hidden ==> x !in favoriteRows && x !in highlightedRows)
    && (separator.Some? ==> separator.value !in l.hidden)
  }

  /** Moving the row after the last row of a class the hidden list does not use. */
  lemma MoveAfterLast(l: Layout, row: int, cls: set<int>)
    requires NoDup(RemoveFirst(l.main, row)) && row !in l.hidden
    requires forall x :: x in l.hidden ==> x !in cls
    requires AfterLast(RemoveFirst(l.main, row), cls).Some?
    ensures var rest := RemoveFirst(l.main, row);
      var k := AfterLast(rest, cls).value;
      && LastWith(rest, cls) == Some(rest[k - 1])
      && MoveNextTo(l, rest[k - 1], row, true) == Layout(l.hidden, InsertAt(rest, k, row))
  {
    var rest := RemoveFirst(l.main, row);
    var k := AfterLast(rest, cls).value;
    LastWithAfterLast(rest, cls);
    IndexOfNoDup(rest, k - 1);
    MoveNextToMain(l, row, rest[k - 1], true);
  }

  /** Moving the row before the first row of a class the hidden list does not use. */
  lemma MoveBeforeFirst(l: Layout, row: int, cls: set<int>)
    requires NoDup(RemoveFirst(l.main, row)) && row !in l.hidden
    requires forall x :: x in l.hidden ==> x !in cls
    requires AtFirst(RemoveFirst(l.main, row), cls).Some?
    ensures var rest := RemoveFirst(l.main, row);
      var k := AtFirst(rest, cls).value;
      && FirstWith(rest, cls) == Some(rest[k])
      && MoveNextTo(l, rest[k], row, false) == Layout(l.hidden, InsertAt(rest, k, row))
  {
    var rest := RemoveFirst(l.main, row);
    var k := AtFirst(rest, cls).value;
    FirstWithAtFirst(rest, cls);
    IndexOfNoDup(rest, k);
    MoveNextToMain(l, row, rest[k], false);
  }

  /** Moving the row after the separator, or not at all when the page has none. */
  lemma MoveAfterSeparator(l: Layout, row: int, separator: Option<int>)
    requires row !in l.hidden && (separator.Some? ==> separator.value !in l.hidden)
    ensures var rest := RemoveFirst(l.main, row);
      var slot := AfterSeparator(rest, separator);
      && (slot.Some? ==> slot.value <= |rest|)
      && (if separator.Some? then MoveNextTo(l, separator.value, row, true) else l)
         == if slot.Some? then Layout(l.hidden, InsertAt(rest, slot.value, row)) else l
  {
    if separator.Some? {
      MoveNextToMain(l, row, separator.value, true);
    }
  }

  /** PlaceFavoriteSpec, from the facts about the thread list. */
  lemma PlaceFavoriteFromFacts(l: Layout, row: int, favoriteRows: set<int>, highlightedRows: set<int>, separator: Option<int>)
    requires PlaceableFacts(l, row, favoriteRows, highlightedRows, separator)
    ensures var rest := RemoveFirst(l.main, row);
      var slot := FavoriteSlot(rest, favoriteRows, highlightedRows, separator);
      && (slot.Some? ==> slot.value <= |rest|)
      && PlaceFavorite(l, row, favoriteRows, highlightedRows, separator)
         == if slot.Some? then Layout(l.hidden, InsertAt(rest, slot.value, row)) else l
  {
    var rest := RemoveFirst(l.main, row);
    LastWithAfterLast(rest, favoriteRows);
    FirstWithAtFirst(rest, highlightedRows);
    if AfterLast(rest, favoriteRows).Some? {
      MoveAfterLast(l, row, favoriteRows);
    } else if AtFirst(rest, highlightedRows).Some? {
      MoveBeforeFirst(l, row, highlightedRows);
    } else {
      MoveAfterSeparator(l, row, separator);
    }
  }

  /** PlaceHighlightedSpec, from the facts about the thread list. */
  lemma PlaceHighlightedFromFacts(l: Layout, row: int, favoriteRows: set<int>, highlightedRows: set<int>, separator: Option<int>)
    requires PlaceableFacts(l, row, favoriteRows, highlightedRows, separator)
    ensures var rest := RemoveFirst(l.main, row);
      var slot := HighlightSlot(rest, favoriteRows, highlightedRows, separator);
      && (slot.Some? ==> slot.value <= |rest|)
      && PlaceHighlighted(l, row, favoriteRows, highlightedRows, separator)
         == if slot.Some? then Layout(l.hidden, InsertAt(rest, slot.value, row)) else l
  {
    var rest := RemoveFirst(l.main, row);
    LastWithAfterLast(rest, highlightedRows);
    LastWithAfterLast(rest, favoriteRows);
    if AfterLast(rest, highlightedRows).Some? {
      MoveAfterLast(l, row, highlightedRows);
    } else if AfterLast(rest, favoriteRows).Some? {
      MoveAfterLast(l, row, favoriteRows);
    } else {
      MoveAfterSeparator(l, row, separator);
    }
  }

  /**
   * FilterThreads.js:219-226 on a placeable page: the hidden list does not change and the
   * row, taken out of the thread list, goes to the slot FavoriteSlot names (just after the
   * last favorite, else just before the first highlighted row, else just after the
   * separator); with no slot, nothing moves.
   */
  lemma PlaceFavoriteSpec(l: Layout, row: int, favoriteRows: set<int>, highlightedRows: set<int>, separator: Option<int>)
    requires Placeable(l, row, favoriteRows, highlightedRows, separator)
    ensures var rest := RemoveFirst(l.main, row);
      var slot := FavoriteSlot(rest, favoriteRows, highlightedRows, separator);
      && (slot.Some? ==> slot.value <= |rest|)
      && PlaceFavorite(l, row, favoriteRows, highlightedRows, separator)
         == if slot.Some? then Layout(l.hidden, InsertAt(rest, slot.value, row)) else l
  {
    PlaceableRest(l, row, favoriteRows, highlightedRows, separator);
    PlaceFavoriteFromFacts(l, row, favoriteRows, highlightedRows, separator);
  }

  /**
   * FilterThreads.js:248-256 on a placeable page: the hidden list does not change and the
   * row, taken out of the thread list, goes to the slot HighlightSlot names (just after
   * the last highlighted row, else just after the last favorite, else just after the
   * separator); with no slot, nothing moves.
   */
  lemma PlaceHighlightedSpec(l: Layout, row: int, favoriteRows: set<int>, highlightedRows: set<int>, separator: Option<int>)
    requires Placeable(l, row, favoriteRows, highlightedRows, separator)
    ensures var rest := RemoveFirst(l.main, row);
      var slot := HighlightSlot(rest, favoriteRows, highlightedRows, separator);
      && (slot.Some? ==> slot.value <= |rest|)
      && PlaceHighlighted(l, row, favoriteRows, highlightedRows, separator)
         == if slot.Some? then Layout(l.hidden, InsertAt(rest, slot.value, row)) else l
  {
    PlaceableRest(l, row, favoriteRows, highlightedRows, separator);
    PlaceHighlightedFromFacts(l, row, favoriteRows, highlightedRows, separator);
  }

  /** Only the moved row changes place: taking it out again gives the other rows in their old order. */
  lemma InsertAtThenRemove(rest: seq<int>, k: nat, row: int)
    requires k <= |rest| && row !in rest
    ensures RemoveFirst(InsertAt(rest, k, row), row) == rest
    ensures InsertAt(rest, k, row)[k] == row && |InsertAt(rest, k, row)| == |rest| + 1
  {
    var s := InsertAt(rest, k, row);
    assert s[..k] == rest[..k];
    assert IndexOf(s, row) == k;
    assert s[k + 1..] == rest[k..];
  }

  /**
   * The selectors also see the hidden list: when the only highlighted row so far is one
   * that was hidden (row 5), a newly highlighted visible row (row 7) is moved after it,
   * into the hidden list.
   */
  lemma HighlightJoinsHiddenRow(l: Layout, highlightedRows: set<int>)
    requires l == Layout([5], [0, 7]) && highlightedRows == {5}
    ensures PlaceHighlighted(l, 7, {}, highlightedRows, Some(0)) == Layout([5, 7], [0])
  {
    assert LastWith(DocumentOrder(l), highlightedRows) == Some(5) by {
      LastWithSpec(l.main, highlightedRows);
      LastWithConcat(l.hidden, l.main, highlightedRows);
    }
    assert MoveNextTo(l, 5, 7, true) == Layout([5, 7], [0]) by {
      assert Detach(l, 7) == Layout([5], [0]) by {
        assert IndexOf(l.main, 7) == 1;
      }
      assert InsertAt([5], 1, 7) == [5, 7];
    }
  }

  /** The row, taken out of the thread list and put back at any offset, is on the page once. */
  lemma InsertInMainNoDup(l: Layout, row: int, k: nat)
    requires NoDup(DocumentOrder(l)) && row !in l.hidden && k <= |RemoveFirst(l.main, row)|
    ensures NoDup(DocumentOrder(Layout(l.hidden, InsertAt(RemoveFirst(l.main, row), k, row))))
  {
    var rest := RemoveFirst(l.main, row);
    NoDupAppend(l.hidden, l.main);
    RemoveFirstNoDup(l.main, row);
    RemoveFirstSpec(l.main, row);
    var a, b := rest[..k], rest[k..];
    assert rest == a + b;
    NoDupAppend(a, b);
    NoDupAppend(a, [row]);
    assert forall x :: x in b ==> x in rest;
    NoDupAppend(a + [row], b);
    var inserted := InsertAt(rest, k, row);
    assert inserted == a + [row] + b;
    assert forall x :: x in inserted ==> x in rest || x == row;
    NoDupAppend(l.hidden, inserted);
  }

  /** On a placeable page the favorite move leaves the hidden list alone and every row on the page once. */
  lemma PlaceFavoriteKeepsPage(l: Layout, row: int, favoriteRows: set<int>, highlightedRows: set<int>, separator: Option<int>)
    requires Placeable(l, row, favoriteRows, highlightedRows, separator)
    ensures PlaceFavorite(l, row, favoriteRows, highlightedRows, separator).hidden == l.hidden
    ensures NoDup(DocumentOrder(PlaceFavorite(l, row, favoriteRows, highlightedRows, separator)))
  {
    PlaceableRest(l, row, favoriteRows, highlightedRows, separator);
    PlaceFavoriteSpec(l, row, favoriteRows, highlightedRows, separator);
    var slot := FavoriteSlot(RemoveFirst(l.main, row), favoriteRows, highlightedRows, separator);
    if slot.Some? {
      InsertInMainNoDup(l, row, slot.value);
    }
  }

  /** On a placeable page the highlight move leaves the hidden list alone and every row on the page once. */
  lemma PlaceHighlightedKeepsPage(l: Layout, row: int, favoriteRows: set<int>, highlightedRows: set<int>, separator: Option<int>)
    requires Placeable(l, row, favoriteRows, highlightedRows, separator)
    ensures PlaceHighlighted(l, row, favoriteRows, highlightedRows, separator).hidden == l.hidden
    ensures NoDup(DocumentOrder(PlaceHighlighted(l, row, favoriteRows, highlightedRows, separator)))
  {
    PlaceableRest(l, row, favoriteRows, highlightedRows, separator);
    PlaceHighlightedSpec(l, row, favoriteRows, highlightedRows, separator);
    var slot := HighlightSlot(RemoveFirst(l.main, row), favoriteRows, highlightedRows, separator);
    if slot.Some? {
      InsertInMainNoDup(l, row, slot.value);
    }
  }

  /**
   * The favorite move sees the hidden list too: when there is no favorite yet and the
   * first highlighted row on the page is a hidden one (row 5), a new favorite (row 7) is
   * put before it, into the hidden list, which then holds two rows although only one
   * thread was hidden.
   */
  lemma FavoriteJoinsHiddenRow(l: Layout, highlightedRows: set<int>)
    requires l == Layout([5], [0, 7]) && highlightedRows == {5}
    ensures PlaceFavorite(l, 7, {}, highlightedRows, Some(0)) == Layout([7, 5], [0])
    ensures |PlaceFavorite(l, 7, {}, highlightedRows, Some(0)).hidden| == |l.hidden| + 1
  {
    assert LastWith(DocumentOrder(l), {}) == None by {
      LastWithSpec(DocumentOrder(l), {});
    }
    assert FirstWith(DocumentOrder(l), highlightedRows) == Some(5) by {
      assert DocumentOrder(l)[0] == 5;
    }
    assert MoveNextTo(l, 5, 7, false) == Layout([7, 5], [0]) by {
      assert Detach(l, 7) == Layout([5], [0]) by {
        assert IndexOf(l.main, 7) == 1;
      }
      assert InsertAt([5], 0, 7) == [7, 5];
    }
  }
}
