/**
 * `AppState` of the browser client: the list of selected paths, edited in
 * place by the row checkboxes and the select-all checkbox, and the sort
 * configuration, edited by the column headers.
 */
module ClientState {
  import opened Common
  import opened Sorting

  /** `Array.prototype.indexOf`: the first position of `x`, or -1. */
  function IndexOf(s: seq<string>, x: string): (r: int)
    ensures r == -1 <==> x !in s
    ensures r != -1 ==> 0 <= r < |s| && s[r] == x && x !in s[..r]
  {
    if s == [] then -1
    else if s[0] == x then 0
    else
      var r := IndexOf(s[1..], x);
      if r == -1 then -1 else r + 1
  }

  /** `splice(i, 1)`. */
  function RemoveAt(s: seq<string>, i: nat): (r: seq<string>)
    requires i < |s|
    ensures |r| == |s| - 1
  {
    s[..i] + s[i + 1..]
  }

  /** `s` with every occurrence of `x` dropped. */
  function Without(s: seq<string>, x: string): (r: seq<string>)
    ensures x !in r && forall y :: y != x ==> (y in r <==> y in s)
  {
    if s == [] then []
    else if s[0] == x then Without(s[1..], x)
    else [s[0]] + Without(s[1..], x)
  }

  /** `s.splice(s.indexOf(x), 1)` for an `x` in `s`. */
  function RemoveFirst(s: seq<string>, x: string): seq<string>
    requires x in s
  {
    RemoveAt(s, IndexOf(s, x))
  }

  /** `toggleSelection(path)` on the list `s`. */
  function Toggled(s: seq<string>, path: string): seq<string> {
    if path in s then RemoveFirst(s, path) else s + [path]
  }

  lemma {:induction false} WithoutConcat(a: seq<string>, b: seq<string>, x: string)
    ensures Without(a + b, x) == Without(a, x) + Without(b, x)
    decreases |a|
  {
    if a == [] {
      assert a + b == b;
    } else {
      assert (a + b)[1..] == a[1..] + b;
      WithoutConcat(a[1..], b, x);
    }
  }

  /** Removing the first `x` leaves the other entries as they were, in order. */
  lemma RemoveFirstKeepsOthers(s: seq<string>, x: string)
    requires x in s
    ensures Without(RemoveFirst(s, x), x) == Without(s, x)
  {
    var i := IndexOf(s, x);
    var a, b := s[..i], s[i + 1..];
    assert s == (a + [x]) + b;
    assert RemoveAt(s, i) == a + b;
    assert Without([x], x) == [] by {
      assert [x][1..] == [];
    }
    WithoutConcat(a + [x], b, x);
    WithoutConcat(a, [x], x);
    WithoutConcat(a, b, x);
    assert Without(a + [x], x) == Without(a, x);
  }

  /** The entries after the removed position move down by one. */
  lemma RemoveAtIndex(s: seq<string>, i: nat, k: nat)
    requires i < |s| && k < |s| - 1
    ensures RemoveAt(s, i)[k] == s[if k < i then k else k + 1]
  {
  }

  /** Removing the first occurrence keeps a list duplicate-free and takes the value out. */
  lemma RemoveFirstNoDup(s: seq<string>, x: string)
    requires NoDup(s) && x in s
    ensures NoDup(RemoveFirst(s, x))
    ensures x !in RemoveFirst(s, x)
    ensures forall y :: y != x ==> (y in RemoveFirst(s, x) <==> y in s)
  {
    var i := IndexOf(s, x);
    var r := RemoveFirst(s, x);
    forall a, b | 0 <= a < b < |r|
      ensures r[a] != r[b]
    {
      RemoveAtIndex(s, i, a);
      RemoveAtIndex(s, i, b);
    }
    forall k | 0 <= k < |r|
      ensures r[k] != x
    {
      RemoveAtIndex(s, i, k);
    }
    forall y | y != x
      ensures y in r <==> y in s
    {
      if y in r {
        var k :| 0 <= k < |r| && r[k] == y;
        RemoveAtIndex(s, i, k);
      }
      if y in s {
        var k :| 0 <= k < |s| && s[k] == y;
        if k < i {
          RemoveAtIndex(s, i, k);
        } else {
          RemoveAtIndex(s, i, k - 1);
        }
      }
    }
  }

  /**
   * Toggling removes the first occurrence of a selected path and appends an
   * unselected one; on a duplicate-free list it flips that path's
   * membership and keeps the list duplicate-free; either way the other
   * entries stay as they were, in order.
   */
  lemma ToggleEffect(s: seq<string>, path: string)
    ensures Without(Toggled(s, path), path) == Without(s, path)
    ensures NoDup(s) ==> NoDup(Toggled(s, path))
    ensures NoDup(s) ==> (path in Toggled(s, path) <==> path !in s)
  {
    if path in s {
      RemoveFirstKeepsOthers(s, path);
      if NoDup(s) {
        RemoveFirstNoDup(s, path);
      }
    } else {
      WithoutConcat(s, [path], path);
      assert Without([path], path) == [];
      if NoDup(s) {
        NoDupSnoc(s, path);
      }
    }
  }

  /** Toggling an unselected path twice restores the list; on a duplicate-free list, toggling twice restores membership. */
  lemma ToggleTwice(s: seq<string>, path: string)
    ensures path !in s ==> Toggled(Toggled(s, path), path) == s
    ensures NoDup(s) ==> forall y :: y in Toggled(Toggled(s, path), path) <==> y in s
  {
    if path !in s {
      var t := s + [path];
      assert IndexOf(t, path) == |s|;
      assert t[..|s|] == s;
    }
    if NoDup(s) {
      ToggleEffect(s, path);
      ToggleEffect(Toggled(s, path), path);
      if path in s {
        RemoveFirstNoDup(s, path);
      }
    }
  }

  // ---------------------------------------------------------------------
  // The select-all checkbox

  /** One checkbox of the select-all loop. */
  function SelectOne(s: seq<string>, path: string, checked: bool): seq<string> {
    var index := IndexOf(s, path);
    if checked && index == -1 then s + [path]
    else if !checked && index > -1 then RemoveFirst(s, path)
    else s
  }

  /** The select-all loop over the `visible` paths. */
  function SelectAllOf(s: seq<string>, visible: seq<string>, checked: bool): seq<string>
    decreases |visible|
  {
    if visible == [] then s
    else SelectOne(SelectAllOf(s, visible[..|visible| - 1], checked), visible[|visible| - 1], checked)
  }

  /** `items.length > 0 && items.every(item => selectedPaths.includes(item.path))`: the select-all box shows checked. */
  predicate AllSelected(visible: seq<string>, selected: seq<string>) {
    |visible| > 0 && forall i :: 0 <= i < |visible| ==> visible[i] in selected
  }

  /**
   * Checking select-all keeps the list as it was and appends the visible
   * paths not yet selected; unchecking removes every visible path from a
   * duplicate-free list. Paths outside `visible` keep their membership,
   * and the list stays duplicate-free.
   */
  lemma {:induction false} SelectAllEffect(s: seq<string>, visible: seq<string>, checked: bool)
    requires NoDup(s)
    ensures var r := SelectAllOf(s, visible, checked);
            && NoDup(r)
            && (forall y :: y !in visible ==> (y in r <==> y in s))
            && (checked ==> |s| <= |r| && r[..|s|] == s && forall y :: y in visible ==> y in r)
            && (!checked ==> forall y :: y in visible ==> y !in r)
    decreases |visible|
  {
    if visible != [] {
      var init, v := visible[..|visible| - 1], visible[|visible| - 1];
      SelectAllEffect(s, init, checked);
      var before := SelectAllOf(s, init, checked);
      assert forall y :: y in visible <==> y in init || y == v by {
        assert visible == init + [v];
      }
      if checked && v !in before {
        NoDupSnoc(before, v);
        assert (before + [v])[..|s|] == before[..|s|];
      } else if !checked && v in before {
        RemoveFirstNoDup(before, v);
      }
    }
  }

  /** After checking select-all on a non-empty list, the select-all box shows checked. */
  lemma SelectAllThenAllSelected(s: seq<string>, visible: seq<string>)
    requires NoDup(s) && |visible| > 0
    ensures AllSelected(visible, SelectAllOf(s, visible, true))
  {
    SelectAllEffect(s, visible, true);
  }

  // ---------------------------------------------------------------------
  // The state object

  class AppState {
    var selectedPaths: seq<string>
    var sortConfig: SortConfig

    /** Every action below keeps the selection free of duplicates. */
    predicate Valid()
      reads this
    {
      NoDup(selectedPaths)
    }

    constructor()
      ensures Valid() && selectedPaths == [] && sortConfig == InitialSortConfig
    {
      selectedPaths := [];
      sortConfig := InitialSortConfig;
    }

    /** A new scan clears the selection. */
    method ClearSelection()
      modifies this`selectedPaths
      ensures Valid() && selectedPaths == []
    {
      selectedPaths := [];
    }

    method ToggleSelection(path: string)
      requires Valid()
      modifies this`selectedPaths
      ensures Valid() && selectedPaths == Toggled(old(selectedPaths), path)
      ensures path in selectedPaths <==> path !in old(selectedPaths)
    {
      ToggleEffect(selectedPaths, path);
      var index := IndexOf(selectedPaths, path);
      if index > -1 {
        selectedPaths := selectedPaths[..index] + selectedPaths[index + 1..];
      } else {
        selectedPaths := selectedPaths + [path];
      }
    }

    /** The select-all checkbox's `onchange` over the paths of the visible checkboxes. */
    method SelectAll(visible: seq<string>, checked: bool)
      requires Valid()
      modifies this`selectedPaths
      ensures Valid() && selectedPaths == SelectAllOf(old(selectedPaths), visible, checked)
      ensures checked && |visible| > 0 ==> AllSelected(visible, selectedPaths)
    {
      ghost var start := selectedPaths;
      for i := 0 to |visible|
        invariant selectedPaths == SelectAllOf(start, visible[..i], checked)
      {
        assert visible[..i + 1][..i] == visible[..i];
        var path := visible[i];
        var index := IndexOf(selectedPaths, path);
        if checked && index == -1 {
          selectedPaths := selectedPaths + [path];
        } else if !checked && index > -1 {
          selectedPaths := selectedPaths[..index] + selectedPaths[index + 1..];
        }
      }
      assert visible[..|visible|] == visible;
      SelectAllEffect(start, visible, checked);
      if checked && |visible| > 0 {
        SelectAllThenAllSelected(start, visible);
      }
    }

    /** `handleSort(key)` and the header clicks that repeat it. */
    method HandleSort(key: Option<SortKey>)
      modifies this`sortConfig
      ensures sortConfig == NextSortConfig(old(sortConfig), key)
    {
      if sortConfig.key == key {
        sortConfig := sortConfig.(direction := if sortConfig.direction == Asc then Desc else Asc);
      } else {
        sortConfig := sortConfig.(key := key);
        sortConfig := sortConfig.(direction := Asc);
      }
    }
  }
}
