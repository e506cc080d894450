/**
 Selective restore of archived tabs (popup/popup.js:225-241): the typed
 numbers become zero-based indices, out-of-range ones are dropped, the
 chosen entries are reopened and then removed from the archive by splicing
 in descending index order.
 */
module Restore {
  import opened Basics
  import opened Seqs

  /** A typed piece that names one of `n` entries: a number from 1 to `n`. */
  function NamesEntry(n: nat): Option<int> -> bool {
    (piece: Option<int>) => piece.Some? && 1 <= piece.value <= n
  }

  /** `parseInt(i.trim()) - 1` for every comma-separated piece, keeping those
      with `0 <= i < n`. `parsed` holds each piece's `parseInt` (`None` for
      `NaN`, which fails both comparisons). One index is kept per valid
      piece, in typed order, repeats included. */
  function SelectIndices(parsed: seq<Option<int>>, n: nat): (r: seq<nat>)
    ensures |r| <= |parsed|
    ensures forall i :: i in r ==> i < n
    ensures forall i: nat :: i in r <==> i < n && Some(i + 1) in parsed
  {
    if |parsed| == 0 then []
    else
      var rest := SelectIndices(parsed[1..], n);
      assert forall x :: x in parsed <==> x == parsed[0] || x in parsed[1..];
      match parsed[0]
      case Some(v) => if 0 <= v - 1 < n then [v - 1] + rest else rest
      case None => rest
  }

  /** The selection follows the typing: index `k` is the `k`-th valid typed
      number minus one, so every valid piece gives one index, in typed order,
      repeats included. */
  lemma {:induction false} SelectIndicesFollowsTyping(parsed: seq<Option<int>>, n: nat)
    ensures |SelectIndices(parsed, n)| == |Filter(parsed, NamesEntry(n))|
    ensures forall k :: 0 <= k < |SelectIndices(parsed, n)| ==>
              Filter(parsed, NamesEntry(n))[k] == Some(SelectIndices(parsed, n)[k] + 1)
    decreases |parsed|
  {
    if |parsed| > 0 {
      SelectIndicesFollowsTyping(parsed[1..], n);
      var rest := SelectIndices(parsed[1..], n);
      var valid := Filter(parsed[1..], NamesEntry(n));
      if NamesEntry(n)(parsed[0]) {
        assert Filter(parsed, NamesEntry(n)) == [parsed[0]] + valid;
        assert SelectIndices(parsed, n) == [parsed[0].value - 1] + rest;
      } else {
        assert Filter(parsed, NamesEntry(n)) == valid;
        assert SelectIndices(parsed, n) == rest;
      }
    }
  }

  predicate Descending(xs: seq<nat>) {
    forall i, j :: 0 <= i < j < |xs| ==> xs[i] >= xs[j]
  }

  /** Places `x` before the first element it is not smaller than. */
  function InsertDescending(x: nat, xs: seq<nat>): seq<nat> {
    if |xs| == 0 || x >= xs[0] then [x] + xs
    else [xs[0]] + InsertDescending(x, xs[1..])
  }

  lemma {:induction false} InsertKeepsElements(x: nat, xs: seq<nat>)
    ensures multiset(InsertDescending(x, xs)) == multiset(xs) + multiset{x}
    decreases |xs|
  {
    if |xs| > 0 && x < xs[0] {
      InsertKeepsElements(x, xs[1..]);
      assert xs == [xs[0]] + xs[1..];
    }
  }

  lemma {:induction false} InsertKeepsOrder(x: nat, xs: seq<nat>)
    requires Descending(xs)
    ensures Descending(InsertDescending(x, xs))
    decreases |xs|
  {
    if |xs| > 0 && x < xs[0] {
      var rest := InsertDescending(x, xs[1..]);
      InsertKeepsOrder(x, xs[1..]);
      assert |rest| > 0 && xs[0] >= rest[0] by {
        if |xs| > 1 { assert xs[0] >= xs[1]; }
      }
      var r := [xs[0]] + rest;
      forall i, j | 0 <= i < j < |r| ensures r[i] >= r[j] {
        assert r[j] == rest[j - 1];
        if i > 0 { assert r[i] == rest[i - 1]; } else if j > 1 { assert rest[0] >= rest[j - 1]; }
      }
    }
  }

  /** `selectedIndices.sort((a, b) => b - a)`: largest index first. */
  function SortDescending(xs: seq<nat>): (r: seq<nat>)
    ensures Descending(r)
    ensures multiset(r) == multiset(xs)
  {
    if |xs| == 0 then []
    else
      var sortedRest := SortDescending(xs[1..]);
      InsertKeepsOrder(xs[0], sortedRest);
      InsertKeepsElements(xs[0], sortedRest);
      assert xs == [xs[0]] + xs[1..];
      InsertDescending(xs[0], sortedRest)
  }

  /** A sequence is duplicate-free exactly when no value occurs twice in its
      multiset. */
  lemma {:induction false} DistinctMultiset(xs: seq<nat>)
    ensures Distinct(xs) <==> forall y :: multiset(xs)[y] <= 1
    decreases |xs|
  {
    if |xs| > 0 {
      var rest := xs[1..];
      DistinctMultiset(rest);
      assert xs == [xs[0]] + rest;
      assert multiset(xs) == multiset{xs[0]} + multiset(rest);
      if Distinct(xs) {
        assert Distinct(rest);
        assert xs[0] !in rest by {
          forall j | 0 <= j < |rest| ensures rest[j] != xs[0] {
            assert xs[j + 1] == rest[j];
          }
        }
      }
      if forall y :: multiset(xs)[y] <= 1 {
        assert forall y :: multiset(rest)[y] <= 1 by {
          forall y ensures multiset(rest)[y] <= 1 {
            assert multiset(xs)[y] >= multiset(rest)[y];
          }
        }
        assert multiset(rest)[xs[0]] == 0 by {
          assert multiset(xs)[xs[0]] == 1 + multiset(rest)[xs[0]];
        }
        forall i, j | 0 <= i < j < |xs| ensures xs[i] != xs[j] {
          if i > 0 {
            assert xs[i] == rest[i - 1] && xs[j] == rest[j - 1];
          } else {
            assert xs[j] == rest[j - 1];
            assert xs[j] in rest;
          }
        }
      }
    }
  }

  /** Sorting distinct indices keeps them distinct. */
  lemma SortKeepsDistinct(xs: seq<nat>)
    requires Distinct(xs)
    ensures Distinct(SortDescending(xs))
  {
    DistinctMultiset(xs);
    DistinctMultiset(SortDescending(xs));
  }

  /** The values occurring in `xs`. */
  function IndexSet(xs: seq<nat>): (s: set<nat>)
    ensures forall i :: i in s <==> i in xs
  {
    set i | i in xs
  }

  /** `array.splice(index, 1)`: removes one element, or nothing when the
      index is past the end. */
  function Splice<T>(xs: seq<T>, index: nat): (r: seq<T>)
    ensures index < |xs| ==> |r| == |xs| - 1
    ensures index < |xs| ==> forall k :: 0 <= k < |r| ==> r[k] == (if k < index then xs[k] else xs[k + 1])
    ensures index >= |xs| ==> r == xs
  {
    if index < |xs| then xs[..index] + xs[index + 1..] else xs
  }

  /** The removal loop: splice once per index, in the given order. */
  function SpliceAll<T>(xs: seq<T>, order: seq<nat>): seq<T>
    decreases |order|
  {
    if |order| == 0 then xs
    else SpliceAll(Splice(xs, order[0]), order[1..])
  }

  /** The archive after restoring the entries at `selected`, as written. */
  function RemoveSelected<T>(entries: seq<T>, selected: seq<nat>): seq<T> {
    SpliceAll(entries, SortDescending(selected))
  }

  /** Reference definition: the entries whose index is not in `s`, in order. */
  function Without<T>(xs: seq<T>, s: set<nat>): seq<T>
    decreases |xs|
  {
    if |xs| == 0 then []
    else Without(xs[..|xs| - 1], s) + (if |xs| - 1 in s then [] else [xs[|xs| - 1]])
  }

  lemma {:induction false} WithoutAppend<T>(a: seq<T>, b: seq<T>, s: set<nat>)
    requires forall i :: i in s ==> i < |a|
    ensures Without(a + b, s) == Without(a, s) + b
    decreases |b|
  {
    if |b| > 0 {
      var init := b[..|b| - 1];
      assert (a + b)[..|a + b| - 1] == a + init;
      WithoutAppend(a, init, s);
      assert init + [b[|b| - 1]] == b;
    } else {
      assert a + b == a;
    }
  }

  lemma {:induction false} WithoutOnlyReadsIndices<T>(xs: seq<T>, s: set<nat>, s': set<nat>)
    requires forall i :: 0 <= i < |xs| ==> (i in s <==> i in s')
    ensures Without(xs, s) == Without(xs, s')
    decreases |xs|
  {
    if |xs| > 0 {
      WithoutOnlyReadsIndices(xs[..|xs| - 1], s, s');
    }
  }

  /** An element whose index is left out contributes nothing. */
  lemma WithoutLeftOutLast<T>(front: seq<T>, x: T, s: set<nat>)
    requires |front| in s
    ensures Without(front + [x], s) == Without(front, s)
  {
    assert (front + [x])[..|front|] == front;
  }

  /** Splicing out the largest index equals leaving it out. */
  lemma SpliceLargest<T>(xs: seq<T>, d: nat, s: set<nat>)
    requires d < |xs|
    requires forall i :: i in s ==> i < d
    ensures Without(Splice(xs, d), s) == Without(xs, s + {d})
  {
    var front := xs[..d];
    var back := xs[d + 1..];
    var upTo := front + [xs[d]];
    assert Splice(xs, d) == front + back;
    WithoutAppend(front, back, s);
    assert xs == upTo + back;
    WithoutAppend(upTo, back, s + {d});
    WithoutLeftOutLast(front, xs[d], s + {d});
    WithoutOnlyReadsIndices(front, s + {d}, s);
  }

  /** Splicing distinct indices from the largest down removes exactly those
      entries and keeps the others in order. */
  lemma {:induction false} SpliceDescendingIsWithout<T>(xs: seq<T>, order: seq<nat>)
    requires Descending(order) && Distinct(order)
    requires forall k :: 0 <= k < |order| ==> order[k] < |xs|
    ensures SpliceAll(xs, order) == Without(xs, IndexSet(order))
    ensures |SpliceAll(xs, order)| == |xs| - |order|
    decreases |order|
  {
    if |order| == 0 {
      WithoutOnlyReadsIndices(xs, {}, IndexSet(order));
      WithoutKeepsAll(xs);
    } else {
      var d := order[0];
      var rest := order[1..];
      assert forall k :: 0 <= k < |rest| ==> rest[k] < d by {
        forall k | 0 <= k < |rest| ensures rest[k] < d {
          assert order[k + 1] == rest[k];
        }
      }
      var spliced := Splice(xs, d);
      SpliceDescendingIsWithout(spliced, rest);
      SpliceLargest(xs, d, IndexSet(rest));
      assert IndexSet(order) == IndexSet(rest) + {d} by {
        assert order == [d] + rest;
      }
    }
  }

  lemma {:induction false} WithoutKeepsAll<T>(xs: seq<T>)
    ensures Without(xs, {}) == xs
    decreases |xs|
  {
    if |xs| > 0 {
      WithoutKeepsAll(xs[..|xs| - 1]);
      assert xs[..|xs| - 1] + [xs[|xs| - 1]] == xs;
    }
  }

  /** For distinct in-range indices, the archive loses exactly the selected
      entries. */
  lemma RemoveSelectedExact<T>(entries: seq<T>, selected: seq<nat>)
    requires Distinct(selected)
    requires forall i :: i in selected ==> i < |entries|
    ensures RemoveSelected(entries, selected) == Without(entries, IndexSet(selected))
    ensures |RemoveSelected(entries, selected)| == |entries| - |selected|
  {
    var order := SortDescending(selected);
    SortKeepsDistinct(selected);
    assert |order| == |selected| by {
      assert |multiset(order)| == |multiset(selected)|;
    }
    assert forall i :: i in order <==> i in selected by {
      forall i ensures i in order <==> i in selected {
        assert i in order <==> i in multiset(order);
        assert i in selected <==> i in multiset(selected);
      }
    }
    assert forall k :: 0 <= k < |order| ==> order[k] < |entries| by {
      forall k | 0 <= k < |order| ensures order[k] < |entries| {
        assert order[k] in selected;
      }
    }
    SpliceDescendingIsWithout(entries, order);
    assert IndexSet(order) == IndexSet(selected);
  }

  /** What one selective restore does: the entries reopened (one
      `chrome.tabs.create` each, in the order typed) and the archive written
      back. */
  datatype RestorePlan<T> = RestorePlan(reopened: seq<T>, remaining: seq<T>)

  function EntriesAt<T>(entries: seq<T>, indices: seq<nat>): (r: seq<T>)
    requires forall k :: 0 <= k < |indices| ==> indices[k] < |entries|
    ensures |r| == |indices|
    ensures forall k :: 0 <= k < |indices| ==> r[k] == entries[indices[k]]
  {
    seq(|indices|, k requires 0 <= k < |indices| => entries[indices[k]])
  }

  /** The working copy after `callbacks` restore callbacks have run. The
      completion test at popup/popup.js:238 holds on every callback, so each
      `tabs.create` callback sorts the indices and runs the removal loop
      again on the same copy, then writes that copy back. */
  function AfterCallbacks<T>(entries: seq<T>, selected: seq<nat>, callbacks: nat): seq<T>
    decreases callbacks
  {
    if callbacks == 0 then entries
    else RemoveSelected(AfterCallbacks(entries, selected, callbacks - 1), selected)
  }

  /** The archive's positions `0 .. n-1`, naming each entry by where it
      was stored. */
  function Positions(n: nat): (r: seq<nat>)
    ensures |r| == n
    ensures forall k :: 0 <= k < n ==> r[k] == k
  {
    seq(n, k requires 0 <= k < n => k)
  }

  predicate Increasing(xs: seq<nat>) {
    forall i, j :: 0 <= i < j < |xs| ==> xs[i] < xs[j]
  }

  lemma EntriesAtPositions<T>(entries: seq<T>)
    ensures EntriesAt(entries, Positions(|entries|)) == entries
  {
  }

  /** Splicing the entries read at some positions is reading the entries at
      the spliced positions. */
  lemma SpliceEntriesAt<T>(entries: seq<T>, at: seq<nat>, d: nat)
    requires forall k :: 0 <= k < |at| ==> at[k] < |entries|
    ensures forall k :: 0 <= k < |Splice<nat>(at, d)| ==> Splice<nat>(at, d)[k] < |entries|
    ensures EntriesAt(entries, Splice<nat>(at, d)) == Splice(EntriesAt(entries, at), d)
  {
  }

  lemma {:induction false} SpliceAllEntriesAt<T>(entries: seq<T>, at: seq<nat>, order: seq<nat>)
    requires forall k :: 0 <= k < |at| ==> at[k] < |entries|
    ensures forall k :: 0 <= k < |SpliceAll<nat>(at, order)| ==> SpliceAll<nat>(at, order)[k] < |entries|
    ensures EntriesAt(entries, SpliceAll<nat>(at, order)) == SpliceAll(EntriesAt(entries, at), order)
    decreases |order|
  {
    if |order| > 0 {
      SpliceEntriesAt(entries, at, order[0]);
      SpliceAllEntriesAt(entries, Splice<nat>(at, order[0]), order[1..]);
    }
  }

  /** Running the callbacks on the archive is running them on its positions
      and reading the entries at the positions that are left. */
  lemma {:induction false} AfterCallbacksEntriesAt<T>(entries: seq<T>, selected: seq<nat>, callbacks: nat)
    ensures var kept := AfterCallbacks<nat>(Positions(|entries|), selected, callbacks);
            && (forall k :: 0 <= k < |kept| ==> kept[k] < |entries|)
            && AfterCallbacks(entries, selected, callbacks) == EntriesAt(entries, kept)
    decreases callbacks
  {
    if callbacks == 0 {
      EntriesAtPositions(entries);
    } else {
      AfterCallbacksEntriesAt(entries, selected, callbacks - 1);
      var before := AfterCallbacks<nat>(Positions(|entries|), selected, callbacks - 1);
      SpliceAllEntriesAt(entries, before, SortDescending(selected));
    }
  }

  /** A splice only removes, and keeps increasing positions increasing. */
  lemma SpliceShrinks(at: seq<nat>, d: nat)
    ensures forall x :: x in Splice<nat>(at, d) ==> x in at
    ensures Increasing(at) ==> Increasing(Splice<nat>(at, d))
  {
    var r := Splice<nat>(at, d);
    forall x | x in r ensures x in at {
      var k :| 0 <= k < |r| && r[k] == x;
      if d < |at| && k >= d { assert at[k + 1] == x; } else { assert at[k] == x; }
    }
  }

  lemma {:induction false} SpliceAllShrinks(at: seq<nat>, order: seq<nat>)
    ensures forall x :: x in SpliceAll<nat>(at, order) ==> x in at
    ensures Increasing(at) ==> Increasing(SpliceAll<nat>(at, order))
    decreases |order|
  {
    if |order| > 0 {
      SpliceShrinks(at, order[0]);
      SpliceAllShrinks(Splice<nat>(at, order[0]), order[1..]);
    }
  }

  /** The rest of a descending sequence is descending and below its head. */
  lemma DescendingTail(order: seq<nat>)
    requires |order| > 0 && Descending(order)
    ensures Descending(order[1..])
    ensures forall k :: 0 <= k < |order| - 1 ==> order[1..][k] <= order[0]
  {
    forall k | 0 <= k < |order| - 1 ensures order[1..][k] <= order[0] {
      assert order[1..][k] == order[k + 1];
    }
  }

  /** Below the spliced index nothing moves. */
  lemma SpliceKeepsPrefix(at: seq<nat>, d: nat, bound: nat)
    requires d <= bound <= |at| && forall k :: 0 <= k < bound ==> at[k] == k
    ensures d < bound ==> d <= |Splice<nat>(at, d)|
    ensures d == bound ==> bound <= |Splice<nat>(at, d)|
    ensures forall k :: 0 <= k < d ==> Splice<nat>(at, d)[k] == k
  {
  }

  /** Splicing index `d` of increasing positions removes the position held
      there: no other entry holds it. */
  lemma SpliceDropsAt(at: seq<nat>, d: nat)
    requires Increasing(at) && d < |at|
    ensures at[d] !in Splice<nat>(at, d)
  {
    var next := Splice<nat>(at, d);
    forall k | 0 <= k < |next| ensures next[k] != at[d] {
      if k >= d { assert next[k] == at[k + 1]; } else { assert next[k] == at[k]; }
    }
  }

  /** Splicing positions in descending order, possibly with repeats, never
      leaves a position that was spliced. `bound` is the smallest index
      handled so far: below it nothing has moved, and it is itself gone. */
  lemma {:induction false} DescendingSpliceDrops(at: seq<nat>, order: seq<nat>, bound: nat)
    requires Increasing(at)
    requires bound <= |at| && forall k :: 0 <= k < bound ==> at[k] == k
    requires bound !in at
    requires Descending(order)
    requires forall k :: 0 <= k < |order| ==> order[k] <= bound
    ensures forall x :: x in SpliceAll<nat>(at, order) ==> x in at && x !in order
    decreases |order|
  {
    if |order| > 0 {
      var d := order[0];
      var rest := order[1..];
      var next := Splice<nat>(at, d);
      SpliceShrinks(at, d);
      DescendingTail(order);
      SpliceKeepsPrefix(at, d, bound);
      if d < bound {
        SpliceDropsAt(at, d);
        DescendingSpliceDrops(next, rest, d);
      } else {
        DescendingSpliceDrops(next, rest, bound);
      }
      assert order == [d] + rest;
    }
  }

  /** The first callback's removal pass over the archive's positions leaves
      increasing positions, none of them chosen. */
  lemma FirstPassDropsChosen(n: nat, selected: seq<nat>)
    requires forall i :: i in selected ==> i < n
    ensures forall x :: x in RemoveSelected<nat>(Positions(n), selected) ==> x < n && x !in selected
    ensures Increasing(RemoveSelected<nat>(Positions(n), selected))
  {
    var order := SortDescending(selected);
    assert forall i :: i in order <==> i in selected by {
      forall i ensures i in order <==> i in selected {
        assert i in order <==> i in multiset(order);
        assert i in selected <==> i in multiset(selected);
      }
    }
    forall k | 0 <= k < |order| ensures order[k] <= n {
      assert order[k] in order;
    }
    DescendingSpliceDrops(Positions(n), order, n);
    SpliceAllShrinks(Positions(n), order);
  }

  /** After one callback or more, the surviving positions are increasing and
      in range, and no chosen position survives; later callbacks can only
      remove more. */
  lemma {:induction false} CallbacksDropChosen(n: nat, selected: seq<nat>, callbacks: nat)
    requires callbacks > 0
    requires forall i :: i in selected ==> i < n
    ensures var kept := AfterCallbacks<nat>(Positions(n), selected, callbacks);
            && Increasing(kept)
            && forall k :: 0 <= k < |kept| ==> kept[k] < n && kept[k] !in selected
    decreases callbacks
  {
    var kept := AfterCallbacks<nat>(Positions(n), selected, callbacks);
    if callbacks == 1 {
      FirstPassDropsChosen(n, selected);
      assert AfterCallbacks<nat>(Positions(n), selected, 0) == Positions(n);
    } else {
      CallbacksDropChosen(n, selected, callbacks - 1);
      SpliceAllShrinks(AfterCallbacks<nat>(Positions(n), selected, callbacks - 1), SortDescending(selected));
    }
    forall k | 0 <= k < |kept| ensures kept[k] < n && kept[k] !in selected {
      assert kept[k] in kept;
    }
  }

  /** `showSelectiveRestore` after the prompt, as written: nothing happens
      when no index survives the range filter; otherwise the entry at each
      selected index is reopened, in typed order, and the archive ends as
      the last callback wrote it: entries at increasing positions, none of
      them chosen, with possibly more entries gone than were chosen. */
  function SelectiveRestore<T>(entries: seq<T>, parsed: seq<Option<int>>): (r: Option<RestorePlan<T>>)
    ensures r.Some? <==> exists v :: Some(v) in parsed && 1 <= v <= |entries|
    ensures r.Some? ==> |r.value.reopened| == |SelectIndices(parsed, |entries|)|
    ensures r.Some? ==> forall x :: x in r.value.reopened ==> x in entries
    ensures r.Some? ==>
              var selected := SelectIndices(parsed, |entries|);
              forall k :: 0 <= k < |selected| ==>
                selected[k] < |entries| && r.value.reopened[k] == entries[selected[k]]
    ensures r.Some? ==>
              var selected := SelectIndices(parsed, |entries|);
              var kept := AfterCallbacks<nat>(Positions(|entries|), selected, |selected|);
              && Increasing(kept)
              && (forall k :: 0 <= k < |kept| ==> kept[k] < |entries| && kept[k] !in selected)
              && r.value.remaining == EntriesAt(entries, kept)
  {
    var selected := SelectIndices(parsed, |entries|);
    SelectionNonEmpty(parsed, |entries|);
    if |selected| == 0 then None
    else
      InRange(selected, |entries|);
      CallbacksDropChosen(|entries|, selected, |selected|);
      AfterCallbacksEntriesAt(entries, selected, |selected|);
      Some(RestorePlan(EntriesAt(entries, selected), AfterCallbacks(entries, selected, |selected|)))
  }

  /** A restore with at least one chosen entry reopens the chosen entries
      and writes back what the callbacks leave. */
  lemma SelectiveRestoreUnfolds<T>(entries: seq<T>, parsed: seq<Option<int>>, selected: seq<nat>)
    requires SelectIndices(parsed, |entries|) == selected && |selected| > 0
    requires forall k :: 0 <= k < |selected| ==> selected[k] < |entries|
    ensures SelectiveRestore(entries, parsed)
            == Some(RestorePlan(EntriesAt(entries, selected), AfterCallbacks(entries, selected, |selected|)))
  {
  }

  /** When no index is selected twice, the first callback writes back
      exactly the entries that were not chosen. Pieces that name no entry
      may repeat. */
  lemma FirstWriteExact<T>(entries: seq<T>, parsed: seq<Option<int>>)
    requires Distinct(SelectIndices(parsed, |entries|))
    ensures var selected := SelectIndices(parsed, |entries|);
            AfterCallbacks(entries, selected, 1) == Without(entries, IndexSet(selected))
  {
    var selected := SelectIndices(parsed, |entries|);
    RemoveSelectedExact(entries, selected);
  }

  /** With a single valid number the as-written restore removes exactly the
      chosen entry. */
  lemma SingleChoiceIsExact<T>(entries: seq<T>, parsed: seq<Option<int>>)
    requires |SelectIndices(parsed, |entries|)| == 1
    ensures SelectiveRestore(entries, parsed).Some?
    ensures var selected := SelectIndices(parsed, |entries|);
            SelectiveRestore(entries, parsed).value.remaining == Without(entries, IndexSet(selected))
  {
    var selected := SelectIndices(parsed, |entries|);
    SelectionNonEmpty(parsed, |entries|);
    assert selected[0] in selected;
    RemoveSelectedExact(entries, selected);
  }

  lemma {:induction false} SelectIndicesDistinct(parsed: seq<Option<int>>, n: nat)
    requires Distinct(parsed)
    ensures Distinct(SelectIndices(parsed, n))
    decreases |parsed|
  {
    if |parsed| > 0 {
      var tail := parsed[1..];
      assert Distinct(tail) by {
        forall i, j | 0 <= i < j < |tail| ensures tail[i] != tail[j] {
          assert parsed[i + 1] != parsed[j + 1];
        }
      }
      SelectIndicesDistinct(tail, n);
      var rest := SelectIndices(tail, n);
      match parsed[0]
      case Some(v) =>
        if 0 <= v - 1 < n {
          assert Some(v) !in tail by {
            forall j | 0 <= j < |tail| ensures tail[j] != Some(v) {
              assert parsed[0] != parsed[j + 1];
            }
          }
          assert (v - 1) !in rest;
          var r := [v - 1] + rest;
          forall i, j | 0 <= i < j < |r| ensures r[i] != r[j] {
            if i == 0 { assert r[j] in rest; } else { assert r[i] == rest[i - 1] && r[j] == rest[j - 1]; }
          }
        }
      case None =>
    }
  }

  lemma RepeatedOneSelectsFirstTwice()
    ensures SelectIndices([Some(1), Some(1)], 3) == [0, 0]
  {
    var parsed := [Some(1), Some(1)];
    assert parsed[1..] == [Some(1)];
    assert [Some(1)][1..] == [];
    assert SelectIndices([], 3) == [];
    assert SelectIndices([Some(1)], 3) == [0];
  }

  lemma SplicingZeroTwice<T>(a: T, b: T, c: T)
    ensures RemoveSelected([a, b, c], [0, 0]) == [c]
  {
    assert [0][1..] == [];
    assert SortDescending([]) == [];
    assert SortDescending([0]) == [0];
    assert [0, 0][1..] == [0];
    assert SortDescending([0, 0]) == [0, 0];
    assert Splice([a, b, c], 0) == [b, c];
    assert Splice([b, c], 0) == [c];
    assert SpliceAll([c], []) == [c];
    assert SpliceAll([b, c], [0]) == [c];
  }

  lemma LeavingOutFirst()
    ensures Without([10, 20, 30], {0}) == [20, 30]
  {
    var entries := [10, 20, 30];
    assert entries[..2] == [10, 20];
    assert [10, 20][..1] == [10];
    assert [10][..0] == [];
    assert Without([10], {0}) == [];
    assert Without([10, 20], {0}) == [20];
  }

  lemma TwoCallbacksOverThree<T>(a: T, b: T, c: T)
    ensures AfterCallbacks([a, b, c], [0, 0], 1) == [c]
    ensures AfterCallbacks([a, b, c], [0, 0], 2) == []
  {
    SplicingZeroTwice(a, b, c);
    assert AfterCallbacks([a, b, c], [0, 0], 0) == [a, b, c];
    assert AfterCallbacks([a, b, c], [0, 0], 1) == [c];
    var none: seq<T> := [];
    assert Splice([c], 0) == none;
    assert Splice(none, 0) == none;
    assert [0][1..] == [];
    assert SpliceAll(none, []) == none;
    assert SpliceAll(none, [0]) == none;
    assert [0, 0][1..] == [0];
    assert SpliceAll([c], [0, 0]) == none;
    assert SortDescending([0, 0]) == [0, 0];
    assert RemoveSelected([c], [0, 0]) == none;
  }

  /** With `"1,1"` over any three entries the first entry is reopened twice
      and nothing is written back. */
  lemma RepeatedOneRestoresFirstTwice<T>(a: T, b: T, c: T)
    ensures SelectiveRestore([a, b, c], [Some(1), Some(1)]) == Some(RestorePlan([a, a], []))
  {
    TwoCallbacksOverThree(a, b, c);
    RepeatedOneSelectsFirstTwice();
    SelectiveRestoreUnfolds([a, b, c], [Some(1), Some(1)], [0, 0]);
    assert EntriesAt([a, b, c], [0, 0]) == [a, a];
  }

  /** Typing the same number twice: `"1,1"` over three entries reopens the
      first entry twice, and already the first callback splices index 0
      twice, so the second entry leaves the archive without being reopened;
      leaving out the chosen entry would keep it. */
  lemma RepeatedIndexLosesAnEntry()
    ensures AfterCallbacks([10, 20, 30], [0, 0], 1) == [30]
    ensures SelectiveRestore([10, 20, 30], [Some(1), Some(1)]) == Some(RestorePlan([10, 10], []))
    ensures Without([10, 20, 30], {0}) == [20, 30]
  {
    TwoCallbacksOverThree(10, 20, 30);
    LeavingOutFirst();
    RepeatedOneRestoresFirstTwice(10, 20, 30);
  }

  lemma SplicingOneThenZero()
    ensures RemoveSelected([10, 20, 30, 40, 50], [0, 1]) == [30, 40, 50]
    ensures RemoveSelected([30, 40, 50], [0, 1]) == [50]
  {
    assert [1][1..] == [];
    assert SortDescending([]) == [];
    assert SortDescending([1]) == [1];
    assert [0, 1][1..] == [1];
    assert InsertDescending(0, [1]) == [1] + InsertDescending(0, []);
    assert SortDescending([0, 1]) == [1, 0];
    assert [1, 0][1..] == [0];
    assert [0][1..] == [];
    assert Splice([10, 20, 30, 40, 50], 1) == [10, 30, 40, 50];
    assert Splice([10, 30, 40, 50], 0) == [30, 40, 50];
    assert SpliceAll([30, 40, 50], []) == [30, 40, 50];
    assert SpliceAll([10, 30, 40, 50], [0]) == [30, 40, 50];
    assert Splice([30, 40, 50], 1) == [30, 50];
    assert Splice([30, 50], 0) == [50];
    assert SpliceAll([50], []) == [50];
    assert SpliceAll([30, 50], [0]) == [50];
  }

  lemma LeavingOutFirstTwo()
    ensures Without([10, 20, 30, 40, 50], {0, 1}) == [30, 40, 50]
  {
    var s: set<nat> := {0, 1};
    var entries := [10, 20, 30, 40, 50];
    assert entries[..4] == [10, 20, 30, 40];
    assert [10, 20, 30, 40][..3] == [10, 20, 30];
    assert [10, 20, 30][..2] == [10, 20];
    assert [10, 20][..1] == [10];
    assert [10][..0] == [];
    assert Without([10], s) == [];
    assert Without([10, 20], s) == [];
    assert Without([10, 20, 30], s) == [30];
    assert Without([10, 20, 30, 40], s) == [30, 40];
  }

  lemma OneTwoSelectsFirstTwo()
    ensures SelectIndices([Some(1), Some(2)], 5) == [0, 1]
  {
    var parsed := [Some(1), Some(2)];
    assert parsed[1..] == [Some(2)];
    assert [Some(2)][1..] == [];
    assert SelectIndices([], 5) == [];
    assert SelectIndices([Some(2)], 5) == [1];
  }

  lemma TwoCallbacksOverFive()
    ensures AfterCallbacks([10, 20, 30, 40, 50], [0, 1], 2) == [50]
  {
    SplicingOneThenZero();
    assert AfterCallbacks([10, 20, 30, 40, 50], [0, 1], 1) == [30, 40, 50];
  }

  /** Choosing `"1,2"` of five entries: the first callback leaves the last
      three entries, and the second callback splices indices 1 and 0 again,
      so the archive ends with only the fifth entry although only two were
      reopened. */
  lemma EveryCallbackSplicesAgain()
    ensures SelectIndices([Some(1), Some(2)], 5) == [0, 1]
    ensures SelectiveRestore([10, 20, 30, 40, 50], [Some(1), Some(2)])
              == Some(RestorePlan([10, 20], [50]))
    ensures Without([10, 20, 30, 40, 50], {0, 1}) == [30, 40, 50]
  {
    OneTwoSelectsFirstTwo();
    TwoCallbacksOverFive();
    assert EntriesAt([10, 20, 30, 40, 50], [0, 1]) == [10, 20];
    LeavingOutFirstTwo();
  }

  /** Some typed number names an existing entry exactly when the selection
      is non-empty. */
  lemma SelectionNonEmpty(parsed: seq<Option<int>>, n: nat)
    ensures |SelectIndices(parsed, n)| > 0 <==> exists v :: Some(v) in parsed && 1 <= v <= n
  {
    var selected := SelectIndices(parsed, n);
    if |selected| > 0 {
      assert selected[0] in selected;
    } else {
      assert forall v :: Some(v) in parsed && 1 <= v <= n ==> (v - 1) in selected;
    }
  }

  lemma EntriesAtCovers<T>(entries: seq<T>, selected: seq<nat>)
    requires forall k :: 0 <= k < |selected| ==> selected[k] < |entries|
    ensures forall i :: i in selected ==> entries[i] in EntriesAt(entries, selected)
  {
    var reopened := EntriesAt(entries, selected);
    forall i | i in selected ensures entries[i] in reopened {
      var k :| 0 <= k < |selected| && selected[k] == i;
      assert reopened[k] == entries[i];
    }
  }

  lemma InRange(selected: seq<nat>, n: nat)
    requires forall i :: i in selected ==> i < n
    ensures forall k :: 0 <= k < |selected| ==> selected[k] < n
  {
    forall k | 0 <= k < |selected| ensures selected[k] < n {
      assert selected[k] in selected;
    }
  }

  /** Selective restore with repeated numbers ignored: each chosen entry is
      reopened once, and the archive loses exactly the chosen entries. */
  function SelectiveRestoreDeduplicated<T>(entries: seq<T>, parsed: seq<Option<int>>): (r: Option<RestorePlan<T>>)
    ensures r.Some? <==> exists v :: Some(v) in parsed && 1 <= v <= |entries|
    ensures r.Some? ==>
              var selected := SelectIndices(parsed, |entries|);
              && r.value.remaining == Without(entries, IndexSet(selected))
              && |r.value.reopened| + |r.value.remaining| == |entries|
              && (forall i :: i in selected ==> entries[i] in r.value.reopened)
  {
    var original := SelectIndices(parsed, |entries|);
    var selected := Dedup(original);
    SelectionNonEmpty(parsed, |entries|);
    if |original| == 0 then None
    else
      assert original[0] in selected;
      RemoveSelectedExact(entries, selected);
      assert IndexSet(selected) == IndexSet(original);
      InRange(selected, |entries|);
      EntriesAtCovers(entries, selected);
      Some(RestorePlan(EntriesAt(entries, selected), RemoveSelected(entries, selected)))
  }

  /** When no index is selected twice, the corrected restore writes back
      what the first callback of the original writes. */
  lemma DeduplicatedAgreesWithFirstWrite<T>(entries: seq<T>, parsed: seq<Option<int>>)
    requires Distinct(SelectIndices(parsed, |entries|))
    requires SelectiveRestoreDeduplicated(entries, parsed).Some?
    ensures SelectiveRestoreDeduplicated(entries, parsed).value.remaining
              == AfterCallbacks(entries, SelectIndices(parsed, |entries|), 1)
  {
    FirstWriteExact(entries, parsed);
  }
}
