/**
 The store visit order: `ordered_stores`, `parse_store_order_text`, and the
 reconciliation part of `load_store_order`. Each puts the stores a list names
 first, in the list's order, and then every other store sorted by lower-case key.
 */
module StoreOrder {
  import opened Text
  import opened Ordering

  const DefaultStoreOrder: seq<string> := ["Costco", "Walmart", "Indian Store", "Marianos"]

  /** The entries of `order` that are stores, each at its first occurrence. */
  function FirstSeen(order: seq<string>, stores: set<string>): (r: seq<string>)
    ensures Distinct(r)
    ensures forall s :: s in r <==> s in order && s in stores
  {
    if order == [] then []
    else
      var init := order[..|order| - 1];
      var p := FirstSeen(init, stores);
      var s := order[|order| - 1];
      assert order == init + [s];
      if s in stores && s !in p then p + [s] else p
  }

  /** Where `x` first occurs in `xs`. */
  function FirstIndex(xs: seq<string>, x: string): (k: nat)
    requires x in xs
    ensures k < |xs| && xs[k] == x
    ensures forall m :: 0 <= m < k ==> xs[m] != x
  {
    if xs[0] == x then 0
    else
      assert xs == [xs[0]] + xs[1..];
      var k := FirstIndex(xs[1..], x);
      assert forall m :: 1 <= m <= k ==> xs[m] == xs[1..][m - 1];
      1 + k
  }

  /** Extending a list does not move a first occurrence already in it. */
  lemma FirstIndexPrefix(a: seq<string>, b: seq<string>, x: string)
    requires x in a
    ensures FirstIndex(a + b, x) == FirstIndex(a, x)
  {
    var k1, k2 := FirstIndex(a + b, x), FirstIndex(a, x);
    assert (a + b)[k2] == x;
    assert k1 <= k2;
    assert a[k1] == (a + b)[k1];
  }

  /** Every entry of `r` occurs in `order`, and `r` lists them in the order of
      their first occurrences there. */
  predicate InFirstOccurrenceOrder(r: seq<string>, order: seq<string>) {
    && (forall x :: x in r ==> x in order)
    && forall i, j :: 0 <= i < j < |r| ==> FirstIndex(order, r[i]) < FirstIndex(order, r[j])
  }

  /** The stores come out in the order of their first occurrences in `order`. */
  lemma {:induction false} FirstSeenOrder(order: seq<string>, stores: set<string>)
    ensures InFirstOccurrenceOrder(FirstSeen(order, stores), order)
  {
    if order != [] {
      var init, s := order[..|order| - 1], order[|order| - 1];
      var p := FirstSeen(init, stores);
      FirstSeenOrder(init, stores);
      assert order == init + [s];
      OrderKeptByExtending(p, init, [s]);
      if s in stores && s !in p {
        assert s !in init;
        OrderKeptByNewLast(p, init, s);
      }
    }
  }

  lemma OrderKeptByExtending(r: seq<string>, a: seq<string>, b: seq<string>)
    requires InFirstOccurrenceOrder(r, a)
    ensures InFirstOccurrenceOrder(r, a + b)
  {
    forall i, j | 0 <= i < j < |r| ensures FirstIndex(a + b, r[i]) < FirstIndex(a + b, r[j]) {
      assert r[i] in r && r[j] in r;
      FirstIndexPrefix(a, b, r[i]);
      FirstIndexPrefix(a, b, r[j]);
    }
  }

  lemma OrderKeptByNewLast(r: seq<string>, a: seq<string>, s: string)
    requires InFirstOccurrenceOrder(r, a) && InFirstOccurrenceOrder(r, a + [s])
    requires s !in a
    ensures InFirstOccurrenceOrder(r + [s], a + [s])
  {
    var o, q := a + [s], r + [s];
    assert FirstIndex(o, s) == |a|;
    forall i, j | 0 <= i < j < |q| ensures FirstIndex(o, q[i]) < FirstIndex(o, q[j]) {
      assert q[i] == r[i] && r[i] in r;
      if j < |r| {
        assert q[j] == r[j];
      }
    }
  }

  /** `[s for s in order if s in stores]`: duplicates are kept. */
  function KnownOnly(order: seq<string>, stores: set<string>): (r: seq<string>)
    ensures forall s :: s in r <==> s in order && s in stores
  {
    if order == [] then []
    else
      var rest := KnownOnly(order[1..], stores);
      assert order == [order[0]] + order[1..];
      if order[0] in stores then [order[0]] + rest else rest
  }

  /** A listed prefix followed by the remaining stores, sorted. */
  lemma ListedThenRest(listed: seq<string>, stores: set<string>)
    requires forall s :: s in listed ==> s in stores
    ensures var r := listed + SortedSetOf(stores - Elems(listed));
      && (forall s :: s in r <==> s in stores)
      && (Distinct(listed) ==> Distinct(r))
  {
    var rest := SortedSetOf(stores - Elems(listed));
    StrictlySortedIsSortedAndDistinct(rest);
    var r := listed + rest;
    if Distinct(listed) {
      forall i, j | 0 <= i < j < |r| ensures r[i] != r[j] {
        if i < |listed| && j >= |listed| {
          assert r[i] in listed && r[j] in rest;
        }
      }
    }
  }

  /** The order `ordered_stores` produces: every store exactly once, the listed ones
      first in first-seen order, the others after them sorted by lower-case key. */
  ghost function StoresInVisitOrder(order: seq<string>, stores: set<string>): (r: seq<string>)
    ensures Distinct(r)
    ensures forall s :: s in r <==> s in stores
    ensures |FirstSeen(order, stores)| <= |r|
    ensures r[..|FirstSeen(order, stores)|] == FirstSeen(order, stores)
    ensures StrictlySorted(r[|FirstSeen(order, stores)|..])
    ensures SortedByKey(r[|FirstSeen(order, stores)|..])
  {
    var listed := FirstSeen(order, stores);
    var rest := SortedSetOf(stores - Elems(listed));
    ListedThenRest(listed, stores);
    StrictlySortedIsSortedAndDistinct(rest);
    assert (listed + rest)[|listed|..] == rest;
    listed + rest
  }

  /** The loop shared by the three: append, in sorted order, every store `out` lacks. */
  method AppendMissing(out: seq<string>, stores: set<string>) returns (r: seq<string>)
    ensures r == out + SortedSetOf(stores - Elems(out))
  {
    var sorted := SortSet(stores);
    var seen := Elems(out);
    r := out;
    ghost var rest: seq<string> := [];
    for j := 0 to |sorted|
      invariant r == out + rest
      invariant seen == Elems(out) + Elems(rest)
      invariant StrictlySorted(rest)
      invariant Elems(rest) == Elems(sorted[..j]) - Elems(out)
    {
      var s := sorted[j];
      AppendMissingStep(sorted, j, rest, out);
      if s !in seen {
        rest := rest + [s];
        r := r + [s];
        seen := seen + {s};
      }
    }
    assert sorted[..|sorted|] == sorted;
    SortedUniqueness(rest, SortedSetOf(stores - Elems(out)));
  }

  lemma AppendMissingStep(sorted: seq<string>, j: nat, rest: seq<string>, out: seq<string>)
    requires StrictlySorted(sorted) && j < |sorted|
    requires StrictlySorted(rest)
    requires Elems(rest) == Elems(sorted[..j]) - Elems(out)
    ensures var s := sorted[j];
      if s in Elems(out) + Elems(rest) then Elems(rest) == Elems(sorted[..j + 1]) - Elems(out)
      else StrictlySorted(rest + [s]) && Elems(rest + [s]) == Elems(sorted[..j + 1]) - Elems(out)
  {
    var s := sorted[j];
    assert sorted[..j + 1] == sorted[..j] + [s];
    if s !in Elems(out) + Elems(rest) {
      SortedAppend(sorted, j, rest);
    }
  }

  /** Appending the next element of a sorted sequence keeps a selection of its prefix sorted. */
  lemma SortedAppend(sorted: seq<string>, j: nat, rest: seq<string>)
    requires StrictlySorted(sorted) && j < |sorted|
    requires StrictlySorted(rest)
    requires forall x :: x in rest ==> x in sorted[..j]
    ensures StrictlySorted(rest + [sorted[j]])
  {
    forall i | 0 <= i < |rest| ensures Before(rest[i], sorted[j]) {
      assert rest[i] in rest;
      var k :| 0 <= k < j && sorted[k] == rest[i];
    }
  }

  /** `ordered_stores`. */
  method OrderedStores(storeOrder: seq<string>, stores: set<string>) returns (out: seq<string>)
    ensures out == StoresInVisitOrder(storeOrder, stores)
  {
    var seen: set<string> := {};
    out := [];
    for i := 0 to |storeOrder|
      invariant out == FirstSeen(storeOrder[..i], stores)
      invariant seen == Elems(out)
    {
      var s := storeOrder[i];
      assert storeOrder[..i + 1][..i] == storeOrder[..i];
      if s in stores && s !in seen {
        out := out + [s];
        seen := seen + {s};
      }
    }
    assert storeOrder[..|storeOrder|] == storeOrder;
    out := AppendMissing(out, stores);
  }

  /** Deduplicating a filtered list is deduplicating with the filter. */
  lemma {:induction false} FirstSeenKnownOnly(order: seq<string>, stores: set<string>)
    ensures FirstSeen(KnownOnly(order, stores), stores) == FirstSeen(order, stores)
  {
    if order != [] {
      var init := order[..|order| - 1];
      var s := order[|order| - 1];
      FirstSeenKnownOnly(init, stores);
      KnownOnlyAppend(init, [s], stores);
      assert order == init + [s];
      var k := KnownOnly(init, stores);
      if s in stores {
        assert KnownOnly([s], stores) == [s];
        assert KnownOnly(order, stores) == k + [s];
        assert (k + [s])[..|k|] == k;
      } else {
        assert KnownOnly([s], stores) == [];
        assert KnownOnly(order, stores) == k;
      }
    }
  }

  lemma {:induction false} KnownOnlyAppend(a: seq<string>, b: seq<string>, stores: set<string>)
    ensures KnownOnly(a + b, stores) == KnownOnly(a, stores) + KnownOnly(b, stores)
  {
    if a == [] {
      assert a + b == b;
    } else {
      assert (a + b)[0] == a[0] && (a + b)[1..] == a[1..] + b;
      KnownOnlyAppend(a[1..], b, stores);
    }
  }

  /** The names a typed order lists: one per line, normalized, empty lines dropped. */
  function OrderLines(text: string): (r: seq<string>)
    ensures forall i :: 0 <= i < |r| ==> IsName(r[i])
  {
    Cleaned(Split(text, LineBreaks))
  }

  /** Lines are read in the order they are typed. */
  lemma OrderLinesAppend(a: string, b: string)
    ensures OrderLines(a + "\n" + b) == OrderLines(a) + OrderLines(b)
  {
    SplitAtSeparator(a, '\n', b, LineBreaks);
    CleanedAppend(Split(a, LineBreaks), Split(b, LineBreaks));
  }

  /** A single line gives its normalized text, or nothing when that is empty. */
  lemma OrderLinesOfLine(line: string)
    requires forall i :: 0 <= i < |line| ==> line[i] !in LineBreaks
    ensures OrderLines(line) == if Normalize(line) == [] then [] else [Normalize(line)]
  {
    SplitOfPlain(line, [], LineBreaks);
    assert line + [] == line;
    assert Split([], LineBreaks) == [[]];
    assert Split(line, LineBreaks) == [line];
  }

  /** `parse_store_order_text`. */
  method ParseStoreOrderText(text: string, stores: set<string>) returns (out: seq<string>)
    ensures out == StoresInVisitOrder(OrderLines(text), stores)
  {
    var lines := KnownOnly(Cleaned(Split(text, LineBreaks)), stores);
    out := KeepFirst(lines, stores);
    FirstSeenKnownOnly(OrderLines(text), stores);
    out := AppendMissing(out, stores);
  }

  /** Lines 339-343: the first occurrence of each entry of a list of stores. */
  method KeepFirst(lines: seq<string>, stores: set<string>) returns (out: seq<string>)
    requires forall s :: s in lines ==> s in stores
    ensures out == FirstSeen(lines, stores)
  {
    out := [];
    var seen: set<string> := {};
    for i := 0 to |lines|
      invariant out == FirstSeen(lines[..i], stores)
      invariant seen == Elems(out)
    {
      var s := lines[i];
      FirstSeenStep(lines, i, stores);
      if s !in seen {
        out := out + [s];
        seen := seen + {s};
      }
    }
    assert lines[..|lines|] == lines;
  }

  /** One more entry of a list of stores is kept exactly when it was not seen before. */
  lemma FirstSeenStep(lines: seq<string>, i: int, stores: set<string>)
    requires 0 <= i < |lines|
    requires lines[i] in stores
    ensures FirstSeen(lines[..i + 1], stores) ==
      (var p := FirstSeen(lines[..i], stores); if lines[i] in p then p else p + [lines[i]])
  {
    assert lines[..i + 1][..i] == lines[..i];
  }

  /** The order shown in the text box, one store per line, reads back unchanged. */
  lemma ParseShownOrder(order: seq<string>, stores: set<string>)
    requires Distinct(order)
    requires forall s :: s in order <==> s in stores
    requires forall i :: 0 <= i < |order| ==> IsName(order[i])
    ensures StoresInVisitOrder(OrderLines(Join(order, "\n")), stores) == order
  {
    var text := Join(order, "\n");
    if order == [] {
      assert Split(text, LineBreaks) == [[]];
    } else {
      NamesHaveNoLineBreak(order);
      SplitOfJoin(order, '\n', LineBreaks);
      assert Split(text, LineBreaks) == order;
      CleanedNames(order);
    }
    assert OrderLines(text) == order;
    CompleteOrderKept(order, stores);
  }

  lemma NamesHaveNoLineBreak(names: seq<string>)
    requires forall i :: 0 <= i < |names| ==> IsName(names[i])
    ensures forall k, i :: 0 <= k < |names| && 0 <= i < |names[k]| ==> names[k][i] !in LineBreaks
  {
    forall k | 0 <= k < |names| ensures forall i :: 0 <= i < |names[k]| ==> names[k][i] !in LineBreaks {
      NameHasNoLineBreak(names[k]);
    }
  }

  /** Names are their own cleaned form. */
  lemma {:induction false} CleanedNames(names: seq<string>)
    requires forall i :: 0 <= i < |names| ==> IsName(names[i])
    ensures Cleaned(names) == names
  {
    if names != [] {
      NormalIsFixed(names[0]);
      CleanedNames(names[1..]);
      assert names == [names[0]] + names[1..];
    }
  }

  /** An order that already lists every store once is kept as it is. */
  lemma CompleteOrderKept(order: seq<string>, stores: set<string>)
    requires Distinct(order)
    requires forall s :: s in order <==> s in stores
    ensures StoresInVisitOrder(order, stores) == order
  {
    FirstSeenOfDistinct(order, stores);
    assert stores - Elems(order) == {};
    assert SortedSetOf({}) == [];
  }

  lemma {:induction false} FirstSeenOfDistinct(order: seq<string>, stores: set<string>)
    requires Distinct(order)
    requires forall s :: s in order ==> s in stores
    ensures FirstSeen(order, stores) == order
  {
    if order != [] {
      var init := order[..|order| - 1];
      assert Distinct(init);
      FirstSeenOfDistinct(init, stores);
      assert order[|order| - 1] !in init;
      assert order == init + [order[|order| - 1]];
    }
  }

  /** The visit order `load_store_order` settles on: the persisted list (normalized,
      empty entries dropped), or the default order when that is empty, restricted to
      existing stores (duplicates kept), then every missing store sorted. */
  ghost function ReconciledOrder(persisted: seq<string>, stores: set<string>): (r: seq<string>)
    ensures forall s :: s in r <==> s in stores
  {
    var seed := if Cleaned(persisted) == [] then DefaultStoreOrder else Cleaned(persisted);
    var kept := KnownOnly(seed, stores);
    ListedThenRest(kept, stores);
    kept + SortedSetOf(stores - Elems(kept))
  }

  /** Lines 130 and 134-146 of `load_store_order`, from the already-read list. */
  method ReconcileStoreOrder(persisted: seq<string>, stores: set<string>) returns (order: seq<string>)
    ensures order == ReconciledOrder(persisted, stores)
  {
    order := Cleaned(persisted);
    if order == [] {
      order := DefaultStoreOrder;
    }
    order := KnownOnly(order, stores);
    order := AppendMissing(order, stores);
  }

  /** With no persisted order and none of the default stores, the stores come alphabetically. */
  lemma DefaultsDroppedExample()
    ensures ReconciledOrder([], {"Zed", "Alpha"}) == ["Alpha", "Zed"]
  {
    var stores := {"Zed", "Alpha"};
    var kept := KnownOnly(DefaultStoreOrder, stores);
    assert kept == [];
    assert Before("Alpha", "Zed") by {
      assert Lower("Alpha")[0] == 'a' && Lower("Zed")[0] == 'z';
    }
    SortedUniqueness(["Alpha", "Zed"], SortedSetOf(stores - Elems(kept)));
  }

  /** Reconciling is stable: reconciling the settled order again, against the same
      stores, returns it unchanged. */
  lemma ReconcileStable(persisted: seq<string>, stores: set<string>)
    requires forall s :: s in stores ==> IsName(s)
    ensures ReconciledOrder(ReconciledOrder(persisted, stores), stores) == ReconciledOrder(persisted, stores)
  {
    var r := ReconciledOrder(persisted, stores);
    if r == [] {
      assert stores == {};
      KnownOnlyNone(DefaultStoreOrder);
    } else {
      CompleteListKept(r, stores);
    }
  }

  /** A non-empty order that lists exactly the stores reconciles to itself. */
  lemma CompleteListKept(order: seq<string>, stores: set<string>)
    requires order != []
    requires forall s :: s in stores ==> IsName(s)
    requires forall s :: s in order <==> s in stores
    ensures ReconciledOrder(order, stores) == order
  {
    ListedNamesClean(order, stores);
    KnownOnlyAll(order, stores);
    assert stores - Elems(order) == {};
    assert SortedSetOf({}) == [];
  }

  lemma ListedNamesClean(order: seq<string>, stores: set<string>)
    requires forall s :: s in stores ==> IsName(s)
    requires forall s :: s in order ==> s in stores
    ensures Cleaned(order) == order
  {
    forall i | 0 <= i < |order| ensures IsName(order[i]) {
      assert order[i] in stores;
    }
    CleanedNames(order);
  }

  lemma {:induction false} KnownOnlyAll(order: seq<string>, stores: set<string>)
    requires forall s :: s in order ==> s in stores
    ensures KnownOnly(order, stores) == order
  {
    if order != [] {
      KnownOnlyAll(order[1..], stores);
      assert order == [order[0]] + order[1..];
    }
  }

  lemma {:induction false} KnownOnlyNone(order: seq<string>)
    ensures KnownOnly(order, {}) == []
  {
    if order != [] {
      KnownOnlyNone(order[1..]);
    }
  }
}
