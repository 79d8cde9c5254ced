/**
 The catalog: store -> category -> item names. The six in-place
 operations of the app (`add_store`, `add_category`, `add_items`, `remove_item`,
 `remove_category`, `remove_store`) are each specified by a function on the
 catalog value and carried out by a method of class `Catalog`; `convert_legacy_shape`
 turns a parsed catalog document into this shape.
 */
module Catalog {
  import opened Text
  import opened Ordering

  type Categories = map<string, seq<string>>
  type Stores = map<string, Categories>

  const Uncategorized: string := "Uncategorized"

  /** What a new or emptied store holds: one empty "Uncategorized" category. */
  const EmptyStore: Categories := map[Uncategorized := []]

  /** The add-items text is split at commas and at newlines (which the app first turns into commas). */
  const ItemSeparators: set<char> := {',', '\n'}

  /** An item list as the app keeps it: distinct non-empty normalized names. The lists
      the app builds itself (by `convert_legacy_shape` and `add_items`) are also sorted,
      but the built-in catalog's are not, so sortedness is not part of the invariant. */
  predicate IsItemList(items: seq<string>) {
    Distinct(items) && forall i :: 0 <= i < |items| ==> IsName(items[i])
  }

  /** A store's categories: at least one, each a name with an item list. */
  predicate IsCategories(cats: Categories) {
    |cats| >= 1 && forall c :: c in cats ==> IsName(c) && IsItemList(cats[c])
  }

  /** The catalog invariant: store names are names and every store has categories. */
  predicate WellFormed(s: Stores) {
    forall st :: st in s ==> IsName(st) && IsCategories(s[st])
  }

  lemma EmptyStoreIsCategories()
    ensures IsName(Uncategorized) && IsCategories(EmptyStore)
  {
    WordIsName(Uncategorized);
    assert Uncategorized in EmptyStore;
  }

  /** `DEFAULT_STORES`: the catalog the app starts from when there is no data file. */
  const DefaultStores: Stores := map[
    "Costco" := map[
      "Bakery" := ["Bread", "Ritz Crackers"],
      "Dairy" := ["Eggs", "Milk", "Cheese", "Butter", "Dahi"],
      "Meat & Frozen" := ["Chicken", "Chicken nuggets"],
      "Pantry & Snacks" := ["Chips", "Juice", "Nuts", "Cooking oil"],
      "Household" := ["Toilet Paper", "Paper Towel"]],
    "Walmart" := map[
      "Pantry" := ["Tortillas", "Beans", "Pasta Noodles", "Sauces", "Sugar"],
      "Dairy" := ["Sour cream"],
      "Produce" := ["Veggies", "Fruits", "Tomato", "Potato", "Bell peppers", "Onion"]],
    "Indian Store" := map[
      "Staples" := ["Rice", "Daal", "Pulses"],
      "Spices" := ["Masalas"],
      "Convenience" := ["Maggie noodles", "Mango pulp"]],
    "Marianos" := map[Uncategorized := []]]

  /** Its lists are not sorted: "Milk" comes before "Cheese" in Costco's "Dairy". */
  lemma DefaultListsUnsorted()
    ensures !StrictlySorted(DefaultStores["Costco"]["Dairy"])
  {
    var dairy := DefaultStores["Costco"]["Dairy"];
    assert dairy[1] == "Milk" && dairy[2] == "Cheese";
    assert LexLt(Lower("Cheese"), Lower("Milk"));
  }

  /** `normalize_name(category) or "Uncategorized"`. */
  function CategoryName(name: string): (c: string)
    ensures IsName(c)
    ensures Normalize(name) != [] ==> c == Normalize(name)
    ensures Normalize(name) == [] ==> c == Uncategorized
  {
    EmptyStoreIsCategories();
    var n := Normalize(name);
    if n == [] then Uncategorized else n
  }

  /** The item names typed into the add-items box. */
  function NewItems(text: string): (r: seq<string>)
    ensures forall i :: 0 <= i < |r| ==> IsName(r[i])
  {
    Cleaned(Split(text, ItemSeparators))
  }

  /** Splitting at both separators is the app's newline-to-comma replace followed by a comma split. */
  lemma NewItemsAsTyped(text: string)
    ensures NewItems(text) == Cleaned(Split(Replace(text, '\n', ','), {','}))
  {
    SplitReplaced(text, '\n', ',');
    assert ItemSeparators == {'\n', ','};
  }

  /** `add_store`: a new store with one empty category, unless the normalized name is empty or taken. */
  function WithStore(s: Stores, name: string): (r: Stores)
    ensures var n := Normalize(name);
      if n == [] || n in s then r == s
      else r.Keys == s.Keys + {n} && r[n] == EmptyStore && forall k :: k in s ==> r[k] == s[k]
  {
    var n := Normalize(name);
    if n != [] && n !in s then s[n := EmptyStore] else s
  }

  /** `add_category`: an empty category in a known store, unless it is already there. */
  function WithCategory(s: Stores, store: string, category: string): (r: Stores)
    ensures var st, c := Normalize(store), CategoryName(category);
      if st !in s || c in s[st] then r == s
      else
        && r.Keys == s.Keys
        && r[st].Keys == s[st].Keys + {c} && r[st][c] == []
        && (forall k :: k in s[st] ==> r[st][k] == s[st][k])
        && (forall k :: k in s && k != st ==> r[k] == s[k])
  {
    var st, c := Normalize(store), CategoryName(category);
    if st in s && c !in s[st] then s[st := s[st][c := []]] else s
  }

  /** `add_items`: the category (created if absent) becomes the sorted union of its
      items and the names typed in. */
  ghost function WithItems(s: Stores, store: string, category: string, text: string): (r: Stores)
    ensures r.Keys == s.Keys
    ensures Normalize(store) !in s ==> r == s
  {
    var st, c := Normalize(store), CategoryName(category);
    if st !in s then s
    else
      var before := if c in s[st] then s[st][c] else [];
      s[st := s[st][c := SortedSetOf(Elems(before) + Elems(NewItems(text)))]]
  }

  /** What `add_items` does: the category holds the old items and the typed names,
      sorted by lower-case key without repeats; nothing else changes. */
  lemma WithItemsEffect(s: Stores, store: string, category: string, text: string)
    ensures var r, st, c := WithItems(s, store, category, text), Normalize(store), CategoryName(category);
      if st !in s then r == s
      else
        && r.Keys == s.Keys
        && r[st].Keys == s[st].Keys + {c}
        && StrictlySorted(r[st][c]) && SortedByKey(r[st][c]) && Distinct(r[st][c])
        && (forall x :: x in r[st][c] <==> (c in s[st] && x in s[st][c]) || x in NewItems(text))
        && (forall k :: k in s[st] && k != c ==> r[st][k] == s[st][k])
        && (forall k :: k in s && k != st ==> r[k] == s[k])
  {
    var st, c := Normalize(store), CategoryName(category);
    if st in s {
      var r := WithItems(s, store, category, text);
      StrictlySortedIsSortedAndDistinct(r[st][c]);
    }
  }

  /** Typing the same names into the same category again changes nothing. */
  lemma WithItemsIdempotent(s: Stores, store: string, category: string, text: string)
    ensures WithItems(WithItems(s, store, category, text), store, category, text) ==
      WithItems(s, store, category, text)
  {
    var st, c := Normalize(store), CategoryName(category);
    if st in s {
      var before := if c in s[st] then s[st][c] else [];
      MergeAgain(before, NewItems(text));
      WithItemsUnchanged(WithItems(s, store, category, text), store, category, text);
    }
  }

  /** A category that already holds the merge of its items with the typed names is left alone. */
  lemma WithItemsUnchanged(s: Stores, store: string, category: string, text: string)
    requires var st, c := Normalize(store), CategoryName(category);
      st in s && c in s[st] && SortedSetOf(Elems(s[st][c]) + Elems(NewItems(text))) == s[st][c]
    ensures WithItems(s, store, category, text) == s
  {
    var st, c := Normalize(store), CategoryName(category);
    assert s[st][c := s[st][c]] == s[st];
  }

  /** Merging the same names into a merged list gives that list back. */
  lemma MergeAgain(before: seq<string>, names: seq<string>)
    ensures var merged := SortedSetOf(Elems(before) + Elems(names));
      SortedSetOf(Elems(merged) + Elems(names)) == merged
  {
    var merged := SortedSetOf(Elems(before) + Elems(names));
    assert Elems(merged) + Elems(names) == Elems(before) + Elems(names);
  }

  /** `[x for x in xs if x != item]`. */
  function RemoveAll(xs: seq<string>, item: string): (r: seq<string>)
    ensures forall y :: y in r <==> y in xs && y != item
    ensures multiset(r) == multiset(xs)[item := 0]
  {
    if xs == [] then []
    else
      var rest := RemoveAll(xs[1..], item);
      assert xs == [xs[0]] + xs[1..];
      assert multiset(xs) == multiset{xs[0]} + multiset(xs[1..]);
      if xs[0] == item then rest else [xs[0]] + rest
  }

  /** Removing an item keeps a sorted list sorted. */
  lemma {:induction false} RemoveAllSorted(xs: seq<string>, item: string)
    requires StrictlySorted(xs)
    ensures StrictlySorted(RemoveAll(xs, item))
  {
    if xs != [] {
      RemoveAllSorted(xs[1..], item);
      SortedCons(xs, RemoveAll(xs[1..], item));
    }
  }

  /** Removing an item keeps a list free of repeats. */
  lemma {:induction false} RemoveAllDistinct(xs: seq<string>, item: string)
    requires Distinct(xs)
    ensures Distinct(RemoveAll(xs, item))
  {
    if xs != [] {
      var rest := RemoveAll(xs[1..], item);
      assert Distinct(xs[1..]);
      RemoveAllDistinct(xs[1..], item);
      if xs[0] != item {
        assert xs[0] !in xs[1..];
        DistinctCons(xs[0], rest);
      }
    }
  }

  lemma DistinctCons(x: string, rest: seq<string>)
    requires Distinct(rest) && x !in rest
    ensures Distinct([x] + rest)
  {
    var r := [x] + rest;
    forall i, j | 0 <= i < j < |r| ensures r[i] != r[j] {
      assert r[j] == rest[j - 1];
      if i > 0 {
        assert r[i] == rest[i - 1];
      }
    }
  }

  /** Putting the head of a sorted list in front of a sorted selection of its tail keeps it sorted. */
  lemma SortedCons(xs: seq<string>, rest: seq<string>)
    requires xs != []
    requires forall y :: y in rest ==> y in xs[1..]
    requires StrictlySorted(xs[1..]) ==> StrictlySorted(rest)
    ensures StrictlySorted(xs) ==> StrictlySorted([xs[0]] + rest)
  {
    if StrictlySorted(xs) {
      assert StrictlySorted(xs[1..]);
      forall j | 0 <= j < |rest| ensures Before(xs[0], rest[j]) {
        assert rest[j] in rest;
      }
    }
  }

  /** Filtering distributes over concatenation, so the kept items stay in their order. */
  lemma {:induction false} RemoveAllAppend(a: seq<string>, b: seq<string>, item: string)
    ensures RemoveAll(a + b, item) == RemoveAll(a, item) + RemoveAll(b, item)
  {
    if a == [] {
      assert a + b == b;
    } else {
      assert (a + b)[0] == a[0];
      assert (a + b)[1..] == a[1..] + b;
      RemoveAllAppend(a[1..], b, item);
    }
  }

  /** `remove_item`: names are matched exactly, without normalizing. */
  function WithoutItem(s: Stores, store: string, category: string, item: string): (r: Stores)
    ensures store !in s || category !in s[store] ==> r == s
    ensures store in s && category in s[store] ==>
      && r.Keys == s.Keys && r[store].Keys == s[store].Keys
      && item !in r[store][category]
      && multiset(r[store][category]) == multiset(s[store][category])[item := 0]
      && (forall k :: k in s[store] && k != category ==> r[store][k] == s[store][k])
      && (forall k :: k in s && k != store ==> r[k] == s[k])
  {
    if store in s && category in s[store] then
      s[store := s[store][category := RemoveAll(s[store][category], item)]]
    else s
  }

  /** `remove_category`: a store's last category is replaced by an empty
      "Uncategorized" one, so no store is ever left without categories. */
  function WithoutCategory(s: Stores, store: string, category: string): (r: Stores)
    ensures store !in s || category !in s[store] ==> r == s
    ensures store in s && category in s[store] ==>
      && r.Keys == s.Keys
      && |r[store]| >= 1
      && (|s[store]| > 1 ==> r[store] == s[store] - {category})
      && (|s[store]| == 1 ==> r[store] == EmptyStore)
      && (forall k :: k in s && k != store ==> r[k] == s[k])
  {
    if store in s && category in s[store] then
      if |s[store]| > 1 then
        assert |s[store] - {category}| == |s[store]| - 1;
        s[store := s[store] - {category}]
      else s[store := EmptyStore]
    else s
  }

  /** `remove_store`: exactly that key goes. */
  function WithoutStore(s: Stores, store: string): (r: Stores)
    ensures r.Keys == s.Keys - {store}
    ensures forall k :: k in r ==> r[k] == s[k]
  {
    s - {store}
  }

  lemma WellFormedUpdate(s: Stores, st: string, cats: Categories)
    requires IsName(st) && IsCategories(cats)
    ensures WellFormed(s) ==> WellFormed(s[st := cats])
  {
  }

  lemma CategoriesUpdate(cats: Categories, c: string, items: seq<string>)
    requires IsName(c) && IsItemList(items)
    ensures IsCategories(cats) ==> IsCategories(cats[c := items])
  {
    assert c in cats[c := items];
  }

  /** Every catalog operation keeps the catalog invariant. */
  lemma WithStoreKeepsWellFormed(s: Stores, name: string)
    requires WellFormed(s)
    ensures WellFormed(WithStore(s, name))
  {
    var n := Normalize(name);
    if n != [] && n !in s {
      EmptyStoreIsCategories();
      WellFormedUpdate(s, n, EmptyStore);
    }
  }

  lemma WithCategoryKeepsWellFormed(s: Stores, store: string, category: string)
    requires WellFormed(s)
    ensures WellFormed(WithCategory(s, store, category))
  {
    var st, c := Normalize(store), CategoryName(category);
    if st in s && c !in s[st] {
      CategoriesUpdate(s[st], c, []);
      WellFormedUpdate(s, st, s[st][c := []]);
    }
  }

  lemma WithItemsKeepsWellFormed(s: Stores, store: string, category: string, text: string)
    requires WellFormed(s)
    ensures WellFormed(WithItems(s, store, category, text))
  {
    var st, c := Normalize(store), CategoryName(category);
    if st in s {
      var before := if c in s[st] then s[st][c] else [];
      var items := SortedSetOf(Elems(before) + Elems(NewItems(text)));
      assert IsItemList(before);
      MergedIsItemList(before, NewItems(text));
      CategoriesUpdate(s[st], c, items);
      WellFormedUpdate(s, st, s[st][c := items]);
    }
  }

  /** Merging names into an item list gives an item list. */
  lemma MergedIsItemList(before: seq<string>, names: seq<string>)
    requires forall i :: 0 <= i < |before| ==> IsName(before[i])
    requires forall i :: 0 <= i < |names| ==> IsName(names[i])
    ensures IsItemList(SortedSetOf(Elems(before) + Elems(names)))
  {
    var items := SortedSetOf(Elems(before) + Elems(names));
    StrictlySortedIsSortedAndDistinct(items);
    forall i | 0 <= i < |items| ensures IsName(items[i]) {
      assert items[i] in items;
      if items[i] in before {
        var j :| 0 <= j < |before| && before[j] == items[i];
      } else {
        var j :| 0 <= j < |names| && names[j] == items[i];
      }
    }
  }

  lemma WithoutItemKeepsWellFormed(s: Stores, store: string, category: string, item: string)
    requires WellFormed(s)
    ensures WellFormed(WithoutItem(s, store, category, item))
  {
    if store in s && category in s[store] {
      var kept := RemoveAll(s[store][category], item);
      RemoveAllDistinct(s[store][category], item);
      assert IsItemList(kept) by {
        forall i | 0 <= i < |kept| ensures IsName(kept[i]) {
          assert kept[i] in kept;
          var j :| 0 <= j < |s[store][category]| && s[store][category][j] == kept[i];
        }
      }
      CategoriesUpdate(s[store], category, kept);
      WellFormedUpdate(s, store, s[store][category := kept]);
    }
  }

  lemma WithoutCategoryKeepsWellFormed(s: Stores, store: string, category: string)
    requires WellFormed(s)
    ensures WellFormed(WithoutCategory(s, store, category))
  {
    if store in s && category in s[store] {
      if |s[store]| > 1 {
        var cats := s[store] - {category};
        assert |cats| == |s[store]| - 1;
        forall c | c in cats ensures IsName(c) && IsItemList(cats[c]) {
          assert c in s[store];
        }
        WellFormedUpdate(s, store, cats);
      } else {
        EmptyStoreIsCategories();
        WellFormedUpdate(s, store, EmptyStore);
      }
    }
  }

  lemma WithoutStoreKeepsWellFormed(s: Stores, store: string)
    requires WellFormed(s)
    ensures WellFormed(WithoutStore(s, store))
  {
  }

  /** `sorted(set(items) | set(newItems), key=str.lower)`, as `add_items` builds it. */
  method MergeItems(items: seq<string>, newItems: seq<string>) returns (sorted: seq<string>)
    ensures sorted == SortedSetOf(Elems(items) + Elems(newItems))
  {
    var merged := Elems(items);
    for i := 0 to |newItems|
      invariant merged == Elems(items) + Elems(newItems[..i])
    {
      assert newItems[..i + 1] == newItems[..i] + [newItems[i]];
      merged := merged + {newItems[i]};
    }
    assert newItems[..|newItems|] == newItems;
    sorted := SortSet(merged);
  }

  /** Updating one key of two maps that agree on every other key gives the same map. */
  lemma SameUpdate(prev: Categories, cats: Categories, c: string, v: seq<string>)
    requires cats.Keys == prev.Keys + {c}
    requires forall k :: k in prev ==> cats[k] == prev[k]
    ensures cats[c := v] == prev[c := v]
  {
  }

  lemma AddItemsStep(s: Stores, store: string, category: string, text: string,
                     cats: Categories, sorted: seq<string>)
    requires Normalize(store) in s
    requires var st, c := Normalize(store), CategoryName(category);
      && cats.Keys == s[st].Keys + {c}
      && (forall k :: k in s[st] ==> cats[k] == s[st][k])
      && (c !in s[st] ==> cats[c] == [])
      && sorted == SortedSetOf(Elems(cats[c]) + Elems(NewItems(text)))
    ensures var st, c := Normalize(store), CategoryName(category);
      s[st := cats[c := sorted]] == WithItems(s, store, category, text)
    ensures WellFormed(s) ==> WellFormed(s[Normalize(store) := cats[CategoryName(category) := sorted]])
  {
    var st, c := Normalize(store), CategoryName(category);
    SameUpdate(s[st], cats, c, sorted);
    if WellFormed(s) {
      WithItemsKeepsWellFormed(s, store, category, text);
    }
  }

  /** The in-memory catalog the app's forms change. */
  class Catalog {
    var stores: Stores

    constructor (initial: Stores)
      ensures stores == initial
    {
      stores := initial;
    }

    method AddStore(name: string)
      modifies this
      ensures stores == WithStore(old(stores), name)
      ensures old(WellFormed(stores)) ==> WellFormed(stores)
    {
      if WellFormed(stores) {
        WithStoreKeepsWellFormed(stores, name);
      }
      var n := Normalize(name);
      if n != [] && n !in stores {
        stores := stores[n := EmptyStore];
      }
    }

    method AddCategory(store: string, category: string)
      modifies this
      ensures stores == WithCategory(old(stores), store, category)
      ensures old(WellFormed(stores)) ==> WellFormed(stores)
    {
      if WellFormed(stores) {
        WithCategoryKeepsWellFormed(stores, store, category);
      }
      var st := Normalize(store);
      var c := CategoryName(category);
      if st in stores && c !in stores[st] {
        stores := stores[st := stores[st][c := []]];
      }
    }

    method AddItems(store: string, category: string, text: string)
      modifies this
      ensures stores == WithItems(old(stores), store, category, text)
      ensures old(WellFormed(stores)) ==> WellFormed(stores)
    {
      var st := Normalize(store);
      var c := CategoryName(category);
      if st !in stores {
        return;
      }
      var cats := stores[st];
      if c !in cats {
        cats := cats[c := []];
      }
      var sorted := MergeItems(cats[c], NewItems(text));
      AddItemsStep(stores, store, category, text, cats, sorted);
      stores := stores[st := cats[c := sorted]];
    }

    method RemoveItem(store: string, category: string, item: string)
      modifies this
      ensures stores == WithoutItem(old(stores), store, category, item)
      ensures old(WellFormed(stores)) ==> WellFormed(stores)
    {
      if WellFormed(stores) {
        WithoutItemKeepsWellFormed(stores, store, category, item);
      }
      if store in stores && category in stores[store] {
        var kept := RemoveAll(stores[store][category], item);
        stores := stores[store := stores[store][category := kept]];
      }
    }

    method RemoveCategory(store: string, category: string)
      modifies this
      ensures stores == WithoutCategory(old(stores), store, category)
      ensures old(WellFormed(stores)) ==> WellFormed(stores)
    {
      if WellFormed(stores) {
        WithoutCategoryKeepsWellFormed(stores, store, category);
      }
      if store in stores && category in stores[store] {
        if |stores[store]| > 1 {
          stores := stores[store := stores[store] - {category}];
        } else {
          stores := stores[store := EmptyStore];
        }
      }
    }

    method RemoveStore(store: string)
      modifies this
      ensures stores == WithoutStore(old(stores), store)
      ensures old(WellFormed(stores)) ==> WellFormed(stores)
    {
      if WellFormed(stores) {
        WithoutStoreKeepsWellFormed(stores, store);
      }
      if store in stores {
        stores := stores - {store};
      }
    }
  }

  // ---------------------------------------------------------------------------
  // Reading a persisted catalog document
  // ---------------------------------------------------------------------------

  /** A category's value in the document: an array of item names (each already
      rendered as text), or some other JSON value. */
  datatype CategoryPayload = ItemArray(items: seq<string>) | NotAnArray

  /** A store's value: a flat array of items (the legacy shape), an object of
      categories in document order, or some other JSON value. */
  datatype StorePayload =
    | FlatList(entries: seq<string>)
    | Nested(categories: seq<(string, CategoryPayload)>)
    | OtherValue

  /** The top-level object of the document: its items (distinct keys) in iteration order. */
  type Document = seq<(string, StorePayload)>

  /** The category names that array-valued entries end up under. */
  ghost function ArrayCategoryNames(entries: seq<(string, CategoryPayload)>): set<string> {
    set i | 0 <= i < |entries| && entries[i].1.ItemArray? :: CategoryName(entries[i].0)
  }

  /** The category map built from a store's object: array-valued entries only,
      a later entry overwriting an earlier one with the same normalized name. */
  function CategoriesOf(entries: seq<(string, CategoryPayload)>): (m: Categories)
    ensures m.Keys == ArrayCategoryNames(entries)
    ensures forall c :: c in m ==> IsName(c) && IsItemList(m[c]) && StrictlySorted(m[c])
  {
    if entries == [] then map[]
    else
      var init := entries[..|entries| - 1];
      var m := CategoriesOf(init);
      var (c, p) := entries[|entries| - 1];
      assert ArrayCategoryNames(entries) ==
        ArrayCategoryNames(init) + (if p.ItemArray? then {CategoryName(c)} else {}) by {
        assert forall i :: 0 <= i < |init| ==> entries[i] == init[i];
      }
      match p
      case ItemArray(items) =>
        StrictlySortedIsSortedAndDistinct(SortedUnique(items));
        m[CategoryName(c) := SortedUnique(items)]
      case NotAnArray => m
  }

  /** The canonical categories of one store's value. */
  function ConvertPayload(p: StorePayload): (cats: Categories)
    ensures IsCategories(cats)
    ensures p.Nested? && |CategoriesOf(p.categories)| > 0 ==> cats == CategoriesOf(p.categories)
    ensures p.OtherValue? ==> cats == EmptyStore
  {
    EmptyStoreIsCategories();
    match p
    case FlatList(items) =>
      StrictlySortedIsSortedAndDistinct(SortedUnique(items));
      assert Uncategorized in map[Uncategorized := SortedUnique(items)];
      map[Uncategorized := SortedUnique(items)]
    case Nested(entries) =>
      var m := CategoriesOf(entries);
      if |m| == 0 then EmptyStore else m
    case OtherValue => EmptyStore
  }

  /** The store names of the document that survive normalization. */
  ghost function StoreNamesIn(doc: Document): set<string> {
    set i | 0 <= i < |doc| && Normalize(doc[i].0) != [] :: Normalize(doc[i].0)
  }

  /** The catalog `convert_legacy_shape` builds from a document. */
  function CatalogOf(doc: Document): (r: Stores)
    ensures r.Keys == StoreNamesIn(doc)
  {
    if doc == [] then map[]
    else
      var init := doc[..|doc| - 1];
      var r := CatalogOf(init);
      var (k, p) := doc[|doc| - 1];
      var n := Normalize(k);
      StoreNamesInSnoc(doc);
      if n == [] then r else r[n := ConvertPayload(p)]
  }

  lemma StoreNamesInSnoc(doc: Document)
    requires doc != []
    ensures var n := Normalize(doc[|doc| - 1].0);
      StoreNamesIn(doc) == StoreNamesIn(doc[..|doc| - 1]) + (if n != [] then {n} else {})
  {
    var init := doc[..|doc| - 1];
    assert forall i :: 0 <= i < |init| ==> doc[i] == init[i];
  }

  lemma CatalogOfSnoc(doc: Document)
    requires doc != []
    ensures var n := Normalize(doc[|doc| - 1].0);
      CatalogOf(doc) == if n == [] then CatalogOf(doc[..|doc| - 1])
        else CatalogOf(doc[..|doc| - 1])[n := ConvertPayload(doc[|doc| - 1].1)]
  {
  }

  /** Every converted catalog satisfies the catalog invariant. */
  lemma {:induction false} CatalogOfWellFormed(doc: Document)
    ensures WellFormed(CatalogOf(doc))
  {
    if doc != [] {
      var (k, p) := doc[|doc| - 1];
      CatalogOfWellFormed(doc[..|doc| - 1]);
      if Normalize(k) != [] {
        WellFormedUpdate(CatalogOf(doc[..|doc| - 1]), Normalize(k), ConvertPayload(p));
      }
    }
  }

  /** A store takes the value of the last entry whose name normalizes to it. */
  lemma {:induction false} CatalogOfLastEntryWins(doc: Document, i: nat)
    requires i < |doc| && Normalize(doc[i].0) != []
    requires forall j :: i < j < |doc| ==> Normalize(doc[j].0) != Normalize(doc[i].0)
    ensures CatalogOf(doc)[Normalize(doc[i].0)] == ConvertPayload(doc[i].1)
  {
    var init := doc[..|doc| - 1];
    var key := Normalize(doc[i].0);
    if i < |doc| - 1 {
      assert init[i] == doc[i];
      assert forall j :: i < j < |init| ==> init[j] == doc[j];
      CatalogOfLastEntryWins(init, i);
      var last := Normalize(doc[|doc| - 1].0);
      assert last != key;
      CatalogOfSnoc(doc);
    } else {
      CatalogOfSnoc(doc);
    }
  }

  /** A category holds the cleaned items of the last array-valued entry whose name
      maps to it. */
  lemma {:induction false} CategoriesOfLastEntryWins(entries: seq<(string, CategoryPayload)>, i: nat)
    requires i < |entries| && entries[i].1.ItemArray?
    requires forall j :: i < j < |entries| && entries[j].1.ItemArray? ==>
      CategoryName(entries[j].0) != CategoryName(entries[i].0)
    ensures CategoriesOf(entries)[CategoryName(entries[i].0)] == SortedUnique(entries[i].1.items)
  {
    var init := entries[..|entries| - 1];
    if i < |entries| - 1 {
      assert init[i] == entries[i];
      assert forall j :: i < j < |init| ==> init[j] == entries[j];
      CategoriesOfLastEntryWins(init, i);
    }
  }

  /** A flat list becomes one "Uncategorized" category of its cleaned items. */
  lemma FlatListConversion(items: seq<string>)
    ensures ConvertPayload(FlatList(items)) == map[Uncategorized := SortedUnique(items)]
    ensures forall x :: x in ConvertPayload(FlatList(items))[Uncategorized] <==> x in NamesIn(items)
  {
  }

  /** An object without any array-valued category falls back to an empty "Uncategorized". */
  lemma {:induction false} NoArraysConversion(entries: seq<(string, CategoryPayload)>)
    requires forall i :: 0 <= i < |entries| ==> entries[i].1 == NotAnArray
    ensures CategoriesOf(entries) == map[]
    ensures ConvertPayload(Nested(entries)) == EmptyStore
  {
    if entries != [] {
      NoArraysConversion(entries[..|entries| - 1]);
    }
  }

  /** The loop over one store's categories and the empty fallback (lines 87-94). */
  method ConvertCategories(entries: seq<(string, CategoryPayload)>) returns (catMap: Categories)
    ensures catMap == ConvertPayload(Nested(entries))
  {
    catMap := map[];
    for i := 0 to |entries|
      invariant catMap == CategoriesOf(entries[..i])
    {
      assert entries[..i + 1][..i] == entries[..i];
      var (cat, items) := entries[i];
      var catName := CategoryName(cat);
      if items.ItemArray? {
        catMap := catMap[catName := SortedUnique(items.items)];
      }
    }
    assert entries[..|entries|] == entries;
    if |catMap| == 0 {
      catMap := EmptyStore;
    }
  }

  /** Lines 84-96: the categories one store's value converts to. */
  method ConvertStore(payload: StorePayload) returns (cats: Categories)
    ensures cats == ConvertPayload(payload)
  {
    match payload
    case FlatList(items) =>
      cats := map[Uncategorized := SortedUnique(items)];
    case Nested(entries) =>
      cats := ConvertCategories(entries);
    case OtherValue =>
      cats := EmptyStore;
  }

  /** `convert_legacy_shape`. */
  method ConvertLegacyShape(doc: Document) returns (converted: Stores)
    ensures converted == CatalogOf(doc)
  {
    converted := map[];
    for i := 0 to |doc|
      invariant converted == CatalogOf(doc[..i])
    {
      assert doc[..i + 1][..i] == doc[..i];
      CatalogOfSnoc(doc[..i + 1]);
      var (store, payload) := doc[i];
      var storeName := Normalize(store);
      if storeName == [] {
        continue;
      }
      var cats := ConvertStore(payload);
      converted := converted[storeName := cats];
    }
    assert doc[..|doc|] == doc;
  }
}
