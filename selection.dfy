/**
 The per-session selection: store -> category -> set of checked items, kept
 shaped like the catalog by the reconciliation block that runs before every render.
 */
module Selection {
  import opened Catalog

  type Checked = map<string, set<string>>
  type Picked = map<string, Checked>

  /** One store's selection shaped like its categories: the set of a category that
      is still there survives, a new category starts empty, a gone one is dropped. */
  function AlignedCategories(cur: Checked, cats: set<string>): (r: Checked)
    ensures r.Keys == cats
    ensures forall c :: c in r && c in cur ==> r[c] == cur[c]
    ensures forall c :: c in r && c !in cur ==> r[c] == {}
  {
    map c | c in cats :: if c in cur then cur[c] else {}
  }

  /** The whole selection shaped like the catalog. */
  function Aligned(sel: Picked, stores: Stores): (r: Picked)
    ensures r.Keys == stores.Keys
    ensures forall s :: s in r ==> r[s].Keys == stores[s].Keys
    ensures forall s, c :: s in r && c in r[s] && s in sel && c in sel[s] ==> r[s][c] == sel[s][c]
    ensures forall s, c :: s in r && c in r[s] && !(s in sel && c in sel[s]) ==> r[s][c] == {}
  {
    map s | s in stores :: AlignedCategories(if s in sel then sel[s] else map[], stores[s].Keys)
  }

  /** A selection holding every store with its aligned categories is the aligned one. */
  lemma AlignedAt(sel: Picked, stores: Stores, r: Picked)
    requires r.Keys == stores.Keys
    requires forall s :: s in r ==> r[s] == AlignedCategories(if s in sel then sel[s] else map[], stores[s].Keys)
    ensures r == Aligned(sel, stores)
  {
  }

  /** A selection that already has the catalog's shape is left as it is. */
  lemma AlignedOfShaped(sel: Picked, stores: Stores)
    requires sel.Keys == stores.Keys
    requires forall s :: s in sel ==> sel[s].Keys == stores[s].Keys
    ensures Aligned(sel, stores) == sel
  {
    var r := Aligned(sel, stores);
    forall s | s in r ensures r[s] == sel[s] {
      assert r[s].Keys == sel[s].Keys;
    }
  }

  /** Reconciling twice is reconciling once. */
  lemma AlignedIdempotent(sel: Picked, stores: Stores)
    ensures Aligned(Aligned(sel, stores), stores) == Aligned(sel, stores)
  {
    AlignedOfShaped(Aligned(sel, stores), stores);
  }

  /** Lines 379-384 for one store, on its (possibly new) category map. */
  method AlignCategories(cur: Checked, cats: set<string>) returns (r: Checked)
    ensures r == AlignedCategories(cur, cats)
  {
    r := cur;
    var todo := cats;
    while todo != {}
      invariant todo <= cats
      invariant forall c :: c in r <==> c in cur || (c in cats && c !in todo)
      invariant forall c :: c in r && c in cur ==> r[c] == cur[c]
      invariant forall c :: c in r && c !in cur ==> r[c] == {}
      decreases todo
    {
      var c :| c in todo;
      if c !in r {
        r := r[c := {}];
      }
      todo := todo - {c};
    }
    var keys := r.Keys;
    while keys != {}
      invariant keys <= cur.Keys + cats
      invariant forall c :: c in r <==> c in cats || c in keys
      invariant forall c :: c in r && c in cur ==> r[c] == cur[c]
      invariant forall c :: c in r && c !in cur ==> r[c] == {}
      decreases keys
    {
      var c :| c in keys;
      if c !in cats {
        r := r - {c};
      }
      keys := keys - {c};
    }
  }

  class Selection {
    var picked: Picked

    /** Line 372: every category of every store, nothing checked. */
    constructor (stores: Stores)
      ensures picked == Aligned(map[], stores)
    {
      var none := map s | s in stores :: map c | c in stores[s] :: {};
      forall s | s in none
        ensures none[s] == AlignedCategories(map[], stores[s].Keys)
      {
      }
      picked := none;
    }

    /** Lines 375-384: drop stores and categories the catalog no longer has,
        add empty ones for those it gained. */
    method Reconcile(stores: Stores)
      modifies this
      ensures picked == Aligned(old(picked), stores)
    {
      var kept := DropGoneStores(picked, stores);
      var aligned := AlignStores(kept, picked, stores);
      assert aligned.Keys == stores.Keys;
      AlignedAt(picked, stores, aligned);
      picked := aligned;
    }
  }

  /** Lines 375-377: the selection without the stores the catalog lost. */
  method DropGoneStores(sel: Picked, stores: Stores) returns (p: Picked)
    ensures p.Keys == sel.Keys * stores.Keys
    ensures forall s :: s in p ==> p[s] == sel[s]
  {
    p := sel;
    var keys := p.Keys;
    while keys != {}
      invariant keys <= sel.Keys
      invariant p.Keys == sel.Keys * (keys + stores.Keys)
      invariant forall s :: s in p ==> p[s] == sel[s]
      decreases keys
    {
      var s :| s in keys;
      if s !in stores {
        p := p - {s};
      }
      keys := keys - {s};
    }
  }

  /** Lines 378-384: every store of the catalog, with its categories aligned. */
  method AlignStores(kept: Picked, sel: Picked, stores: Stores) returns (p: Picked)
    requires kept.Keys == sel.Keys * stores.Keys
    requires forall s :: s in kept ==> kept[s] == sel[s]
    ensures forall s :: s in p <==> s in stores
    ensures forall s :: s in p ==>
      p[s] == AlignedCategories(if s in sel then sel[s] else map[], stores[s].Keys)
  {
    p := kept;
    var todo := stores.Keys;
    while todo != {}
      invariant todo <= stores.Keys
      invariant forall s :: s in p <==> s in stores && (s in sel || s !in todo)
      invariant forall s :: s in p && s in todo ==> p[s] == sel[s]
      invariant forall s :: s in p && s !in todo ==>
        p[s] == AlignedCategories(if s in sel then sel[s] else map[], stores[s].Keys)
      decreases todo
    {
      var s :| s in todo;
      ghost var cur := if s in sel then sel[s] else map[];
      if s !in p {
        p := p[s := map[]];
      }
      assert p[s] == cur;
      var cats := AlignCategories(p[s], stores[s].Keys);
      p := p[s := cats];
      todo := todo - {s};
    }
  }
}
