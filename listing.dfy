/**
 `format_shopping_list_for_whatsapp`: the text shared from the checked items.
 A title line with the date, then for each store in visit order that has at
 least one checked name, a bold header, an underline and one checkbox line per
 name, and a blank line; the whole text is stripped at both ends.
 */
module Listing {
  import opened Text
  import opened Ordering
  import opened StoreOrder

  /** store -> category -> checked items, as the formatter receives it. */
  type Selected = map<string, map<string, seq<string>>>

  const CheckboxBullet: string := "\U{2610}"
  const UnderlineChar: char := '\U{2014}'
  const TitlePrefix: string := "Shopping List - "

  /** The underline is two characters longer than the store name, within 6..22. */
  function UnderlineWidth(store: string): (w: nat)
    ensures 6 <= w <= 22
    ensures 6 <= |store| + 2 <= 22 ==> w == |store| + 2
    ensures |store| + 2 < 6 ==> w == 6
    ensures |store| + 2 > 22 ==> w == 22
  {
    if |store| + 2 < 6 then 6 else if |store| + 2 > 22 then 22 else |store| + 2
  }

  function Underline(store: string): (u: string)
    ensures |u| == UnderlineWidth(store)
    ensures forall i :: 0 <= i < |u| ==> u[i] == UnderlineChar
  {
    seq(UnderlineWidth(store), _ => UnderlineChar)
  }

  /** The store name in WhatsApp bold: between two asterisks. */
  function Header(store: string): (h: string)
    ensures |h| == |store| + 2 && h[0] == '*' && h[|h| - 1] == '*' && h[1..|h| - 1] == store
  {
    "*" + store + "*"
  }

  /** A checkbox line: the checkbox, a space, then the item as given. */
  function Bullet(item: string): (b: string)
    ensures |b| == |item| + 2
    ensures b[0] == CheckboxBullet[0] && b[1] == ' ' && b[2..] == item
  {
    CheckboxBullet + " " + item
  }

  /**
   The two glyph constants as the source file actually spells them: the UTF-8
   bytes of U+2610 and U+2014 decoded as Mac Roman, three characters each.
   */
  const CheckboxBulletAsWritten: string := "\U{201A}\U{F2}\U{EA}"
  const UnderlineCharAsWritten: string := "\U{201A}\U{C4}\U{EE}"

  /** `unit * n` on strings: `n` copies of `unit`, one after another. */
  function Repeat(unit: string, n: nat): (r: string)
    ensures |r| == n * |unit|
    ensures n > 0 ==> r[..|unit|] == unit
    ensures forall i :: 0 <= i < |r| ==> r[i] in unit
    ensures forall i, j :: 0 <= j && i == j + |unit| < |r| ==> r[i] == r[j]
  {
    if n == 0 then [] else
      var rest := Repeat(unit, n - 1);
      var r := unit + rest;
      forall i, j | 0 <= j && i == j + |unit| < |r| ensures r[i] == r[j] {
        if j < |unit| {
          assert rest[..|unit|] == unit;
          assert r[i] == rest[j];
        } else {
          assert r[i] == rest[i - |unit|] && r[j] == rest[j - |unit|];
        }
      }
      r
  }

  /** The contract of `Repeat` determines it: a string of that length that starts
      with `unit` and repeats with period `|unit|` is `n` copies of `unit`. */
  lemma RepeatDetermined(unit: string, n: nat, r: string)
    requires |r| == n * |unit|
    requires n > 0 ==> r[..|unit|] == unit
    requires forall i, j :: 0 <= j && i == j + |unit| < |r| ==> r[i] == r[j]
    ensures r == Repeat(unit, n)
  {
    var q := Repeat(unit, n);
    forall i | 0 <= i < |r| ensures r[i] == q[i] {
      SamePeriodic(unit, n, r, q, i);
    }
  }

  lemma {:induction false} SamePeriodic(unit: string, n: nat, r: string, q: string, i: nat)
    requires q == Repeat(unit, n)
    requires |r| == n * |unit|
    requires n > 0 ==> r[..|unit|] == unit
    requires forall i, j :: 0 <= j && i == j + |unit| < |r| ==> r[i] == r[j]
    requires i < |r|
    ensures r[i] == q[i]
    decreases i
  {
    if i < |unit| {
      assert n > 0;
      assert r[i] == r[..|unit|][i] && q[i] == q[..|unit|][i];
    } else {
      SamePeriodic(unit, n, r, q, i - |unit|);
    }
  }

  /** The underline the source as written produces. */
  function UnderlineAsWritten(store: string): (u: string)
    ensures |u| == 3 * UnderlineWidth(store)
    ensures u[..3] == UnderlineCharAsWritten
    ensures forall i, j :: 0 <= j && i == j + 3 < |u| ==> u[i] == u[j]
  {
    Repeat(UnderlineCharAsWritten, UnderlineWidth(store))
  }

  /** The checkbox line the source as written produces. */
  function BulletAsWritten(item: string): (b: string)
    ensures |b| == |item| + 4 && b[3..] == " " + item
  {
    CheckboxBulletAsWritten + " " + item
  }

  /**
   As written, every underline is three times the intended width and made of
   other characters than the dash, and every checkbox line starts with three
   stray characters instead of the checkbox.
   */
  lemma GlyphsMisencoded(store: string, item: string)
    ensures |UnderlineAsWritten(store)| == 3 * |Underline(store)|
    ensures UnderlineAsWritten(store) != Underline(store)
    ensures UnderlineAsWritten(store)[0] != UnderlineChar
    ensures BulletAsWritten(item) != Bullet(item)
    ensures BulletAsWritten(item)[..3] == CheckboxBulletAsWritten
  {
    UnderlineMisencoded(store);
    BulletMisencoded(item);
  }

  lemma UnderlineMisencoded(store: string)
    ensures UnderlineAsWritten(store)[0] == '\U{201A}' != UnderlineChar == Underline(store)[0]
  {
    var u := UnderlineAsWritten(store);
    assert u[0] == u[..3][0];
  }

  lemma BulletMisencoded(item: string)
    ensures BulletAsWritten(item)[..3] == CheckboxBulletAsWritten
    ensures BulletAsWritten(item)[0] == '\U{201A}' != CheckboxBullet[0] == Bullet(item)[0]
  {
    assert BulletAsWritten(item) == CheckboxBulletAsWritten + " " + item;
  }

  /** For "Costco" the intended underline has 8 dashes, the written one 24 characters. */
  lemma CostcoUnderlineAsWritten()
    ensures |Underline("Costco")| == 8 && |UnderlineAsWritten("Costco")| == 24
  {
  }

  function Bullets(items: seq<string>): (r: seq<string>)
    ensures |r| == |items|
    ensures forall i :: 0 <= i < |r| ==> r[i] == Bullet(items[i])
  {
    seq(|items|, i requires 0 <= i < |items| => Bullet(items[i]))
  }

  /** `selected.get(store, {})`. */
  function CheckedIn(sel: Selected, store: string): (c: map<string, seq<string>>)
    ensures store in sel ==> c == sel[store]
    ensures store !in sel ==> ItemNames(c) == {}
  {
    if store in sel then sel[store] else map[]
  }

  /** Every item of every category of one store, as given. */
  ghost function RawItems(cats: map<string, seq<string>>): set<string> {
    set c, x | c in cats && x in cats[c] :: x
  }

  /** The distinct non-empty normalized names checked in one store. */
  ghost function ItemNames(cats: map<string, seq<string>>): set<string> {
    set x | x in RawItems(cats) && Normalize(x) != [] :: Normalize(x)
  }

  /** A store's header, underline, checkbox lines and a blank line; nothing when
      there are no names to list. */
  function Block(store: string, names: seq<string>): seq<string> {
    if names == [] then [] else [Header(store), Underline(store)] + Bullets(names) + [""]
  }

  /** The lines one store contributes, from the names checked there. */
  ghost function StoreBlock(store: string, cats: map<string, seq<string>>): seq<string> {
    Block(store, SortedSetOf(ItemNames(cats)))
  }

  /** The blocks of `stores`, in that order. */
  ghost function Blocks(stores: seq<string>, sel: Selected): seq<string> {
    if stores == [] then []
    else
      var k := |stores| - 1;
      Blocks(stores[..k], sel) + StoreBlock(stores[k], CheckedIn(sel, stores[k]))
  }

  /** The title line and the blank line after it. */
  function Title(today: string): (t: seq<string>)
    ensures |t| == 2 && t[1] == "" && |t[0]| == |TitlePrefix| + |today|
    ensures t[0][..|TitlePrefix|] == TitlePrefix && t[0][|TitlePrefix|..] == today
  {
    [TitlePrefix + today, ""]
  }

  /** The lines before stripping: the title, then the blocks in visit order. */
  ghost function ListingLines(sel: Selected, storeOrder: seq<string>, today: string): (r: seq<string>)
    ensures |r| >= 2 && r[..2] == Title(today)
  {
    Title(today) + Blocks(StoresInVisitOrder(storeOrder, sel.Keys), sel)
  }

  /** What the formatter returns; `today` stands for the formatted current date. */
  ghost function ListingText(sel: Selected, storeOrder: seq<string>, today: string): (r: string)
    ensures r != [] ==> !IsSpace(r[0]) && !IsSpace(r[|r| - 1])
  {
    Strip(Join(ListingLines(sel, storeOrder, today), "\n"))
  }

  /** Lines 267-276: one store's checked names, cleaned, deduplicated and sorted. */
  method StoreItems(cats: map<string, seq<string>>) returns (names: seq<string>)
    ensures names == SortedSetOf(ItemNames(cats))
  {
    var allItems: seq<string> := [];
    var todo := cats.Keys;
    while todo != {}
      invariant todo <= cats.Keys
      invariant forall x :: x in allItems <==> exists c :: c in cats && c !in todo && x in cats[c]
      decreases todo
    {
      var c :| c in todo;
      allItems := allItems + cats[c];
      todo := todo - {c};
    }
    names := SortedUnique(allItems);
    SortedUniqueIsSortedSet(allItems);
    assert Elems(allItems) == RawItems(cats);
    assert NamesIn(allItems) == ItemNames(cats);
  }

  lemma BulletsSnoc(names: seq<string>, j: nat)
    requires j < |names|
    ensures Bullets(names[..j + 1]) == Bullets(names[..j]) + [Bullet(names[j])]
  {
  }

  lemma BlocksSnoc(stores: seq<string>, k: nat, sel: Selected)
    requires k < |stores|
    ensures Blocks(stores[..k + 1], sel) == Blocks(stores[..k], sel) + StoreBlock(stores[k], CheckedIn(sel, stores[k]))
  {
    assert stores[..k + 1][..k] == stores[..k];
  }

  lemma BlocksSnocAfter(lines: seq<string>, stores: seq<string>, k: nat, sel: Selected, r: seq<string>, next: seq<string>)
    requires k < |stores|
    requires r == lines + Blocks(stores[..k], sel)
    requires next == r + StoreBlock(stores[k], CheckedIn(sel, stores[k]))
    ensures next == lines + Blocks(stores[..k + 1], sel)
  {
    BlocksSnoc(stores, k, sel);
    var b := Blocks(stores[..k], sel);
    var sb := StoreBlock(stores[k], CheckedIn(sel, stores[k]));
    Assoc(lines, b, sb);
  }

  lemma BlockClosed(lines: seq<string>, store: string, names: seq<string>, r: seq<string>)
    requires names != []
    requires r == lines + [Header(store), Underline(store)] + Bullets(names)
    ensures r + [""] == lines + Block(store, names)
  {
  }

  /** Lines 278-290: one store's block appended to the lines so far. */
  method AppendBlock(lines: seq<string>, store: string, names: seq<string>)
    returns (r: seq<string>)
    ensures r == lines + Block(store, names)
  {
    r := lines;
    if names != [] {
      var start := lines + [Header(store), Underline(store)];
      r := start;
      for j := 0 to |names|
        invariant r == start + Bullets(names[..j])
      {
        BulletsSnoc(names, j);
        r := r + [Bullet(names[j])];
      }
      assert names[..|names|] == names;
      BlockClosed(lines, store, names, r);
      r := r + [""];
    }
  }

  /** Lines 266-290: the blocks of the given stores appended in order. */
  method AppendBlocks(lines: seq<string>, stores: seq<string>, selected: Selected)
    returns (r: seq<string>)
    ensures r == lines + Blocks(stores, selected)
  {
    r := lines;
    for k := 0 to |stores|
      invariant r == lines + Blocks(stores[..k], selected)
    {
      var names := StoreItems(CheckedIn(selected, stores[k]));
      var next := AppendBlock(r, stores[k], names);
      BlocksSnocAfter(lines, stores, k, selected, r, next);
      r := next;
    }
    assert stores[..|stores|] == stores;
  }

  /** `format_shopping_list_for_whatsapp` with the date passed in. */
  method FormatShoppingList(selected: Selected, storeOrder: seq<string>, today: string)
    returns (text: string)
    ensures text == ListingText(selected, storeOrder, today)
  {
    var storesInOrder := OrderedStores(storeOrder, selected.Keys);
    var lines := AppendBlocks(Title(today), storesInOrder, selected);
    text := Strip(Join(lines, "\n"));
  }

  /** Line 262: when the date ends in a non-space, the text opens with the title. */
  lemma TitleFirst(sel: Selected, storeOrder: seq<string>, today: string)
    requires today != [] && !IsSpace(today[|today| - 1])
    ensures TitlePrefix + today <= ListingText(sel, storeOrder, today)
  {
    var title := TitlePrefix + today;
    var blocks := Blocks(StoresInVisitOrder(storeOrder, sel.Keys), sel);
    var rest := [""] + blocks;
    assert Title(today) == [title] + [""];
    Assoc([title], [""], blocks);
    assert title[0] == 'S' && title[|title| - 1] == today[|today| - 1];
    StripKeepsFirstLine(title, rest);
  }

  /** A first line with no whitespace at either end survives stripping the joined text. */
  lemma StripKeepsFirstLine(first: string, rest: seq<string>)
    requires first != [] && !IsSpace(first[0]) && !IsSpace(first[|first| - 1])
    ensures first <= Strip(Join([first] + rest, "\n"))
  {
    var joined := Join([first] + rest, "\n");
    assert ([first] + rest)[0] == first && ([first] + rest)[1..] == rest;
    if rest != [] {
      assert joined == first + "\n" + Join(rest, "\n");
    }
    assert first <= joined;
    assert StripLeft(joined) == joined by {
      assert joined[0] == first[0];
    }
    StripRightKeepsPrefix(first, joined);
  }

  /** With nothing checked anywhere the text is the title line alone. */
  lemma NothingChecked(sel: Selected, storeOrder: seq<string>, today: string)
    requires today != [] && !IsSpace(today[|today| - 1])
    requires forall s :: s in sel ==> ItemNames(sel[s]) == {}
    ensures ListingText(sel, storeOrder, today) == TitlePrefix + today
  {
    var stores := StoresInVisitOrder(storeOrder, sel.Keys);
    NoBlocks(stores, sel);
    assert ListingLines(sel, storeOrder, today) == Title(today);
    TitleAlone(today);
  }

  /** The title lines alone strip down to the title. */
  lemma TitleAlone(today: string)
    requires today != [] && !IsSpace(today[|today| - 1])
    ensures Strip(Join(Title(today), "\n")) == TitlePrefix + today
  {
    var title := TitlePrefix + today;
    var t := title + "\n";
    assert Join([title, ""], "\n") == t;
    assert t[0] == 'S' && t[..|t| - 1] == title && t[|t| - 1] == '\n';
    assert title[|title| - 1] == today[|today| - 1];
    StripLeftAtNonSpace(t);
    StripRightAtSpace(t);
    StripRightAtNonSpace(title);
  }

  lemma {:induction false} NoBlocks(stores: seq<string>, sel: Selected)
    requires forall s :: s in stores ==> ItemNames(CheckedIn(sel, s)) == {}
    ensures Blocks(stores, sel) == []
    decreases |stores|
  {
    if stores != [] {
      var k := |stores| - 1;
      assert stores[k] in stores;
      NoBlocks(stores[..k], sel);
    }
  }

  /** What each line of a non-empty block begins with. */
  lemma BlockShape(t: string, names: seq<string>)
    requires names != []
    ensures var b := Block(t, names);
      && |b| == |names| + 3
      && b[0] == Header(t) && b[0][0] == '*'
      && b[1] != [] && b[1][0] == UnderlineChar
      && (forall i :: 2 <= i < |b| - 1 ==> b[i] == Bullet(names[i - 2]) && b[i][0] == CheckboxBullet[0])
      && b[|b| - 1] == ""
  {
    var b := Block(t, names);
    var bs := Bullets(names);
    assert b == [Header(t), Underline(t)] + bs + [""];
    forall i | 2 <= i < |b| - 1 ensures b[i] == Bullet(names[i - 2]) && b[i][0] == CheckboxBullet[0] {
      assert b[i] == bs[i - 2];
    }
  }

  /** The header of `store` is among a block's lines exactly when it is that
      store's block and there are names to list. */
  lemma HeaderInBlock(store: string, t: string, names: seq<string>)
    ensures Header(store) in Block(t, names) <==> store == t && names != []
  {
    var h := Header(store);
    if names != [] {
      var b := Block(t, names);
      BlockShape(t, names);
      forall i | 0 <= i < |b| && b[i] == h ensures store == t {
        if i == 0 {
          assert store == h[1..|h| - 1] && t == Header(t)[1..|Header(t)| - 1];
        }
      }
      assert b[0] == Header(t);
    }
  }

  /** The checkbox line of `name` is among a block's lines exactly when the
      name is listed there. */
  lemma BulletInBlock(name: string, t: string, names: seq<string>)
    ensures Bullet(name) in Block(t, names) <==> name in names
  {
    var l := Bullet(name);
    if names != [] {
      var b := Block(t, names);
      BlockShape(t, names);
      forall i | 0 <= i < |b| && b[i] == l ensures name in names {
        if 1 < i < |b| - 1 {
          var m := names[i - 2];
          assert name == l[2..] && m == Bullet(m)[2..];
        }
      }
      if name in names {
        var i :| 0 <= i < |names| && names[i] == name;
        assert b[i + 2] == Bullets(names)[i];
      }
    }
  }

  lemma {:induction false} HeaderInBlocks(stores: seq<string>, sel: Selected, store: string)
    ensures Header(store) in Blocks(stores, sel) <==>
      store in stores && ItemNames(CheckedIn(sel, store)) != {}
    decreases |stores|
  {
    if stores != [] {
      var k := |stores| - 1;
      var t := stores[k];
      HeaderInBlocks(stores[..k], sel, store);
      HeaderInBlock(store, t, SortedSetOf(ItemNames(CheckedIn(sel, t))));
      var pre := Blocks(stores[..k], sel);
      var blk := StoreBlock(t, CheckedIn(sel, t));
      assert Header(store) in pre + blk <==> Header(store) in pre || Header(store) in blk;
      assert stores == stores[..k] + [t];
    }
  }

  lemma {:induction false} BulletInBlocks(stores: seq<string>, sel: Selected, name: string)
    ensures Bullet(name) in Blocks(stores, sel) <==>
      exists t :: t in stores && name in ItemNames(CheckedIn(sel, t))
    decreases |stores|
  {
    if stores != [] {
      var k := |stores| - 1;
      var t := stores[k];
      BulletInBlocks(stores[..k], sel, name);
      BulletInBlock(name, t, SortedSetOf(ItemNames(CheckedIn(sel, t))));
      var pre := Blocks(stores[..k], sel);
      var blk := StoreBlock(t, CheckedIn(sel, t));
      assert Bullet(name) in pre + blk <==> Bullet(name) in pre || Bullet(name) in blk;
      CheckedInSnoc(stores, sel, name);
    }
  }

  /** A name is checked in some store of `stores` exactly when it is checked in one
      before the last or in the last. */
  lemma CheckedInSnoc(stores: seq<string>, sel: Selected, name: string)
    requires stores != []
    ensures (exists u :: u in stores && name in ItemNames(CheckedIn(sel, u))) <==>
      (exists u :: u in stores[..|stores| - 1] && name in ItemNames(CheckedIn(sel, u)))
      || name in ItemNames(CheckedIn(sel, stores[|stores| - 1]))
  {
    var k := |stores| - 1;
    assert stores == stores[..k] + [stores[k]];
    if exists u :: u in stores && name in ItemNames(CheckedIn(sel, u)) {
      var u :| u in stores && name in ItemNames(CheckedIn(sel, u));
      if u != stores[k] {
        assert u in stores[..k];
      }
    }
    if exists u :: u in stores[..k] && name in ItemNames(CheckedIn(sel, u)) {
      var u :| u in stores[..k] && name in ItemNames(CheckedIn(sel, u));
      assert u in stores;
    }
  }

  /** Lines 278-284: a store gets a header exactly when some name is checked in it. */
  lemma HeaderListed(sel: Selected, storeOrder: seq<string>, today: string, store: string)
    requires store in sel
    ensures Header(store) in ListingLines(sel, storeOrder, today) <==> ItemNames(sel[store]) != {}
  {
    var stores := StoresInVisitOrder(storeOrder, sel.Keys);
    HeaderInBlocks(stores, sel, store);
    assert Header(store) != Title(today)[0] by {
      assert Header(store)[0] != Title(today)[0][0];
    }
  }

  /** Lines 270-276, 287-288: the listing has a checkbox line for a name exactly
      when that name, normalized, is checked in some store. */
  lemma BulletListed(sel: Selected, storeOrder: seq<string>, today: string, name: string)
    ensures Bullet(name) in ListingLines(sel, storeOrder, today) <==>
      exists s :: s in sel && name in ItemNames(sel[s])
  {
    var stores := StoresInVisitOrder(storeOrder, sel.Keys);
    BulletInBlocks(stores, sel, name);
    assert Bullet(name) != Title(today)[0] by {
      assert Bullet(name)[0] != Title(today)[0][0];
    }
    assert Bullet(name) != "";
  }
}
