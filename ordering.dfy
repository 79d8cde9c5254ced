/**
 The case-insensitive order the app sorts every list of names by
 (`sorted(..., key=lambda s: s.lower())`), sorting, and `_sorted_unique`.
 */
module Ordering {
  import opened Text

  /** Python's `str.lower()` on one character, for the ASCII letters. */
  function LowerChar(c: char): char {
    if 'A' <= c <= 'Z' then (c as int + 32) as char else c
  }

  /** The sort key `s.lower()`. */
  function Lower(s: string): (r: string)
    ensures |r| == |s|
    ensures forall i :: 0 <= i < |s| ==> r[i] == LowerChar(s[i])
  {
    seq(|s|, i requires 0 <= i < |s| => LowerChar(s[i]))
  }

  /** Python's `<` on strings: code point by code point, a proper prefix first. */
  predicate LexLt(a: string, b: string) {
    if a == [] then b != []
    else b != [] && (a[0] < b[0] || (a[0] == b[0] && LexLt(a[1..], b[1..])))
  }

  lemma {:induction false} LexLtIrreflexive(a: string)
    ensures !LexLt(a, a)
  {
    if a != [] {
      LexLtIrreflexive(a[1..]);
    }
  }

  lemma {:induction false} LexLtTransitive(a: string, b: string, c: string)
    requires LexLt(a, b) && LexLt(b, c)
    ensures LexLt(a, c)
  {
    if a != [] && a[0] == b[0] && b[0] == c[0] {
      LexLtTransitive(a[1..], b[1..], c[1..]);
    }
  }

  lemma {:induction false} LexLtTotal(a: string, b: string)
    ensures a == b || LexLt(a, b) || LexLt(b, a)
  {
    if a != [] && b != [] && a[0] == b[0] {
      LexLtTotal(a[1..], b[1..]);
      if a[1..] == b[1..] {
        assert a == [a[0]] + a[1..] && b == [b[0]] + b[1..];
      }
    }
  }

  /** The order the model sorts by: by lower-case key, and between two spellings
      with the same key (“Milk”, “milk”) by the strings themselves. */
  predicate Before(a: string, b: string) {
    LexLt(Lower(a), Lower(b)) || (Lower(a) == Lower(b) && LexLt(a, b))
  }

  lemma BeforeIrreflexive(a: string)
    ensures !Before(a, a)
  {
    LexLtIrreflexive(a);
    LexLtIrreflexive(Lower(a));
  }

  lemma BeforeTransitive(a: string, b: string, c: string)
    requires Before(a, b) && Before(b, c)
    ensures Before(a, c)
  {
    var ka, kb, kc := Lower(a), Lower(b), Lower(c);
    if LexLt(ka, kb) && LexLt(kb, kc) {
      LexLtTransitive(ka, kb, kc);
    } else if LexLt(ka, kb) || LexLt(kb, kc) {
    } else {
      LexLtTransitive(a, b, c);
    }
  }

  lemma BeforeAsymmetric(a: string, b: string)
    requires Before(a, b)
    ensures !Before(b, a)
  {
    if Before(b, a) {
      BeforeTransitive(a, b, a);
      BeforeIrreflexive(a);
    }
  }

  lemma BeforeTotal(a: string, b: string)
    ensures a == b || Before(a, b) || Before(b, a)
  {
    LexLtTotal(Lower(a), Lower(b));
    LexLtTotal(a, b);
  }

  /** `set(xs)`. */
  function Elems(xs: seq<string>): (r: set<string>)
    ensures forall x :: x in r <==> x in xs
  {
    set x | x in xs
  }

  /** Each element comes strictly before every later one. */
  predicate StrictlySorted(s: seq<string>) {
    forall i, j :: 0 <= i < j < |s| ==> Before(s[i], s[j])
  }

  /** Non-decreasing by lower-case key: what `sorted(..., key=str.lower)` promises. */
  predicate SortedByKey(s: seq<string>) {
    forall i, j :: 0 <= i < j < |s| ==> !LexLt(Lower(s[j]), Lower(s[i]))
  }

  predicate Distinct(s: seq<string>) {
    forall i, j :: 0 <= i < j < |s| ==> s[i] != s[j]
  }

  lemma StrictlySortedIsSortedAndDistinct(s: seq<string>)
    requires StrictlySorted(s)
    ensures SortedByKey(s) && Distinct(s)
  {
    forall i, j | 0 <= i < j < |s|
      ensures !LexLt(Lower(s[j]), Lower(s[i])) && s[i] != s[j]
    {
      BeforeIrreflexive(s[i]);
      if LexLt(Lower(s[j]), Lower(s[i])) {
        assert Before(s[j], s[i]);
        BeforeAsymmetric(s[i], s[j]);
      }
    }
  }

  /** Two strictly sorted sequences with the same elements are equal: the sorted
      arrangement of a set of names is unique. */
  lemma {:induction false} SortedUniqueness(a: seq<string>, b: seq<string>)
    requires StrictlySorted(a) && StrictlySorted(b)
    requires forall y :: y in a <==> y in b
    ensures a == b
  {
    if b != [] {
      assert b[0] in a;
    }
    if a != [] {
      assert a[0] in b;
      if a[0] != b[0] {
        var i :| 0 <= i < |b| && b[i] == a[0];
        var j :| 0 <= j < |a| && a[j] == b[0];
        assert Before(b[0], a[0]) && Before(a[0], b[0]);
        BeforeAsymmetric(a[0], b[0]);
      }
      forall y ensures y in a[1..] <==> y in b[1..] {
        TailMembership(a, y);
        TailMembership(b, y);
      }
      SortedUniqueness(a[1..], b[1..]);
    }
  }

  lemma TailMembership(s: seq<string>, y: string)
    requires StrictlySorted(s) && s != []
    ensures y in s[1..] <==> y in s && y != s[0]
  {
    if y in s[1..] {
      var k :| 1 <= k < |s| && s[k] == y;
      BeforeIrreflexive(s[0]);
    }
    if y in s && y != s[0] {
      var k :| 0 <= k < |s| && s[k] == y;
      assert s[1..][k - 1] == y;
    }
  }

  /** Adds `x` to a sorted sequence unless it is already there. */
  function Insert(x: string, s: seq<string>): (r: seq<string>)
    ensures StrictlySorted(s) ==> StrictlySorted(r)
    ensures forall y :: y in r <==> y == x || y in s
  {
    if s == [] then [x]
    else if x == s[0] then s
    else if Before(x, s[0]) then
      assert StrictlySorted(s) ==> StrictlySorted([x] + s) by {
        forall j | 0 < j < |s| ensures Before(s[0], s[j]) ==> Before(x, s[j]) {
          if Before(s[0], s[j]) { BeforeTransitive(x, s[0], s[j]); }
        }
      }
      [x] + s
    else
      var r := Insert(x, s[1..]);
      BeforeTotal(x, s[0]);
      assert StrictlySorted(s) ==> StrictlySorted([s[0]] + r) by {
        if StrictlySorted(s) {
          assert StrictlySorted(s[1..]);
          forall j | 0 <= j < |r| ensures Before(s[0], r[j]) {
            assert r[j] in r;
          }
        }
      }
      [s[0]] + r
  }

  /** The sorted arrangement of a set of names. */
  ghost function SortedSetOf(xs: set<string>): (r: seq<string>)
    ensures StrictlySorted(r)
    ensures forall y :: y in r <==> y in xs
    decreases xs
  {
    if xs == {} then []
    else
      var x :| x in xs;
      Insert(x, SortedSetOf(xs - {x}))
  }

  /** `sorted(xs, key=lambda s: s.lower())` for a set `xs`. */
  method SortSet(xs: set<string>) returns (r: seq<string>)
    ensures r == SortedSetOf(xs)
  {
    r := [];
    var todo := xs;
    while todo != {}
      invariant todo <= xs
      invariant StrictlySorted(r)
      invariant forall y :: y in r <==> y in xs - todo
      decreases todo
    {
      var x :| x in todo;
      r := Insert(x, r);
      todo := todo - {x};
    }
    SortedUniqueness(r, SortedSetOf(xs));
  }

  /** Sorts a sequence of names, dropping repeats. */
  function SortDistinct(s: seq<string>): (r: seq<string>)
    ensures StrictlySorted(r)
    ensures forall y :: y in r <==> y in s
  {
    if s == [] then []
    else
      var init := SortDistinct(s[..|s| - 1]);
      assert s == s[..|s| - 1] + [s[|s| - 1]];
      Insert(s[|s| - 1], init)
  }

  /** The non-empty normalized names among `items`. */
  ghost function NamesIn(items: seq<string>): set<string> {
    set x | x in items && Normalize(x) != [] :: Normalize(x)
  }

  /** `[normalize_name(x) for x in items if normalize_name(x)]`. */
  function Cleaned(items: seq<string>): (r: seq<string>)
    ensures |r| <= |items|
    ensures forall i :: 0 <= i < |r| ==> IsName(r[i])
    ensures forall y :: y in r <==> y in NamesIn(items)
  {
    if items == [] then []
    else
      var n := Normalize(items[0]);
      var rest := Cleaned(items[1..]);
      assert NamesIn(items) == (if n != [] then {n} else {}) + NamesIn(items[1..]) by {
        assert items == [items[0]] + items[1..];
      }
      if n != [] then [n] + rest else rest
  }

  /** The comprehension keeps the input's order: cleaning a concatenation cleans each part. */
  lemma {:induction false} CleanedAppend(a: seq<string>, b: seq<string>)
    ensures Cleaned(a + b) == Cleaned(a) + Cleaned(b)
  {
    if a == [] {
      assert a + b == b;
    } else {
      assert (a + b)[0] == a[0] && (a + b)[1..] == a[1..] + b;
      CleanedAppend(a[1..], b);
    }
  }

  /** `_sorted_unique`: the distinct non-empty normalized names of `items`,
      sorted by lower-case key. */
  function SortedUnique(items: seq<string>): (r: seq<string>)
    ensures StrictlySorted(r)
    ensures forall i :: 0 <= i < |r| ==> IsName(r[i])
    ensures forall y :: y in r <==> y in NamesIn(items)
  {
    var c := Cleaned(items);
    var r := SortDistinct(c);
    assert forall i :: 0 <= i < |r| ==> r[i] in c;
    r
  }

  /** What `_sorted_unique` returns depends only on the set of names it is given. */
  lemma SortedUniqueIsSortedSet(items: seq<string>)
    ensures SortedUnique(items) == SortedSetOf(NamesIn(items))
  {
    SortedUniqueness(SortedUnique(items), SortedSetOf(NamesIn(items)));
  }

  /** Deduplication is by exact spelling: two spellings of one name that differ
      only in case are both kept, the capitalised one first. */
  lemma CaseVariantsKept()
    ensures SortedUnique(["milk", " Milk "]) == ["Milk", "milk"]
  {
    var items := ["milk", " Milk "];
    MilkNames();
    SortedUniqueIsSortedSet(items);
    MilkBeforeLower();
    SortedUniqueness(SortedSetOf({"milk", "Milk"}), ["Milk", "milk"]);
  }

  lemma MilkNames()
    ensures NamesIn(["milk", " Milk "]) == {"milk", "Milk"}
  {
    PlainMilk();
    PaddedMilk();
    NamesInPair("milk", " Milk ");
  }

  lemma NamesInPair(a: string, b: string)
    requires Normalize(a) != [] && Normalize(b) != []
    ensures NamesIn([a, b]) == {Normalize(a), Normalize(b)}
  {
    var items := [a, b];
    assert items[0] == a && items[1] == b;
    assert forall x :: x in items ==> x == a || x == b;
  }

  lemma PlainMilk()
    ensures Normalize("milk") == "milk"
  {
    assert IsNormal("milk") by {
      assert forall i :: 0 <= i < 4 ==> !IsSpace("milk"[i]);
    }
    NormalIsFixed("milk");
  }

  lemma PaddedMilk()
    ensures Normalize(" Milk ") == "Milk"
  {
    var t := " Milk ";
    assert Words(" ") == [];
    assert WordLen("Milk ") == 4;
    assert Words("Milk ") == ["Milk"] by {
      assert "Milk "[..4] == "Milk" && "Milk "[4..] == " ";
    }
    assert Words(t) == ["Milk"] by {
      assert t[1..] == "Milk ";
    }
  }

  lemma MilkBeforeLower()
    ensures StrictlySorted(["Milk", "milk"])
  {
    assert Lower("Milk") == Lower("milk") by {
      assert LowerChar('M') == 'm';
    }
    assert LexLt("Milk", "milk");
  }
}
