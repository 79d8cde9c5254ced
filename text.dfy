/**
 Whitespace handling on names, as the shopping-list app does it with Python's
 argument-less `str.split()` and `str.strip()`, and splitting on separators
 (`str.split(sep)`, `str.splitlines()`).
 */
module Text {

  /** The characters for which Python's `str.isspace()` holds; argument-less
      `split()` and `strip()` break and trim on exactly these. */
  predicate IsSpace(c: char) {
    || c == ' '
    || ('\U{9}' <= c <= '\U{D}')
    || ('\U{1C}' <= c <= '\U{1F}')
    || c == '\U{85}' || c == '\U{A0}' || c == '\U{1680}'
    || ('\U{2000}' <= c <= '\U{200A}')
    || c == '\U{2028}' || c == '\U{2029}' || c == '\U{202F}' || c == '\U{205F}' || c == '\U{3000}'
  }

  /** The characters at which `str.splitlines()` breaks a line. */
  const LineBreaks: set<char> :=
    {'\U{A}', '\U{B}', '\U{C}', '\U{D}', '\U{1C}', '\U{1D}', '\U{1E}', '\U{85}', '\U{2028}', '\U{2029}'}

  /** A name never contains a line break: every line break is a space other than ' '. */
  lemma NameHasNoLineBreak(s: string)
    requires IsNormal(s)
    ensures forall i :: 0 <= i < |s| ==> s[i] !in LineBreaks
  {
    forall i | 0 <= i < |s| ensures s[i] !in LineBreaks {
      if s[i] in LineBreaks {
        assert IsSpace(s[i]);
      }
    }
  }

  /** A word: a non-empty run of non-space characters. */
  predicate IsWord(w: string) {
    w != [] && forall i :: 0 <= i < |w| ==> !IsSpace(w[i])
  }

  /** A normalized name: no space at either end, and every space character is a
      single ' ' between two non-space characters. */
  predicate IsNormal(s: string) {
    && (s != [] ==> !IsSpace(s[0]) && !IsSpace(s[|s| - 1]))
    && (forall i :: 0 <= i < |s| && IsSpace(s[i]) ==> s[i] == ' ')
    && (forall i, j :: 0 <= i && j == i + 1 < |s| && IsSpace(s[i]) ==> !IsSpace(s[j]))
  }

  /** A name the app accepts: normalized and not empty. */
  predicate IsName(s: string) {
    s != [] && IsNormal(s)
  }

  /** A word is a name. */
  lemma WordIsName(w: string)
    requires IsWord(w)
    ensures IsName(w)
  {
  }

  /** A name, one space and a word make a name. */
  lemma NameThenWord(n: string, w: string)
    requires IsName(n) && IsWord(w)
    ensures IsName(n + " " + w)
  {
    var r := n + " " + w;
    forall i | 0 <= i < |r| && IsSpace(r[i]) ensures r[i] == ' ' {
      if i < |n| {
        assert r[i] == n[i];
      }
    }
    forall i, j | 0 <= i && j == i + 1 < |r| && IsSpace(r[i]) ensures !IsSpace(r[j]) {
      if i < |n| {
        assert r[i] == n[i];
        if j < |n| {
          assert r[j] == n[j];
        }
      } else if i == |n| {
        assert r[j] == w[0];
      }
    }
    assert r[|r| - 1] == w[|w| - 1];
  }

  /** Length of the leading run of non-space characters. */
  function WordLen(s: string): (n: nat)
    ensures n <= |s|
    ensures forall i :: 0 <= i < n ==> !IsSpace(s[i])
    ensures n < |s| ==> IsSpace(s[n])
  {
    if s == [] || IsSpace(s[0]) then 0 else 1 + WordLen(s[1..])
  }

  /** The words of `s`, in order: what Python's `s.split()` returns. */
  function Words(s: string): (ws: seq<string>)
    ensures forall i :: 0 <= i < |ws| ==> IsWord(ws[i])
    ensures ws == [] <==> forall i :: 0 <= i < |s| ==> IsSpace(s[i])
    decreases |s|
  {
    if s == [] then []
    else if IsSpace(s[0]) then
      var ws := Words(s[1..]);
      assert forall i :: 1 <= i < |s| ==> s[i] == s[1..][i - 1];
      ws
    else
      var n := WordLen(s);
      [s[..n]] + Words(s[n..])
  }

  /** `sep.join(parts)`. */
  function Join(parts: seq<string>, sep: string): string {
    if parts == [] then []
    else if |parts| == 1 then parts[0]
    else parts[0] + sep + Join(parts[1..], sep)
  }

  /** `normalize_name`: trim, and collapse every run of spaces into one ' '. */
  function Normalize(s: string): (r: string)
    ensures IsNormal(r)
    ensures r == [] <==> forall i :: 0 <= i < |s| ==> IsSpace(s[i])
  {
    var ws := Words(s);
    JoinWordsIsNormal(ws);
    Join(ws, " ")
  }

  lemma {:induction false} JoinWordsIsNormal(ws: seq<string>)
    requires forall i :: 0 <= i < |ws| ==> IsWord(ws[i])
    ensures IsNormal(Join(ws, " "))
    ensures Join(ws, " ") == [] <==> ws == []
    ensures ws != [] ==> !IsSpace(Join(ws, " ")[0])
  {
    if |ws| > 1 {
      var w, j := ws[0], Join(ws[1..], " ");
      JoinWordsIsNormal(ws[1..]);
      var r := w + " " + j;
      assert Join(ws, " ") == r;
      forall i | 0 <= i < |r| && IsSpace(r[i])
        ensures r[i] == ' ' && i + 1 < |r| && !IsSpace(r[i + 1])
      {
        if i > |w| {
          assert r[i] == j[i - |w| - 1];
          assert r[i + 1] == j[i - |w|];
        }
      }
    }
  }

  /** A word followed by nothing or by a space is exactly one leading run. */
  lemma {:induction false} WordLenOfWord(w: string, t: string)
    requires forall i :: 0 <= i < |w| ==> !IsSpace(w[i])
    requires t == [] || IsSpace(t[0])
    ensures WordLen(w + t) == |w|
  {
    if w != [] {
      assert (w + t)[1..] == w[1..] + t;
      WordLenOfWord(w[1..], t);
    }
  }

  /** Splitting the single-space join of words gives the words back. */
  lemma {:induction false} WordsOfJoin(ws: seq<string>)
    requires forall i :: 0 <= i < |ws| ==> IsWord(ws[i])
    ensures Words(Join(ws, " ")) == ws
  {
    if ws == [] {
    } else if |ws| == 1 {
      var w := ws[0];
      WordLenOfWord(w, []);
      assert w + [] == w;
      assert w[..|w|] == w && w[|w|..] == [];
    } else {
      var w, j := ws[0], Join(ws[1..], " ");
      var r := w + " " + j;
      assert Join(ws, " ") == r;
      WordLenOfWord(w, " " + j);
      assert r == w + (" " + j);
      assert r[..|w|] == w;
      assert r[|w|..] == " " + j;
      assert (" " + j)[1..] == j;
      WordsOfJoin(ws[1..]);
    }
  }

  /** A leading run that stops inside `a` is not changed by what follows `a`, nor is
      one that fills `a` when what follows is empty or starts with whitespace. */
  lemma {:induction false} WordLenAppend(a: string, t: string)
    requires WordLen(a) < |a| || t == [] || IsSpace(t[0])
    ensures WordLen(a + t) == WordLen(a)
  {
    if a == [] {
      assert a + t == t;
    } else if !IsSpace(a[0]) {
      assert (a + t)[1..] == a[1..] + t;
      WordLenAppend(a[1..], t);
    }
  }

  /** `split()` of a single word is that word. */
  lemma WordsOfWord(w: string)
    requires IsWord(w)
    ensures Words(w) == [w]
  {
    WordLenOfWord(w, []);
    assert w + [] == w;
    assert w[..|w|] == w && w[|w|..] == [];
  }

  /** A whitespace character separates words: `split()` of the whole gives the words
      before it followed by the words after it. */
  lemma {:induction false} WordsAtSpace(a: string, c: char, b: string)
    requires IsSpace(c)
    ensures Words(a + [c] + b) == Words(a) + Words(b)
    decreases |a|
  {
    var t := [c] + b;
    Assoc(a, [c], b);
    if a == [] {
      WordsFrom(t);
      assert t[1..] == b;
    } else if IsSpace(a[0]) {
      WordsFrom(a + t);
      WordsFrom(a);
      AppendSlices(a, t, 1);
      Assoc(a[1..], [c], b);
      WordsAtSpace(a[1..], c, b);
    } else {
      var n := WordLen(a);
      WordsAfterWord(a, t);
      Assoc(a[n..], [c], b);
      WordsAtSpace(a[n..], c, b);
      WordsFrom(a);
      Assoc([a[..n]], Words(a[n..]), Words(b));
    }
  }

  lemma Assoc<T>(a: seq<T>, b: seq<T>, c: seq<T>)
    ensures a + b + c == a + (b + c)
  {
  }

  /** The first word of `a` stays the first word when text starting with a space follows. */
  lemma WordsAfterWord(a: string, t: string)
    requires a != [] && !IsSpace(a[0])
    requires t != [] && IsSpace(t[0])
    ensures Words(a + t) == [a[..WordLen(a)]] + Words(a[WordLen(a)..] + t)
  {
    WordLenAppend(a, t);
    WordsFrom(a + t);
    AppendSlices(a, t, WordLen(a));
  }

  lemma AppendSlices(a: string, t: string, n: nat)
    requires n <= |a|
    ensures (a + t)[..n] == a[..n] && (a + t)[n..] == a[n..] + t
  {
  }

  /** One step of `split()`: skip a leading space, or take the leading word. */
  lemma WordsFrom(s: string)
    requires s != []
    ensures IsSpace(s[0]) ==> Words(s) == Words(s[1..])
    ensures !IsSpace(s[0]) ==> Words(s) == [s[..WordLen(s)]] + Words(s[WordLen(s)..])
  {
  }

  /** `normalize_name` keeps the words of its input, in order. */
  lemma NormalizeKeepsWords(s: string)
    ensures Words(Normalize(s)) == Words(s)
  {
    WordsOfJoin(Words(s));
  }

  /** Two inputs normalize alike exactly when they have the same words. */
  lemma NormalizeSameWords(s: string, t: string)
    ensures Normalize(s) == Normalize(t) <==> Words(s) == Words(t)
  {
    NormalizeKeepsWords(s);
    NormalizeKeepsWords(t);
  }

  /** `normalize_name` is idempotent. */
  lemma NormalizeIdempotent(s: string)
    ensures Normalize(Normalize(s)) == Normalize(s)
  {
    WordsOfJoin(Words(s));
  }

  /** The normalized strings are exactly the fixed points of `normalize_name`. */
  lemma {:induction false} NormalIsFixed(s: string)
    requires IsNormal(s)
    ensures Normalize(s) == s
    decreases |s|
  {
    if s != [] {
      var n := WordLen(s);
      var w := s[..n];
      FirstWord(s);
      if n == |s| {
        assert s == w;
        WordIsFixed(w);
      } else {
        var rest := s[n + 1..];
        NormalAfterSpace(s, n);
        NormalIsFixed(rest);
        assert s == w + [s[n]] + rest;
        WordThenNormal(s, w, rest);
      }
    }
  }

  /** A string that starts with a non-space starts with a word. */
  lemma FirstWord(s: string)
    requires s != [] && !IsSpace(s[0])
    ensures IsWord(s[..WordLen(s)])
  {
  }

  /** A single word normalizes to itself. */
  lemma WordIsFixed(w: string)
    requires IsWord(w)
    ensures Normalize(w) == w
  {
    WordsOfWord(w);
  }

  /** A word, one space and a normalized non-empty rest normalize to themselves. */
  lemma WordThenNormal(t: string, w: string, rest: string)
    requires IsWord(w)
    requires rest != [] && !IsSpace(rest[0]) && Normalize(rest) == rest
    requires t == w + " " + rest
    ensures Normalize(t) == t
  {
    assert t == w + (" " + rest);
    WordLenOfWord(w, " " + rest);
    WordsAfterFirst(t, |w|);
    assert t[..|w|] == w && t[|w| + 1..] == rest;
    var ws := Words(rest);
    assert ws != [];
    JoinCons(w, ws, " ");
  }

  /** After a first word and one space, the words are that word and the words of the rest. */
  lemma WordsAfterFirst(s: string, n: nat)
    requires s != [] && !IsSpace(s[0])
    requires n == WordLen(s) < |s|
    ensures Words(s) == [s[..n]] + Words(s[n + 1..])
  {
    assert s[n..][1..] == s[n + 1..];
    assert Words(s[n..]) == Words(s[n + 1..]);
  }

  /** What follows the first space of a normalized string is itself normalized and not empty. */
  lemma NormalAfterSpace(s: string, n: nat)
    requires IsNormal(s) && n < |s| && IsSpace(s[n])
    ensures s[n] == ' ' && n + 1 < |s|
    ensures IsName(s[n + 1..]) && !IsSpace(s[n + 1])
  {
    var rest := s[n + 1..];
    forall i | 0 <= i < |rest| && IsSpace(rest[i])
      ensures rest[i] == ' ' && i + 1 < |rest| && !IsSpace(rest[i + 1])
    {
      assert rest[i] == s[n + 1 + i];
    }
  }

  /** Python's argument-less `strip()`. */
  function StripLeft(s: string): (r: string)
    ensures |r| <= |s| && r == s[|s| - |r|..]
    ensures r != [] ==> !IsSpace(r[0])
    ensures forall i :: 0 <= i < |s| - |r| ==> IsSpace(s[i])
  {
    if s != [] && IsSpace(s[0]) then StripLeft(s[1..]) else s
  }

  function StripRight(s: string): (r: string)
    ensures |r| <= |s| && r == s[..|r|]
    ensures r != [] ==> !IsSpace(r[|r| - 1])
    ensures forall i :: |r| <= i < |s| ==> IsSpace(s[i])
  {
    if s != [] && IsSpace(s[|s| - 1]) then StripRight(s[..|s| - 1]) else s
  }

  function Strip(s: string): (r: string)
    ensures r != [] ==> !IsSpace(r[0]) && !IsSpace(r[|r| - 1])
  {
    var l := StripLeft(s);
    var r := StripRight(l);
    assert r != [] ==> r[0] == l[0];
    r
  }

  /** Text that starts with a non-space has nothing to trim at the start. */
  lemma StripLeftAtNonSpace(s: string)
    requires s != [] && !IsSpace(s[0])
    ensures StripLeft(s) == s
  {
  }

  /** A trailing whitespace character is trimmed. */
  lemma StripRightAtSpace(s: string)
    requires s != [] && IsSpace(s[|s| - 1])
    ensures StripRight(s) == StripRight(s[..|s| - 1])
  {
  }

  /** Text that ends in a non-space has nothing to trim at the end. */
  lemma StripRightAtNonSpace(s: string)
    requires s != [] && !IsSpace(s[|s| - 1])
    ensures StripRight(s) == s
  {
  }

  /** Trimming the end keeps a prefix that itself ends in a non-space. */
  lemma {:induction false} StripRightKeepsPrefix(p: string, s: string)
    requires p != [] && !IsSpace(p[|p| - 1])
    requires p <= s
    ensures p <= StripRight(s)
    decreases |s|
  {
    if s != [] && IsSpace(s[|s| - 1]) {
      assert |p| < |s|;
      StripRightKeepsPrefix(p, s[..|s| - 1]);
    }
  }

  /** `s.split(sep)` for a set of one-character separators: the pieces between
      separators, empty ones included; there is always at least one piece. */
  function Split(s: string, seps: set<char>): (parts: seq<string>)
    ensures |parts| >= 1
    ensures forall k, i :: 0 <= k < |parts| && 0 <= i < |parts[k]| ==> parts[k][i] !in seps
  {
    if s == [] then [[]]
    else
      var rest := Split(s[1..], seps);
      if s[0] in seps then [[]] + rest
      else [[s[0]] + rest[0]] + rest[1..]
  }

  /** Joining the pieces with the one separator they were split on restores the text. */
  lemma {:induction false} JoinSplit(s: string, c: char)
    ensures Join(Split(s, {c}), [c]) == s
  {
    if s != [] {
      var rest := Split(s[1..], {c});
      JoinSplit(s[1..], c);
      if s[0] == c {
        assert Split(s, {c}) == [[]] + rest;
        JoinCons([], rest, [c]);
      } else {
        assert Split(s, {c}) == [[s[0]] + rest[0]] + rest[1..];
        JoinExtendFirst(s[0], rest, [c]);
      }
      assert s == [s[0]] + s[1..];
    }
  }

  lemma JoinCons(first: string, parts: seq<string>, sep: string)
    requires parts != []
    ensures Join([first] + parts, sep) == first + sep + Join(parts, sep)
  {
    assert ([first] + parts)[1..] == parts;
  }

  lemma JoinExtendFirst(x: char, parts: seq<string>, sep: string)
    requires parts != []
    ensures Join([[x] + parts[0]] + parts[1..], sep) == [x] + Join(parts, sep)
  {
    var q := [[x] + parts[0]] + parts[1..];
    assert q[1..] == parts[1..];
  }

  /** Splitting a join at its separator gives the parts back, when no part holds a separator. */
  lemma {:induction false} SplitOfJoin(parts: seq<string>, c: char, seps: set<char>)
    requires parts != [] && c in seps
    requires forall k, i :: 0 <= k < |parts| && 0 <= i < |parts[k]| ==> parts[k][i] !in seps
    ensures Split(Join(parts, [c]), seps) == parts
  {
    if |parts| == 1 {
      SplitOfPlain(parts[0], [], seps);
      assert parts[0] + [] == parts[0];
      assert Split([], seps) == [[]];
    } else {
      SplitOfJoin(parts[1..], c, seps);
      var j := Join(parts[1..], [c]);
      assert Join(parts, [c]) == parts[0] + ([c] + j);
      assert ([c] + j)[0] == c && ([c] + j)[1..] == j;
      assert Split([c] + j, seps) == [[]] + parts[1..];
      SplitOfPlain(parts[0], [c] + j, seps);
      assert parts[0] + [] == parts[0];
      assert parts == [parts[0]] + parts[1..];
    }
  }

  /** A separator ends the pieces before it: splitting the whole gives the pieces of
      the text before it followed by the pieces of the text after it. */
  lemma {:induction false} SplitAtSeparator(a: string, c: char, b: string, seps: set<char>)
    requires c in seps
    ensures Split(a + [c] + b, seps) == Split(a, seps) + Split(b, seps)
    decreases |a|
  {
    var t := [c] + b;
    Assoc(a, [c], b);
    if a == [] {
      SplitFrom(t, seps);
      assert t[1..] == b;
    } else {
      Assoc(a[1..], [c], b);
      SplitAtSeparator(a[1..], c, b, seps);
      SplitStep(a, t, seps, Split(b, seps));
    }
  }

  /** Whatever pieces follow those of the tail of `a` also follow those of `a`. */
  lemma SplitStep(a: string, t: string, seps: set<char>, q: seq<string>)
    requires a != []
    requires Split(a[1..] + t, seps) == Split(a[1..], seps) + q
    ensures Split(a + t, seps) == Split(a, seps) + q
  {
    AppendSlices(a, t, 1);
    var p := Split(a[1..], seps);
    SplitFrom(a + t, seps);
    SplitFrom(a, seps);
    if a[0] in seps {
      assert [[]] + (p + q) == ([[]] + p) + q;
    } else {
      ConsPieces(a[0], p, q);
    }
  }

  /** One step of splitting: a separator closes an empty first piece, any other
      character starts the first piece. */
  lemma SplitFrom(s: string, seps: set<char>)
    requires s != []
    ensures Split(s, seps) == if s[0] in seps then [[]] + Split(s[1..], seps)
      else [[s[0]] + Split(s[1..], seps)[0]] + Split(s[1..], seps)[1..]
  {
  }

  lemma ConsPieces(x: char, p: seq<string>, q: seq<string>)
    requires p != []
    ensures [[x] + (p + q)[0]] + (p + q)[1..] == ([[x] + p[0]] + p[1..]) + q
  {
    assert (p + q)[0] == p[0] && (p + q)[1..] == p[1..] + q;
  }

  /** A separator-free prefix becomes the front of the first piece. */
  lemma {:induction false} SplitOfPlain(w: string, t: string, seps: set<char>)
    requires forall i :: 0 <= i < |w| ==> w[i] !in seps
    ensures Split(w + t, seps) == [w + Split(t, seps)[0]] + Split(t, seps)[1..]
  {
    if w == [] {
      var sp := Split(t, seps);
      assert w + t == t && w + sp[0] == sp[0];
      assert sp == [sp[0]] + sp[1..];
    } else {
      assert (w + t)[1..] == w[1..] + t;
      SplitOfPlain(w[1..], t, seps);
      assert [w[0]] + (w[1..] + Split(t, seps)[0]) == w + Split(t, seps)[0];
    }
  }

  /** `s.replace(a, b)` for single characters. */
  function Replace(s: string, a: char, b: char): (r: string)
    ensures |r| == |s|
    ensures forall i :: 0 <= i < |s| ==> r[i] == if s[i] == a then b else s[i]
  {
    if s == [] then [] else [if s[0] == a then b else s[0]] + Replace(s[1..], a, b)
  }

  /** Turning every `a` into `b` and splitting at `b` splits at both. */
  lemma {:induction false} SplitReplaced(s: string, a: char, b: char)
    ensures Split(Replace(s, a, b), {b}) == Split(s, {a, b})
  {
    if s != [] {
      SplitReplaced(s[1..], a, b);
      var t := Replace(s, a, b);
      assert t[1..] == Replace(s[1..], a, b);
    }
  }
}
