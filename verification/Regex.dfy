/** re_match of user/libc/ext.c: atoms with an optional quantifier, the anchors
    at both ends, and a backtracking matcher. */
module Regex {
  import opened Patterns

  const PLUS := '+' as int
  const MAYBE := '?' as int
  const DOT := '.' as int
  const DOLLAR := '$' as int
  const BACKSLASH := '\\' as int

  // ----- atoms -----

  /** An atom is its own text: an escaped character, a bracket set or one character. */
  type Atom = Text

  function Lower(c: int): int { if 'A' as int <= c <= 'Z' as int then c + 32 else c }

  function Upper(c: int): int { if 'a' as int <= c <= 'z' as int then c - 32 else c }

  predicate SameChar(a: int, b: int, icase: bool) { a == b || (icase && Lower(a) == Lower(b)) }

  predicate InRange(low: int, high: int, c: int, icase: bool) {
    low <= c <= high || (icase && (low <= Lower(c) <= high || low <= Upper(c) <= high))
  }

  /** Without regard to case two characters are the same if they are, or if they are the two forms of one letter. */
  lemma SameLetter(a: int, b: int, icase: bool)
    ensures SameChar(a, b, icase) <==>
      || a == b
      || (icase && 'A' as int <= a <= 'Z' as int && b == a + 32)
      || (icase && 'A' as int <= b <= 'Z' as int && a == b + 32)
  {
  }

  /** A range holds what is the same character as one between its ends. */
  lemma RangeHolds(low: int, high: int, c: int, icase: bool)
    ensures InRange(low, high, c, icase) <==> exists x :: low <= x <= high && SameChar(x, c, icase)
  {
    if InRange(low, high, c, icase) {
      assert SameChar(c, c, icase) && (icase ==> SameChar(Lower(c), c, icase) && SameChar(Upper(c), c, icase));
    }
    if x :| low <= x <= high && SameChar(x, c, icase) {
      SameLetter(x, c, icase);
    }
  }

  predicate InSet(a: Atom, p: nat, c: int, icase: bool)
    decreases |a| - p
  {
    p < |a| - 1 &&
    if p + 2 < |a| - 1 && a[p + 1] == DASH then InRange(a[p], a[p + 2], c, icase) || InSet(a, p + 3, c, icase)
    else SameChar(a[p], c, icase) || InSet(a, p + 1, c, icase)
  }

  /** The characters an atom stands for. */
  predicate Accepts(a: Atom, c: int, icase: bool)
    requires a != []
  {
    if a[0] == DOT then true
    else if a[0] == BACKSLASH && |a| == 2 then SameChar(a[1], c, icase)
    else if a[0] == OPEN && |a| > 1 then
      (if a[1] == CARET then !InSet(a, 2, c, icase) else InSet(a, 1, c, icase))
    else SameChar(a[0], c, icase)
  }

  // ----- what a pattern means -----

  /** An atom that many times; without a limit if `many`. */
  datatype Item = Item(atom: Atom, min: nat, many: bool)

  ghost predicate Repeats(item: Item, T: Text, t: nat, k: nat, icase: bool) {
    && t <= k <= |T| && item.min <= k - t && (item.many || k - t <= 1)
    && item.atom != [] && forall i :: t <= i < k ==> Accepts(item.atom, T[i], icase)
  }

  /** The stretch of the text from t to m is a concatenation of repeated atoms. */
  ghost predicate Spells(items: seq<Item>, T: Text, t: nat, m: nat, icase: bool)
    decreases |items|
  {
    if items == [] then t == m
    else exists k :: Repeats(items[0], T, t, k, icase) && Spells(items[1..], T, k, m, icase)
  }

  /** Some stretch from t on is in the language; up to the end if that is anchored. */
  ghost predicate Found(items: seq<Item>, atEnd: bool, T: Text, t: nat, icase: bool) {
    exists m :: t <= m <= |T| && Spells(items, T, t, m, icase) && (atEnd ==> m == |T|)
  }

  lemma {:induction false} SpellsForward(items: seq<Item>, T: Text, t: nat, m: nat, icase: bool)
    requires Spells(items, T, t, m, icase)
    ensures t <= m
  {
    if items != [] {
      var k :| Repeats(items[0], T, t, k, icase) && Spells(items[1..], T, k, m, icase);
      SpellsForward(items[1..], T, k, m, icase);
    }
  }

  lemma FirstItem(items: seq<Item>, atEnd: bool, T: Text, t: nat, icase: bool)
    requires items != []
    ensures Found(items, atEnd, T, t, icase) <==>
      exists k :: Repeats(items[0], T, t, k, icase) && Found(items[1..], atEnd, T, k, icase)
  {
    if Found(items, atEnd, T, t, icase) {
      var m :| t <= m <= |T| && Spells(items, T, t, m, icase) && (atEnd ==> m == |T|);
      var k :| Repeats(items[0], T, t, k, icase) && Spells(items[1..], T, k, m, icase);
      SpellsForward(items[1..], T, k, m, icase);
      assert Found(items[1..], atEnd, T, k, icase);
    }
    if k: nat :| Repeats(items[0], T, t, k, icase) && Found(items[1..], atEnd, T, k, icase) {
      var m :| k <= m <= |T| && Spells(items[1..], T, k, m, icase) && (atEnd ==> m == |T|);
      assert Spells(items, T, t, m, icase);
    }
  }

  lemma NoItems(atEnd: bool, T: Text, t: nat, icase: bool)
    requires t <= |T|
    ensures Found([], atEnd, T, t, icase) <==> (atEnd ==> t == |T|)
  {
    assert Spells([], T, t, t, icase);
  }

  // ----- reading a pattern -----

  /** Where the search for the closing bracket starts: a bracket right at the front is a member. */
  function SetStart(re: Text, r: nat): nat {
    var p := if Is(re, r + 1, CARET) then r + 2 else r + 1;
    if Is(re, p, CLOSE) then p + 1 else p
  }

  function AtomEnd(re: Text, r: nat): (e: nat)
    requires r < |re|
    ensures r < e <= |re|
  {
    if re[r] == BACKSLASH && r + 1 < |re| then r + 2
    else if re[r] == OPEN && FindClose(re, SetStart(re, r)) < |re| then FindClose(re, SetStart(re, r)) + 1
    else r + 1
  }

  predicate Quantified(re: Text, e: nat) { Is(re, e, STAR) || Is(re, e, PLUS) || Is(re, e, MAYBE) }

  predicate EndAnchor(re: Text, r: nat) { Is(re, r, DOLLAR) && r + 1 == |re| }

  function ItemAt(re: Text, r: nat): Item
    requires r < |re|
  {
    var e := AtomEnd(re, r);
    if Quantified(re, e) then Item(re[r..e], if re[e] == PLUS then 1 else 0, re[e] != MAYBE)
    else Item(re[r..e], 1, false)
  }

  function After(re: Text, r: nat): (n: nat)
    requires r < |re|
    ensures r < n <= |re|
  {
    var e := AtomEnd(re, r);
    if Quantified(re, e) then e + 1 else e
  }

  /** The items of a pattern from a position on. */
  function Items(re: Text, r: nat): seq<Item>
    decreases |re| - r
  {
    if r >= |re| || EndAnchor(re, r) then [] else [ItemAt(re, r)] + Items(re, After(re, r))
  }

  /** Whether an anchor ends it. */
  predicate Anchored(re: Text, r: nat)
    decreases |re| - r
  {
    r < |re| && (EndAnchor(re, r) || Anchored(re, After(re, r)))
  }

  ghost predicate Here(re: Text, r: nat, T: Text, t: nat, icase: bool) {
    Found(Items(re, r), Anchored(re, r), T, t, icase)
  }

  lemma HereStep(re: Text, r: nat, T: Text, t: nat, icase: bool)
    requires r < |re| && !EndAnchor(re, r)
    ensures Here(re, r, T, t, icase) <==>
      exists k :: Repeats(ItemAt(re, r), T, t, k, icase) && Here(re, After(re, r), T, k, icase)
  {
    var items := Items(re, r);
    assert items[1..] == Items(re, After(re, r));
    FirstItem(items, Anchored(re, r), T, t, icase);
  }

  // ----- the matcher -----

  /** re_atom_end. */
  method FindAtomEnd(re: Text, r: nat) returns (e: nat)
    requires r < |re|
    ensures e == AtomEnd(re, r)
  {
    if re[r] == BACKSLASH && r + 1 < |re| { return r + 2; }
    if re[r] == OPEN {
      var p := r + 1;
      if p < |re| && re[p] == CARET { p := p + 1; }
      if p < |re| && re[p] == CLOSE { p := p + 1; }
      while p < |re| && re[p] != CLOSE
        invariant FindClose(re, p) == FindClose(re, SetStart(re, r))
      {
        p := p + 1;
      }
      if p < |re| { return p + 1; }
      return r + 1;
    }
    return r + 1;
  }

  /** re_atom_match. */
  method AtomMatch(a: Atom, c: int, icase: bool) returns (ok: bool)
    requires a != []
    ensures ok == Accepts(a, c, icase)
  {
    if a[0] == DOT { return true; }
    if a[0] == BACKSLASH && |a| == 2 { return SameChar(a[1], c, icase); }
    if a[0] == OPEN && |a| > 1 {
      var close := |a| - 1;
      var p, negate, found := 1, false, false;
      if a[p] == CARET { negate, p := true, 2; }
      ghost var from := p;
      while p < close
        invariant p >= 0 && (found || InSet(a, p, c, icase) <==> InSet(a, from, c, icase))
      {
        if p + 2 < close && a[p + 1] == DASH {
          if InRange(a[p], a[p + 2], c, icase) { found := true; }
          p := p + 2;
        } else if SameChar(a[p], c, icase) {
          found := true;
        }
        p := p + 1;
      }
      return found != negate;
    }
    return SameChar(a[0], c, icase);
  }

  /** re_here: some stretch of the text from t on is in the language of the pattern
      from start on. The recursion is on a shorter pattern. */
  method MatchHere(re: Text, start: nat, T: Text, from: nat, icase: bool) returns (ok: bool)
    requires start <= |re| && from <= |T|
    ensures ok <==> Here(re, start, T, from, icase)
    decreases |re| - start
  {
    hide Repeats, Found, Accepts, AtomEnd;
    var r, t := start, from;
    while true
      invariant start <= r <= |re| && from <= t <= |T|
      invariant Here(re, start, T, from, icase) <==> Here(re, r, T, t, icase)
      decreases |re| - r
    {
      NoItems(Anchored(re, r), T, t, icase);
      if r == |re| { return true; }
      if re[r] == DOLLAR && r + 1 == |re| { return t == |T|; }
      HereStep(re, r, T, t, icase);
      var e := FindAtomEnd(re, r);
      if e < |re| && (re[e] == STAR || re[e] == PLUS || re[e] == MAYBE) {
        ok := MatchMany(re, r, e, T, t, icase);
        return;
      }
      var accepted := false;
      if t < |T| { accepted := AtomMatch(re[r..e], T[t], icase); }
      Once(ItemAt(re, r), T, t, icase);
      if accepted {
        r, t := e, t + 1;
      } else {
        return false;
      }
    }
  }

  /** The quantified atom: the longest run first, then shorter ones. */
  method MatchMany(re: Text, r: nat, e: nat, T: Text, t: nat, icase: bool) returns (ok: bool)
    requires r < |re| && !EndAnchor(re, r) && e == AtomEnd(re, r) && Quantified(re, e) && t <= |T|
    ensures ok <==> exists k :: Repeats(ItemAt(re, r), T, t, k, icase) && Here(re, After(re, r), T, k, icase)
    decreases |re| - r, 0
  {
    hide Accepts, Here, AtomEnd;
    var least := if re[e] == PLUS then 1 else 0;
    var item := ItemAt(re, r);
    var n := 0;
    while (re[e] != MAYBE || n < 1) && t + n < |T|
      invariant 0 <= n && t + n <= |T| && (re[e] == MAYBE ==> n <= 1)
      invariant forall i :: t <= i < t + n ==> Accepts(item.atom, T[i], icase)
      decreases |T| - n
    {
      var accepted := AtomMatch(re[r..e], T[t + n], icase);
      if !accepted { break; }
      n := n + 1;
    }
    Longest(item, T, t, n, icase);
    var k := n + 1;
    while k > least
      invariant 0 <= k <= n + 1
      invariant forall j: nat :: Repeats(item, T, t, j, icase) && j >= t + k ==> !Here(re, e + 1, T, j, icase)
    {
      k := k - 1;
      ok := MatchHere(re, e + 1, T, t + k, icase);
      if ok {
        assert Repeats(item, T, t, t + k, icase);
        return true;
      }
    }
    return false;
  }

  lemma Longest(item: Item, T: Text, t: nat, n: nat, icase: bool)
    requires t + n <= |T| && item.atom != [] && (!item.many ==> n <= 1)
    requires forall i :: t <= i < t + n ==> Accepts(item.atom, T[i], icase)
    requires (!item.many && n == 1) || t + n == |T| || !Accepts(item.atom, T[t + n], icase)
    ensures forall j: nat :: Repeats(item, T, t, j, icase) <==> t + item.min <= j <= t + n
  {
    hide Accepts;
  }

  lemma Once(item: Item, T: Text, t: nat, icase: bool)
    requires item.min == 1 && !item.many && item.atom != [] && t <= |T|
    ensures forall k :: Repeats(item, T, t, k, icase) <==> k == t + 1 && t < |T| && Accepts(item.atom, T[t], icase)
  {
    hide Accepts;
  }

  /** re_match: some stretch of the text is in the language, from the start if the
      pattern begins with the anchor. */
  method Match(pattern: Text, T: Text, icase: bool) returns (ok: bool)
    ensures Is(pattern, 0, CARET) ==> (ok <==> Here(pattern, 1, T, 0, icase))
    ensures !Is(pattern, 0, CARET) ==> (ok <==> exists s :: 0 <= s <= |T| && Here(pattern, 0, T, s, icase))
  {
    hide Here;
    if |pattern| > 0 && pattern[0] == CARET {
      ok := MatchHere(pattern, 1, T, 0, icase);
      return;
    }
    var t := 0;
    while true
      invariant 0 <= t <= |T| && forall s :: 0 <= s < t ==> !Here(pattern, 0, T, s, icase)
      decreases |T| - t
    {
      ok := MatchHere(pattern, 0, T, t, icase);
      if ok { return true; }
      if t == |T| { break; }
      t := t + 1;
    }
    return false;
  }
}
