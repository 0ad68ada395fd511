/** user/bin/sort.c: lines are compared by key, ties by their place in the input, so
    that heapsort gives the one stable arrangement, also in reverse, and the pass
    for -u keeps the first line of each group of equal keys. */
module SortLines {
  import opened Sorting
  import opened TextLines

  /** key_compare with the sign that -r gives it. */
  function Directed(key: Order, rev: bool, x: int, y: int): int { if rev then -key(x, y) else key(x, y) }

  /** line_compare; a line is known by where it starts in the input. */
  function Compare(key: Order, rev: bool, x: int, y: int): int {
    var r := Directed(key, rev, x, y);
    if r != 0 then r else if x < y then -1 else if x > y then 1 else 0
  }

  function LineOrder(key: Order, rev: bool): Order { (x, y) => Compare(key, rev, x, y) }

  lemma DirectedConsistent(key: Order, rev: bool, a: int, b: int, c: int)
    requires Consistent(key)
    ensures Directed(key, rev, a, b) < 0 <==> Directed(key, rev, b, a) > 0
    ensures Directed(key, rev, a, b) == 0 <==> key(a, b) == 0
    ensures Directed(key, rev, a, b) <= 0 && Directed(key, rev, b, c) <= 0 ==> Directed(key, rev, a, c) <= 0
    ensures Directed(key, rev, a, b) <= 0 && Directed(key, rev, b, c) <= 0 && Directed(key, rev, a, c) == 0 ==>
      Directed(key, rev, a, b) == 0 && Directed(key, rev, b, c) == 0
  {
    assert key(a, b) < 0 <==> key(b, a) > 0;
    assert key(b, a) < 0 <==> key(a, b) > 0;
    assert key(b, c) < 0 <==> key(c, b) > 0;
    assert key(c, b) < 0 <==> key(b, c) > 0;
    assert key(a, c) < 0 <==> key(c, a) > 0;
    assert key(c, a) < 0 <==> key(a, c) > 0;
  }

  /** With the tie-break the comparison is a strict total order. */
  lemma LineOrderStrict(key: Order, rev: bool)
    requires Consistent(key)
    ensures Consistent(LineOrder(key, rev)) && Strict(LineOrder(key, rev))
  {
    var cmp := LineOrder(key, rev);
    forall a, b ensures (cmp(a, b) < 0 <==> cmp(b, a) > 0) && (cmp(a, b) == 0 ==> a == b) {
      DirectedConsistent(key, rev, a, b, a);
      DirectedConsistent(key, rev, b, a, b);
    }
    forall a, b, c | cmp(a, b) <= 0 && cmp(b, c) <= 0 ensures cmp(a, c) <= 0 {
      DirectedConsistent(key, rev, a, b, c);
      DirectedConsistent(key, rev, b, a, b);
      DirectedConsistent(key, rev, c, b, c);
    }
  }

  ghost predicate Strict(cmp: Order) { forall a, b :: cmp(a, b) == 0 ==> a == b }

  /** There is only one sorted arrangement. */
  lemma {:induction false} OneArrangement(cmp: Order, s: seq<int>, t: seq<int>)
    requires Consistent(cmp) && Strict(cmp) && Sorted(cmp, s, 0) && Sorted(cmp, t, 0) && multiset(s) == multiset(t)
    ensures s == t
  {
    hide Consistent, Strict, Sorted;
    assert |s| == |multiset(s)| == |multiset(t)| == |t|;
    if s != [] {
      SameHead(cmp, s, t);
      Tails(cmp, s);
      Tails(cmp, t);
      OneArrangement(cmp, s[1..], t[1..]);
    }
  }

  lemma Tails(cmp: Order, s: seq<int>)
    requires Sorted(cmp, s, 0) && s != []
    ensures Sorted(cmp, s[1..], 0) && multiset(s[1..]) == multiset(s) - multiset{s[0]} && s == [s[0]] + s[1..]
  {
    assert s == [s[0]] + s[1..];
  }

  lemma SameHead(cmp: Order, s: seq<int>, t: seq<int>)
    requires Consistent(cmp) && Strict(cmp) && Sorted(cmp, s, 0) && Sorted(cmp, t, 0) && s != [] && t != []
    requires multiset(s) == multiset(t)
    ensures s[0] == t[0]
  {
    hide Consistent, Sorted;
    assert s[0] in multiset(t) && t[0] in multiset(s);
    Least(cmp, s, t[0]);
    Least(cmp, t, s[0]);
    Total(cmp, s[0], t[0]);
    Total(cmp, t[0], s[0]);
  }

  lemma Least(cmp: Order, s: seq<int>, x: int)
    requires Consistent(cmp) && Sorted(cmp, s, 0) && x in s
    ensures cmp(s[0], x) <= 0
  {
    hide Consistent;
    var i :| 0 <= i < |s| && s[i] == x;
    if i == 0 { Total(cmp, s[0], s[0]); }
  }

  /** Lines with equal keys come out in the order they went in, with -r too. */
  lemma Stable(key: Order, rev: bool, s: seq<int>, i: nat, j: nat)
    requires Consistent(key) && Sorted(LineOrder(key, rev), s, 0) && i < j < |s|
    ensures if rev then key(s[i], s[j]) >= 0 else key(s[i], s[j]) <= 0
    ensures key(s[i], s[j]) == 0 && s[i] != s[j] ==> s[i] < s[j]
  {
    DirectedConsistent(key, rev, s[i], s[j], s[i]);
    assert LineOrder(key, rev)(s[i], s[j]) <= 0;
  }

  // ----- the pass for -u -----

  /** One line for every key, the first one, in the order of the keys. */
  ghost predicate FirstOfEach(key: Order, rev: bool, order: seq<int>, out: seq<int>) {
    && (forall r :: r in out ==> r in order)
    && Rising(key, rev, out)
    && (forall x :: x in order ==> HasFirst(key, out, x))
  }

  ghost predicate HasFirst(key: Order, out: seq<int>, x: int) {
    exists r :: r in out && key(r, x) == 0 && r <= x
  }

  /** The part of the output loop already done. */
  ghost predicate Kept(key: Order, rev: bool, order: seq<int>, i: nat, out: seq<int>) {
    && i <= |order|
    && (forall r :: r in out ==> r in order)
    && Rising(key, rev, out)
    && (forall k :: 0 <= k < i ==> HasFirst(key, out, order[k]))
    && (i > 0 ==> out != [] && key(out[|out| - 1], order[i - 1]) == 0 && out[|out| - 1] <= order[i - 1])
  }

  ghost predicate Rising(key: Order, rev: bool, out: seq<int>) {
    forall a, b :: 0 <= a < b < |out| ==> Directed(key, rev, out[a], out[b]) < 0
  }

  lemma SameKeys(key: Order, a: int, b: int, c: int)
    requires Consistent(key) && key(a, b) == 0 && key(b, c) == 0
    ensures key(a, c) == 0
  {
    DirectedConsistent(key, false, a, b, c);
    DirectedConsistent(key, false, c, b, a);
    DirectedConsistent(key, false, b, c, b);
    DirectedConsistent(key, false, b, a, b);
  }

  lemma Further(key: Order, rev: bool, a: int, b: int, c: int)
    requires Consistent(key) && Directed(key, rev, a, b) <= 0 && Directed(key, rev, b, c) <= 0
    requires Directed(key, rev, a, b) != 0 || Directed(key, rev, b, c) != 0
    ensures Directed(key, rev, a, c) < 0
  {
    DirectedConsistent(key, rev, a, b, c);
  }

  lemma Neighbours(key: Order, rev: bool, order: seq<int>, i: nat)
    requires Sorted(LineOrder(key, rev), order, 0) && 0 < i < |order|
    ensures Directed(key, rev, order[i - 1], order[i]) <= 0
    ensures key(order[i - 1], order[i]) == 0 ==> order[i - 1] <= order[i]
  {
    assert LineOrder(key, rev)(order[i - 1], order[i]) <= 0;
  }

  lemma SameGroup(key: Order, rev: bool, order: seq<int>, i: nat, out: seq<int>)
    requires Consistent(key) && Sorted(LineOrder(key, rev), order, 0) && Kept(key, rev, order, i, out)
    requires 0 < i < |order| && key(order[i - 1], order[i]) == 0
    ensures Kept(key, rev, order, i + 1, out)
  {
    hide Consistent, Sorted, Rising;
    var last := out[|out| - 1];
    SameKeys(key, last, order[i - 1], order[i]);
    Neighbours(key, rev, order, i);
    assert last in out;
    assert HasFirst(key, out, order[i]);
  }

  lemma NewGroup(key: Order, rev: bool, order: seq<int>, i: nat, out: seq<int>)
    requires Consistent(key) && Sorted(LineOrder(key, rev), order, 0) && Kept(key, rev, order, i, out)
    requires i < |order| && (i > 0 ==> key(order[i - 1], order[i]) != 0) && (i == 0 ==> out == [])
    ensures Kept(key, rev, order, i + 1, out + [order[i]])
  {
    hide Consistent, Sorted;
    var now, x := out + [order[i]], order[i];
    Total(key, x, x);
    assert now[|out|] == x;
    assert HasFirst(key, now, x);
    forall k | 0 <= k < i ensures HasFirst(key, now, order[k]) { MoreOut(key, out, order[i], order[k]); }
    if i > 0 { Risen(key, rev, order, i, out); }
  }

  lemma MoreOut(key: Order, out: seq<int>, y: int, x: int)
    requires HasFirst(key, out, x)
    ensures HasFirst(key, out + [y], x)
  {
    var r :| r in out && key(r, x) == 0 && r <= x;
    assert r in out + [y];
  }

  lemma Risen(key: Order, rev: bool, order: seq<int>, i: nat, out: seq<int>)
    requires Consistent(key) && Sorted(LineOrder(key, rev), order, 0) && 0 < i < |order| && out != []
    requires Rising(key, rev, out)
    requires key(out[|out| - 1], order[i - 1]) == 0 && key(order[i - 1], order[i]) != 0
    ensures Rising(key, rev, out + [order[i]])
  {
    hide Consistent, Sorted;
    var last, x := out[|out| - 1], order[i];
    Neighbours(key, rev, order, i);
    DirectedZero(key, rev, last, order[i - 1]);
    DirectedZero(key, rev, order[i - 1], x);
    Further(key, rev, last, order[i - 1], x);
    forall a | 0 <= a < |out| ensures Directed(key, rev, out[a], x) < 0 {
      if a < |out| - 1 { Further(key, rev, out[a], last, x); }
    }
  }

  lemma DirectedZero(key: Order, rev: bool, a: int, b: int)
    ensures Directed(key, rev, a, b) == 0 <==> key(a, b) == 0
  {
  }

  /** The output loop: all lines, or with -u the first of each group. */
  method Print(order: seq<int>, key: Order, ghost rev: bool, unique: bool) returns (out: seq<int>)
    requires Consistent(key) && Sorted(LineOrder(key, rev), order, 0)
    ensures !unique ==> out == order
    ensures unique ==> FirstOfEach(key, rev, order, out)
  {
    hide Consistent, Sorted, Kept;
    out := [];
    KeptNone(key, rev, order);
    for i := 0 to |order|
      invariant if unique then Kept(key, rev, order, i, out) else out == order[..i]
      invariant i == 0 ==> out == []
    {
      if unique && i > 0 && key(order[i - 1], order[i]) == 0 {
        SameGroup(key, rev, order, i, out);
        continue;
      }
      if unique { NewGroup(key, rev, order, i, out); }
      out := out + [order[i]];
    }
    if unique { AllKept(key, rev, order, out); }
  }

  lemma KeptNone(key: Order, rev: bool, order: seq<int>)
    ensures Kept(key, rev, order, 0, [])
  {
  }

  lemma AllKept(key: Order, rev: bool, order: seq<int>, out: seq<int>)
    requires Kept(key, rev, order, |order|, out)
    ensures FirstOfEach(key, rev, order, out)
  {
    forall x | x in order ensures HasFirst(key, out, x) { var k :| 0 <= k < |order| && order[k] == x; }
  }

  /** There is one way only to keep the first line of each key in that order. */
  lemma OneSelection(key: Order, rev: bool, order: seq<int>, s: seq<int>, t: seq<int>)
    requires Consistent(key) && FirstOfEach(key, rev, order, s) && FirstOfEach(key, rev, order, t)
    ensures s == t
  {
    hide Consistent, FirstOfEach, Rising;
    SelectedIn(key, rev, order, s, t);
    SelectedIn(key, rev, order, t, s);
    SameSelection(key, rev, s, t);
  }

  /** Every line of one output is in another. */
  ghost predicate AllIn(s: seq<int>, t: seq<int>) { forall i :: 0 <= i < |s| ==> s[i] in t }

  /** A line is kept exactly if it is the first with its key. */
  lemma SelectedIn(key: Order, rev: bool, order: seq<int>, s: seq<int>, t: seq<int>)
    requires Consistent(key) && FirstOfEach(key, rev, order, s) && FirstOfEach(key, rev, order, t)
    ensures AllIn(s, t) && Rising(key, rev, s)
  {
    hide Consistent, FirstOfEach, Rising;
    forall i | 0 <= i < |s| ensures s[i] in t { SelectedToo(key, rev, order, s, t, s[i]); }
    FirstRises(key, rev, order, s);
  }

  lemma FirstRises(key: Order, rev: bool, order: seq<int>, s: seq<int>)
    requires FirstOfEach(key, rev, order, s)
    ensures Rising(key, rev, s)
  {
  }

  /** A line of the input has a line of its key before or at its place in the output. */
  lemma FirstFor(key: Order, rev: bool, order: seq<int>, s: seq<int>, x: int) returns (r: int)
    requires FirstOfEach(key, rev, order, s) && x in order
    ensures r in s && key(r, x) == 0 && r <= x && r in order
  {
    assert HasFirst(key, s, x);
    r :| r in s && key(r, x) == 0 && r <= x;
  }

  lemma SelectedToo(key: Order, rev: bool, order: seq<int>, s: seq<int>, t: seq<int>, x: int)
    requires Consistent(key) && FirstOfEach(key, rev, order, s) && FirstOfEach(key, rev, order, t) && x in s
    ensures x in t
  {
    hide Consistent, FirstOfEach, Rising;
    FromInput(key, rev, order, s, x);
    var r := FirstFor(key, rev, order, t, x);
    var q := FirstFor(key, rev, order, s, r);
    SameKeys(key, q, r, x);
    FirstRises(key, rev, order, s);
    OneOfKey(key, rev, s, q, x);
  }

  lemma FromInput(key: Order, rev: bool, order: seq<int>, s: seq<int>, x: int)
    requires FirstOfEach(key, rev, order, s) && x in s
    ensures x in order
  {
  }

  lemma OneOfKey(key: Order, rev: bool, s: seq<int>, q: int, x: int)
    requires Consistent(key) && Rising(key, rev, s) && q in s && x in s && key(q, x) == 0
    ensures q == x
  {
    hide Consistent;
    var i :| 0 <= i < |s| && s[i] == q;
    var j :| 0 <= j < |s| && s[j] == x;
    Total(key, q, x);
    Total(key, x, q);
    DirectedZero(key, rev, q, x);
    DirectedZero(key, rev, x, q);
    assert i < j ==> Directed(key, rev, s[i], s[j]) < 0;
    assert j < i ==> Directed(key, rev, s[j], s[i]) < 0;
  }

  lemma {:induction false} SameSelection(key: Order, rev: bool, s: seq<int>, t: seq<int>)
    requires Consistent(key) && Rising(key, rev, s) && Rising(key, rev, t)
    requires AllIn(s, t) && AllIn(t, s)
    ensures s == t
  {
    hide Consistent, Rising;
    assert (s != [] ==> s[0] in t) && (t != [] ==> t[0] in s);
    if s != [] && t != [] {
      Foremost(key, rev, s, t);
      RestOf(key, rev, s);
      RestOf(key, rev, t);
      forall i | 0 <= i < |s[1..]| ensures s[1..][i] in t[1..] { assert s[1..][i] == s[i + 1] && s[1..][i] in s[1..]; }
      forall i | 0 <= i < |t[1..]| ensures t[1..][i] in s[1..] { assert t[1..][i] == t[i + 1] && t[1..][i] in t[1..]; }
      SameSelection(key, rev, s[1..], t[1..]);
      assert s == [s[0]] + s[1..] && t == [t[0]] + t[1..];
    }
  }

  lemma Foremost(key: Order, rev: bool, s: seq<int>, t: seq<int>)
    requires Consistent(key) && Rising(key, rev, s) && Rising(key, rev, t) && s != [] && t != [] && s[0] in t
    requires t[0] in s
    ensures s[0] == t[0]
  {
    hide Consistent;
    var i :| 0 <= i < |t| && t[i] == s[0];
    var j :| 0 <= j < |s| && s[j] == t[0];
    if i > 0 && j > 0 {
      assert Directed(key, rev, t[0], s[0]) < 0 && Directed(key, rev, s[0], t[0]) < 0;
      DirectedConsistent(key, rev, s[0], t[0], s[0]);
    }
  }

  lemma RestOf(key: Order, rev: bool, s: seq<int>)
    requires Consistent(key) && Rising(key, rev, s) && s != []
    ensures Rising(key, rev, s[1..]) && forall x :: x in s[1..] <==> x in s && x != s[0]
  {
    hide Consistent;
    Total(key, s[0], s[0]);
    DirectedZero(key, rev, s[0], s[0]);
    forall x | x in s && x != s[0] ensures x in s[1..] {
      var i :| 0 <= i < |s| && s[i] == x;
      assert s[1..][i - 1] == x;
    }
    forall x | x in s[1..] ensures x in s && x != s[0] {
      var i :| 0 <= i < |s[1..]| && s[1..][i] == x;
      assert s[i + 1] == x && Directed(key, rev, s[0], s[i + 1]) < 0;
    }
  }

  // ----- the program -----

  /** sort: the lines of the data in the one stable arrangement by the chosen key, or
      with -u the first line of each key in that order. */
  method Sort(data: string, mode: Mode, rev: bool, unique: bool)
    returns (text: string, ghost order: seq<int>, ghost out: seq<int>)
    ensures Sorted(LineOrder(Key(Cut(data), mode), rev), order, 0) && multiset(order) == multiset(Starts(data, 0))
    ensures if unique then FirstOfEach(Key(Cut(data), mode), rev, order, out) else out == order
    ensures text == Printed(Cut(data), out)
  {
    hide Consistent, Sorted, FirstOfEach, Key, Starts, Cut, Printed;
    var buffer, starts := SplitLines(data);
    var key := Key(buffer, mode);
    KeyConsistent(buffer, mode);
    LineOrderStrict(key, rev);
    var lines := new int[|starts|](i requires 0 <= i < |starts| => starts[i]);
    assert lines[..] == starts;
    HeapSort(lines, LineOrder(key, rev));
    order := lines[..];
    var chosen := Print(lines[..], key, rev, unique);
    out := chosen;
    text := Write(buffer, chosen);
  }

  /** The output: each line and a newline. */
  method Write(buffer: string, lines: seq<int>) returns (text: string)
    ensures text == Printed(buffer, lines)
  {
    hide TextAt;
    text := "";
    for i := 0 to |lines|
      invariant text == Printed(buffer, lines[..i])
    {
      assert lines[..i + 1][..i] == lines[..i];
      text := text + TextAt(buffer, lines[i]) + [NEWLINE];
    }
    assert lines[..|lines|] == lines;
  }

  /** What sort prints is decided by its input: any two stable arrangements agree, with
      and without -u. */
  lemma OneOutput(data: string, mode: Mode, rev: bool, a: seq<int>, b: seq<int>, s: seq<int>, t: seq<int>)
    requires Sorted(LineOrder(Key(Cut(data), mode), rev), a, 0) && multiset(a) == multiset(Starts(data, 0))
    requires Sorted(LineOrder(Key(Cut(data), mode), rev), b, 0) && multiset(b) == multiset(Starts(data, 0))
    requires FirstOfEach(Key(Cut(data), mode), rev, a, s) && FirstOfEach(Key(Cut(data), mode), rev, b, t)
    ensures a == b && s == t
  {
    hide Consistent, Sorted, FirstOfEach, Key, Starts, Cut, Strict;
    var key := Key(Cut(data), mode);
    KeyConsistent(Cut(data), mode);
    LineOrderStrict(key, rev);
    OneArrangement(LineOrder(key, rev), a, b);
    OneSelection(key, rev, a, s, t);
  }
}
