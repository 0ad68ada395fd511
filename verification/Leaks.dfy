/** Two small trees. A clone that fails and loses a frame: a root with two tables behind
    it and a frame allocator that gives two frames and no third. And a root behind
    whose first entry nothing can be made executable. */
module Leaks {
  import opened Radix
  import opened Visits
  import opened Paging

  function Forked(): Memory {
    map[1 := ZeroTable()[0 := TableEntry(2, false)][1 := TableEntry(3, false)], 2 := ZeroTable(), 3 := ZeroTable()]
  }

  function Three(): Tables { map[[] := 1, [0] := 2, [1] := 3] }

  function TwoFrames(n: nat): nat { if n == 0 then 10 else if n == 1 then 11 else 0 }

  lemma IsTree()
    ensures Rooted(Forked(), {1, 2, 3}, 1, Three())
  {
    var mem, tables := Forked(), Three();
    Shape();
    forall q | q in tables ensures Linked(mem, tables, q) {
      forall i | 0 <= i < ENTRIES ensures Link(mem, tables, q, i) { Links(q, i); }
    }
    forall t, i | t in mem && 0 <= i < |mem[t]| ensures Word(mem[t][i]) {}
  }

  lemma Shape()
    ensures Shaped([], Three())
  {
    var tables := Three();
    assert [0][..0] == [] && [1][..0] == [];
    forall q | q in tables ensures Place([], tables, q) {}
  }

  lemma Links(q: Path, i: nat)
    requires q in Three() && i < ENTRIES
    ensures Link(Forked(), Three(), q, i)
  {
    if q == [] {
      assert [] + [i] == [i];
      assert [i] == [0] <==> i == 0;
      assert [i] == [1] <==> i == 1;
    } else {
      assert |q + [i]| == 2;
    }
  }

  /** Three tables are visited, and the second is not above the third. */
  lemma ThreeVisited()
    ensures var order := Visit(Three(), []);
      |order| == 3 && order[0] == [] && IsPrefix(order[0], order[2]) && !IsPrefix(order[1], order[2])
  {
    hide Visit, Shaped;
    var tables := Three();
    var order := Visit(tables, []);
    Shape();
    VisitOf(tables, []);
    VisitForward(tables, []);
    VisitHas([], tables, [], [0]);
    VisitHas([], tables, [], [1]);
    var a :| 0 <= a < |order| && order[a] == [0];
    var b :| 0 <= b < |order| && order[b] == [1];
    assert a > 0 && b > 0 && a != b;
    if |order| > 3 {
      var c := if 1 !in {a, b} then 1 else if 2 !in {a, b} then 2 else 3;
      Others(order, a, b, c);
    }
    assert [0][..1] == [0] && [1][..1] == [1];
  }

  lemma Others(order: seq<Path>, a: nat, b: nat, c: nat)
    requires order == Visit(Three(), []) && Forward(order) && a < |order| && b < |order| && 0 < c < |order|
    requires order[0] == []
    requires order[a] == [0] && order[b] == [1]
    ensures c == a || c == b
  {
    hide Visit, Forward;
    VisitIs(Three(), [], c);
    Once(order, 0, c);
    if c != a { Once(order, a, c); }
    if c != b { Once(order, b, c); }
  }

  lemma Once(order: seq<Path>, i: nat, j: nat)
    requires Forward(order) && i < |order| && j < |order| && i != j
    ensures order[i] != order[j]
  {
    assert order[i][..|order[i]|] == order[i];
  }

  /** The root cannot be made, and one frame more than before is in use. */
  method LeakingClone() returns (root: nat, before: set<nat>, after: set<nat>)
    ensures root == 0 && before == {1, 2, 3} && after == {1, 2, 3, 11}
  {
    hide Rooted, Visit;
    before := {1, 2, 3};
    var pages := new PageTables(Forked(), before, 1, TwoFrames);
    IsTree();
    ThreeVisited();
    ghost var copy, k;
    root, copy, k := pages.CreateRoot(Three());
    after := pages.held;
    Third(root, k);
  }

  lemma Third(root: nat, k: nat)
    requires root != 0 <==> AllGranted(TwoFrames, {1, 2, 3}, 0, 3)
    requires root == 0 ==> AllGranted(TwoFrames, {1, 2, 3}, 0, k) && !Granted(TwoFrames, {1, 2, 3}, 0, k)
    ensures root == 0 && k == 2 && |Visit(Three(), [])| == 3
    ensures Lost(TwoFrames, Visit(Three(), []), 0, 2) == {11}
  {
    hide Visit;
    ThreeVisited();
    var held := {1, 2, 3};
    assert Granted(TwoFrames, held, 0, 0) && Granted(TwoFrames, held, 0, 1) && !Granted(TwoFrames, held, 0, 2) by {
      assert forall x :: x in Given(TwoFrames, 0, 1) ==> x == 10;
    }
    assert AllGranted(TwoFrames, held, 0, 2);
    if root == 0 { FirstRefusal(TwoFrames, held, 0, k, 2); }
    var order := Visit(Three(), []);
    var lost := Lost(TwoFrames, order, 0, 2);
    var n: nat := 1;
    assert !IsPrefix(order[n - 0], order[2]) && TwoFrames(n) == 11;
    forall x | x in lost ensures x == 11 {
      var m: nat :| 0 <= m < 2 && !IsPrefix(order[m - 0], order[2]) && TwoFrames(m) == x;
    }
  }

  // ----- a page that cannot be made executable -----

  /** A root whose first entry forbids execution. */
  function Sealed(): Memory {
    map[1 := ZeroTable()[0 := TableEntry(2, false).(high := NO_EXECUTE)], 2 := ZeroTable()]
  }

  function Two(): Tables { map[[] := 1, [0] := 2] }

  /** Such a tree is in order, and no page behind the entry can be mapped so that it runs. */
  lemma NeverRuns(w: Path)
    requires IsPage(w) && w[0] == 0
    ensures Rooted(Sealed(), {1, 2}, 1, Two()) && Barred(Sealed(), Two(), w)
  {
    var mem, tables := Sealed(), Two();
    assert [0][..0] == [];
    forall q | q in tables ensures Place([], tables, q) {}
    forall q | q in tables ensures Linked(mem, tables, q) {
      forall i | 0 <= i < ENTRIES ensures Link(mem, tables, q, i) { SealedLinks(q, i); }
    }
    forall t, i | t in mem && 0 <= i < |mem[t]| ensures Word(mem[t][i]) {}
    assert w[..0] == [] && BarsAt(mem, tables, w, 0);
  }

  lemma SealedLinks(q: Path, i: nat)
    requires q in Two() && i < ENTRIES
    ensures Link(Sealed(), Two(), q, i)
  {
    if q == [] {
      assert [] + [i] == [i];
      assert [i] == [0] <==> i == 0;
    } else {
      assert |q + [i]| == 2;
    }
  }
}
