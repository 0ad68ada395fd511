/** The order in which a recursive copy of a page-table tree asks for frames, and which
    frames stay taken when one request is refused (clone_level of
    src/arch/x86_64/paging.c gives back only the tables it is still filling). */
module Visits {
  import opened Radix

  /** The tables at or below a position, a table before those behind its entries. */
  ghost function Visit(tables: Tables, p: Path): seq<Path>
    decreases 4 - |p|, ENTRIES + 1
  {
    [p] + VisitBelow(tables, p, ENTRIES)
  }

  /** Those behind the first entries of a table. */
  ghost function VisitBelow(tables: Tables, p: Path, n: nat): seq<Path>
    decreases 4 - |p|, n
  {
    if n == 0 || |p| >= 3 then []
    else VisitBelow(tables, p, n - 1) + if p + [n - 1] in tables then Visit(tables, p + [n - 1]) else []
  }

  lemma BelowNext(tables: Tables, p: Path, n: nat)
    ensures VisitBelow(tables, p, 0) == []
    ensures VisitBelow(tables, p, n + 1)
         == VisitBelow(tables, p, n) + if |p| < 3 && p + [n] in tables then Visit(tables, p + [n]) else []
  {
  }

  /** Everything behind the first entries is below one of them. */
  lemma {:induction false} BelowIs(tables: Tables, p: Path, n: nat, k: nat)
    requires k < |VisitBelow(tables, p, n)|
    ensures var q := VisitBelow(tables, p, n)[k]; q in tables && |q| > |p| && IsPrefix(p, q) && q[|p|] < n
    decreases 4 - |p|, n
  {
    hide Visit;
    BelowNext(tables, p, n - 1);
    if k < |VisitBelow(tables, p, n - 1)| {
      BelowIs(tables, p, n - 1, k);
    } else {
      var i := k - |VisitBelow(tables, p, n - 1)|;
      VisitIs(tables, p + [n - 1], i);
      Longer(p, n - 1, Visit(tables, p + [n - 1])[i]);
    }
  }

  lemma {:induction false} VisitIs(tables: Tables, p: Path, k: nat)
    requires p in tables && k < |Visit(tables, p)|
    ensures var q := Visit(tables, p)[k]; q in tables && IsPrefix(p, q)
    decreases 4 - |p|, ENTRIES + 1
  {
    hide VisitBelow;
    if k > 0 { BelowIs(tables, p, ENTRIES, k - 1); }
  }

  lemma Longer(p: Path, i: nat, q: Path)
    requires IsPrefix(p + [i], q)
    ensures |q| > |p| && IsPrefix(p, q) && q[|p|] == i
  {
    assert q[..|p|] == q[..|p| + 1][..|p|] == p;
    assert q[|p|] == q[..|p| + 1][|p|];
  }

  // ----- every table once -----

  lemma {:induction false} VisitHas(base: Path, tables: Tables, p: Path, q: Path)
    requires Shaped(base, tables) && p in tables && q in tables && IsPrefix(p, q)
    ensures q in Visit(tables, p)
    decreases 4 - |p|, ENTRIES + 1
  {
    hide VisitBelow, Shaped;
    Bounded(base, tables, q);
    if q == p {
      assert Visit(tables, p)[0] == p;
    } else {
      assert q[..|q|] == q;
      BelowHas(base, tables, p, ENTRIES, q);
      var k :| 0 <= k < |VisitBelow(tables, p, ENTRIES)| && VisitBelow(tables, p, ENTRIES)[k] == q;
      assert Visit(tables, p)[k + 1] == q;
    }
  }

  lemma {:induction false} BelowHas(base: Path, tables: Tables, p: Path, n: nat, q: Path)
    requires Shaped(base, tables) && p in tables && q in tables && IsPrefix(p, q) && |p| < |q| <= 3 && q[|p|] < n
    ensures q in VisitBelow(tables, p, n)
    decreases 4 - |p|, n
  {
    hide Visit, Shaped;
    BelowNext(tables, p, n - 1);
    if q[|p|] < n - 1 {
      BelowHas(base, tables, p, n - 1, q);
    } else {
      var c := p + [n - 1];
      assert c == q[..|p| + 1];
      ChildThere(base, tables, p, q);
      VisitHas(base, tables, c, q);
    }
  }

  lemma Bounded(base: Path, tables: Tables, q: Path)
    requires Shaped(base, tables) && q in tables
    ensures |q| <= 3 && Indices(q)
  {
    assert Place(base, tables, q);
  }

  lemma ChildThere(base: Path, tables: Tables, p: Path, q: Path)
    requires Shaped(base, tables) && p in tables && q in tables && IsPrefix(p, q) && |q| > |p|
    ensures q[..|p| + 1] in tables
  {
    assert Place(base, tables, p) && Place(base, tables, q);
    Prefixes(base, tables, q, |p| + 1);
  }

  /** No table is visited after one behind it, and none twice. */
  ghost predicate Forward(order: seq<Path>) {
    forall i, j :: 0 <= i < j < |order| ==> !IsPrefix(order[j], order[i])
  }

  lemma {:induction false} VisitForward(tables: Tables, p: Path)
    requires p in tables
    ensures Forward(Visit(tables, p))
    decreases 4 - |p|, ENTRIES + 1
  {
    hide VisitBelow;
    BelowForward(tables, p, ENTRIES);
    var order, below := Visit(tables, p), VisitBelow(tables, p, ENTRIES);
    forall i, j | 0 <= i < j < |order| ensures !IsPrefix(order[j], order[i]) {
      assert order[j] == below[j - 1];
      BelowIs(tables, p, ENTRIES, j - 1);
      if i > 0 { assert order[i] == below[i - 1]; }
    }
  }

  lemma {:induction false} BelowForward(tables: Tables, p: Path, n: nat)
    requires p in tables
    ensures Forward(VisitBelow(tables, p, n))
    decreases 4 - |p|, n
  {
    hide Visit;
    if n > 0 && |p| < 3 {
      BelowForward(tables, p, n - 1);
      BelowNext(tables, p, n - 1);
      if p + [n - 1] in tables {
        VisitForward(tables, p + [n - 1]);
        var a, b := VisitBelow(tables, p, n - 1), Visit(tables, p + [n - 1]);
        forall i, j | 0 <= i < |a| && 0 <= j < |b| ensures !IsPrefix(b[j], a[i]) {
          BelowIs(tables, p, n - 1, i);
          VisitIs(tables, p + [n - 1], j);
          Longer(p, n - 1, b[j]);
          PrefixAt(b[j], a[i], |p|);
        }
        Joins(a, b);
      }
    }
  }

  lemma PrefixAt(b: Path, a: Path, i: nat)
    requires i < |b|
    ensures IsPrefix(b, a) ==> i < |a| && a[i] == b[i]
  {
    if IsPrefix(b, a) { assert a[i] == a[..|b|][i]; }
  }

  lemma Joins(a: seq<Path>, b: seq<Path>)
    requires Forward(a) && Forward(b) && forall i, j :: 0 <= i < |a| && 0 <= j < |b| ==> !IsPrefix(b[j], a[i])
    ensures Forward(a + b)
  {
    hide IsPrefix;
    var c := a + b;
    forall i, j | 0 <= i < j < |c| ensures !IsPrefix(c[j], c[i]) {
      if i < |a| <= j { assert c[j] == b[j - |a|] && c[i] == a[i]; }
      if |a| <= i { assert c[j] == b[j - |a|] && c[i] == b[i - |a|]; }
    }
  }

  // ----- requests -----

  /** The frame allocator says no: nothing, a frame that is in use, or none that exists. */
  predicate Refuses(frame: nat, held: set<nat>) { frame == 0 || frame in held || frame >= FRAMES }

  /** What a stretch of requests returned. */
  ghost function Given(answer: nat -> nat, from: nat, till: nat): set<nat> {
    set n: nat | from <= n < till :: answer(n)
  }

  ghost predicate AllGranted(answer: nat -> nat, held: set<nat>, from: nat, till: nat) {
    forall n: nat :: from <= n < till ==> Granted(answer, held, from, n)
  }

  ghost predicate Granted(answer: nat -> nat, held: set<nat>, from: nat, n: nat) {
    !Refuses(answer(n), held + Given(answer, from, n))
  }

  /** The frames that stay taken when a request is refused: those of every table visited
      before that is not above the one the frame was for. */
  ghost function Lost(answer: nat -> nat, order: seq<Path>, from: nat, k: nat): set<nat>
    requires k < |order|
  {
    set n: nat | from <= n < from + k && !IsPrefix(order[n - from], order[k]) :: answer(n)
  }

  lemma GivenSplit(answer: nat -> nat, from: nat, mid: nat, till: nat)
    requires from <= mid <= till
    ensures Given(answer, from, till) == Given(answer, from, mid) + Given(answer, mid, till)
  {
  }

  lemma GrantedMore(answer: nat -> nat, held: set<nat>, from: nat, mid: nat, till: nat)
    requires from <= mid <= till && AllGranted(answer, held, from, mid)
    requires AllGranted(answer, held + Given(answer, from, mid), mid, till)
    ensures AllGranted(answer, held, from, till)
  {
    hide Given, Refuses;
    forall n: nat | from <= n < till ensures Granted(answer, held, from, n) {
      if n >= mid { GrantedOn(answer, held, from, mid, n); }
    }
  }

  lemma GrantedOn(answer: nat -> nat, held: set<nat>, from: nat, mid: nat, n: nat)
    requires from <= mid <= n
    ensures Granted(answer, held + Given(answer, from, mid), mid, n) <==> Granted(answer, held, from, n)
  {
    hide Given, Refuses;
    GivenSplit(answer, from, mid, n);
    assert held + Given(answer, from, mid) + Given(answer, mid, n) == held + Given(answer, from, n);
  }

  /** Only one request can be the first refused. */
  lemma FirstRefusal(answer: nat -> nat, held: set<nat>, from: nat, a: nat, b: nat)
    requires from <= a && AllGranted(answer, held, from, a) && !Granted(answer, held, from, a)
    requires from <= b && AllGranted(answer, held, from, b) && !Granted(answer, held, from, b)
    ensures a == b
  {
    hide Granted;
    assert a < b ==> Granted(answer, held, from, a);
    assert b < a ==> Granted(answer, held, from, b);
  }

  // ----- one table of a clone -----

  /** The entries done so far, as a part of the visit. */
  lemma Progress(tables: Tables, p: Path, n: nat)
    requires p in tables && n < ENTRIES && |p| < 3 && p + [n] in tables
    ensures var a, b := [p] + VisitBelow(tables, p, n), Visit(tables, p + [n]);
      && [p] + VisitBelow(tables, p, n + 1) == a + b && |a| + |b| <= |Visit(tables, p)|
      && Visit(tables, p)[..|a| + |b|] == a + b
  {
    hide Visit, VisitBelow;
    BelowNext(tables, p, n);
    var a, b := [p] + VisitBelow(tables, p, n), Visit(tables, p + [n]);
    assert [p] + (VisitBelow(tables, p, n) + b) == a + b;
    BelowPrefix(tables, p, n + 1, ENTRIES);
    VisitOf(tables, p);
  }

  lemma VisitOf(tables: Tables, p: Path)
    ensures Visit(tables, p) == [p] + VisitBelow(tables, p, ENTRIES)
  {
  }

  lemma {:induction false} BelowPrefix(tables: Tables, p: Path, m: nat, n: nat)
    requires m <= n
    ensures VisitBelow(tables, p, m) <= VisitBelow(tables, p, n)
    decreases n
  {
    hide Visit, VisitBelow;
    if m < n {
      BelowPrefix(tables, p, m, n - 1);
      BelowNext(tables, p, n - 1);
    }
  }

  /** The child could not be copied: its loss, the frames of the entries done before, and
      the table itself comes back. */
  lemma ChildLost(answer: nat -> nat, tables: Tables, p: Path, n: nat, held: set<nat>, from: nat, mid: nat, k: nat)
    requires p in tables && n < ENTRIES && |p| < 3 && p + [n] in tables && mid == from + 1 + |VisitBelow(tables, p, n)|
    requires AllGranted(answer, held, from, mid) && AllGranted(answer, held + Given(answer, from, mid), mid, mid + k)
    requires k < |Visit(tables, p + [n])|
    ensures mid - from + k < |Visit(tables, p)|
    ensures held + Given(answer, from, mid) + Lost(answer, Visit(tables, p + [n]), mid, k) - {answer(from)}
         == held + Lost(answer, Visit(tables, p), from, mid - from + k)
  {
    hide Visit, VisitBelow, Granted, Refuses;
    Progress(tables, p, n);
    var order, below, child := Visit(tables, p), VisitBelow(tables, p, n), Visit(tables, p + [n]);
    var d := 1 + |below|;
    var a := [p] + below;
    assert order[..d + |child|] == a + child;
    assert order[d + k] == (a + child)[d + k] == child[k];
    VisitIs(tables, p + [n], k);
    Longer(p, n, child[k]);
    GrantedMore(answer, held, from, mid, mid + k);
    NotFirst(answer, held, from, mid + k);
    forall j: nat | j < d + k ensures order[j] == (if j == 0 then p else if j < d then below[j - 1] else child[j - d]) {
      assert order[j] == (a + child)[j];
    }
    forall j: nat | 0 < j < d ensures !IsPrefix(order[j], order[d + k]) {
      BelowIs(tables, p, n, j - 1);
      PrefixAt(order[j], child[k], |p|);
    }
    SameLoss(answer, order, child, held, from, d, k);
  }

  /** The first frame is given once. */
  lemma NotFirst(answer: nat -> nat, held: set<nat>, from: nat, till: nat)
    requires AllGranted(answer, held, from, till)
    ensures forall n: nat :: from < n < till ==> answer(n) != answer(from)
    ensures from < till ==> answer(from) !in held
  {
    forall n: nat | from < n < till ensures answer(n) != answer(from) {
      assert Granted(answer, held, from, n);
      assert answer(from) in Given(answer, from, n);
    }
    if from < till { assert Granted(answer, held, from, from); }
  }

  lemma SameLoss(answer: nat -> nat, order: seq<Path>, child: seq<Path>, held: set<nat>, from: nat, d: nat, k: nat)
    requires 0 < d && d + k < |order| && k < |child| && order[d + k] == child[k] && IsPrefix(order[0], order[d + k])
    requires forall j: nat :: d <= j < d + k ==> order[j] == child[j - d]
    requires forall j: nat :: 0 < j < d ==> !IsPrefix(order[j], order[d + k])
    requires (forall n: nat :: from < n < from + d + k ==> answer(n) != answer(from)) && answer(from) !in held
    ensures held + Given(answer, from, from + d) + Lost(answer, child, from + d, k) - {answer(from)}
         == held + Lost(answer, order, from, d + k)
  {
    hide IsPrefix;
    var given, lost := Given(answer, from, from + d), Lost(answer, child, from + d, k);
    var all := Lost(answer, order, from, d + k);
    forall x | x in given && x != answer(from) ensures x in all {
      var n: nat :| from <= n < from + d && answer(n) == x;
      assert !IsPrefix(order[n - from], order[d + k]);
    }
    forall x | x in lost ensures x in all && x != answer(from) {
      var n: nat :| from + d <= n < from + d + k && !IsPrefix(child[n - from - d], child[k]) && answer(n) == x;
      assert order[n - from] == child[n - from - d];
    }
    forall x | x in all ensures x != answer(from) && (x in given || x in lost) {
      var n: nat :| from <= n < from + d + k && !IsPrefix(order[n - from], order[d + k]) && answer(n) == x;
      if n >= from + d { assert child[n - from - d] == order[n - from]; }
    }
  }

  // ----- when nothing is lost -----

  /** Nothing is lost exactly if every table visited so far, the one without a frame
      included, is the first one behind the table before it. */
  lemma NothingLost(answer: nat -> nat, base: Path, tables: Tables, p: Path, from: nat, k: nat)
    requires Shaped(base, tables) && p in tables && k < |Visit(tables, p)|
    ensures Lost(answer, Visit(tables, p), from, k) == {} <==>
      forall j: nat :: j <= k ==> |Visit(tables, p)[j]| == |p| + j
  {
    hide Visit, Shaped, IsPrefix;
    var order := Visit(tables, p);
    var lost := Lost(answer, order, from, k);
    if lost == {} {
      forall j: nat | j < k ensures IsPrefix(order[j], order[k]) {
        var n: nat := from + j;
        assert !IsPrefix(order[n - from], order[k]) ==> answer(n) in lost;
      }
      forall j: nat | j <= k ensures |order[j]| == |p| + j { Descends(base, tables, p, k, j); }
    }
    if forall j: nat :: j <= k ==> |order[j]| == |p| + j {
      forall j: nat | j < k ensures IsPrefix(order[j], order[k]) { OneBranch(base, tables, p, k, j); }
    }
  }

  /** Only tables above the last one: they come one level at a time. */
  lemma {:induction false} Descends(base: Path, tables: Tables, p: Path, k: nat, j: nat)
    requires Shaped(base, tables) && p in tables && j <= k < |Visit(tables, p)|
    requires forall i: nat :: i < k ==> IsPrefix(Visit(tables, p)[i], Visit(tables, p)[k])
    ensures |Visit(tables, p)[j]| == |p| + j
  {
    hide Visit, Shaped;
    var order := Visit(tables, p);
    VisitOf(tables, p);
    VisitForward(tables, p);
    VisitIs(tables, p, j);
    VisitIs(tables, p, k);
    if j > 0 {
      Descends(base, tables, p, k, j - 1);
      assert order[k][..|order[k]|] == order[k];
      Between(order, j, j, order[k]);
      var m := |p| + j;
      Shorter(order[j], order[k]);
      Above(base, tables, p, order[k], m);
      VisitHas(base, tables, p, order[k][..m]);
      var i :| 0 <= i < |order| && order[i] == order[k][..m];
      assert order[k][..m][..m] == order[k][..m];
      Between(order, i, j, order[k]);
    }
  }

  lemma Shorter(a: Path, w: Path)
    requires IsPrefix(a, w)
    ensures |a| <= |w|
  {
  }

  /** Of two positions above one, the shorter is above the other. */
  lemma Nested(a: Path, b: Path, w: Path)
    requires IsPrefix(a, w) && IsPrefix(b, w)
    ensures |b| <= |a| ==> IsPrefix(b, a)
  {
    if |b| <= |a| { assert a[..|b|] == w[..|a|][..|b|] == w[..|b|]; }
  }

  lemma Above(base: Path, tables: Tables, p: Path, w: Path, m: nat)
    requires Shaped(base, tables) && p in tables && w in tables && IsPrefix(p, w) && |p| <= m <= |w|
    ensures w[..m] in tables && IsPrefix(p, w[..m])
  {
    assert Place(base, tables, p) && Place(base, tables, w);
    if m < |w| { Prefixes(base, tables, w, m); } else { assert w[..m] == w; }
    assert w[..m][..|p|] == w[..|p|];
  }

  /** No position lies between two neighbours of the visit. */
  lemma Between(order: seq<Path>, i: nat, j: nat, w: Path)
    requires Forward(order) && 0 < j < |order| && i < |order|
    requires IsPrefix(order[i], w) && IsPrefix(order[j - 1], w) && IsPrefix(order[j], w)
    ensures |order[i]| <= |order[j - 1]| < |order[j]| || |order[j - 1]| < |order[j]| <= |order[i]|
  {
    hide IsPrefix;
    Nested(order[j - 1], order[j], w);
    Nested(order[i], order[j - 1], w);
    Nested(order[j], order[i], w);
  }

  /** One level at a time: each is above the next. */
  lemma {:induction false} OneBranch(base: Path, tables: Tables, p: Path, k: nat, j: nat)
    requires Shaped(base, tables) && p in tables && j <= k < |Visit(tables, p)|
    requires forall i: nat :: i <= k ==> |Visit(tables, p)[i]| == |p| + i
    ensures IsPrefix(Visit(tables, p)[j], Visit(tables, p)[k])
    decreases k - j
  {
    hide Visit, Shaped;
    var order := Visit(tables, p);
    if j == k {
      assert order[k][..|order[k]|] == order[k];
    } else {
      OneBranch(base, tables, p, k, j + 1);
      VisitIs(tables, p, j + 1);
      VisitForward(tables, p);
      var q := order[j + 1];
      var m := |q| - 1;
      Above(base, tables, p, q, m);
      VisitHas(base, tables, p, q[..m]);
      var i :| 0 <= i < |order| && order[i] == q[..m];
      assert q[..m][..m] == q[..m];
      assert i > j + 1 ==> !IsPrefix(order[i], order[j + 1]);
      assert |order[i]| == |p| + j;
      assert order[j] == q[..m];
      assert order[k][..m] == order[k][..|q|][..m];
    }
  }
}
