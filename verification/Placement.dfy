/** Placing an entry on free slots, and taking one away: what that does to the
    groups and to the listing. */
module Placement {
  import opened Names
  import opened Listing

  /** Every slot before the end belongs to a group. */
  lemma {:induction false} Owner(groups: seq<Group>, p: nat) returns (g: nat, k: nat)
    requires AllOk(groups) && p < |Flat(groups)|
    ensures g < |groups| && k < |SlotsOf(groups[g])| && p == At(groups, g) + k
    ensures Flat(groups)[p] == SlotsOf(groups[g])[k]
    decreases |groups|
  {
    hide GroupOk, SlotsOf;
    var n := |groups| - 1;
    if p >= |Flat(groups[..n])| {
      g, k := n, p - |Flat(groups[..n])|;
    } else {
      g, k := Owner(groups[..n], p);
      assert groups[..n][..g] == groups[..g];
    }
  }

  lemma NeverEnd(g: Group, k: nat)
    requires GroupOk(g) && k < |SlotsOf(g)|
    ensures SlotsOf(g)[k] != End
  {
  }

  ghost function Holes(n: nat): (h: seq<Group>)
    ensures |h| == n && AllOk(h) && forall i :: 0 <= i < n ==> h[i] == Hole
  {
    seq(n, _ => Hole)
  }

  lemma {:induction false} FlatHoles(m: seq<Group>, base: nat)
    requires forall i :: 0 <= i < |m| ==> m[i] == Hole
    ensures AllOk(m) && |Flat(m)| == |m| && ItemsFrom(m, base) == []
    ensures forall i :: 0 <= i < |m| ==> Flat(m)[i] == Deleted
  {
    if m != [] { FlatHoles(m[..|m| - 1], base); }
  }

  lemma DeletedIsHole(g: Group, k: nat)
    requires GroupOk(g) && k < |SlotsOf(g)| && SlotsOf(g)[k] == Deleted
    ensures g == Hole && k == 0 && |SlotsOf(g)| == 1
  {
  }

  /** A stretch of deleted slots is a stretch of holes. */
  lemma {:induction false} HolesAt(groups: seq<Group>, g: nat, n: nat)
    requires AllOk(groups) && g <= |groups| && At(groups, g) + n <= |Flat(groups)|
    requires forall i :: At(groups, g) <= i < At(groups, g) + n ==> Flat(groups)[i] == Deleted
    ensures g + n <= |groups| && At(groups, g + n) == At(groups, g) + n
    ensures forall i :: g <= i < g + n ==> groups[i] == Hole
    decreases n
  {
    hide GroupOk, SlotsOf, Flat, At;
    AtEnds(groups);
    if n > 0 {
      HolesAt(groups, g, n - 1);
      var h := g + n - 1;
      Ahead(groups, h);
      SlotAt(groups, h, 0);
      DeletedIsHole(groups[h], 0);
      FlatAt(groups, h);
    }
  }

  lemma Ahead(groups: seq<Group>, h: nat)
    requires AllOk(groups) && h <= |groups| && At(groups, h) < |Flat(groups)|
    ensures h < |groups|
  {
    AtEnds(groups);
  }

  lemma Behind(groups: seq<Group>, h: nat)
    requires AllOk(groups) && h <= |groups| && At(groups, h) >= |Flat(groups)|
    ensures h == |groups|
  {
    hide GroupOk, SlotsOf, Flat, At;
    if h < |groups| { FlatAt(groups, h); }
  }

  /** Free slots belong to holes or lie behind the last group. */
  lemma FreeGroups(groups: seq<Group>, start: nat, n: nat) returns (g: nat, h: nat)
    requires AllOk(groups) && start <= |Flat(groups)| && n > 0
    requires forall i :: start <= i < start + n && i < |Flat(groups)| ==> Flat(groups)[i] == Deleted
    ensures g <= h <= |groups| && At(groups, g) == start && forall i :: g <= i < h ==> groups[i] == Hole
    ensures if start + n <= |Flat(groups)| then h == g + n else h == |groups|
  {
    hide GroupOk, SlotsOf, Flat, At;
    AtEnds(groups);
    if start < |Flat(groups)| {
      var k;
      g, k := Owner(groups, start);
      DeletedIsHole(groups[g], k);
    } else {
      g := |groups|;
    }
    var m := if start + n <= |Flat(groups)| then n else |Flat(groups)| - start;
    HolesAt(groups, g, m);
    h := g + m;
    if start + n > |Flat(groups)| { Behind(groups, h); }
  }

  ghost function Insert(groups: seq<Group>, g: nat, h: nat, file: Group): seq<Group>
    requires g <= h <= |groups|
  {
    groups[..g] + [file] + groups[h..]
  }

  /** An entry written over free slots joins the listing; nothing else changes. */
  lemma Placed(slots: seq<Slot>, after: seq<Slot>, groups: seq<Group>, start: nat, file: Group) returns (g: nat, h: nat)
    requires WellFormed(slots, groups) && GroupOk(file) && file.File? && start <= |Flat(groups)|
    requires start + |SlotsOf(file)| <= |slots|
    requires forall i :: start <= i < start + |SlotsOf(file)| ==> slots[i] == Deleted || slots[i] == End
    requires after == slots[..start] + SlotsOf(file) + slots[start + |SlotsOf(file)|..]
    ensures g <= h <= |groups| && (forall i :: g <= i < h ==> groups[i] == Hole) && AllOk(groups[..g])
    ensures WellFormed(after, Insert(groups, g, h, file))
    ensures var k := |Items(groups[..g])|;
      && k <= |Items(groups)|
      && Items(Insert(groups, g, h, file)) == Items(groups)[..k] + [ItemOf(file, start)] + Items(groups)[k..]
  {
    hide GroupOk, SlotsOf, Flat, At, Items, ItemOf, ItemsFrom;
    var n := |SlotsOf(file)|;
    forall i | start <= i < start + n && i < |Flat(groups)| ensures Flat(groups)[i] == Deleted {
      InFlat(slots, groups, i);
    }
    g, h := FreeGroups(groups, start, n);
    Fits(slots, after, groups, g, h, file);
    Joins(groups, g, h, file);
  }

  lemma InFlat(slots: seq<Slot>, groups: seq<Group>, i: nat)
    requires WellFormed(slots, groups) && i < |Flat(groups)|
    ensures slots[i] == Flat(groups)[i] && slots[i] != End
  {
    hide GroupOk, SlotsOf, Flat, At;
    var g, k := Owner(groups, i);
    assert slots[..|Flat(groups)|][i] == slots[i];
    NeverEnd(groups[g], k);
  }

  lemma Parts(groups: seq<Group>, g: nat, h: nat)
    requires AllOk(groups) && g <= h <= |groups|
    ensures AllOk(groups[..g]) && AllOk(groups[g..h]) && AllOk(groups[h..])
    ensures groups == groups[..g] + groups[g..h] + groups[h..]
    ensures Flat(groups) == Flat(groups[..g]) + Flat(groups[g..h]) + Flat(groups[h..])
  {
    hide GroupOk, SlotsOf, Flat;
    Thirds(groups, g, h);
    FlatThree(groups[..g], groups[g..h], groups[h..]);
  }

  lemma Thirds(groups: seq<Group>, g: nat, h: nat)
    requires g <= h <= |groups|
    ensures groups == groups[..g] + groups[g..h] + groups[h..]
  {
  }

  lemma Alone(file: Group)
    requires GroupOk(file)
    ensures AllOk([file]) && Flat([file]) == SlotsOf(file)
    ensures file.File? ==> forall base :: ItemsFrom([file], base) == [ItemOf(file, base)]
  {
    assert [file][..0] == [];
    assert [] + SlotsOf(file) == SlotsOf(file);
    forall base | file.File? ensures ItemsFrom([file], base) == [ItemOf(file, base)] {
      assert ItemsFrom([], base) + [ItemOf(file, base)] == [ItemOf(file, base)];
    }
  }

  lemma Fits(slots: seq<Slot>, after: seq<Slot>, groups: seq<Group>, g: nat, h: nat, file: Group)
    requires WellFormed(slots, groups) && GroupOk(file) && g <= h <= |groups|
    requires forall i :: g <= i < h ==> groups[i] == Hole
    requires var start, n := At(groups, g), |SlotsOf(file)|;
      && start + n <= |slots| && after == slots[..start] + SlotsOf(file) + slots[start + n..]
      && if start + n <= |Flat(groups)| then h == g + n else h == |groups|
    ensures WellFormed(after, Insert(groups, g, h, file))
  {
    hide GroupOk, SlotsOf, Flat;
    var a, m, b := groups[..g], groups[g..h], groups[h..];
    Parts(groups, g, h);
    FlatHoles(m, 0);
    Alone(file);
    var start, n := At(groups, g), |SlotsOf(file)|;
    if start + n <= |Flat(groups)| {
      Cut(slots, SlotsOf(file), start);
      ReplaceSlots(slots, a, m, b, [file], after);
    } else {
      AtTheEnd(slots, after, groups, g, h, file);
    }
  }

  lemma Cut(slots: seq<Slot>, ents: seq<Slot>, start: nat)
    requires start + |ents| <= |slots|
    ensures var after := slots[..start] + ents + slots[start + |ents|..];
      |after| == |slots| && after[..start] == slots[..start] && after[start..start + |ents|] == ents &&
        after[start + |ents|..] == slots[start + |ents|..]
  {
  }

  lemma AtTheEnd(slots: seq<Slot>, after: seq<Slot>, groups: seq<Group>, g: nat, h: nat, file: Group)
    requires WellFormed(slots, groups) && GroupOk(file) && g <= h == |groups|
    requires var start, n := At(groups, g), |SlotsOf(file)|;
      |Flat(groups)| < start + n <= |slots| && after == slots[..start] + SlotsOf(file) + slots[start + n..]
    ensures WellFormed(after, Insert(groups, g, h, file))
  {
    hide GroupOk, SlotsOf, Flat;
    var a := groups[..g];
    Parts(groups, g, h);
    Alone(file);
    FlatConcat(a, [file]);
    assert Insert(groups, g, h, file) == a + [file];
    var start, n := At(groups, g), |SlotsOf(file)|;
    Cut(slots, SlotsOf(file), start);
    assert slots[..start] == slots[..|Flat(groups)|][..start] == Flat(a);
    assert after[..start + n] == after[..start] + after[start..start + n];
    forall i | start + n <= i < |after|
      ensures after[i] == End
    {
      assert after[start + n..][i - (start + n)] == slots[i];
    }
  }

  lemma Joins(groups: seq<Group>, g: nat, h: nat, file: Group)
    requires AllOk(groups) && GroupOk(file) && file.File? && g <= h <= |groups|
    requires forall i :: g <= i < h ==> groups[i] == Hole
    requires if At(groups, g) + |SlotsOf(file)| <= |Flat(groups)| then h == g + |SlotsOf(file)| else h == |groups|
    ensures AllOk(groups[..g]) && AllOk(Insert(groups, g, h, file))
    ensures var k := |Items(groups[..g])|;
      && k <= |Items(groups)|
      && Items(Insert(groups, g, h, file)) == Items(groups)[..k] + [ItemOf(file, At(groups, g))] + Items(groups)[k..]
  {
    hide GroupOk, SlotsOf, Flat, Items, ItemOf, ItemsFrom;
    var a, m, b := groups[..g], groups[g..h], groups[h..];
    var p := |Flat(a)|;
    Parts(groups, g, h);
    FlatHoles(m, p);
    Alone(file);
    ItemsThree(a, m, b);
    ItemsThree(a, [file], b);
    NothingLeft(b, p + |Flat(m)|, p + |SlotsOf(file)|);
    var after := ItemsFrom(b, p + |Flat(m)|);
    assert Items(groups) == Items(a) + [] + after == Items(a) + after;
  }

  lemma NothingLeft(b: seq<Group>, p: nat, q: nat)
    requires AllOk(b) && (p == q || b == [])
    ensures ItemsFrom(b, p) == ItemsFrom(b, q)
  {
  }

  ghost function Without(groups: seq<Group>, g: nat): seq<Group>
    requires g < |groups| && GroupOk(groups[g])
  {
    groups[..g] + Holes(|SlotsOf(groups[g])|) + groups[g + 1..]
  }

  /** The slots of an entry marked as deleted take it, and only it, off the listing. */
  lemma Removed(slots: seq<Slot>, after: seq<Slot>, groups: seq<Group>, g: nat)
    requires WellFormed(slots, groups) && g < |groups| && groups[g].File? && |after| == |slots|
    requires var p, q := At(groups, g), At(groups, g + 1);
      && p <= q <= |slots| && after[..p] == slots[..p] && after[q..] == slots[q..]
      && forall i :: p <= i < q ==> after[i] == Deleted
    ensures GroupOk(groups[g]) && AllOk(groups[..g]) && WellFormed(after, Without(groups, g))
    ensures var k := |Items(groups[..g])|;
      k < |Items(groups)| && Items(groups)[k] == ItemOf(groups[g], At(groups, g)) &&
        Items(Without(groups, g)) == Items(groups)[..k] + Items(groups)[k + 1..]
  {
    hide GroupOk, SlotsOf, Flat, Items, ItemOf, ItemsFrom, At;
    OneGroup(groups, g);
    var a, m, b := groups[..g], groups[g..g + 1], groups[g + 1..];
    var now, p := Holes(|SlotsOf(groups[g])|), |Flat(a)|;
    FlatAt(groups, g);
    FlatHoles(now, p);
    AllDeleted(after, p, |now|, Flat(now));
    ReplaceSlots(slots, a, m, b, now, after);
    ItemsThree(a, m, b);
    ItemsThree(a, now, b);
    var rest := ItemsFrom(b, p + |Flat(m)|);
    assert Items(groups) == Items(a) + [ItemOf(groups[g], p)] + rest;
    assert Items(a) + [] + rest == Items(a) + rest;
  }

  lemma OneGroup(groups: seq<Group>, g: nat)
    requires AllOk(groups) && g < |groups|
    ensures GroupOk(groups[g]) && AllOk(groups[..g]) && AllOk(groups[g..g + 1]) && AllOk(groups[g + 1..])
    ensures groups == groups[..g] + groups[g..g + 1] + groups[g + 1..] && At(groups, g) == |Flat(groups[..g])|
    ensures Flat(groups[g..g + 1]) == SlotsOf(groups[g])
    ensures groups[g].File? ==> forall base :: ItemsFrom(groups[g..g + 1], base) == [ItemOf(groups[g], base)]
  {
    hide GroupOk, SlotsOf, Flat, ItemOf, ItemsFrom;
    Parts(groups, g, g + 1);
    Alone(groups[g]);
    assert groups[g..g + 1] == [groups[g]];
  }

  lemma AllDeleted(after: seq<Slot>, p: nat, n: nat, holes: seq<Slot>)
    requires p + n <= |after| && |holes| == n && (forall i :: p <= i < p + n ==> after[i] == Deleted) &&
      forall i :: 0 <= i < n ==> holes[i] == Deleted
    ensures after[p..p + n] == holes
  {
  }
}
