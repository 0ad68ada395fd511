/** Creating, removing and renaming entries by name in one directory of a FAT32
    volume (src/fs/fat32.c), and what whole runs of these do to the listing. */
module Catalog {
  import opened Unicode
  import opened Names
  import opened Listing
  import opened Entries
  import opened Rooms
  import opened Directory

  const EACCES := -13
  const EBUSY := -16
  const ENOTDIR := -20
  const EISDIR := -21
  const ENOTEMPTY := -39

  predicate IsDir(attr: nat) { attr / 16 % 2 == 1 }

  predicate ReadOnly(attr: nat) { attr % 2 == 1 }

  /** Made by this driver, all 8.3 forms different: every name finds one entry at most. */
  ghost predicate Tidy(groups: seq<Group>)
    requires AllOk(groups)
  {
    Ours(groups) && Distinct(groups)
  }

  /** What an operation may take from the listing and add to it. */
  ghost predicate Change(before: seq<Item>, after: seq<Item>, lost: multiset<Item>, gained: multiset<Item>) {
    multiset(after) + lost == multiset(before) + gained
  }

  lemma Lost(before: seq<Item>, after: seq<Item>, item: Item)
    requires Gains(after, before, item)
    ensures Change(before, after, multiset{item}, multiset{})
  {
    GainsOne(after, before, item);
  }

  lemma Gained(before: seq<Item>, after: seq<Item>, item: Item)
    requires Gains(before, after, item)
    ensures Change(before, after, multiset{}, multiset{item})
  {
    GainsOne(before, after, item);
  }

  lemma Then(a: seq<Item>, b: seq<Item>, c: seq<Item>, l1: multiset<Item>, g1: multiset<Item>, l2: multiset<Item>,
             g2: multiset<Item>)
    requires Change(a, b, l1, g1) && Change(b, c, l2, g2)
    ensures Change(a, c, l1 + l2, g1 + g2)
  {
    assert multiset(c) + (l1 + l2) == multiset(c) + l2 + l1;
    assert multiset(b) + g2 + l1 == multiset(b) + l1 + g2;
    assert multiset(a) + g1 + g2 == multiset(a) + (g1 + g2);
  }

  predicate MadeFor(item: Item, name: Bytes, attr: nat, first: nat, size: nat) {
    item.name == name && item.attr == attr && item.first == first && item.size == size
  }

  /** What decides how an operation goes: the slots, the listing they stand for, and how
      many clusters were asked for so far. */
  datatype View = View(slots: seq<Slot>, items: seq<Item>, asked: nat)

  ghost function Now(d: Directory): View
    requires AllOk(d.groups)
    reads d
  {
    View(d.slots, Items(d.groups), d.asked)
  }

  /** What splitting the path says about its last component: there must be one, not too long, and not one of the dots.
      */
  function LeafCode(name: Bytes): int {
    if name == [] then EINVAL
    else if |name| > NAME_MAX then ENAMETOOLONG
    else if name == [DOT] || name == [DOT, DOT] then EINVAL
    else 0
  }

  ghost function CreateCode(d: Directory, v: View, name: Bytes): int {
    if LeafCode(name) != 0 then LeafCode(name)
    else if Lookup(v.items, name).Found? then EEXIST else d.AddCode(v.slots, name, v.asked)
  }

  /** create_locked, in the directory of the name. */
  method Create(d: Directory, name: Bytes, attr: nat, first: nat) returns (r: int, item: Item)
    requires d.Valid()
    modifies d
    ensures d.Valid() && Keeps(old(d.groups), d.groups)
    ensures r == CreateCode(d, old(Now(d)), name)
    ensures name == [] || name == [DOT] || name == [DOT, DOT] ==> r == EINVAL
    ensures r == 0 ==> Nameable(name) && old(Unknown(d.groups, name)) && MadeFor(item, name, attr, first, 0)
    ensures r == 0 ==> Gains(old(Items(d.groups)), Items(d.groups), item)
    ensures r != 0 ==> r < 0 && d.groups == old(d.groups)
    ensures |old(d.slots)| <= MAX_ENTRIES ==>
      |d.slots| <= MAX_ENTRIES && (r == EEXIST ==> !old(Unknown(d.groups, name)))
  {
    hide Items, Ours, Distinct, Gains, GroupOk, Flat, Unknown, Answers, Nameable, Utf8, Utf16, Keeps, Clusters, Crowded;
    hide Needed, Lookup;
    hide d.Room;
    Unmoved(d.groups);
    r, item := LeafCode(name), Item([], [], 0, 0, 0, 0);
    if r != 0 { return; }
    r, item := d.Find(name);
    if r == 0 {
      SomeoneAnswers(d.groups, item, name);
      return EEXIST, item;
    }
    var n, units;
    ghost var cps;
    n, units, cps := NameUnits(name);
    if n < 0 { return n, item; }
    if |d.slots| <= MAX_ENTRIES { NeverCrowded(d.slots, name); }
    r, item := d.Add(name, attr, first, 0);
  }

  lemma Unmoved(groups: seq<Group>)
    requires AllOk(groups)
    ensures Keeps(groups, groups)
  {
  }

  lemma SomeoneAnswers(groups: seq<Group>, item: Item, name: Bytes)
    requires AllOk(groups) && item in Items(groups) && Answers(item, name)
    ensures !Unknown(groups, name)
  {
    hide Items, Answers;
    var k :| 0 <= k < |Items(groups)| && Items(groups)[k] == item;
  }

  /** What removing answers: not there, the wrong kind, protected, in use, not empty. */
  function RemoveCode(items: seq<Item>, name: Bytes, wantDir: bool, busy: bool, nonEmpty: bool): int {
    if LeafCode(name) != 0 then LeafCode(name) else
    match Lookup(items, name)
    case Nobody => ENOENT
    case Found(item) =>
      if wantDir && !IsDir(item.attr) then ENOTDIR
      else if !wantDir && IsDir(item.attr) then EISDIR
      else if ReadOnly(item.attr) then EACCES
      else if busy then EBUSY
      else if wantDir && nonEmpty then ENOTEMPTY
      else 0
  }

  /** remove_locked, in the directory of the name: whether the entry is in use or the
      directory it stands for has entries is up to others. */
  method Remove(d: Directory, name: Bytes, wantDir: bool, busy: bool, nonEmpty: bool) returns (r: int, item: Item)
    requires d.Valid()
    modifies d
    ensures d.Valid() && Keeps(old(d.groups), d.groups)
    ensures r == RemoveCode(old(Items(d.groups)), name, wantDir, busy, nonEmpty)
    ensures name == [] || name == [DOT] || name == [DOT, DOT] ==> r == EINVAL
    ensures r == 0 ==>
      Lookup(old(Items(d.groups)), name) == Found(item) && Gains(Items(d.groups), old(Items(d.groups)), item)
    ensures r == 0 && old(Tidy(d.groups)) ==> Unknown(d.groups, name)
    ensures r != 0 ==> r < 0 && d.groups == old(d.groups)
  {
    hide Items, Ours, Distinct, Gains, Clusters, Answers, GroupOk, Flat, Unknown, Lookup;
    r, item := LeafCode(name), Item([], [], 0, 0, 0, 0);
    if r != 0 { return; }
    r, item := d.Find(name);
    if r != 0 { return; }
    if wantDir && !IsDir(item.attr) { return ENOTDIR, item; }
    if !wantDir && IsDir(item.attr) { return EISDIR, item; }
    if ReadOnly(item.attr) { return EACCES, item; }
    if busy { return EBUSY, item; }
    if wantDir && nonEmpty { return ENOTEMPTY, item; }
    PosInside(d.groups, item);
    r := d.Delete(item.pos, item);
    NameFreed(old(d.groups), d.groups, item, name);
  }

  lemma PosInside(groups: seq<Group>, item: Item)
    requires AllOk(groups) && item in Items(groups)
    ensures item.pos < |Flat(groups)|
  {
    hide Items, GroupOk, Flat, At;
    var g := EntryOf(groups, item, item.pos);
    EntryInside(groups, g, item.pos);
  }

  lemma NameFreed(before: seq<Group>, after: seq<Group>, item: Item, name: Bytes)
    requires AllOk(before) && AllOk(after) && Gains(Items(after), Items(before), item) && Answers(item, name)
    ensures Tidy(before) ==> Unknown(after, name)
  {
    hide Items, GroupOk, Ours, Distinct, Answers, Gains;
    if Tidy(before) {
      ToldApart(before);
      Freed(Items(before), Items(after), item, name);
    }
  }

  // ----- renaming -----

  /** Both names find one and the same entry. */
  predicate Same(items: seq<Item>, from: Bytes, onto: Bytes) {
    var x, y := Lookup(items, from), Lookup(items, onto);
    x.Found? && y.Found? && x.item.pos == y.item.pos
  }

  /** Why nothing is changed: 0 if the entry of the new name may be replaced. */
  ghost function Hindrance(items: seq<Item>, from: Bytes, onto: Bytes, busy: bool, busyGoal: bool,
                           nonEmpty: bool): int
  {
    var item, goal := Lookup(items, from), Lookup(items, onto);
    if LeafCode(from) != 0 then LeafCode(from)
    else if item.Nobody? then ENOENT
    else if !Nameable(onto) then (if |onto| > NAME_MAX then ENAMETOOLONG else EINVAL)
    else if busy then EBUSY
    else if goal.Found? && !Same(items, from, onto) then Refusal(item.item, goal.item, busyGoal, nonEmpty)
    else 0
  }

  /** The name is the entry's own, byte for byte: nothing to do. */
  ghost predicate Idempotent(items: seq<Item>, from: Bytes, onto: Bytes) {
    Same(items, from, onto) && from == onto && Nameable(onto)
  }

  /** The slots when the entry of the new name has left. */
  function Emptied(v: View, onto: Bytes): seq<Slot> {
    var goal := Lookup(v.items, onto);
    if goal.Found? then Cleared(v.slots, goal.item.pos) else v.slots
  }

  ghost function RenameCode(d: Directory, v: View, from: Bytes, onto: Bytes, busy: bool, busyGoal: bool,
                            nonEmpty: bool): int
  {
    var no := Hindrance(v.items, from, onto, busy, busyGoal, nonEmpty);
    if Idempotent(v.items, from, onto) then 0 else if no != 0 then no else d.AddCode(Emptied(v, onto), onto, v.asked)
  }

  /** What a rename takes from the listing: the entry itself and the one of the new
      name; if the new entry cannot be made, still the one of the new name. */
  ghost function RenameLost(d: Directory, v: View, from: Bytes, onto: Bytes, busy: bool, busyGoal: bool,
                            nonEmpty: bool): multiset<Item>
  {
    var item, goal := Lookup(v.items, from), Lookup(v.items, onto);
    if Idempotent(v.items, from, onto) || Hindrance(v.items, from, onto, busy, busyGoal, nonEmpty) != 0 ||
      item.Nobody? then multiset{}
    else
      var gone := if goal.Found? then multiset{goal.item} else multiset{};
      if Same(v.items, from, onto) || d.AddCode(Emptied(v, onto), onto, v.asked) != 0 then gone
      else multiset{item.item} + gone
  }

  /** A rename that fails and still takes an entry away: nothing hinders it, the new name
      is in use, and with that entry's slots freed there is still no room for the new
      one, or no 8.3 form. */
  ghost predicate Loses(d: Directory, v: View, from: Bytes, onto: Bytes, busy: bool, busyGoal: bool, nonEmpty: bool) {
    && Lookup(v.items, onto).Found? && !Idempotent(v.items, from, onto)
    && Hindrance(v.items, from, onto, busy, busyGoal, nonEmpty) == 0
    && (Crowded(Emptied(v, onto), onto) || !d.Room(Emptied(v, onto), Needed(onto), v.asked))
  }

  /** rename_locked within one directory. The entry of the new name goes first, then
      the new entry is made, then the old one goes; if the new one cannot be made,
      what went does not come back. */
  method Rename(d: Directory, from: Bytes, onto: Bytes, busy: bool, busyGoal: bool, nonEmpty: bool)
    returns (r: int, ghost lost: multiset<Item>, ghost gained: multiset<Item>)
    requires d.Valid()
    modifies d
    ensures d.Valid() && (old(Tidy(d.groups)) ==> Tidy(d.groups))
    ensures r == RenameCode(d, old(Now(d)), from, onto, busy, busyGoal, nonEmpty)
    ensures Change(old(Items(d.groups)), Items(d.groups), lost, gained)
    ensures lost == RenameLost(d, old(Now(d)), from, onto, busy, busyGoal, nonEmpty)
    ensures r != 0 ==>
      && r < 0 && gained == multiset{}
      && (lost != multiset{} <==> Loses(d, old(Now(d)), from, onto, busy, busyGoal, nonEmpty))
    ensures r == 0 && old(Idempotent(Items(d.groups), from, onto)) ==> lost == gained == multiset{}
    ensures r == 0 && !old(Idempotent(Items(d.groups), from, onto)) ==>
      var x := Lookup(old(Items(d.groups)), from);
      x.Found? && x.item in lost && exists y ::
        MadeFor(y, onto, x.item.attr, x.item.first, x.item.size) && gained == multiset{y}
  {
    hide Items, Ours, Distinct, Clusters, Answers, GroupOk, Flat, Unknown, Nameable, Change, Lookup, Cleared;
    hide RenameCode, RenameLost, Loses;
    hide Same, Hindrance, Idempotent, Emptied, d.AddCode;
    lost, gained := multiset{}, multiset{};
    NoChange(Items(d.groups));
    var done, item, goal, found, same;
    ghost var v := Now(d);
    done, r, item, goal, found, same := Consider(d, from, onto, busy, busyGoal, nonEmpty);
    if done { return; }
    r, lost, gained := Replace(d, from, onto, item, goal, found, same);
    Renamed(d, v, from, onto, busy, busyGoal, nonEmpty, item, goal, found, r, lost);
  }

  /** The checks of rename_locked, before anything is changed. */
  method Consider(d: Directory, from: Bytes, onto: Bytes, busy: bool, busyGoal: bool, nonEmpty: bool)
    returns (done: bool, r: int, item: Item, goal: Item, found: bool, same: bool)
    requires d.Valid()
    ensures var v := Now(d);
      done ==>
        && r == RenameCode(d, v, from, onto, busy, busyGoal, nonEmpty)
        && RenameLost(d, v, from, onto, busy, busyGoal, nonEmpty) == multiset{}
    ensures done ==>
      && r <= 0 && (r == 0 <==> Idempotent(Items(d.groups), from, onto))
      && !(r != 0 && Loses(d, Now(d), from, onto, busy, busyGoal, nonEmpty))
    ensures !done ==>
      Hindrance(Items(d.groups), from, onto, busy, busyGoal, nonEmpty) == 0 && !Idempotent(Items(d.groups), from, onto)
    ensures !done ==>
      Lookup(Items(d.groups), from) == Found(item) && Lookup(Items(d.groups), onto) == if found then Found(goal)
      else Nobody
    ensures !done ==> (same <==> found && goal == item) && (same <==> Same(Items(d.groups), from, onto))
    ensures !done ==>
      item in Items(d.groups) && Answers(item, from) && Unknown(d.groups, onto) == !found && Nameable(onto)
    ensures !done && found ==> goal in Items(d.groups) && Answers(goal, onto)
  {
    hide Items, Ours, Distinct, Clusters, Answers, GroupOk, Flat, Unknown;
    hide Nameable, Utf8, Utf16, Lookup, Crowded, Needed, Cleared, d.Room, Emptied;
    done, found, same := true, false, false;
    NameableLeaf(from);
    r, item := LeafCode(from), Item([], [], 0, 0, 0, 0);
    goal := item;
    if r != 0 { return; }
    r, item := d.Find(from);
    goal := item;
    if r != 0 { return; }
    r, goal := d.Find(onto);
    found := r == 0;
    if found { SomeoneAnswers(d.groups, goal, onto); }
    var n, units;
    ghost var cps;
    n, units, cps := NameUnits(onto);
    if n < 0 { r := n; return; }
    same := found && goal.pos == item.pos;
    if same && from == onto { r := 0; return; }
    r := if busy then EBUSY else if found && !same then Refusal(item, goal, busyGoal, nonEmpty) else 0;
    if r != 0 { return; }
    done := false;
    if same { SamePlace(d.groups, item, goal); }
  }

  lemma NameableLeaf(name: Bytes)
    ensures Nameable(name) ==> LeafCode(name) == 0
  {
  }

  /** In a directory within the limit of entries, only missing room makes a rename lose anything. */
  lemma LosesWithoutRoom(d: Directory, v: View, from: Bytes, onto: Bytes, busy: bool, busyGoal: bool, nonEmpty: bool)
    requires |v.slots| <= MAX_ENTRIES
    ensures Loses(d, v, from, onto, busy, busyGoal, nonEmpty) <==>
      && Lookup(v.items, onto).Found? && !Idempotent(v.items, from, onto)
      && Hindrance(v.items, from, onto, busy, busyGoal, nonEmpty) == 0
      && !d.Room(Emptied(v, onto), Needed(onto), v.asked)
  {
    hide Lookup, Idempotent, Hindrance, Crowded, d.Room, Needed, Cleared;
    NeverCrowded(Emptied(v, onto), onto);
  }

  lemma Renamed(d: Directory, v: View, from: Bytes, onto: Bytes, busy: bool, busyGoal: bool, nonEmpty: bool,
                item: Item, goal: Item, found: bool, r: int, lost: multiset<Item>)
    requires Hindrance(v.items, from, onto, busy, busyGoal, nonEmpty) == 0 && !Idempotent(v.items, from, onto)
    requires Nameable(onto)
    requires Lookup(v.items, from) == Found(item) && Lookup(v.items, onto) == if found then Found(goal) else Nobody
    requires r == d.AddCode(if found then Cleared(v.slots, goal.pos) else v.slots, onto, v.asked)
    requires r != 0 ==> lost == if found then multiset{goal} else multiset{}
    requires r == 0 ==>
      lost == if Same(v.items, from, onto) then multiset{goal} else multiset{item} + if found then multiset{goal}
      else multiset{}
    ensures r == RenameCode(d, v, from, onto, busy, busyGoal, nonEmpty)
    ensures lost == RenameLost(d, v, from, onto, busy, busyGoal, nonEmpty)
    ensures r != 0 ==> (lost != multiset{} <==> Loses(d, v, from, onto, busy, busyGoal, nonEmpty))
  {
    hide Nameable, Lookup, Crowded, Needed, Cleared, d.Room, Hindrance, Idempotent;
    if found { assert goal in multiset{goal}; }
  }

  /** Whether an entry may take the place of another. */
  function Refusal(item: Item, goal: Item, busy: bool, nonEmpty: bool): (r: int)
    ensures r == 0 <==>
      IsDir(item.attr) == IsDir(goal.attr) && !ReadOnly(goal.attr) && !busy && !(IsDir(goal.attr) && nonEmpty)
    ensures (r == ENOTDIR <==> IsDir(item.attr) && !IsDir(goal.attr))
    ensures (r == EISDIR <==> !IsDir(item.attr) && IsDir(goal.attr))
    ensures r in {0, ENOTDIR, EISDIR, EACCES, EBUSY, ENOTEMPTY} && (r == EACCES ==> ReadOnly(goal.attr)) &&
      (r == EBUSY ==> busy && !ReadOnly(goal.attr))
  {
    if IsDir(item.attr) && !IsDir(goal.attr) then ENOTDIR
    else if !IsDir(item.attr) && IsDir(goal.attr) then EISDIR
    else if ReadOnly(goal.attr) then EACCES
    else if busy then EBUSY
    else if IsDir(goal.attr) && nonEmpty then ENOTEMPTY
    else 0
  }

  /** The part of rename_locked that changes the directory. */
  method Replace(d: Directory, from: Bytes, onto: Bytes, item: Item, goal: Item, found: bool, same: bool)
    returns (r: int, ghost lost: multiset<Item>, ghost gained: multiset<Item>)
    requires d.Valid() && item in Items(d.groups) && Answers(item, from) && Unknown(d.groups, onto) == !found
    requires Nameable(onto)
    requires (found ==> goal in Items(d.groups) && Answers(goal, onto)) && (same <==> found && goal == item)
    modifies d
    ensures d.Valid() && (old(Tidy(d.groups)) ==> Tidy(d.groups))
    ensures Change(old(Items(d.groups)), Items(d.groups), lost, gained)
    ensures r == d.AddCode(if found then Cleared(old(d.slots), goal.pos) else old(d.slots), onto, old(d.asked))
    ensures r != 0 ==>
      r in {EEXIST, ENOSPC} && gained == multiset{} && lost == if found then multiset{goal} else multiset{}
    ensures r == 0 ==> exists y :: MadeFor(y, onto, item.attr, item.first, item.size) && gained == multiset{y}
    ensures r == 0 ==>
      lost == if same then multiset{goal} else multiset{item} + if found then multiset{goal} else multiset{}
  {
    hide Items, Ours, Distinct, Gains, Clusters, Answers, GroupOk, Flat, Unknown, Change, Nameable, Crowded, Needed;
    hide Cleared;
    hide d.Room;
    ghost var a := Items(d.groups);
    NoSize(d.groups, item);
    gained := multiset{};
    lost := Vacate(d, onto, item, goal, found, same);
    ghost var b := Items(d.groups);
    var made;
    r, made := d.Add(onto, item.attr, item.first, item.size);
    if r != 0 { return; }
    Gained(b, Items(d.groups), made);
    Then(a, b, Items(d.groups), lost, gained, multiset{}, multiset{made});
    lost, gained := lost + multiset{}, gained + multiset{made};
    if !same {
      ghost var c := Items(d.groups);
      StillThere(b, c, item, made);
      PosInside(d.groups, item);
      var ignored := d.Delete(item.pos, item);
      Lost(c, Items(d.groups), item);
      Then(a, c, Items(d.groups), lost, gained, multiset{item}, multiset{});
      lost, gained := lost + multiset{item}, gained + multiset{};
    }
  }

  /** The entry of the new name leaves. */
  method Vacate(d: Directory, onto: Bytes, item: Item, goal: Item, found: bool, same: bool)
    returns (ghost lost: multiset<Item>)
    requires d.Valid() && item in Items(d.groups) && Unknown(d.groups, onto) == !found
    requires (found ==> goal in Items(d.groups) && Answers(goal, onto)) && (same <==> found && goal == item)
    modifies d
    ensures d.Valid() && Keeps(old(d.groups), d.groups) && (old(Tidy(d.groups)) ==> Unknown(d.groups, onto))
    ensures lost == (if found then multiset{goal} else multiset{})
    ensures Change(old(Items(d.groups)), Items(d.groups), lost, multiset{})
    ensures d.slots == (if found then Cleared(old(d.slots), goal.pos) else old(d.slots)) && d.asked == old(d.asked)
    ensures !same ==> item in Items(d.groups)
  {
    hide Items, Ours, Distinct, Gains, Clusters, Answers, GroupOk, Flat, Unknown, Change, Cleared;
    lost := multiset{};
    NoChange(Items(d.groups));
    if found && !same {
      PosInside(d.groups, goal);
      var r := d.Delete(goal.pos, goal);
      StillThere(Items(d.groups), old(Items(d.groups)), item, goal);
      lost := multiset{goal};
    } else if same {
      PosInside(d.groups, item);
      var r := d.Delete(item.pos, item);
      lost := multiset{item};
    }
    if found {
      NameFreed(old(d.groups), d.groups, goal, onto);
      Lost(old(Items(d.groups)), Items(d.groups), goal);
    }
  }

  lemma NoChange(items: seq<Item>)
    ensures Change(items, items, multiset{}, multiset{})
  {
  }

  lemma StillThere(less: seq<Item>, more: seq<Item>, item: Item, other: Item)
    requires Gains(less, more, other)
    ensures item in less ==> item in more
    ensures item in more && item != other ==> item in less
  {
    GainsOne(less, more, other);
    assert item in less <==> item in multiset(less);
    assert item in more <==> item in multiset(more);
  }

  lemma NoSize(groups: seq<Group>, item: Item)
    requires AllOk(groups) && item in Items(groups)
    ensures IsDir(item.attr) ==> item.size == 0
  {
    hide Items, GroupOk, Flat, At;
    var g := EntryOf(groups, item, item.pos);
  }

  /** Two items at one place are one. */
  lemma SamePlace(groups: seq<Group>, a: Item, b: Item)
    requires AllOk(groups) && a in Items(groups) && b in Items(groups) && a.pos == b.pos
    ensures a == b
  {
    hide Items, GroupOk, Flat, At, ItemOf;
    var g := EntryOf(groups, a, a.pos);
    var h := EntryOf(groups, b, b.pos);
    FileLength(groups, g);
    FileLength(groups, h);
    Later(groups, g, h);
    Later(groups, h, g);
  }

  lemma {:induction false} Later(groups: seq<Group>, g: nat, h: nat)
    requires AllOk(groups) && h < |groups|
    ensures g < h ==> At(groups, g + 1) < At(groups, h + 1)
    decreases h
  {
    hide GroupOk, Flat, At, SlotsOf;
    if g < h {
      FlatAt(groups, h);
      if g < h - 1 { Later(groups, g, h - 1); }
    }
  }

  // ----- runs -----

  datatype Op =
    | Create(name: Bytes, attr: nat, first: nat)
    | Remove(name: Bytes, wantDir: bool, busy: bool, nonEmpty: bool)
    | Rename(from: Bytes, onto: Bytes, busy: bool, busyGoal: bool, nonEmpty: bool)

  /** What an operation answers. */
  ghost function Answer(d: Directory, op: Op, v: View): int {
    match op
    case Create(name, _, _) => CreateCode(d, v, name)
    case Remove(name, wantDir, busy, nonEmpty) => RemoveCode(v.items, name, wantDir, busy, nonEmpty)
    case Rename(from, onto, busy, busyGoal, nonEmpty) => RenameCode(d, v, from, onto, busy, busyGoal, nonEmpty)
  }

  /** The entries an operation takes away. */
  ghost function LostBy(d: Directory, op: Op, v: View): multiset<Item> {
    match op
    case Create(_, _, _) => multiset{}
    case Remove(name, _, _, _) =>
      (var item := Lookup(v.items, name);
       if Answer(d, op, v) == 0 && item.Found? then multiset{item.item} else multiset{})
    case Rename(from, onto, busy, busyGoal, nonEmpty) => RenameLost(d, v, from, onto, busy, busyGoal, nonEmpty)
  }

  /** The entries an operation makes: one for the name, with what the old one had. */
  ghost predicate Makes(d: Directory, op: Op, v: View, gained: multiset<Item>) {
    if Answer(d, op, v) != 0 then gained == multiset{}
    else
      match op
      case Create(name, attr, first) => exists y :: MadeFor(y, name, attr, first, 0) && gained == multiset{y}
      case Remove(_, _, _, _) => gained == multiset{}
      case Rename(from, onto, _, _, _) =>
        if Idempotent(v.items, from, onto) then gained == multiset{}
        else
          var x := Lookup(v.items, from);
          x.Found? && exists y :: MadeFor(y, onto, x.item.attr, x.item.first, x.item.size) && gained == multiset{y}
  }

  /** Exactly what an operation did to the listing. */
  ghost predicate Did(d: Directory, op: Op, r: int, gained: multiset<Item>, a: View, b: View) {
    r == Answer(d, op, a) && Makes(d, op, a, gained) && Change(a.items, b.items, LostBy(d, op, a), gained)
  }

  /** One operation keeps the directory in order. */
  method Do(d: Directory, op: Op) returns (r: int, ghost gained: multiset<Item>)
    requires d.Valid()
    modifies d
    ensures d.Valid() && (old(Tidy(d.groups)) ==> Tidy(d.groups))
    ensures Did(d, op, r, gained, old(Now(d)), Now(d))
  {
    hide Items, Ours, Distinct, Gains, Clusters, Answers, GroupOk;
    hide Flat, Unknown, Nameable, Change, Lookup, RenameCode, RenameLost, CreateCode;
    hide RemoveCode;
    gained := multiset{};
    NoChange(Items(d.groups));
    var item;
    match op
    case Create(name, attr, first) =>
      r, item := Create(d, name, attr, first);
      if r == 0 {
        Gained(old(Items(d.groups)), Items(d.groups), item);
        gained := multiset{item};
      }
    case Remove(name, wantDir, busy, nonEmpty) =>
      r, item := Remove(d, name, wantDir, busy, nonEmpty);
      if r == 0 { Lost(old(Items(d.groups)), Items(d.groups), item); }
    case Rename(from, onto, busy, busyGoal, nonEmpty) =>
      ghost var lost;
      r, lost, gained := Rename(d, from, onto, busy, busyGoal, nonEmpty);
  }

  /** The directory before, between and after operations. */
  ghost predicate History(d: Directory, ops: seq<Op>, results: seq<int>, made: seq<multiset<Item>>, trace: seq<View>) {
    && |results| == |made| == |ops| && |trace| == |ops| + 1
    && forall i :: 0 <= i < |ops| ==> Did(d, ops[i], results[i], made[i], trace[i], trace[i + 1])
  }

  /** Any operations, in any order: the directory stays in order, and if this driver
      made it, no name is ever answered by two entries. */
  method Run(d: Directory, ops: seq<Op>) returns (results: seq<int>, ghost made: seq<multiset<Item>>,
             ghost trace: seq<View>)
    requires d.Valid()
    modifies d
    ensures d.Valid() && History(d, ops, results, made, trace) && trace[0] == old(Now(d)) && trace[|ops|] == Now(d)
    ensures old(Tidy(d.groups)) ==> Tidy(d.groups) && forall i :: 0 <= i <= |ops| ==> Unambiguous(trace[i].items)
  {
    hide Items, Did, Clusters, GroupOk, Flat, Tidy, Unambiguous;
    results, made, trace := [], [], [Now(d)];
    TidyNames(d.groups);
    for k := 0 to |ops|
      invariant d.Valid() && |results| == |made| == k && |trace| == k + 1 && trace[0] == old(Now(d))
      invariant trace[k] == Now(d)
      invariant forall i :: 0 <= i < k ==> Did(d, ops[i], results[i], made[i], trace[i], trace[i + 1])
      invariant old(Tidy(d.groups)) ==> Tidy(d.groups) && forall i :: 0 <= i <= k ==> Unambiguous(trace[i].items)
    {
      var r;
      ghost var gained;
      r, gained := Do(d, ops[k]);
      TidyNames(d.groups);
      results, made, trace := results + [r], made + [gained], trace + [Now(d)];
    }
  }

  lemma TidyNames(groups: seq<Group>)
    requires AllOk(groups)
    ensures Tidy(groups) ==> Unambiguous(Items(groups))
  {
    hide Items, GroupOk, Ours, Distinct, Unambiguous;
    if Tidy(groups) { ToldApart(groups); }
  }

  /** An entry stays, at its place, with its clusters, until an operation takes away
      exactly it: a removal of its name that answered 0, a rename of it or onto it that
      did, or a rename onto it that failed for want of room. */
  lemma {:induction false} Kept(d: Directory, ops: seq<Op>, results: seq<int>, made: seq<multiset<Item>>,
                                trace: seq<View>, item: Item)
    requires History(d, ops, results, made, trace) && item in trace[0].items
    requires forall i :: 0 <= i < |ops| ==> item !in LostBy(d, ops[i], trace[i])
    ensures item in trace[|ops|].items
    decreases |ops|
  {
    hide Answer, LostBy, Makes, Change;
    if ops != [] {
      var n := |ops| - 1;
      Kept(d, ops[..n], results[..n], made[..n], trace[..n + 1], item);
      assert Did(d, ops[n], results[n], made[n], trace[n], trace[n + 1]);
      Counted(trace[n].items, trace[n + 1].items, LostBy(d, ops[n], trace[n]), made[n], item);
    }
  }

  /** What an operation takes away answers a name the operation gives. */
  lemma OnlyNamed(d: Directory, op: Op, v: View, item: Item)
    requires item in LostBy(d, op, v)
    ensures item in v.items
    ensures (op.Remove? && Answers(item, op.name)) || (op.Rename? && (Answers(item, op.from) || Answers(item, op.onto)))
  {
    hide Answer, Answers, Idempotent, Hindrance, Same, Emptied;
  }

  lemma Counted(before: seq<Item>, after: seq<Item>, lost: multiset<Item>, gained: multiset<Item>, item: Item)
    requires Change(before, after, lost, gained)
    ensures item in before && item !in lost ==> item in after
    ensures item in after && item !in gained ==> item in before
  {
    assert item in before <==> item in multiset(before);
    assert item in after <==> item in multiset(after);
    assert (multiset(after) + lost)[item] == (multiset(before) + gained)[item];
  }

  /** Every entry was there at the start or was made by an operation. */
  lemma {:induction false} Accounted(d: Directory, ops: seq<Op>, results: seq<int>, made: seq<multiset<Item>>,
                                     trace: seq<View>, item: Item)
    requires History(d, ops, results, made, trace) && item in trace[|ops|].items
    ensures item in trace[0].items || exists i :: 0 <= i < |ops| && results[i] == 0 && item in made[i]
    decreases |ops|
  {
    hide Answer, LostBy, Change;
    if ops != [] {
      var n := |ops| - 1;
      assert Did(d, ops[n], results[n], made[n], trace[n], trace[n + 1]);
      Counted(trace[n].items, trace[n + 1].items, LostBy(d, ops[n], trace[n]), made[n], item);
      if item !in made[n] {
        Accounted(d, ops[..n], results[..n], made[..n], trace[..n + 1], item);
      }
    }
  }
}
