/** Directory operations of src/fs/fat32.c: reading the listing, adding an entry
    with its long name slots, deleting one. */
module Directory {
  import opened Unicode
  import opened Names
  import opened Listing
  import opened Placement
  import opened Entries
  import opened Rooms

  const ENOENT := -2
  const EEXIST := -17
  const ENOSPC := -28

  // ----- collecting a long name -----

  /** What dir_next remembers between slots. */
  datatype Reader = Reader(pending: nat, total: nat, sum: nat, units: Units)

  function Idle(): Reader { Reader(0, 0, 0, seq(SLOTS * PER_SLOT, _ => 0)) }

  function Store(buffer: Units, slot: nat, u: Units): (b: Units)
    requires |buffer| == SLOTS * PER_SLOT && 1 <= slot <= SLOTS && |u| == PER_SLOT
    ensures |b| == |buffer|
  {
    buffer[..(slot - 1) * PER_SLOT] + u + buffer[slot * PER_SLOT..]
  }

  /** A long name slot; anything out of order drops the name. */
  function ReadLong(st: Reader, s: Slot): (r: Reader)
    requires s.Long? && |s.units| == PER_SLOT && |st.units| == SLOTS * PER_SLOT && st.pending <= SLOTS
    ensures |r.units| == |st.units| && r.pending <= SLOTS
  {
    if !s.clean then st.(pending := 0)
    else if s.ordinal / 64 % 2 == 1 then
      var slot := s.ordinal % 64;
      if slot == 0 || slot > SLOTS then st.(pending := 0) else Reader(slot, slot, s.sum, Store(st.units, slot, s.units))
    else if st.pending < 2 || s.ordinal != st.pending - 1 || s.sum != st.sum then st.(pending := 0)
    else st.(pending := s.ordinal, units := Store(st.units, s.ordinal, s.units))
  }

  /** So many slots of a long name have been read. */
  ghost predicate Reading(st: Reader, longs: seq<Units>, sum: nat, k: nat) {
    && |st.units| == SLOTS * PER_SLOT && st.pending <= SLOTS && k <= |longs| <= SLOTS
    && (k == 0 ==> st.pending == 0)
    && (k > 0 ==>
          && st.pending == |longs| - k + 1 && st.total == |longs| && st.sum == sum
          && st.units[(|longs| - k) * PER_SLOT..|longs| * PER_SLOT] == Joined(longs[|longs| - k..]))
  }

  lemma {:induction false} JoinedFirst(longs: seq<Units>)
    requires longs != []
    ensures Joined(longs) == longs[0] + Joined(longs[1..])
  {
    var n := |longs| - 1;
    if n == 0 {
      assert longs[1..] == [] && longs[..0] == [];
      assert Joined(longs) == [] + longs[0] && longs[0] + [] == longs[0];
    } else {
      JoinedFirst(longs[..n]);
      assert longs[..n][1..] == longs[1..][..n - 1] && longs[1..][n - 1] == longs[n];
      assert longs[0] + Joined(longs[1..][..n - 1]) + longs[n] == longs[0] + (Joined(longs[1..][..n - 1]) + longs[n]);
    }
  }

  lemma ReadNext(st: Reader, longs: seq<Units>, sum: nat, k: nat)
    requires Reading(st, longs, sum, k) && k < |longs| && forall i :: 0 <= i < |longs| ==> |longs[i]| == PER_SLOT
    ensures Reading(ReadLong(st, LongSlot(longs, sum, k)), longs, sum, k + 1)
  {
    hide Joined, Store;
    var n, s := |longs|, LongSlot(longs, sum, k);
    var slot := n - k;
    var r := ReadLong(st, s);
    assert (slot + 64) / 64 % 2 == 1 && (slot + 64) % 64 == slot && slot / 64 % 2 == 0;
    assert r == Reader(slot, n, sum, Store(st.units, slot, longs[slot - 1]));
    Stored(st.units, slot, longs[slot - 1], n);
    Tail(longs, slot);
    if k == 0 { assert longs[slot..] == [] && st.units[slot * PER_SLOT..n * PER_SLOT] == []; NoTail(); }
  }

  lemma Tail(longs: seq<Units>, slot: nat)
    requires 0 < slot <= |longs|
    ensures Joined(longs[slot - 1..]) == longs[slot - 1] + Joined(longs[slot..])
  {
    JoinedFirst(longs[slot - 1..]);
    assert longs[slot - 1..][1..] == longs[slot..] && longs[slot - 1..][0] == longs[slot - 1];
  }

  lemma NoTail()
    ensures Joined([]) == []
  {
  }

  lemma Stored(buffer: Units, slot: nat, u: Units, n: nat)
    requires |buffer| == SLOTS * PER_SLOT && 1 <= slot <= n <= SLOTS && |u| == PER_SLOT
    ensures Store(buffer, slot, u)[(slot - 1) * PER_SLOT..n * PER_SLOT] == u + buffer[slot * PER_SLOT..n * PER_SLOT]
  {
  }

  // ----- the directory -----

  /** A whole number of clusters. */
  ghost predicate Clusters(len: nat, n: nat)
    requires n > 0
  {
    len == 0 || (len >= n && Clusters(len - n, n))
  }

  /** How many clusters so many slots take. */
  function ClusterCount(len: nat, n: nat): nat
    requires n > 0
  {
    if len < n then 0 else 1 + ClusterCount(len - n, n)
  }

  lemma {:induction false} ClustersCount(len: nat, n: nat)
    requires n > 0 && Clusters(len, n)
    ensures len == ClusterCount(len, n) * n
  {
    if len > 0 { ClustersCount(len - n, n); }
  }

  /** A cluster more than there are still keeps to the limit, if that many clusters do. */
  lemma StillSmall(len: nat, n: nat)
    requires n > 0 && Clusters(len, n) && ClusterCount(len, n) + 1 <= MAX_ENTRIES / n
    ensures len + n <= MAX_ENTRIES
  {
    hide Clusters, ClusterCount;
    ClustersCount(len, n);
    Times(ClusterCount(len, n) + 1, MAX_ENTRIES / n, n);
    Whole(MAX_ENTRIES, n);
  }

  lemma Times(k: nat, most: nat, n: nat)
    requires k <= most
    ensures k * n <= most * n
  {
  }

  lemma Whole(a: nat, n: nat)
    requires n > 0
    ensures a / n * n <= a
  {
  }

  class Directory {
    /** Slots in one cluster. */
    const perCluster: nat
    var slots: seq<Slot>
    ghost var groups: seq<Group>
    /** Whether the volume has a cluster to give. */
    const grants: nat -> bool
    var asked: nat

    ghost predicate Valid()
      reads this
    {
      WellFormed(slots, groups) && perCluster > 0 && Clusters(|slots|, perCluster)
    }

    /** A new directory: one cluster, with entries for itself and its parent. */
    constructor (size: nat, volume: nat -> bool)
      requires size >= 16
      ensures Valid() && Items(groups) == [] && Ours(groups) && Distinct(groups)
    {
      perCluster, grants, asked := size, volume, 0;
      var self, parent := Dots(Pad([DOT], 11)), Dots(Pad([DOT, DOT], 11));
      slots := [self, parent] + seq(size - 2, _ => End);
      groups := [Mark(self), Mark(parent)];
      new;
      TwoMarks(self, parent);
      assert slots[..2] == [self, parent];
      assert Clusters(size, size) by { assert Clusters(0, size); }
    }

    /** Whether so many slots in a row are there or can be had. */
    ghost predicate Room(slots: seq<Slot>, need: nat, asked: nat) {
      HasRun(slots, need) ||
        (perCluster > 0 && Grantable(grants, perCluster, Trailing(slots), need, ClusterCount(|slots|, perCluster),
                                     asked))
    }

    /** What adding a name answers. */
    ghost function AddCode(slots: seq<Slot>, name: Bytes, asked: nat): int {
      if !Nameable(name) then (if |name| > NAME_MAX then ENAMETOOLONG else EINVAL)
      else if Crowded(slots, name) then EEXIST
      else if !Room(slots, Needed(name), asked) then ENOSPC
      else 0
    }

    /** dir_next: the next entry from a position on, with its long name if the slots
        before it hold one. */
    method Next(from: nat, ghost g: nat) returns (found: bool, item: Item, next: nat, ghost h: nat)
      requires WellFormed(slots, groups) && g <= |groups| && from == At(groups, g)
      ensures found ==>
        g <= h < |groups| && groups[h].File? && item == ItemOf(groups[h], At(groups, h)) && next == At(groups, h + 1)
      ensures found ==> forall i :: g <= i < h ==> !groups[i].File?
      ensures !found ==> forall i :: g <= i < |groups| ==> !groups[i].File?
    {
      hide GroupOk, SlotsOf, Flat, ItemOf, ReadLong, Reading, At;
      var p, st := from, Idle();
      ghost var k := 0;
      h := g;
      item, next := Item([], [], 0, 0, 0, 0), 0;
      StartGroup(slots, groups, h, st);
      while p < |slots| && slots[p] != End
        invariant g <= h <= |groups| && p == At(groups, h) + k <= |slots| && Standing(slots, groups, h, st, k, p)
        invariant forall i :: g <= i < h ==> !groups[i].File?
        decreases |slots| - p
      {
        Slots(slots, groups, h, st, k, p);
        var slot := slots[p];
        p := p + 1;
        if slot.Deleted? || slot.Label? || slot.Dots? {
          st := st.(pending := 0);
          k, h := 0, h + 1;
          StartGroup(slots, groups, h, st);
        } else if slot.Long? {
          ReadNext(st, groups[h].longs, Checksum(groups[h].entry.raw), k);
          st := ReadLong(st, slot);
          k := k + 1;
          InLongs(slots, groups, h, st, k);
        } else {
          var name := BuildName(slot, st, groups[h]);
          item := Item(name, ShortText(slot.entry.raw), slot.entry.attr, slot.entry.first, Size(slot.entry), p - 1);
          ItemIs(groups[h], At(groups, h), item);
          return true, item, p, h;
        }
      }
      AllRead(slots, groups, h, st, k, p);
      return false, item, next, h;
    }

    /** The name shown: the long one if it is complete, belongs to this entry and can
        be shown, the 8.3 one otherwise. */
    method BuildName(slot: Slot, st: Reader, ghost group: Group) returns (name: Bytes)
      requires GroupOk(group) && group.File? && slot == Short(group.entry) &&
        Reading(st, group.longs, Checksum(group.entry.raw), |group.longs|)
      ensures name == NameOf(group)
    {
      hide Utf8, Points16, Checksum, Display;
      name := Display(slot.entry.raw, slot.entry.lowBase, slot.entry.lowExt);
      NamePieces(group, st);
      if st.pending == 1 && Checksum(slot.entry.raw) == st.sum {
        var r, text := Utf16ToUtf8(st.units[..st.total * PER_SLOT], NAME_MAX + 1);
        if r > 0 { name := text; }
      }
    }

    /** Reading a whole directory gives its listing. */
    method List() returns (items: seq<Item>)
      requires WellFormed(slots, groups)
      ensures items == Items(groups)
    {
      hide Items, Flat, GroupOk, At;
      items := [];
      var p, more := 0, true;
      ghost var g := 0;
      Beginning(groups);
      while more
        invariant g <= |groups| && AllOk(groups[..g]) && items == Items(groups[..g]) && (more ==> p == At(groups, g))
        invariant !more ==> items == Items(groups)
        decreases |groups| - g, more
      {
        var item;
        ghost var h;
        more, item, p, h := Next(p, g);
        if more {
          OneMore(groups, g, h);
          items, g := items + [item], h + 1;
        } else {
          NoMore(groups, g);
        }
      }
    }

    /** dir_find: the entry with a name, long or short, in any case. */
    method Find(name: Bytes) returns (r: int, item: Item)
      requires WellFormed(slots, groups)
      ensures r == 0 ==> item in Items(groups) && Answers(item, name) && Lookup(Items(groups), name) == Found(item)
      ensures r != 0 ==> r == ENOENT && Unknown(groups, name) && Lookup(Items(groups), name) == Nobody
    {
      hide Items, Flat, GroupOk, At, Answers, Lookup;
      var p, more := 0, true;
      ghost var g, seen := 0, [];
      Beginning(groups);
      while true
        invariant g <= |groups| && AllOk(groups[..g]) && seen == Items(groups[..g]) && p == At(groups, g)
        invariant forall i :: 0 <= i < |seen| ==> !Answers(seen[i], name)
        decreases |groups| - g
      {
        ghost var h;
        more, item, p, h := Next(p, g);
        if !more {
          NoMore(groups, g);
          NobodyAnswers(seen, name);
          return ENOENT, item;
        }
        OneMore(groups, g, h);
        if Answers(item, name) {
          AmongItems(groups, h);
          FirstAnswer(groups, h, seen, name);
          return 0, item;
        }
        seen, g := seen + [item], h + 1;
      }
    }

    /** dir_has_short: whether an 8.3 name is taken. */
    method HasShort(raw: Bytes) returns (found: bool)
      requires WellFormed(slots, groups)
      ensures found <==> HasRaw(groups, raw)
    {
      var p := 0;
      while p < |slots| && slots[p] != End
        invariant 0 <= p <= |slots| && forall i :: 0 <= i < p ==> slots[i] != End && !Carries(slots[i], raw)
      {
        if Carries(slots[p], raw) {
          Carried(slots, groups, p, raw);
          return true;
        }
        p := p + 1;
      }
      NotCarried(slots, groups, p, raw);
      return false;
    }

    /** short_pick_tail: the first numbered form that is not taken. */
    method PickTail(g: Gen) returns (r: int, raw: Bytes, ghost number: nat)
      requires WellFormed(slots, groups) && CleanRaw(g.raw) && g.baseLen == |Trim(g.raw[..8])| && 1 <= g.baseLen <= 8
      ensures CleanRaw(raw) && (r == 0 || r == EEXIST)
      ensures r == 0 ==> 1 <= number <= MAX_TAIL && raw == TailRaw(g, number) && !HasRaw(groups, raw)
      ensures r == 0 ==> forall n :: 1 <= n < number ==> HasRaw(groups, TailRaw(g, n))
      ensures r == EEXIST ==> forall n :: 1 <= n <= MAX_TAIL ==> HasRaw(groups, TailRaw(g, n))
    {
      hide TailRaw, HasRaw, CleanRaw;
      RawLength(g.raw);
      for n := 1 to MAX_TAIL + 1
        invariant forall k :: 1 <= k < n ==> HasRaw(groups, TailRaw(g, k))
      {
        raw := TailRaw(g, n);
        var found := HasShort(raw);
        TailClean(g, n);
        if !found { return 0, raw, n; }
      }
      return EEXIST, g.raw, 0;
    }

    // ----- room for an entry -----

    /** dir_alloc_slots: so many free slots in a row, across clusters; the directory
        grows by empty clusters if it has to. */
    method AllocSlots(need: nat) returns (r: int, start: nat)
      requires WellFormed(slots, groups) && perCluster > 0 && Clusters(|slots|, perCluster) && need > 0
      modifies this`slots, this`asked
      ensures WellFormed(slots, groups) && Clusters(|slots|, perCluster) && (r == 0 || r == ENOSPC)
      ensures |old(slots)| <= |slots| && slots[..|old(slots)|] == old(slots)
      ensures (|old(slots)| <= MAX_ENTRIES ==> |slots| <= MAX_ENTRIES)
      ensures r == 0 ==> start + need <= |slots| && start <= |Flat(groups)| && FreeRun(slots, start, start + need)
      ensures r == 0 <==> Room(old(slots), need, old(asked))
      ensures HasRun(old(slots), need) ==>
        slots == old(slots) && asked == old(asked) && forall s: nat :: s < start ==> !RunAt(slots, s, need)
    {
      hide Flat, GroupOk, Trailing, RunAt, Grantable, ClusterCount, Clusters;
      ghost var L := |Flat(groups)|;
      var p, run, tail := 0, 0, false;
      start := 0;
      while p < |slots|
        invariant slots == old(slots) && asked == old(asked)
        invariant 0 <= p <= |slots| && run <= p && run < need && FreeRun(slots, p - run, p)
        invariant (run > 0 ==> start == p - run)
        invariant p <= L ==> !tail
        invariant p > L ==> tail && run > 0 && start <= L
        invariant run > 0 ==> start <= L
        invariant run == Trailing(slots[..p]) && forall s: nat :: s + need <= p ==> !RunAt(slots, s, need)
      {
        EndsFrom(slots, groups, p);
        OneSlot(slots, p, need);
        if slots[p] == End { tail := true; }
        if tail || slots[p] == Deleted {
          if run == 0 { start := p; }
          run := run + 1;
          if run == need {
            FirstFit(slots, start, need, p + 1);
            return 0, start;
          }
        } else {
          run := 0;
        }
        p := p + 1;
      }
      EndsFrom(slots, groups, p);
      NoRun(slots, need, p);
      r, start := Extend(need, run, start);
    }

    /** The last part of dir_alloc_slots. */
    method Extend(need: nat, have: nat, from: nat) returns (r: int, start: nat)
      requires WellFormed(slots, groups) && perCluster > 0 && Clusters(|slots|, perCluster)
      requires have <= |slots| && FreeRun(slots, |slots| - have, |slots|) && have < need
      requires if have > 0 then from == |slots| - have && from <= |Flat(groups)| else |Flat(groups)| == |slots|
      modifies this`slots, this`asked
      ensures WellFormed(slots, groups) && Clusters(|slots|, perCluster) && (r == 0 || r == ENOSPC)
      ensures |old(slots)| <= |slots| && slots[..|old(slots)|] == old(slots)
      ensures (|old(slots)| <= MAX_ENTRIES ==> |slots| <= MAX_ENTRIES)
      ensures r == 0 ==> start + need <= |slots| && start <= |Flat(groups)| && FreeRun(slots, start, start + need)
      ensures r == 0 <==> Grantable(grants, perCluster, have, need, ClusterCount(|old(slots)|, perCluster), old(asked))
    {
      hide Flat, GroupOk, Clusters;
      var run, clusters := have, ClusterCount(|slots|, perCluster);
      start := from;
      while run < need
        invariant WellFormed(slots, groups) && Clusters(|slots|, perCluster) && |old(slots)| <= |slots| &&
          slots[..|old(slots)|] == old(slots)
        invariant have <= run <= |slots| && FreeRun(slots, |slots| - run, |slots|)
        invariant if run > 0 then start == |slots| - run && start <= |Flat(groups)| else |Flat(groups)| == |slots|
        invariant clusters == ClusterCount(|slots|, perCluster) && asked >= old(asked)
        invariant |old(slots)| <= MAX_ENTRIES ==> |slots| <= MAX_ENTRIES
        invariant Grantable(grants, perCluster, have, need, ClusterCount(|old(slots)|, perCluster), old(asked))
                  <==> Grantable(grants, perCluster, run, need, clusters, asked)
        decreases need - run
      {
        if clusters + 1 > MAX_ENTRIES / perCluster { return ENOSPC, 0; }
        asked := asked + 1;
        if !grants(asked - 1) { return ENOSPC, 0; }
        if run == 0 { start := |slots|; }
        StillSmall(|slots|, perCluster);
        Grown(slots, groups, perCluster, run);
        slots := slots + seq(perCluster, _ => End);
        run, clusters := run + perCluster, clusters + 1;
      }
      return 0, start;
    }

    /** The slots of an entry, written in the order of the disk. */
    method WriteAll(start: nat, ents: seq<Slot>)
      requires start + |ents| <= |slots|
      modifies this`slots
      ensures slots == old(slots)[..start] + ents + old(slots)[start + |ents|..]
    {
      ghost var was := slots;
      for i := 0 to |ents|
        invariant slots == was[..start] + ents[..i] + was[start + i..]
      {
        slots := slots[start + i := ents[i]];
        assert ents[..i + 1] == ents[..i] + [ents[i]];
      }
      assert ents[..|ents|] == ents;
    }

    // ----- adding and deleting -----

    /** The slots of a new entry: its long name from the last part to the first, then
        the 8.3 entry. */
    method BuildSlots(units: Units, lfn: bool, entry: Entry) returns (ents: seq<Slot>, ghost file: Group)
      requires |units| <= 255 && Words(units) && |entry.raw| == 11
      ensures file == File(if lfn then Longs(units) else [], entry) && GroupOk(file) && ents == SlotsOf(file)
    {
      hide SlotUnits, SlotCount, Checksum, GroupOk, Longs;
      var count := if lfn then SlotCount(units) else 0;
      var sum := Checksum(entry.raw);
      file := File(if lfn then Longs(units) else [], entry);
      LongsOk(units, entry);
      LongsAre(units);
      ents := [];
      for i := 0 to count
        invariant |ents| == i && forall k :: 0 <= k < i ==> ents[k] == LongSlot(file.longs, sum, k)
      {
        var number := count - i;
        ents := ents + [Long(number + (if i == 0 then 64 else 0), true, sum, SlotUnits(units, number))];
      }
      assert ents == LongSlots(file.longs, sum);
      ents := ents + [Short(entry)];
    }

    /** dir_add_entry: a name joins the listing, and every other entry stays as and
        where it is. If the name was not in use, the entries stay apart. */
    method Add(name: Bytes, attr: nat, first: nat, size: nat) returns (r: int, item: Item)
      requires Valid()
      modifies this
      ensures Valid() && (old(Unknown(groups, name)) ==> Keeps(old(groups), groups))
      ensures r == 0 ==>
        item.name == name && item.attr == attr && item.first == first && item.size == if attr / 16 % 2 == 1 then 0
        else size
      ensures r == 0 ==> Gains(old(Items(groups)), Items(groups), item)
      ensures r != 0 ==> r in {EINVAL, ENAMETOOLONG, EEXIST, ENOSPC} && groups == old(groups)
      ensures r == AddCode(old(slots), name, old(asked))
      ensures |old(slots)| <= MAX_ENTRIES ==> |slots| <= MAX_ENTRIES
    {
      hide Room, Crowded, Needed, RawForm;
      hide Flat, GroupOk, Items, Ours, Distinct, Unknown, Gains, CleanRaw, Nameable, Utf8, Utf16, EightThree, Shows;
      hide ShortText, UpAll;
      hide Display, Trim, ShortOk, HasRaw, SlotsOf, ItemOf, NameOf, Longs, FreeRun;
      item := Item([], [], 0, 0, 0, 0);
      var n, units;
      ghost var cps;
      n, units, cps := NameUnits(name);
      if n < 0 { return n, item; }
      var g := ShortBase(name);
      var raw := g.raw;
      RawLength(raw);
      if g.lossy {
        ghost var number;
        r, raw, number := PickTail(g);
        RawLength(raw);
        AllTaken(slots, groups, name, g, r, number);
        if r != 0 { return r, item; }
      } else {
        NotCrowded(slots, name);
      }
      NewName(groups, name, g, raw);
      Utf16Words(cps);
      var entry := Entry(raw, g.lowBase, g.lowExt, attr, first, size);
      var ents;
      ghost var file;
      ents, file := BuildSlots(units, g.lfn, entry);
      NewShows(name, cps, g, file);
      SomeSlots(file);
      SlotsNeeded(name, cps, g, file);
      var start;
      r, start := AllocSlots(|ents|);
      if r != 0 { return r, item; }
      item := Item(if g.lfn then name else Display(raw, g.lowBase, g.lowExt), ShortText(raw), attr, first, Size(entry),
                   start + |ents| - 1);
      ghost var was := slots;
      NewItem(file, start, item);
      WriteAll(start, ents);
      ghost var a, b := PlaceNew(was, slots, groups, start, file, name);
      groups := Insert(groups, a, b, file);
    }

    /** entry_delete: the entry with its 8.3 slot at a place, and the long name slots
        right before it, leave; a place behind the end is not found. */
    method Delete(pos: nat, ghost item: Item) returns (r: int)
      requires Valid() && ((item in Items(groups) && item.pos == pos) || pos > |Flat(groups)|)
      modifies this
      ensures Valid() && Keeps(old(groups), groups)
      ensures pos > |old(Flat(groups))| ==> r == ENOENT && groups == old(groups) && slots == old(slots)
      ensures pos <= |old(Flat(groups))| ==>
        r == 0 && Gains(Items(groups), old(Items(groups)), item) && slots == Cleared(old(slots), pos)
      ensures asked == old(asked)
    {
      hide Flat, GroupOk, Items, Ours, Distinct, Gains, SlotsOf, ItemOf, At, EntryAt, FirstLong;
      var p, start, have := 0, 0, false;
      ghost var g := EntryOf(groups, item, pos);
      EntryInside(groups, g, pos);
      OneStart(slots);
      while true
        invariant slots == old(slots) && groups == old(groups) && asked == old(asked)
        invariant 0 <= p <= |slots| && p <= pos && start <= p && FirstLong(slots, if have then start else p, p)
        invariant have ==> start < p
        invariant p <= |Flat(groups)|
        decreases |slots| - p
      {
        EndsFrom(slots, groups, p);
        if p == |slots| { return ENOENT; }
        if p == pos {
          if !have { start := p; }
          break;
        }
        if slots[p] == End { return ENOENT; }
        OneStep(slots, if have then start else p, p);
        if slots[p].Long? {
          if !have { start, have := p, true; }
        } else {
          have := false;
        }
        p := p + 1;
      }
      Whose(slots, groups, g, start, pos);
      MarkDeleted(start, pos);
      ClearedIs(old(slots), slots, start, pos);
      TakenAway(old(slots), slots, groups, g, start, pos);
      groups := Without(groups, g);
      return 0;
    }

    method MarkDeleted(start: nat, pos: nat)
      requires start <= pos < |slots|
      modifies this`slots
      ensures |slots| == |old(slots)| && slots[..start] == old(slots)[..start]
      ensures slots[pos + 1..] == old(slots)[pos + 1..]
      ensures forall i :: start <= i <= pos ==> slots[i] == Deleted
    {
      var p := start;
      while true
        invariant start <= p <= pos && |slots| == |old(slots)| && slots[..start] == old(slots)[..start]
        invariant slots[p..] == old(slots)[p..]
        invariant forall i :: start <= i < p ==> slots[i] == Deleted
        decreases pos - p
      {
        ghost var was := slots;
        slots := slots[p := Deleted];
        assert slots[p + 1..] == was[p..][1..];
        if p == pos { return; }
        p := p + 1;
      }
    }
  }

  /** The 8.3 slot of a group is at a place. */
  ghost predicate EntryAt(groups: seq<Group>, g: nat, pos: nat)
    requires AllOk(groups)
  {
    g < |groups| && groups[g].File? && pos == At(groups, g) + |groups[g].longs|
  }

  /** From a place on everything is part of a long name, and that is where it begins. */
  ghost predicate FirstLong(slots: seq<Slot>, start: nat, p: nat) {
    start <= p <= |slots| && (forall i :: start <= i < p ==> slots[i].Long?) && (start > 0 ==> !slots[start - 1].Long?)
  }

  lemma EntryOf(groups: seq<Group>, item: Item, pos: nat) returns (g: nat)
    requires AllOk(groups)
    ensures item in Items(groups) && item.pos == pos ==>
      EntryAt(groups, g, pos) && item == ItemOf(groups[g], At(groups, g))
  {
    hide GroupOk, Items, At;
    g := 0;
    if item in Items(groups) {
      var k :| 0 <= k < |Items(groups)| && Items(groups)[k] == item;
      g := GroupOf(groups, k);
    }
  }

  lemma {:induction false} LongsBack(slots: seq<Slot>, start: nat, p: nat)
    requires FirstLong(slots, start, p)
    ensures LongStart(slots, p) == start
  {
    if start < p {
      LongsBack(slots, start, p - 1);
    }
  }

  lemma ClearedIs(was: seq<Slot>, now: seq<Slot>, start: nat, pos: nat)
    requires FirstLong(was, start, pos) && pos < |was| == |now| && now[..start] == was[..start]
    requires now[pos + 1..] == was[pos + 1..]
    requires forall i :: start <= i <= pos ==> now[i] == Deleted
    ensures now == Cleared(was, pos)
  {
    hide LongStart;
    LongsBack(was, start, pos);
    var c := Cleared(was, pos);
    forall i | 0 <= i < |now| ensures now[i] == c[i] {
      if i < start { assert now[..start][i] == was[..start][i]; }
      if i > pos { assert now[pos + 1..][i - pos - 1] == was[pos + 1..][i - pos - 1]; }
    }
  }

  lemma OneStart(slots: seq<Slot>)
    ensures FirstLong(slots, 0, 0)
  {
  }

  lemma EntryInside(groups: seq<Group>, g: nat, pos: nat)
    requires AllOk(groups)
    ensures EntryAt(groups, g, pos) ==> g < |groups| && groups[g].File? && pos < |Flat(groups)|
  {
    hide Flat, At;
    if EntryAt(groups, g, pos) { SlotAt(groups, g, |groups[g].longs|); }
  }

  lemma OneStep(slots: seq<Slot>, start: nat, p: nat)
    requires FirstLong(slots, start, p) && p < |slots|
    ensures FirstLong(slots, if slots[p].Long? then start else p + 1, p + 1)
  {
  }

  /** The long name slots found are those of the entry. */
  lemma Whose(slots: seq<Slot>, groups: seq<Group>, g: nat, start: nat, pos: nat)
    requires WellFormed(slots, groups) && EntryAt(groups, g, pos) && FirstLong(slots, start, pos)
    ensures start == At(groups, g) && At(groups, g + 1) == pos + 1 <= |slots|
  {
    hide Flat, At, GroupOk, SlotsOf, WellFormed;
    AllAre(slots, groups, g);
    FileSlots(slots, groups, g);
    FileLength(groups, g);
    LastSlot(slots, groups, g);
  }

  lemma FileLength(groups: seq<Group>, g: nat)
    requires AllOk(groups) && g < |groups| && groups[g].File?
    ensures At(groups, g + 1) == At(groups, g) + |groups[g].longs| + 1
  {
    hide Flat, At;
    FlatAt(groups, g);
  }

  lemma FileSlots(slots: seq<Slot>, groups: seq<Group>, g: nat)
    requires WellFormed(slots, groups) && g < |groups| && groups[g].File?
    ensures At(groups, g) + |groups[g].longs| < |slots|
    ensures forall k :: At(groups, g) <= k < At(groups, g) + |groups[g].longs| ==> slots[k].Long?
  {
    hide Flat, At, Checksum;
    SlotIn(slots, groups, g, |groups[g].longs|);
    forall k | At(groups, g) <= k < At(groups, g) + |groups[g].longs| ensures slots[k].Long? {
      SlotIn(slots, groups, g, k - At(groups, g));
    }
  }

  /** The slot before a group is no part of a long name. */
  lemma LastSlot(slots: seq<Slot>, groups: seq<Group>, g: nat)
    requires WellFormed(slots, groups) && g <= |groups| && At(groups, g) <= |slots|
    ensures At(groups, g) > 0 ==> !slots[At(groups, g) - 1].Long?
  {
    hide Flat, At, GroupOk, SlotsOf;
    AtEnds(groups);
    if g > 0 {
      FlatAt(groups, g - 1);
      SlotIn(slots, groups, g - 1, |SlotsOf(groups[g - 1])| - 1);
      LastOf(groups[g - 1]);
    }
  }

  lemma LastOf(g: Group)
    requires GroupOk(g)
    ensures !SlotsOf(g)[|SlotsOf(g)| - 1].Long?
  {
  }

  lemma TakenAway(was: seq<Slot>, now: seq<Slot>, groups: seq<Group>, g: nat, start: nat, pos: nat)
    requires WellFormed(was, groups) && g < |groups| && groups[g].File? && start == At(groups, g)
    requires At(groups, g + 1) == pos + 1 <= |was|
    requires |now| == |was| && start <= pos && now[..start] == was[..start] && now[pos + 1..] == was[pos + 1..] &&
      forall i :: start <= i <= pos ==> now[i] == Deleted
    ensures GroupOk(groups[g]) && WellFormed(now, Without(groups, g)) && Keeps(groups, Without(groups, g))
    ensures Gains(Items(Without(groups, g)), Items(groups), ItemOf(groups[g], At(groups, g)))
  {
    hide Flat, GroupOk, Items, Distinct, SlotsOf, ItemOf, Without, Ours, At;
    Removed(was, now, groups, g);
    WithoutKeeps(groups, g);
    Regains(Items(Without(groups, g)), Items(groups), |Items(groups[..g])|);
  }

  lemma Regains(after: seq<Item>, before: seq<Item>, k: nat)
    requires k < |before| && after == before[..k] + before[k + 1..]
    ensures Gains(after, before, before[k])
  {
    assert before == after[..k] + [before[k]] + after[k..];
  }

  lemma TwoMarks(a: Slot, b: Slot)
    requires a.Dots? && b.Dots?
    ensures var groups := [Mark(a), Mark(b)]; AllOk(groups) && Flat(groups) == [a, b] && Items(groups) == []
  {
    var groups := [Mark(a), Mark(b)];
    var one := groups[..1];
    assert one == [Mark(a)] && one[..0] == [];
    assert Flat(one) == Flat([]) + [a] && Items(one) == Items([]);
    assert Flat(groups) == Flat(one) + [b] && Items(groups) == Items(one);
  }

  lemma LongsAre(units: Units)
    ensures |Longs(units)| == SlotCount(units)
    ensures forall i :: 0 <= i < SlotCount(units) ==> Longs(units)[i] == SlotUnits(units, i + 1)
  {
  }

  lemma SomeSlots(file: Group)
    requires GroupOk(file)
    ensures |SlotsOf(file)| > 0
  {
  }

  /** Why the 8.3 form of a new entry is not in use. */
  lemma NewName(groups: seq<Group>, name: Bytes, g: Gen, raw: Bytes)
    requires AllOk(groups) && |raw| == 11
    requires if g.lossy then !HasRaw(groups, raw) else raw == g.raw && ShortText(raw) == UpAll(name)
    ensures Unknown(groups, name) ==> NoFileHas(groups, raw)
  {
    hide GroupOk, Unknown, ShortText, UpAll;
    if g.lossy {
      assert forall i :: 0 <= i < |groups| ==> !Bears(groups[i], raw);
    } else if Unknown(groups, name) {
      CapitalsFree(groups, name, raw);
    }
  }

  lemma NewShows(name: Bytes, cps: Points, g: Gen, file: Group)
    requires AllScalar(cps) && AllAllowed(cps) && name == Utf8(cps) && Proper(name) && GroupOk(file) && file.File? &&
      CleanRaw(file.entry.raw)
    requires file.longs == (if g.lfn then Longs(Utf16(cps)) else []) && file.entry.lowBase == g.lowBase
    requires file.entry.lowExt == g.lowExt
    requires |file.entry.raw| == 11 && (!g.lfn ==> Display(file.entry.raw, g.lowBase, g.lowExt) == name)
    requires EightThree(name) ==> ShortText(file.entry.raw) == UpAll(name)
    ensures NameOf(file) == name && Neat(file)
  {
    hide Utf8, Utf16, Longs, GroupOk, CleanRaw, Display, ShortText, UpAll, EightThree, NameOf;
    ShowsName(name, cps, file, g.lfn);
  }

  lemma NewItem(file: Group, start: nat, item: Item)
    requires GroupOk(file) && file.File? && item.name == NameOf(file) && item.shortName == ShortText(file.entry.raw)
    requires item.attr == file.entry.attr && item.first == file.entry.first && item.size == Size(file.entry) &&
      item.pos == start + |SlotsOf(file)| - 1
    ensures item == ItemOf(file, start)
  {
  }

  lemma PlaceNew(was: seq<Slot>, now: seq<Slot>, groups: seq<Group>, start: nat, file: Group, name: Bytes)
    returns (a: nat, b: nat)
    requires WellFormed(was, groups) && GroupOk(file) && file.File? && NameOf(file) == name && Neat(file)
    requires start <= |Flat(groups)| && FreeRun(was, start, start + |SlotsOf(file)|) &&
      (Unknown(groups, name) ==> NoFileHas(groups, file.entry.raw))
    requires now == was[..start] + SlotsOf(file) + was[start + |SlotsOf(file)|..]
    ensures a <= b <= |groups| && WellFormed(now, Insert(groups, a, b, file))
    ensures Gains(Items(groups), Items(Insert(groups, a, b, file)), ItemOf(file, start))
    ensures Unknown(groups, name) ==> Keeps(groups, Insert(groups, a, b, file))
  {
    hide Flat, GroupOk, Items, Distinct, Unknown, CleanRaw, EightThree, ShortText, UpAll, SlotsOf, ItemOf, NameOf;
    hide Insert, Ours;
    a, b := Placed(was, now, groups, start, file);
    if Unknown(groups, name) {
      if Distinct(groups) { InsertDistinct(groups, a, b, file); }
      if Ours(groups) {
        NewApart(groups, file, name);
        InsertOurs(groups, a, b, file);
      }
    }
  }

  lemma EndsFrom(slots: seq<Slot>, groups: seq<Group>, p: nat)
    requires WellFormed(slots, groups) && p <= |slots|
    ensures p < |slots| ==> (slots[p] == End <==> p >= |Flat(groups)|)
    ensures |Flat(groups)| <= |slots|
  {
    hide GroupOk, SlotsOf, Flat, At;
    if p < |Flat(groups)| {
      var g, k := Owner(groups, p);
      assert slots[..|Flat(groups)|][p] == slots[p];
      NeverEnd(groups[g], k);
    }
  }

  /** The first place where a run ends is the first where one begins. */
  lemma FirstFit(slots: seq<Slot>, start: nat, need: nat, p: nat)
    requires p <= |slots| && start + need == p && FreeRun(slots, start, p)
    requires forall s: nat :: s + need < p ==> !RunAt(slots, s, need)
    ensures RunAt(slots, start, need) && HasRun(slots, need) && forall s: nat :: s < start ==> !RunAt(slots, s, need)
  {
    assert RunAt(slots, start, need);
  }

  lemma NoRun(slots: seq<Slot>, need: nat, p: nat)
    requires p == |slots| && forall s: nat :: s + need <= p ==> !RunAt(slots, s, need)
    ensures !HasRun(slots, need) && slots[..p] == slots
  {
  }

  lemma Grown(slots: seq<Slot>, groups: seq<Group>, n: nat, run: nat)
    requires WellFormed(slots, groups) && n > 0 && Clusters(|slots|, n) && run <= |slots|
    requires FreeRun(slots, |slots| - run, |slots|)
    ensures var now := slots + seq(n, _ => End);
      && WellFormed(now, groups) && Clusters(|now|, n) && FreeRun(now, |now| - (run + n), |now|)
      && now[..|slots|] == slots
      && ClusterCount(|now|, n) == ClusterCount(|slots|, n) + 1
  {
    hide Flat, GroupOk;
    var now := slots + seq(n, _ => End);
    assert now[..|Flat(groups)|] == slots[..|Flat(groups)|];
  }

  // ----- which 8.3 names are taken -----

  lemma NotCrowded(slots: seq<Slot>, name: Bytes)
    ensures EightThree(name) ==> !Crowded(slots, name)
  {
  }

  lemma TakenIs(slots: seq<Slot>, groups: seq<Group>, raw: Bytes)
    requires WellFormed(slots, groups)
    ensures Taken(slots, raw) <==> HasRaw(groups, raw)
  {
    hide GroupOk, SlotsOf, Flat, At, Bears, Carries;
    if Taken(slots, raw) {
      var p :| 0 <= p < |slots| && Carries(slots[p], raw);
      Carried(slots, groups, p, raw);
    }
    if HasRaw(groups, raw) {
      var g :| 0 <= g < |groups| && Bears(groups[g], raw);
      var k := |SlotsOf(groups[g])| - 1;
      SlotIn(slots, groups, g, k);
      BearsOne(groups[g], k, raw);
    }
  }

  /** The search for a number tells whether all are in use. */
  lemma AllTaken(slots: seq<Slot>, groups: seq<Group>, name: Bytes, g: Gen, r: int, number: nat)
    requires WellFormed(slots, groups) && g.raw == RawForm(name) && g.baseLen == |Trim(g.raw[..8])|
    requires 1 <= g.baseLen <= 8 && 
      !EightThree(name)
    requires r == 0 ==> 1 <= number <= MAX_TAIL && !HasRaw(groups, TailRaw(g, number))
    requires r == EEXIST ==> forall n :: 1 <= n <= MAX_TAIL ==> HasRaw(groups, TailRaw(g, n))
    requires r == 0 || r == EEXIST
    ensures Crowded(slots, name) <==> r == EEXIST
  {
    hide HasRaw, Taken, Trim, Pad, Decimal, RawForm, EightThree, WellFormed;
    forall n | 1 <= n <= MAX_TAIL ensures Numbered(name, n) == TailRaw(g, n) &&
      (Taken(slots, Numbered(name, n)) <==> HasRaw(groups, TailRaw(g, n))) {
      TakenIs(slots, groups, TailRaw(g, n));
    }
  }

  lemma SlotsNeeded(name: Bytes, cps: Points, g: Gen, file: Group)
    requires AllScalar(cps) && name == Utf8(cps) && g.raw == RawForm(name) && (g.lfn <==> !Shows(name, g.raw))
    requires file.File? && GroupOk(file) && file.longs == if g.lfn then Longs(Utf16(cps)) else []
    ensures |SlotsOf(file)| == Needed(name)
  {
    hide RawForm, Shows, Utf16, Utf8, UnitCount, Checksum;
    UnitsAre(cps);
  }

  lemma BearsOne(g: Group, k: nat, raw: Bytes)
    requires GroupOk(g) && k < |SlotsOf(g)|
    ensures Carries(SlotsOf(g)[k], raw) ==> Bears(g, raw)
    ensures Bears(g, raw) ==> Carries(SlotsOf(g)[|SlotsOf(g)| - 1], raw)
  {
  }

  lemma Carried(slots: seq<Slot>, groups: seq<Group>, p: nat, raw: Bytes)
    requires WellFormed(slots, groups) && p < |slots| && Carries(slots[p], raw)
    ensures HasRaw(groups, raw)
  {
    hide GroupOk, SlotsOf, Flat, At, Bears;
    assert p < |Flat(groups)|;
    assert slots[..|Flat(groups)|][p] == slots[p];
    var g, k := Owner(groups, p);
    BearsOne(groups[g], k, raw);
  }

  lemma NotCarried(slots: seq<Slot>, groups: seq<Group>, p: nat, raw: Bytes)
    requires WellFormed(slots, groups) && p <= |slots| && (p < |slots| ==> slots[p] == End)
    requires forall i :: 0 <= i < p ==> slots[i] != End && !Carries(slots[i], raw)
    ensures !HasRaw(groups, raw)
  {
    hide GroupOk, SlotsOf, Flat, At, Bears, Carries;
    forall g | 0 <= g < |groups| ensures !Bears(groups[g], raw) {
      var k := |SlotsOf(groups[g])| - 1;
      SlotIn(slots, groups, g, k);
      BearsOne(groups[g], k, raw);
      NeverEnd(groups[g], k);
      Covered(slots, groups, p, At(groups, g) + k);
    }
  }

  /** Before the first end mark lies every slot of every group. */
  lemma Covered(slots: seq<Slot>, groups: seq<Group>, p: nat, q: nat)
    requires WellFormed(slots, groups) && p <= |slots| && (p < |slots| ==> slots[p] == End) && q < |Flat(groups)|
    ensures q < p
  {
    hide GroupOk, SlotsOf, Flat, At;
    if p <= q {
      var g, k := Owner(groups, p);
      assert slots[..|Flat(groups)|][p] == slots[p];
      NeverEnd(groups[g], k);
    }
  }

  lemma RawLength(raw: Bytes)
    requires CleanRaw(raw)
    ensures |raw| == 11
  {
  }

  lemma {:induction false} Digits(n: nat)
    ensures AllShortOk(Decimal(n)) && Decimal(n) != []
  {
    if n >= 10 { Digits(n / 10); }
  }

  lemma TailClean(g: Gen, n: nat)
    requires CleanRaw(g.raw) && g.baseLen == |Trim(g.raw[..8])| && 1 <= n <= MAX_TAIL && 1 <= g.baseLen <= 8
    ensures CleanRaw(TailRaw(g, n))
  {
    hide ShortOk, Trim, Pad, Decimal, CleanRaw;
    RawLength(g.raw);
    Digits(n);
    var d := Decimal(n);
    DecimalShort(n);
    var keep := if g.baseLen > 7 - |d| then 7 - |d| else g.baseLen;
    var base := g.raw[..keep] + [0x7E] + d;
    KeepClean(g.raw, g.baseLen, keep);
    assert ShortOk(0x7E) by { Tilde(); }
    Repacked(g.raw, base);
  }

  lemma DecimalShort(n: nat)
    requires n <= MAX_TAIL
    ensures |Decimal(n)| <= 6
  {
  }

  lemma Tilde()
    ensures ShortOk(0x7E)
  {
  }

  lemma KeepClean(raw: Bytes, baseLen: nat, keep: nat)
    requires CleanRaw(raw) && baseLen == |Trim(raw[..8])| && keep <= baseLen <= 8
    ensures AllShortOk(raw[..keep])
  {
    hide ShortOk, Trim;
    TrimShort(raw[..8]);
    assert forall i :: 0 <= i < keep ==> raw[i] == raw[..8][i] == Pad(Trim(raw[..8]), 8)[i] == Trim(raw[..8])[i];
  }

  lemma Repacked(raw: Bytes, base: Bytes)
    requires CleanRaw(raw) && 0 < |base| <= 8 && AllShortOk(base)
    ensures CleanRaw(Pad(base, 8) + raw[8..])
  {
    hide ShortOk, Trim, Pad, Unescaped;
    var ext := Trim(raw[8..]);
    TrimShort(raw[8..]);
    Packed(base, ext);
  }

  /** The reader stands at a slot of a group, or behind the last one. */
  ghost predicate Standing(slots: seq<Slot>, groups: seq<Group>, h: nat, st: Reader, k: nat, p: nat) {
    && |st.units| == SLOTS * PER_SLOT && h <= |groups|
    && (h < |groups| ==> GroupOk(groups[h]) && k < |SlotsOf(groups[h])|)
    && (h < |groups| && groups[h].File? ==> Reading(st, groups[h].longs, Checksum(groups[h].entry.raw), k))
    && (h == |groups| || !groups[h].File? ==> k == 0)
    && (h == |groups| ==> p == |slots| || (p < |slots| && slots[p] == End))
  }

  lemma StartGroup(slots: seq<Slot>, groups: seq<Group>, h: nat, st: Reader)
    requires WellFormed(slots, groups) && h <= |groups| && |st.units| == SLOTS * PER_SLOT && st.pending == 0
    ensures At(groups, h) <= |slots| && Standing(slots, groups, h, st, 0, At(groups, h))
  {
    AtEnds(groups);
    if h < |groups| { SlotIn(slots, groups, h, 0); }
  }

  lemma Slots(slots: seq<Slot>, groups: seq<Group>, h: nat, st: Reader, k: nat, p: nat)
    requires WellFormed(slots, groups) && Standing(slots, groups, h, st, k, p) && p == At(groups, h) + k < |slots|
    requires slots[p] != End
    ensures h < |groups| && GroupOk(groups[h]) && slots[p] == SlotsOf(groups[h])[k]
    ensures slots[p].Deleted? || slots[p].Label? || slots[p].Dots? ==> !groups[h].File? && At(groups, h + 1) == p + 1
    ensures slots[p].Long? ==>
      && groups[h].File? && k < |groups[h].longs|
      && slots[p] == LongSlot(groups[h].longs, Checksum(groups[h].entry.raw), k)
    ensures slots[p].Long? ==>
      |slots[p].units| == PER_SLOT && forall i :: 0 <= i < |groups[h].longs| ==> |groups[h].longs[i]| == PER_SLOT
    ensures slots[p].Short? ==>
      groups[h].File? && k == |groups[h].longs| && slots[p] == Short(groups[h].entry) && At(groups, h + 1) == p + 1
    ensures slots[p].Short? ==> |groups[h].entry.raw| == 11
    ensures groups[h].File? ==> Reading(st, groups[h].longs, Checksum(groups[h].entry.raw), k) && st.pending <= SLOTS
  {
    hide Checksum, WellFormed, Flat, At, GroupOk, SlotsOf, LongSlot, Reading;
    assert h < |groups|;
    AllAre(slots, groups, h);
    SlotIn(slots, groups, h, k);
    FlatAt(groups, h);
    SlotKind(groups[h], k);
    Bounded(groups[h], st, k);
  }

  lemma Bounded(g: Group, st: Reader, k: nat)
    requires g.File? ==> Reading(st, g.longs, Checksum(g.entry.raw), k)
    ensures g.File? ==> st.pending <= SLOTS
  {
  }

  /** Which slot of a group is of which kind. */
  lemma SlotKind(g: Group, k: nat)
    requires GroupOk(g) && k < |SlotsOf(g)|
    ensures var s := SlotsOf(g)[k];
      && (s.Deleted? || s.Label? || s.Dots? ==> !g.File? && |SlotsOf(g)| == k + 1)
      && (s.Long? ==> g.File? && k < |g.longs| && s == LongSlot(g.longs, Checksum(g.entry.raw),
                                                                k) && |s.units| == PER_SLOT)
      && (s.Short? ==> g.File? && k == |g.longs| && s == Short(g.entry) && |SlotsOf(g)| == k + 1 && |g.entry.raw| == 11)
    ensures g.File? ==> forall i :: 0 <= i < |g.longs| ==> |g.longs[i]| == PER_SLOT
  {
    hide Checksum;
  }

  lemma AllAre(slots: seq<Slot>, groups: seq<Group>, h: nat)
    requires WellFormed(slots, groups) && h < |groups|
    ensures AllOk(groups) && GroupOk(groups[h])
  {
  }

  lemma InLongs(slots: seq<Slot>, groups: seq<Group>, h: nat, st: Reader, k: nat)
    requires WellFormed(slots, groups) && h < |groups| && groups[h].File? && 0 < k <= |groups[h].longs|
    requires GroupOk(groups[h]) && Reading(st, groups[h].longs, Checksum(groups[h].entry.raw), k)
    ensures At(groups, h) + k <= |slots| && Standing(slots, groups, h, st, k, At(groups, h) + k)
  {
    SlotIn(slots, groups, h, k);
  }

  lemma AllRead(slots: seq<Slot>, groups: seq<Group>, h: nat, st: Reader, k: nat, p: nat)
    requires WellFormed(slots, groups) && Standing(slots, groups, h, st, k, p) && p == At(groups, h) + k &&
      !(p < |slots| && slots[p] != End)
    ensures h == |groups|
  {
    if h < |groups| {
      SlotIn(slots, groups, h, k);
      NeverEnd(groups[h], k);
    }
  }

  lemma ItemIs(g: Group, pos: nat, item: Item)
    requires GroupOk(g) && g.File?
    requires item == Item(NameOf(g), ShortText(g.entry.raw), g.entry.attr, g.entry.first, Size(g.entry),
                          pos + |g.longs|)
    ensures item == ItemOf(g, pos)
  {
  }

  lemma NamePieces(group: Group, st: Reader)
    requires GroupOk(group) && group.File? && Reading(st, group.longs, Checksum(group.entry.raw), |group.longs|)
    ensures group.longs == [] ==> st.pending == 0 && LongText(group.longs) == []
    ensures group.longs != [] ==>
      st.pending == 1 && st.total * PER_SLOT <= |st.units| && st.units[..st.total * PER_SLOT] == Joined(group.longs)
    ensures Words(Joined(group.longs)) && (LongText(group.longs) != [] <==>
      Points16(Joined(group.longs)) != [] && |Utf8(Points16(Joined(group.longs)))| < NAME_MAX + 1)
  {
    JoinedAt(group.longs);
    assert group.longs[0..] == group.longs;
    SomeBytes(Points16(Joined(group.longs)));
  }

  lemma SomeBytes(cps: Points)
    requires AllScalar(cps)
    ensures cps != [] ==> Utf8(cps) != []
  {
  }
}
