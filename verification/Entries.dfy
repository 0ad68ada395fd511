/** The entries of a directory by their names: which entry answers a name, and why
    at most one does. */
module Entries {
  import opened Unicode
  import opened Names
  import opened Listing
  import opened Placement

  /** No two entries have the same 8.3 name. */
  ghost predicate Distinct(groups: seq<Group>) {
    forall i, j :: 0 <= i < j < |groups| && groups[i].File? && groups[j].File? ==>
      groups[i].entry.raw != groups[j].entry.raw
  }

  /** name_eq: equal up to case. */
  function Fold(c: nat): nat { if IsUpper(c) then c + 32 else c }

  predicate SameName(a: Bytes, b: Bytes) {
    |a| == |b| && forall i :: 0 <= i < |a| ==> Fold(a[i]) == Fold(b[i])
  }

  predicate Answers(item: Item, name: Bytes) { SameName(item.name, name) || SameName(item.shortName, name) }

  ghost predicate Unknown(groups: seq<Group>, name: Bytes)
    requires AllOk(groups)
  {
    forall i :: 0 <= i < |Items(groups)| ==> !Answers(Items(groups)[i], name)
  }

  datatype Finding = Nobody | Found(item: Item)

  /** The first entry of a listing that answers a name. */
  function Lookup(items: seq<Item>, name: Bytes): (f: Finding)
    ensures f.Found? ==> f.item in items && Answers(f.item, name)
    ensures f.Nobody? <==> forall i :: 0 <= i < |items| ==> !Answers(items[i], name)
  {
    if items == [] then Nobody
    else
      var f := Lookup(items[..|items| - 1], name);
      if f.Found? then f else if Answers(items[|items| - 1], name) then Found(items[|items| - 1]) else Nobody
  }

  lemma NobodyAnswers(items: seq<Item>, name: Bytes)
    requires forall i :: 0 <= i < |items| ==> !Answers(items[i], name)
    ensures Lookup(items, name) == Nobody
  {
  }

  lemma {:induction false} LookupLonger(a: seq<Item>, b: seq<Item>, name: Bytes)
    requires Lookup(a, name).Found?
    ensures Lookup(a + b, name) == Lookup(a, name)
    decreases |b|
  {
    hide Answers;
    if b == [] {
      assert a + b == a;
    } else {
      LookupLonger(a, b[..|b| - 1], name);
      assert (a + b)[..|a + b| - 1] == a + b[..|b| - 1];
    }
  }

  /** The entry reached after none before it answered is the first that does. */
  lemma FirstAnswer(groups: seq<Group>, h: nat, seen: seq<Item>, name: Bytes)
    requires AllOk(groups) && h < |groups| && groups[h].File? && AllOk(groups[..h + 1])
    requires Answers(ItemOf(groups[h], At(groups, h)), name)
    requires Items(groups[..h + 1]) == seen + [ItemOf(groups[h], At(groups, h))]
    requires forall i :: 0 <= i < |seen| ==> !Answers(seen[i], name)
    ensures Lookup(Items(groups), name) == Found(ItemOf(groups[h], At(groups, h)))
  {
    hide GroupOk, SlotsOf, Flat, ItemOf, Items, ItemsFrom, Answers, At;
    var a, b := groups[..h + 1], groups[h + 1..];
    assert groups == a + b;
    ItemsConcat(a, b);
    var item := ItemOf(groups[h], At(groups, h));
    assert (seen + [item])[..|seen|] == seen;
    NobodyAnswers(seen, name);
    assert Lookup(seen + [item], name) == Found(item);
    LookupLonger(Items(a), Items(groups)[|Items(a)|..], name);
    assert Items(groups) == Items(a) + Items(groups)[|Items(a)|..];
  }

  lemma Beginning(groups: seq<Group>)
    requires AllOk(groups)
    ensures AllOk(groups[..0]) && Items(groups[..0]) == [] && At(groups, 0) == 0
  {
  }

  lemma {:induction false} NoneBetween(groups: seq<Group>, g: nat, h: nat)
    requires AllOk(groups) && g <= h <= |groups| && forall i :: g <= i < h ==> !groups[i].File?
    ensures AllOk(groups[..h]) && AllOk(groups[..g]) && Items(groups[..h]) == Items(groups[..g])
    decreases h
  {
    hide GroupOk;
    if g < h {
      NoneBetween(groups, g, h - 1);
      assert groups[..h][..h - 1] == groups[..h - 1];
    }
  }

  lemma OneMore(groups: seq<Group>, g: nat, h: nat)
    requires AllOk(groups) && g <= h < |groups| && groups[h].File? && forall i :: g <= i < h ==> !groups[i].File?
    ensures AllOk(groups[..h + 1]) && AllOk(groups[..g]) &&
      Items(groups[..h + 1]) == Items(groups[..g]) + [ItemOf(groups[h], At(groups, h))]
  {
    hide GroupOk, ItemOf;
    NoneBetween(groups, g, h);
    assert groups[..h + 1][..h] == groups[..h];
  }

  lemma NoMore(groups: seq<Group>, g: nat)
    requires AllOk(groups) && g <= |groups| && forall i :: g <= i < |groups| ==> !groups[i].File?
    ensures AllOk(groups[..g]) && Items(groups) == Items(groups[..g])
  {
    NoneBetween(groups, g, |groups|);
    assert groups[..|groups|] == groups;
  }

  lemma AmongItems(groups: seq<Group>, h: nat)
    requires AllOk(groups) && h < |groups| && groups[h].File?
    ensures ItemOf(groups[h], At(groups, h)) in Items(groups)
  {
    hide GroupOk, SlotsOf, Flat, ItemOf, Items, ItemsFrom;
    OneMore(groups, h, h);
    var a, b := groups[..h + 1], groups[h + 1..];
    assert groups == a + b;
    ItemsConcat(a, b);
    assert Items(groups)[|Items(a)| - 1] == Items(a)[|Items(a)| - 1] == ItemOf(groups[h], At(groups, h));
  }

  ghost predicate HasRaw(groups: seq<Group>, raw: Bytes) {
    exists g :: 0 <= g < |groups| && Bears(groups[g], raw)
  }

  ghost predicate Bears(g: Group, raw: Bytes) {
    (g.File? && g.entry.raw == raw) || (g.Mark? && (g.slot.Label? || g.slot.Dots?) && g.slot.raw == raw)
  }

  // ----- one entry for a name -----

  /** Up to case is the same as in capitals. */
  lemma InCapitals(a: Bytes, b: Bytes)
    ensures SameName(a, b) <==> UpAll(a) == UpAll(b)
  {
    if SameName(a, b) {
      forall i | 0 <= i < |a| ensures UpAll(a)[i] == UpAll(b)[i] { FoldUp(a[i], b[i]); }
    } else if |a| == |b| {
      var i :| 0 <= i < |a| && Fold(a[i]) != Fold(b[i]);
      FoldUp(a[i], b[i]);
      assert UpAll(a)[i] != UpAll(b)[i];
    }
  }

  lemma FoldUp(c: nat, d: nat)
    ensures Fold(c) == Fold(d) <==> Up(c) == Up(d)
  {
  }

  /** An entry as this driver makes it: if its name is an 8.3 name in some case, its
      8.3 form is that name. */
  ghost predicate Neat(g: Group)
    requires GroupOk(g)
  {
    g.File? ==> CleanRaw(g.entry.raw) && (EightThree(NameOf(g)) ==> ShortText(g.entry.raw) == UpAll(NameOf(g)))
  }

  ghost predicate Apart(a: Group, b: Group)
    requires GroupOk(a) && GroupOk(b)
  {
    a.File? && b.File? ==> !SameName(NameOf(a), NameOf(b)) && !SameName(NameOf(a), ShortText(b.entry.raw))
  }

  /** Every entry was made by this driver. */
  ghost predicate Ours(groups: seq<Group>)
    requires AllOk(groups)
  {
    (forall i :: 0 <= i < |groups| ==> Neat(groups[i])) && forall i, j ::
      0 <= i < |groups| && 0 <= j < |groups| && i != j ==>
      Apart(groups[i], groups[j])
  }

  ghost predicate Keeps(before: seq<Group>, after: seq<Group>)
    requires AllOk(before) && AllOk(after)
  {
    (Distinct(before) ==> Distinct(after)) && (Ours(before) ==> Ours(after))
  }

  /** The 8.3 form of a new entry is nobody's name. */
  lemma FormIsNew(x: Group, raw: Bytes)
    requires GroupOk(x) && x.File? && Neat(x) && CleanRaw(raw) && x.entry.raw != raw
    ensures !SameName(NameOf(x), ShortText(raw)) && !SameName(ShortText(x.entry.raw), ShortText(raw))
  {
    hide CleanRaw, ShortText, UpAll, NameOf, EightThree, SameName;
    FormText(raw);
    FormText(x.entry.raw);
    var name, s, y := NameOf(x), ShortText(raw), ShortText(x.entry.raw);
    InCapitals(name, s);
    InCapitals(y, s);
    if UpAll(name) == s { Representable(name, raw); }
    if y == s { SameForm(x.entry.raw, raw); }
  }

  lemma FormText(raw: Bytes)
    requires CleanRaw(raw)
    ensures |raw| == 11 && UpAll(ShortText(raw)) == ShortText(raw)
  {
    hide ShortOk, Trim, ShortText, Display;
    DisplayUp(raw, false, false);
    UpTwice(Display(raw, false, false));
  }

  lemma UpTwice(s: Bytes)
    ensures UpAll(UpAll(s)) == UpAll(s)
  {
  }

  lemma Representable(name: Bytes, raw: Bytes)
    requires CleanRaw(raw) && UpAll(name) == ShortText(raw)
    ensures EightThree(name)
  {
    hide ShortOk, Trim, ShortText, Display, Dotted, UpAll;
    DisplayUp(raw, false, false);
    TrimShort(raw[..8]);
    TrimShort(raw[8..]);
    assert InParts(name, Trim(raw[..8]), Trim(raw[8..]));
  }

  /** Among entries of this driver, no name, long or short, in any case, is answered
      by two. */
  lemma NotBoth(groups: seq<Group>, i: nat, j: nat, name: Bytes, p: nat, q: nat)
    requires AllOk(groups) && Ours(groups) && Distinct(groups) && i < |groups| && j < |groups| && i != j
    requires groups[i].File? && 
      groups[j].File?
    ensures !(Answers(ItemOf(groups[i], p), name) && Answers(ItemOf(groups[j], q), name))
  {
    hide CleanRaw, ShortText, UpAll, NameOf, EightThree, SameName;
    var a, b := groups[i], groups[j];
    assert Apart(a, b) && Apart(b, a) && Neat(a) && Neat(b);
    assert a.entry.raw != b.entry.raw;
    FormIsNew(a, b.entry.raw);
    Four(NameOf(a), ShortText(a.entry.raw), NameOf(b), ShortText(b.entry.raw), name);
  }

  lemma Four(a: Bytes, x: Bytes, b: Bytes, y: Bytes, name: Bytes)
    requires !SameName(a, b) && !SameName(a, y) && !SameName(b, x) && !SameName(x, y)
    ensures !((SameName(a, name) || SameName(x, name)) && (SameName(b, name) || SameName(y, name)))
  {
    hide SameName, UpAll;
    InCapitals(a, b);
    InCapitals(a, y);
    InCapitals(b, x);
    InCapitals(x, y);
    InCapitals(a, name);
    InCapitals(x, name);
    InCapitals(b, name);
    InCapitals(y, name);
  }

  // ----- the entry of a new name -----

  function Longs(units: Units): (l: seq<Units>)
    ensures |l| == SlotCount(units) && forall i :: 0 <= i < |l| ==> l[i] == SlotUnits(units, i + 1)
  {
    seq(SlotCount(units), i requires 0 <= i < SlotCount(units) => SlotUnits(units, i + 1))
  }

  lemma {:induction false} JoinedLongs(units: Units, n: nat)
    requires n <= SlotCount(units)
    ensures Joined(Longs(units)[..n]) == Gathered(units, n)
  {
    hide SlotUnits, SlotCount;
    if n > 0 {
      JoinedLongs(units, n - 1);
      assert Longs(units)[..n][..n - 1] == Longs(units)[..n - 1];
    }
  }

  lemma LongsOk(units: Units, entry: Entry)
    requires |units| <= 255 && Words(units) && |entry.raw| == 11
    ensures GroupOk(File(Longs(units), entry)) && GroupOk(File([], entry))
  {
    forall i | 0 <= i < |Longs(units)| ensures Words(Longs(units)[i]) {
      assert Longs(units)[i] == SlotUnits(units, i + 1);
    }
  }

  /** The entry shows the name it was made for. */
  lemma ShowsName(name: Bytes, cps: Points, file: Group, lfn: bool)
    requires AllScalar(cps) && AllAllowed(cps) && name == Utf8(cps) && 0 < |name| <= NAME_MAX && GroupOk(file)
    requires file.File?
    requires |file.entry.raw| == 11
    requires lfn ==> file.longs == Longs(Utf16(cps))
    requires !lfn ==> file.longs == [] && Display(file.entry.raw, file.entry.lowBase, file.entry.lowExt) == name
    ensures NameOf(file) == name
  {
    hide Utf8, Utf16, Points16, Display, SlotUnits, SlotCount, GroupOk;
    if !lfn {
      NoText();
    } else {
      var units := Utf16(cps);
      JoinedLongs(units, SlotCount(units));
      assert Longs(units)[..SlotCount(units)] == Longs(units);
      LongRoundTrip(name, cps);
      Nothing();
    }
  }

  lemma NoText()
    ensures Joined([]) == [] && Words([]) && LongText([]) == []
  {
  }

  ghost predicate NoFileHas(groups: seq<Group>, raw: Bytes) {
    forall i :: 0 <= i < |groups| && groups[i].File? ==> groups[i].entry.raw != raw
  }

  /** If nothing answers a name, its capitals are no 8.3 form in use. */
  lemma CapitalsFree(groups: seq<Group>, name: Bytes, raw: Bytes)
    requires AllOk(groups) && Unknown(groups, name) && |raw| == 11 && ShortText(raw) == UpAll(name)
    ensures NoFileHas(groups, raw)
  {
    hide ShortText, UpAll, NameOf, SameName, Items, At, GroupOk;
    forall i | 0 <= i < |groups| && groups[i].File? ensures groups[i].entry.raw != raw {
      NotAnswered(groups, i, name);
      ItemParts(groups[i], At(groups, i));
      InCapitals(UpAll(name), name);
      UpTwice(name);
    }
  }

  lemma NotAnswered(groups: seq<Group>, i: nat, name: Bytes)
    requires AllOk(groups) && Unknown(groups, name) && i < |groups| && groups[i].File?
    ensures !Answers(ItemOf(groups[i], At(groups, i)), name)
  {
    hide Items, At, GroupOk, ItemOf, Answers;
    AmongItems(groups, i);
    var item := ItemOf(groups[i], At(groups, i));
    var k :| 0 <= k < |Items(groups)| && Items(groups)[k] == item;
  }

  lemma ItemParts(g: Group, p: nat)
    requires GroupOk(g) && g.File?
    ensures |g.entry.raw| == 11 && ItemOf(g, p).name == NameOf(g) && ItemOf(g, p).shortName == ShortText(g.entry.raw)
  {
  }

  // ----- what insertion and deletion keep -----

  lemma InsertDistinct(groups: seq<Group>, g: nat, h: nat, file: Group)
    requires Distinct(groups) && g <= h <= |groups| && file.File? && NoFileHas(groups, file.entry.raw)
    ensures Distinct(Insert(groups, g, h, file))
  {
    var now := Insert(groups, g, h, file);
    forall i, j | 0 <= i < j < |now| && now[i].File? && now[j].File? ensures now[i].entry.raw != now[j].entry.raw {
      Comes(groups, g, h, file, i);
      Comes(groups, g, h, file, j);
    }
  }

  /** Where a group of the new sequence comes from. */
  ghost function Origin(g: nat, h: nat, i: nat): int { if i < g then i else i - g - 1 + h }

  lemma Comes(groups: seq<Group>, g: nat, h: nat, file: Group, i: nat)
    requires g <= h <= |groups| && i < |Insert(groups, g, h, file)|
    ensures i == g ==> Insert(groups, g, h, file)[i] == file
    ensures i != g ==> 0 <= Origin(g, h, i) < |groups| && Insert(groups, g, h, file)[i] == groups[Origin(g, h, i)]
  {
  }

  lemma InsertOurs(groups: seq<Group>, g: nat, h: nat, file: Group)
    requires AllOk(groups) && GroupOk(file) && Ours(groups) && g <= h <= |groups| && Neat(file)
    requires forall i :: 0 <= i < |groups| ==> Apart(groups[i], file) && Apart(file, groups[i])
    ensures AllOk(Insert(groups, g, h, file)) && Ours(Insert(groups, g, h, file))
  {
    hide GroupOk, Neat, Apart, Insert;
    var now := Insert(groups, g, h, file);
    forall i | 0 <= i < |now| ensures GroupOk(now[i]) && Neat(now[i]) { Comes(groups, g, h, file, i); }
    forall i, j | 0 <= i < |now| && 0 <= j < |now| && i != j ensures Apart(now[i], now[j]) {
      Comes(groups, g, h, file, i);
      Comes(groups, g, h, file, j);
    }
  }

  lemma NewApart(groups: seq<Group>, file: Group, name: Bytes)
    requires AllOk(groups) && GroupOk(file) && file.File? && NameOf(file) == name && Unknown(groups, name)
    requires Ours(groups)
    requires CleanRaw(file.entry.raw) && NoFileHas(groups, file.entry.raw)
    ensures forall i :: 0 <= i < |groups| ==> Apart(groups[i], file) && Apart(file, groups[i])
  {
    hide ShortText, NameOf, SameName, Items, At, GroupOk, Unknown, CleanRaw;
    forall i | 0 <= i < |groups| ensures Apart(groups[i], file) && Apart(file, groups[i]) {
      if groups[i].File? {
        NotAnswered(groups, i, name);
        ItemParts(groups[i], At(groups, i));
        FormIsNew(groups[i], file.entry.raw);
        Symmetric(NameOf(groups[i]), name);
        Symmetric(ShortText(groups[i].entry.raw), name);
      }
    }
  }

  lemma Symmetric(a: Bytes, b: Bytes)
    ensures SameName(a, b) == SameName(b, a)
  {
  }

  ghost function OldPlace(groups: seq<Group>, g: nat, i: nat): int
    requires g < |groups| && GroupOk(groups[g])
  {
    if i < g then i else i - |SlotsOf(groups[g])| + 1
  }

  lemma Stays(groups: seq<Group>, g: nat, i: nat)
    requires g < |groups| && GroupOk(groups[g]) && i < |Without(groups, g)|
    ensures var x, k := Without(groups, g)[i], OldPlace(groups, g, i);
      (x == Hole && g <= i < g + |SlotsOf(groups[g])|) ||
        ((i < g || i >= g + |SlotsOf(groups[g])|) && 0 <= k < |groups| && x == groups[k])
  {
    hide GroupOk, SlotsOf;
    ThreeParts(groups[..g], Holes(|SlotsOf(groups[g])|), groups[g + 1..], i);
  }

  lemma ThreeParts(a: seq<Group>, m: seq<Group>, b: seq<Group>, i: nat)
    requires i < |a| + |m| + |b|
    ensures (a + m + b)[i] == if i < |a| then a[i] else if i < |a| + |m| then m[i - |a|] else b[i - |a| - |m|]
  {
  }

  lemma HoleKeeps(g: Group)
    requires GroupOk(g)
    ensures GroupOk(Hole) && Neat(Hole) && Apart(Hole, g) && Apart(g, Hole)
  {
  }

  lemma WithoutKeeps(groups: seq<Group>, g: nat)
    requires AllOk(groups) && g < |groups|
    ensures AllOk(Without(groups, g)) && Keeps(groups, Without(groups, g))
  {
    hide GroupOk, Neat, Apart, Without, SlotsOf;
    var now := Without(groups, g);
    HoleKeeps(groups[g]);
    forall i | 0 <= i < |now| ensures GroupOk(now[i]) { Stays(groups, g, i); }
    if Distinct(groups) {
      forall i, j | 0 <= i < j < |now| && now[i].File? && now[j].File? ensures now[i].entry.raw != now[j].entry.raw {
        Stays(groups, g, i);
        Stays(groups, g, j);
      }
    }
    if Ours(groups) {
      forall i | 0 <= i < |now| ensures Neat(now[i]) { Stays(groups, g, i); }
      forall i, j | 0 <= i < |now| && 0 <= j < |now| && i != j ensures Apart(now[i], now[j]) {
        Stays(groups, g, i);
        Stays(groups, g, j);
        HoleKeeps(now[i]);
        HoleKeeps(now[j]);
      }
    }
  }

  // ----- the listing -----

  /** The group of an item. */
  lemma {:induction false} GroupOf(groups: seq<Group>, k: nat) returns (g: nat)
    requires AllOk(groups) && k < |Items(groups)|
    ensures g < |groups| && groups[g].File? && AllOk(groups[..g]) && |Items(groups[..g])| == k &&
      Items(groups)[k] == ItemOf(groups[g], At(groups, g))
    decreases |groups|
  {
    hide GroupOk, ItemOf, SlotsOf;
    var n := |groups| - 1;
    if k < |Items(groups[..n])| {
      g := GroupOf(groups[..n], k);
      assert groups[..n][..g] == groups[..g];
    } else {
      g := n;
    }
  }

  /** One item more, all others in their places. */
  ghost predicate Gains(before: seq<Item>, after: seq<Item>, item: Item) {
    exists k :: 0 <= k <= |before| && after == before[..k] + [item] + before[k..]
  }

  lemma GainsOne(before: seq<Item>, after: seq<Item>, item: Item)
    requires Gains(before, after, item)
    ensures multiset(after) == multiset(before) + multiset{item}
  {
    var k :| 0 <= k <= |before| && after == before[..k] + [item] + before[k..];
    assert before == before[..k] + before[k..];
  }

  /** No name is answered by two items. */
  ghost predicate Unambiguous(items: seq<Item>) {
    forall a, b, name :: 0 <= a < b < |items| ==> !(Answers(items[a], name) && Answers(items[b], name))
  }

  lemma ToldApart(groups: seq<Group>)
    requires AllOk(groups) && Ours(groups) && Distinct(groups)
    ensures Unambiguous(Items(groups))
  {
    hide GroupOk, Items, ItemOf, At, Ours, Distinct, Answers;
    var items := Items(groups);
    forall a, b, name | 0 <= a < b < |items| ensures !(Answers(items[a], name) && Answers(items[b], name)) {
      var g := GroupOf(groups, a);
      var h := GroupOf(groups, b);
      NotBoth(groups, g, h, name, At(groups, g), At(groups, h));
    }
  }

  /** Once the item that answers a name has left, the name is free. */
  lemma Freed(before: seq<Item>, after: seq<Item>, item: Item, name: Bytes)
    requires Unambiguous(before) && Gains(after, before, item) && Answers(item, name)
    ensures forall i :: 0 <= i < |after| ==> !Answers(after[i], name)
  {
    hide Answers;
    var k :| 0 <= k <= |after| && before == after[..k] + [item] + after[k..];
    forall i | 0 <= i < |after| ensures !Answers(after[i], name) {
      assert before[k] == item;
      if i < k { assert before[i] == after[i]; } else { assert before[i + 1] == after[i]; }
    }
  }
}
