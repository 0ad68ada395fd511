/** A FAT32 directory as a sequence of 32-byte slots, and the listing it stands
    for (sections 6 and 7 of the Microsoft FAT Specification). */
module Listing {
  import opened Unicode
  import opened Names

  /** One slot: the end mark, a deleted one, part of a long name, a volume label, the
      entries for the directory itself and its parent, or an 8.3 entry. */
  datatype Slot =
    | End
    | Deleted
    | Long(ordinal: nat, clean: bool, sum: nat, units: Units)
    | Label(raw: Bytes)
    | Dots(raw: Bytes)
    | Short(entry: Entry)

  /** The fields of an 8.3 entry that matter here. */
  datatype Entry = Entry(raw: Bytes, lowBase: bool, lowExt: bool, attr: nat, first: nat, size: nat)

  /** What the slots say when they are in order. */
  datatype Group = Hole | Mark(slot: Slot) | File(longs: seq<Units>, entry: Entry)

  /** A directory shows no size. */
  function Size(e: Entry): nat { if e.attr / 16 % 2 == 1 then 0 else e.size }

  datatype Item = Item(name: Bytes, shortName: Bytes, attr: nat, first: nat, size: nat, pos: nat)

  /** short_checksum. */
  function Checksum(raw: Bytes): nat {
    if raw == [] then 0
    else
      var sum := Checksum(raw[..|raw| - 1]);
      (sum % 2 * 128 + sum / 2 + raw[|raw| - 1]) % 256
  }

  /** One bit to the right, the lowest bit coming in at the top. */
  function Rotated(s: nat): nat { s % 2 * 128 + s / 2 }

  predicate AllBytes(raw: Bytes) { forall i :: 0 <= i < |raw| ==> raw[i] < 256 }

  lemma ChecksumByte(raw: Bytes)
    ensures Checksum(raw) < 256
  {
  }

  lemma ChecksumNone()
    ensures Checksum([]) == 0
  {
  }

  lemma ChecksumNext(raw: Bytes, x: nat)
    ensures Checksum(raw + [x]) == (Rotated(Checksum(raw)) + x) % 256
  {
    assert (raw + [x])[..|raw|] == raw;
  }

  lemma RotatedApart(s: nat, t: nat, x: nat)
    requires s < 256 && t < 256 && (Rotated(s) + x) % 256 == (Rotated(t) + x) % 256
    ensures s == t
  {
  }

  /** A single wrong character always shows. */
  lemma {:induction false} OneCharacter(raw: Bytes, i: nat, c: nat)
    requires AllBytes(raw) && i < |raw| && c < 256 && c != raw[i]
    ensures Checksum(raw[i := c]) != Checksum(raw)
  {
    hide Checksum, Rotated;
    var n := |raw| - 1;
    var init, last := raw[..n], raw[n];
    assert raw == init + [last];
    ChecksumNext(init, last);
    if i < n {
      OneCharacter(init, i, c);
      assert raw[i := c] == init[i := c] + [last];
      ChecksumNext(init[i := c], last);
      ChecksumByte(init);
      ChecksumByte(init[i := c]);
      if Checksum(raw[i := c]) == Checksum(raw) { RotatedApart(Checksum(init), Checksum(init[i := c]), last); }
    } else {
      assert raw[i := c] == init + [c];
      ChecksumNext(init, c);
    }
  }

  /** Two swapped characters show, unless what they bring the sum to is 0 and 255. */
  lemma SwappedCharacters(raw: Bytes, x: nat, y: nat)
    requires x < 256 && y < 256 && x != y
    ensures var t := Rotated(Checksum(raw));
      Checksum(raw + [x, y]) == Checksum(raw + [y, x]) <==> {(t + x) % 256, (t + y) % 256} == {0, 255}
  {
    hide Checksum;
    var t := Rotated(Checksum(raw));
    ChecksumTwo(raw, x, y);
    ChecksumTwo(raw, y, x);
    SwapLaw(t, x, y);
    var a, b := (t + x) % 256, (t + y) % 256;
    assert {a, b} == {0, 255} <==> (a == 0 && b == 255) || (a == 255 && b == 0) by {
      assert a in {a, b} && b in {a, b} && 0 in {0, 255} && 255 in {0, 255};
    }
  }

  lemma ChecksumTwo(raw: Bytes, x: nat, y: nat)
    ensures Checksum(raw + [x, y]) == (Rotated((Rotated(Checksum(raw)) + x) % 256) + y) % 256
  {
    hide Checksum, Rotated;
    assert raw + [x, y] == raw + [x] + [y];
    ChecksumNext(raw, x);
    ChecksumNext(raw + [x], y);
  }

  lemma SwapLaw(t: nat, x: nat, y: nat)
    requires x < 256 && y < 256 && x != y
    ensures var a, b := (t + x) % 256, (t + y) % 256;
      (Rotated(a) + y) % 256 == (Rotated(b) + x) % 256 <==> (a == 0 && b == 255) || (a == 255 && b == 0)
  {
    var a, b, p, q := (t + x) % 256, (t + y) % 256, (t + x) / 256, (t + y) / 256;
    Halves(a);
    Halves(b);
    assert t + x == 256 * p + a && t + y == 256 * q + b;
    SwapParts(x, y, a / 2, a % 2, b / 2, b % 2, q - p);
  }

  lemma Halves(a: nat)
    requires a < 256
    ensures a == 2 * (a / 2) + a % 2 && a / 2 < 128 && 0 <= a % 2 <= 1 && Rotated(a) == 128 * (a % 2) + a / 2
  {
  }

  lemma SwapParts(x: nat, y: nat, m: nat, e: nat, k: nat, f: nat, z: int)
    requires x < 256 && y < 256 && x != y && m < 128 && k < 128 && e <= 1 && f <= 1
    requires y - x == (2 * k + f) - (2 * m + e) + 256 * z
    ensures (128 * e + m + y) % 256 == (128 * f + k + x) % 256 <==>
      (m == e == 0 && k == 127 && f == 1) || (m == 127 && e == 1 && k == f == 0)
  {
    SameRest(128 * e + m + y, 128 * f + k + x, 127 * (e - f) + (k - m), z);
  }

  /** A difference up to a multiple of 256, itself smaller than 256. */
  lemma SameRest(u: nat, v: nat, d: int, z: int)
    requires u - v == d + 256 * z && -256 < d < 256
    ensures u % 256 == v % 256 <==> d == 0
  {
    var r, s := u % 256, v % 256;
    assert u == 256 * (u / 256) + r && v == 256 * (v / 256) + s;
  }

  /** The 8.3 form README~1.TXT. */
  const README_1: Bytes := [0x52, 0x45, 0x41, 0x44, 0x4D, 0x45, 0x7E, 0x31, 0x54, 0x58, 0x54]

  lemma KnownChecksum()
    ensures Checksum(README_1) == 0x6B
  {
    hide Checksum;
    var r := README_1;
    assert r[..0] == [] && r[..11] == r;
    ChecksumNone();
    ChecksumOf(r, 1, 0);
    ChecksumOf(r, 2, 0x52);
    ChecksumOf(r, 3, 0x6E);
    ChecksumOf(r, 4, 0x78);
    ChecksumOf(r, 5, 0x80);
    ChecksumOf(r, 6, 0x8D);
    ChecksumOf(r, 7, 0x0B);
    ChecksumOf(r, 8, 0x03);
    ChecksumOf(r, 9, 0xB2);
    ChecksumOf(r, 10, 0xAD);
    ChecksumOf(r, 11, 0x2E);
  }

  lemma ChecksumOf(raw: Bytes, n: nat, before: nat)
    requires 0 < n <= |raw| && Checksum(raw[..n - 1]) == before
    ensures Checksum(raw[..n]) == (Rotated(before) + raw[n - 1]) % 256
  {
    assert raw[..n] == raw[..n - 1] + [raw[n - 1]];
    ChecksumNext(raw[..n - 1], raw[n - 1]);
  }

  /** Long name slot k of n, in the order on the disk: the last part comes first. */
  function LongSlot(longs: seq<Units>, sum: nat, k: nat): Slot
    requires k < |longs|
  {
    Long(|longs| - k + (if k == 0 then 64 else 0), true, sum, longs[|longs| - 1 - k])
  }

  function LongSlots(longs: seq<Units>, sum: nat): (s: seq<Slot>)
    ensures |s| == |longs| && forall k :: 0 <= k < |longs| ==> s[k] == LongSlot(longs, sum, k)
  {
    seq(|longs|, k requires 0 <= k < |longs| => LongSlot(longs, sum, k))
  }

  ghost predicate GroupOk(g: Group) {
    match g
    case Hole => true
    case Mark(slot) => slot.Label? || slot.Dots?
    case File(longs, entry) =>
      |entry.raw| == 11 && |longs| <= SLOTS && forall i :: 0 <= i < |longs| ==>
        |longs[i]| == PER_SLOT && Words(longs[i])
  }

  ghost function SlotsOf(g: Group): (s: seq<Slot>)
    requires GroupOk(g)
    ensures |s| > 0
  {
    match g
    case Hole => [Deleted]
    case Mark(slot) => [slot]
    case File(longs, entry) => LongSlots(longs, Checksum(entry.raw)) + [Short(entry)]
  }

  ghost predicate AllOk(groups: seq<Group>) { forall i :: 0 <= i < |groups| ==> GroupOk(groups[i]) }

  ghost function Flat(groups: seq<Group>): seq<Slot>
    requires AllOk(groups)
  {
    if groups == [] then [] else Flat(groups[..|groups| - 1]) + SlotsOf(groups[|groups| - 1])
  }

  lemma {:induction false} FlatConcat(a: seq<Group>, b: seq<Group>)
    requires AllOk(a) && AllOk(b)
    ensures AllOk(a + b) && Flat(a + b) == Flat(a) + Flat(b)
    decreases |b|
  {
    hide GroupOk, SlotsOf;
    if b == [] {
      assert a + b == a;
    } else {
      FlatConcat(a, b[..|b| - 1]);
      assert (a + b)[..|a + b| - 1] == a + b[..|b| - 1];
    }
  }

  /** Where a group starts. */
  ghost function At(groups: seq<Group>, g: nat): nat
    requires AllOk(groups) && g <= |groups|
  {
    |Flat(groups[..g])|
  }

  lemma FlatAt(groups: seq<Group>, g: nat)
    requires AllOk(groups) && g < |groups|
    ensures AllOk(groups[..g]) && At(groups, g + 1) == At(groups, g) + |SlotsOf(groups[g])| <= |Flat(groups)|
    ensures Flat(groups)[At(groups, g)..At(groups, g + 1)] == SlotsOf(groups[g])
  {
    hide GroupOk, SlotsOf;
    var a, b := groups[..g + 1], groups[g + 1..];
    assert groups == a + b && a[..g] == groups[..g];
    FlatConcat(a, b);
  }

  lemma SlotAt(groups: seq<Group>, g: nat, k: nat)
    requires AllOk(groups) && g < |groups| && k < |SlotsOf(groups[g])|
    ensures At(groups, g) + k < |Flat(groups)| && Flat(groups)[At(groups, g) + k] == SlotsOf(groups[g])[k]
  {
    hide GroupOk, SlotsOf;
    FlatAt(groups, g);
    assert Flat(groups)[At(groups, g)..At(groups, g + 1)][k] == Flat(groups)[At(groups, g) + k];
  }

  lemma AtEnds(groups: seq<Group>)
    requires AllOk(groups)
    ensures At(groups, 0) == 0 && At(groups, |groups|) == |Flat(groups)|
  {
    assert groups[..|groups|] == groups;
  }

  // ----- names -----

  ghost function Joined(longs: seq<Units>): Units {
    if longs == [] then [] else Joined(longs[..|longs| - 1]) + longs[|longs| - 1]
  }

  lemma {:induction false} JoinedAt(longs: seq<Units>)
    requires forall i :: 0 <= i < |longs| ==> |longs[i]| == PER_SLOT && Words(longs[i])
    ensures |Joined(longs)| == |longs| * PER_SLOT && Words(Joined(longs))
    ensures forall i, j :: 0 <= i < |longs| && 0 <= j < PER_SLOT ==> Joined(longs)[i * PER_SLOT + j] == longs[i][j]
  {
    if longs != [] {
      var n := |longs| - 1;
      var init, last := longs[..n], longs[n];
      assert Joined(longs) == Joined(init) + last;
      hide Joined;
      assert forall i :: 0 <= i < n ==> init[i] == longs[i];
      JoinedAt(init);
      forall i, j | 0 <= i < |longs| && 0 <= j < PER_SLOT ensures Joined(longs)[i * PER_SLOT + j] == longs[i][j] {
        if i < n { assert Joined(init)[i * PER_SLOT + j] == init[i][j]; }
      }
    }
  }

  /** The long name in the slots, if it can be shown. */
  ghost function LongText(longs: seq<Units>): Bytes
    requires Words(Joined(longs))
  {
    var cps := Points16(Joined(longs));
    if cps != [] && |Utf8(cps)| < NAME_MAX + 1 then Utf8(cps) else []
  }

  ghost function NameOf(g: Group): Bytes
    requires GroupOk(g) && g.File?
  {
    JoinedAt(g.longs);
    if LongText(g.longs) != [] then LongText(g.longs) else Display(g.entry.raw, g.entry.lowBase, g.entry.lowExt)
  }

  ghost function ItemOf(g: Group, pos: nat): Item
    requires GroupOk(g) && g.File?
  {
    Item(NameOf(g), ShortText(g.entry.raw), g.entry.attr, g.entry.first, Size(g.entry), pos + |g.longs|)
  }

  /** The listing, each entry with the position of its 8.3 slot. */
  ghost function Items(groups: seq<Group>): seq<Item>
    requires AllOk(groups)
  {
    if groups == [] then []
    else
      var n := |groups| - 1;
      if groups[n].File? then Items(groups[..n]) + [ItemOf(groups[n], |Flat(groups[..n])|)] else Items(groups[..n])
  }

  /** The entries of further groups, placed behind so many slots. */
  ghost function ItemsFrom(groups: seq<Group>, base: nat): seq<Item>
    requires AllOk(groups)
  {
    if groups == [] then []
    else
      var n := |groups| - 1;
      if groups[n].File? then ItemsFrom(groups[..n], base) + [ItemOf(groups[n], base + |Flat(groups[..n])|)]
      else ItemsFrom(groups[..n], base)
  }

  lemma {:induction false} ItemsConcat(a: seq<Group>, b: seq<Group>)
    requires AllOk(a) && AllOk(b)
    ensures AllOk(a + b) && Items(a + b) == Items(a) + ItemsFrom(b, |Flat(a)|)
    decreases |b|
  {
    hide GroupOk, SlotsOf, ItemOf;
    if b == [] {
      assert a + b == a && Items(a) + [] == Items(a);
    } else {
      var n := |b| - 1;
      ItemsConcat(a, b[..n]);
      FlatConcat(a, b[..n]);
      assert (a + b)[..|a| + n] == a + b[..n] && (a + b)[|a| + n] == b[n];
      if b[n].File? {
        assert Items(a) + ItemsFrom(b[..n], |Flat(a)|) + [ItemOf(b[n], |Flat(a + b[..n])|)] ==
          Items(a) + (ItemsFrom(b[..n], |Flat(a)|) + [ItemOf(b[n], |Flat(a)| + |Flat(b[..n])|)]);
      }
    }
  }

  /** A directory in order: groups, then nothing but end marks. */
  ghost predicate WellFormed(slots: seq<Slot>, groups: seq<Group>) {
    && AllOk(groups) && |Flat(groups)| <= |slots| && slots[..|Flat(groups)|] == Flat(groups)
    && forall i :: |Flat(groups)| <= i < |slots| ==> slots[i] == End
  }

  lemma SlotIn(slots: seq<Slot>, groups: seq<Group>, g: nat, k: nat)
    requires WellFormed(slots, groups) && g < |groups| && k < |SlotsOf(groups[g])|
    ensures At(groups, g) + k < |Flat(groups)| <= |slots| && slots[At(groups, g) + k] == SlotsOf(groups[g])[k]
  {
    hide GroupOk, SlotsOf;
    SlotAt(groups, g, k);
    assert slots[..|Flat(groups)|][At(groups, g) + k] == slots[At(groups, g) + k];
  }

  // ----- replacing groups -----

  lemma FlatThree(a: seq<Group>, m: seq<Group>, b: seq<Group>)
    requires AllOk(a) && AllOk(m) && AllOk(b)
    ensures AllOk(a + m + b) && Flat(a + m + b) == Flat(a) + Flat(m) + Flat(b)
  {
    hide GroupOk, SlotsOf, Flat;
    FlatConcat(a, m);
    FlatConcat(a + m, b);
  }

  lemma ItemsThree(a: seq<Group>, m: seq<Group>, b: seq<Group>)
    requires AllOk(a) && AllOk(m) && AllOk(b)
    ensures AllOk(a + m + b)
    ensures Items(a + m + b) == Items(a) + ItemsFrom(m, |Flat(a)|) + ItemsFrom(b, |Flat(a)| + |Flat(m)|)
  {
    hide GroupOk, SlotsOf, Flat, Items, ItemsFrom;
    FlatConcat(a, m);
    ItemsConcat(a, m);
    ItemsConcat(a + m, b);
  }

  /** Groups replaced by others of the same length, in place. */
  lemma ReplaceSlots(slots: seq<Slot>, a: seq<Group>, m: seq<Group>, b: seq<Group>, now: seq<Group>, after: seq<Slot>)
    requires AllOk(a) && AllOk(m) && AllOk(b) && AllOk(now) && WellFormed(slots, a + m + b)
    requires |after| == |slots| && |Flat(now)| == |Flat(m)| && |Flat(a)| + |Flat(m)| <= |slots|
    requires after[|Flat(a)|..|Flat(a)| + |Flat(now)|] == Flat(now)
    requires after[..|Flat(a)|] == slots[..|Flat(a)|]
    requires after[|Flat(a)| + |Flat(m)|..] == slots[|Flat(a)| + |Flat(m)|..]
    ensures WellFormed(after, a + now + b)
  {
    hide GroupOk, SlotsOf, Flat;
    FlatThree(a, m, b);
    FlatThree(a, now, b);
    Patched(slots, after, Flat(a), Flat(m), Flat(b), Flat(now));
  }

  lemma Patched(slots: seq<Slot>, after: seq<Slot>, x: seq<Slot>, y: seq<Slot>, z: seq<Slot>, now: seq<Slot>)
    requires |x + y + z| <= |slots| == |after| && slots[..|x + y + z|] == x + y + z && |now| == |y|
    requires after[..|x|] == slots[..|x|] && after[|x|..|x| + |y|] == now && after[|x| + |y|..] == slots[|x| + |y|..]
    ensures after[..|x + y + z|] == x + now + z
    ensures forall i :: |x + y + z| <= i < |slots| ==> after[i] == slots[i]
  {
    var q, n := |x| + |y|, |x + y + z|;
    Pieces(slots, x, y, z);
    assert after[q..n] == after[q..][..n - q] == z;
    assert after[..n] == after[..|x|] + after[|x|..q] + after[q..n];
    forall i | n <= i < |slots| ensures after[i] == slots[i] { assert after[q..][i - q] == slots[q..][i - q]; }
  }

  lemma Pieces(slots: seq<Slot>, x: seq<Slot>, y: seq<Slot>, z: seq<Slot>)
    requires |x + y + z| <= |slots| && slots[..|x + y + z|] == x + y + z
    ensures slots[..|x|] == x && slots[|x|..|x| + |y|] == y && slots[|x| + |y|..][..|z|] == z
  {
    var n := |x + y + z|;
    assert slots[..|x|] == slots[..n][..|x|];
    assert slots[|x|..|x| + |y|] == slots[..n][|x|..|x| + |y|];
    assert slots[|x| + |y|..][..|z|] == slots[..n][|x| + |y|..];
  }
}
