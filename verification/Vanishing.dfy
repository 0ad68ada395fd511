/** A directory in which renaming a file to its own name in another case loses the file:
    sixteen slots, all in use, on a volume without a free cluster. The new name needs a
    long name slot, the old one has none to give. */
module Vanishing {
  import opened Unicode
  import opened Names
  import opened Listing
  import opened Entries
  import opened Rooms
  import opened Directory
  import opened Catalog

  /** a.txt */
  const OLD: Bytes := [0x61, 0x2E, 0x74, 0x78, 0x74]
  /** A.tXt */
  const NEW: Bytes := [0x41, 0x2E, 0x74, 0x58, 0x74]

  function RawOf(base: Bytes, ext: Bytes): (raw: Bytes)
    requires |base| <= 8 && |ext| <= 3
    ensures |raw| == 11
  {
    Pad(base, 8) + Pad(ext, 3)
  }

  const TXT: Bytes := [0x54, 0x58, 0x54]

  function Wanted(): Group { File([], Entry(RawOf([0x41], TXT), true, true, 0x20, 5, 7)) }

  /** A file with one capital as its name. */
  function Other(c: nat): Group { File([], Entry(RawOf([c], []), false, false, 0x20, c, 1)) }

  function Full(): (groups: seq<Group>)
    ensures |groups| == 16
  {
    [Mark(Dots(Pad([DOT], 11))), Mark(Dots(Pad([DOT, DOT], 11))), Wanted()] +
      seq<Group>(13, (k: nat) => Other(0x42 + k))
  }

  // ----- names -----

  lemma Letters()
    ensures forall c :: 0x41 <= c <= 0x5A ==> ShortOk(c) && IsUpper(c) && !IsLower(c) && Up(c) == c
    ensures forall c :: 0x61 <= c <= 0x7A ==> IsLower(c) && !IsUpper(c) && Up(c) == c - 32
    ensures Up(DOT) == DOT
  {
  }

  lemma OldName()
    ensures CleanRaw(RawOf([0x41], TXT)) && ShortText(RawOf([0x41], TXT)) == UpAll(OLD)
    ensures Display(RawOf([0x41], TXT), true, true) == OLD
  {
    hide ShortOk, Trim, Display, ShortText, Pad, Unescaped, Shows, EightThree, IsLower, IsUpper, Up;
    Letters();
    var b, x := [0x61], [0x74, 0x78, 0x74];
    assert UpAll(b) == [0x41] && UpAll(x) == TXT;
    assert OLD == b + ([DOT] + x);
    assert IsLower(b[0]) && IsLower(x[0]) && NoUpper(b) && NoUpper(x);
    Finish(OLD, b, x, true, [0x41], TXT, true, false, true, false);
    Packed([0x41], TXT);
  }

  lemma NewName()
    ensures Nameable(NEW) && EightThree(NEW) && Needed(NEW) == 2
  {
    hide ShortOk, Trim, Display, ShortText, Pad, Unescaped, Shows, EightThree, CleanRaw, IsLower, IsUpper, Up;
    hide UnitCount, RawForm, Nameable;
    Letters();
    var b, x := [0x41], [0x74, 0x58, 0x74];
    assert UpAll(b) == [0x41] && UpAll(x) == TXT;
    assert NEW == b + ([DOT] + x);
    assert IsUpper(b[0]) && IsLower(x[0]) && IsUpper(x[1]) && NoLower(b);
    Finish(NEW, b, x, true, [0x41], TXT, false, true, true, true);
    NewForm();
    NewNameable();
  }

  lemma NewForm()
    ensures RawForm(NEW) == RawOf([0x41], TXT) && UnitCount(NEW) == 5
  {
    hide ShortOk, Pad, Up, IsLower, IsUpper;
    Letters();
    assert LastDot(NEW, 0, 2) == 1 && LastDot(NEW, 0, 3) == 1 && LastDot(NEW, 0, 4) == 1 && LastDot(NEW, 0, 5) == 1;
    assert NEW[0..1] == [] + [0x41] && NEW[2..] == [] + [0x74] + [0x58] + [0x74];
    ConvertedOne([], 0x41);
    ConvertedOne([], 0x74);
    ConvertedOne([] + [0x74], 0x58);
    ConvertedOne([] + [0x74] + [0x58], 0x74);
    assert NEW == [] + [0x41] + [0x2E] + [0x74] + [0x58] + [0x74];
    UnitOne([], 0x41);
    UnitOne([] + [0x41], 0x2E);
    UnitOne([] + [0x41] + [0x2E], 0x74);
    UnitOne([] + [0x41] + [0x2E] + [0x74], 0x58);
    UnitOne([] + [0x41] + [0x2E] + [0x74] + [0x58], 0x74);
  }

  lemma ConvertedOne(s: Bytes, c: nat)
    requires c != SPACE && c != DOT && ShortOk(Up(c))
    ensures Converted(s + [c]) == Converted(s) + [Up(c)]
  {
    assert (s + [c])[..|s|] == s;
  }

  lemma NewNameable()
    ensures Nameable(NEW)
  {
    hide Utf8;
    Ascii(NEW);
  }

  lemma {:induction false} Ascii(s: Bytes)
    requires forall i :: 0 <= i < |s| ==> s[i] < 0x80
    ensures AllScalar(s) && Utf8(s) == s
  {
    if s != [] {
      Ascii(s[..|s| - 1]);
      assert s == s[..|s| - 1] + [s[|s| - 1]];
    }
  }

  lemma OtherName(c: nat)
    requires 0x41 <= c <= 0x5A
    ensures CleanRaw(RawOf([c], [])) && ShortText(RawOf([c], [])) == [c] && Display(RawOf([c], []), false, false) == [c]
  {
    hide ShortOk, Trim, Display, ShortText, Pad, Unescaped, Shows, EightThree, IsLower, IsUpper, Up;
    Letters();
    assert UpAll([c]) == [c] && UpAll([]) == [];
    assert [c] + [] == [c] && IsUpper([c][0]) && NoLower([c]);
    Finish([c], [c], [], false, [c], [], false, true, false, false);
    Packed([c], []);
  }

  // ----- the directory -----

  lemma {:induction false} OneSlotEach(groups: seq<Group>)
    requires AllOk(groups) && forall i :: 0 <= i < |groups| ==> |SlotsOf(groups[i])| == 1
    ensures |Flat(groups)| == |groups| && forall i :: 0 <= i < |groups| ==> Flat(groups)[i] == SlotsOf(groups[i])[0]
  {
    hide GroupOk, SlotsOf;
    if groups != [] { OneSlotEach(groups[..|groups| - 1]); }
  }

  lemma Kinds(i: nat)
    requires i < 16
    ensures GroupOk(Full()[i]) && |SlotsOf(Full()[i])| == 1 && !Free(SlotsOf(Full()[i])[0])
    ensures !SlotsOf(Full()[i])[0].Long?
    ensures i < 2 ==> !Full()[i].File?
    ensures i == 2 ==> Full()[i] == Wanted()
    ensures 2 < i ==> Full()[i] == Other(0x3F + i)
  {
    hide Pad, Checksum;
  }

  lemma InOrder()
    ensures AllOk(Full()) && WellFormed(Flat(Full()), Full()) && |Flat(Full())| == 16
    ensures forall i :: 0 <= i < 16 ==> !Free(Flat(Full())[i]) && !Flat(Full())[i].Long?
  {
    hide GroupOk, SlotsOf, Flat, Full, Free;
    forall i | 0 <= i < 16 ensures GroupOk(Full()[i]) && |SlotsOf(Full()[i])| == 1 && !Free(SlotsOf(Full()[i])[0]) &&
      !SlotsOf(Full()[i])[0].Long? {
      Kinds(i);
    }
    OneSlotEach(Full());
  }

  /** What the file in a slot shows, and its 8.3 name. */
  lemma Shown(i: nat)
    requires 2 <= i < 16
    ensures Full()[i].File? && GroupOk(Full()[i]) && CleanRaw(Full()[i].entry.raw)
    ensures NameOf(Full()[i]) == (if i == 2 then OLD else [0x3F + i])
    ensures ShortText(Full()[i].entry.raw) == UpAll(NameOf(Full()[i]))
    ensures Full()[i].entry.raw[0] == 0x3F + i
  {
    hide GroupOk, Full, ShortText, Display, CleanRaw;
    Kinds(i);
    if i == 2 {
      OldName();
    } else {
      OtherName(0x3F + i);
      Letters();
      assert UpAll([0x3F + i]) == [0x3F + i];
    }
  }

  /** Every entry is as this driver makes it, and no two are alike. */
  lemma AllTidy()
    requires AllOk(Full())
    ensures Tidy(Full())
  {
    hide GroupOk, Full, ShortText, NameOf, CleanRaw, EightThree, UpAll, SameName, Neat, Apart;
    var g := Full();
    forall i | 0 <= i < 16 ensures Neat(g[i]) {
      if i < 2 { Kinds(i); NeatMark(g[i]); } else { Shown(i); NeatFile(g[i]); }
    }
    forall i, j | 0 <= i < 16 && 0 <= j < 16 && i != j ensures Apart(g[i], g[j]) {
      if i < 2 { Kinds(i); }
      if j < 2 { Kinds(j); }
      if i < 2 || j < 2 {
        ApartMark(g[i], g[j]);
      } else {
        Shown(i);
        Shown(j);
        ApartFiles(g[i], g[j], i, j);
      }
    }
    forall i, j | 0 <= i < j < 16 && g[i].File? && g[j].File? ensures g[i].entry.raw != g[j].entry.raw {
      if i < 2 { Kinds(i); } else { Shown(i); Shown(j); }
    }
  }

  lemma NeatMark(g: Group)
    requires GroupOk(g) && !g.File?
    ensures Neat(g)
  {
  }

  lemma NeatFile(g: Group)
    requires GroupOk(g) && g.File? && CleanRaw(g.entry.raw) && ShortText(g.entry.raw) == UpAll(NameOf(g))
    ensures Neat(g)
  {
  }

  lemma ApartMark(a: Group, b: Group)
    requires GroupOk(a) && GroupOk(b) && (!a.File? || !b.File?)
    ensures Apart(a, b)
  {
  }

  lemma ApartFiles(a: Group, b: Group, i: nat, j: nat)
    requires GroupOk(a) && GroupOk(b) && a.File? && b.File? && 2 <= i < 16 && 2 <= j < 16 && i != j
    requires |b.entry.raw| == 11
    requires NameOf(a) == (if i == 2 then OLD else [0x3F + i]) && NameOf(b) == if j == 2 then OLD else [0x3F + j]
    requires ShortText(b.entry.raw) == UpAll(NameOf(b))
    ensures Apart(a, b)
  {
    hide NameOf, ShortText;
    InCapitals(NameOf(a), NameOf(b));
    InCapitals(NameOf(a), UpAll(NameOf(b)));
    Letters();
    var x, y := NameOf(a), NameOf(b);
    if |x| == |y| {
      assert UpAll(x)[0] != UpAll(y)[0] && UpAll(UpAll(y))[0] == UpAll(y)[0];
    }
  }

  function It(): Item { Item(OLD, UpAll(OLD), 0x20, 5, 7, 2) }

  /** The listing begins with the file, and it answers both names. */
  lemma FirstListed()
    requires AllOk(Full())
    ensures Lookup(Items(Full()), OLD) == Found(It()) && Lookup(Items(Full()), NEW) == Found(It())
  {
    hide GroupOk, SlotsOf, Full, Pad, ShortText, Display, UpAll, Lookup, Answers, At, Flat, Items;
    var g := Full();
    Kinds(0);
    Kinds(1);
    Kinds(2);
    Beginning(g);
    OneMore(g, 0, 2);
    Second(g);
    WantedItem(At(g, 2));
    BothAnswer();
    FirstAnswer(g, 2, [], OLD);
    FirstAnswer(g, 2, [], NEW);
  }

  lemma Second(g: seq<Group>)
    requires AllOk(g) && |g| > 2 && |SlotsOf(g[0])| == |SlotsOf(g[1])| == 1
    ensures At(g, 2) == 2
  {
    hide GroupOk, SlotsOf, Flat, At;
    AtEnds(g);
    FlatAt(g, 0);
    FlatAt(g, 1);
  }

  lemma WantedItem(pos: nat)
    requires pos == 2
    ensures GroupOk(Wanted()) && ItemOf(Wanted(), pos) == It()
  {
    hide Pad, ShortText, Display, UpAll, CleanRaw;
    OldName();
  }

  lemma BothAnswer()
    ensures Answers(It(), OLD) && Answers(It(), NEW)
  {
    hide UpAll;
  }

  /** The file is there under its name; nothing is in the way of the rename; it fails for
      want of a slot, and the file is gone. */
  lemma CaseChangeLoses(d: Directory)
    requires d.perCluster == 16 && forall n :: !d.grants(n)
    ensures AllOk(Full()) && WellFormed(Flat(Full()), Full()) && Clusters(|Flat(Full())|, 16) && Tidy(Full())
    ensures var v := View(Flat(Full()), Items(Full()), 0);
      && It() in v.items && It().name == OLD
      && Loses(d, v, OLD, NEW, false, false, false)
      && RenameCode(d, v, OLD, NEW, false, false, false) == ENOSPC
      && RenameLost(d, v, OLD, NEW, false, false, false) == multiset{It()}
  {
    hide Flat, Full, Items, Lookup, Nameable, EightThree, Needed, Cleared;
    hide Free, GroupOk, Crowded, Grantable, ClusterCount, Trailing, HasRun, Ours, Distinct;
    InOrder();
    AllTidy();
    FirstListed();
    NewName();
    NotCrowded(Cleared(Flat(Full()), 2), NEW);
    NoRoom(d, Flat(Full()));
    assert Clusters(16, 16) by { assert Clusters(0, 16); }
  }

  lemma NoRoom(d: Directory, slots: seq<Slot>)
    requires d.perCluster == 16 && (forall n :: !d.grants(n)) && |slots| == 16
    requires forall i :: 0 <= i < 16 ==> !Free(slots[i]) && !slots[i].Long?
    ensures !d.Room(Cleared(slots, 2), 2, 0)
  {
    hide ClusterCount;
    var c := Cleared(slots, 2);
    assert LongStart(slots, 2) == 2;
    assert c[0] == slots[0] && c[1] == slots[1] && forall i :: 3 <= i < 16 ==> c[i] == slots[i];
    forall s: nat ensures !RunAt(c, s, 2) {
      if s + 2 <= 16 { assert !Free(c[if s == 2 then 3 else s]); }
    }
  }
}
