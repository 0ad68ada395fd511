/** File names on a FAT32 volume (sections 6 and 7 of the Microsoft FAT
    Specification): slots of long names, and the 8.3 form with the case bits. */
module Names {
  import opened Unicode

  const DOT := 0x2E
  const SPACE := 0x20
  const NAME_MAX := 255
  const PER_SLOT := 13
  const SLOTS := 20

  // ----- long names -----

  /** name_units: the names a file may have, as UTF-16. */
  method NameUnits(name: Bytes) returns (r: int, units: Units, ghost cps: Points)
    ensures r >= 0 ==>
      && Proper(name) && AllAllowed(cps) && AllScalar(cps) && name == Utf8(cps) && units == Utf16(cps)
      && r == |units| <= 255
    ensures r < 0 ==> r == if |name| > NAME_MAX then ENAMETOOLONG else EINVAL
    ensures r >= 0 <==> Nameable(name)
  {
    hide Utf8, Utf16;
    units, cps := [], [];
    if name == [] { return EINVAL, [], []; }
    if |name| > NAME_MAX { return ENAMETOOLONG, [], []; }
    if name == [DOT] || name == [DOT, DOT] { return EINVAL, [], []; }
    if name[|name| - 1] == DOT || name[|name| - 1] == SPACE { return EINVAL, [], []; }
    r, units, cps := Utf8ToUtf16(name, 255);
  }

  /** The names a file may have. */
  ghost predicate Nameable(name: Bytes) {
    Proper(name) && exists c :: AllScalar(c) && AllAllowed(c) && name == Utf8(c)
  }

  predicate Proper(name: Bytes) {
    0 < |name| <= NAME_MAX && name[|name| - 1] != DOT && name[|name| - 1] != SPACE
  }

  /** The unit at a place of the slots: a zero ends the name, ones fill the rest. */
  function PadUnit(units: Units, k: nat): nat {
    if k < |units| then units[k] else if k == |units| then 0 else 0xFFFF
  }

  function SlotUnits(units: Units, slot: nat): (u: Units)
    requires slot >= 1
    ensures |u| == PER_SLOT && forall j :: 0 <= j < PER_SLOT ==> u[j] == PadUnit(units, (slot - 1) * PER_SLOT + j)
  {
    seq<nat>(PER_SLOT, (j: nat) => PadUnit(units, (slot - 1) * PER_SLOT + j))
  }

  function SlotCount(units: Units): nat { (|units| + PER_SLOT - 1) / PER_SLOT }

  /** The units of so many slots, in the order of the name. */
  ghost function Gathered(units: Units, n: nat): Units {
    if n == 0 then [] else Gathered(units, n - 1) + SlotUnits(units, n)
  }

  lemma {:induction false} GatheredAt(units: Units, n: nat)
    ensures |Gathered(units, n)| == n * PER_SLOT
    ensures forall k :: 0 <= k < n * PER_SLOT ==> Gathered(units, n)[k] == PadUnit(units, k)
  {
    if n > 0 { GatheredAt(units, n - 1); }
  }

  /** The slots of a name hold its units, then a zero if there is room. */
  lemma SlotsHold(units: Units)
    requires Words(units)
    ensures var all := Gathered(units, SlotCount(units)); |units| <= |all|
    ensures var all := Gathered(units, SlotCount(units)); var tail := all[|units|..];
      all == units + tail && Words(tail) && (tail == [] || tail[0] == 0)
  {
    var n := SlotCount(units);
    GatheredAt(units, n);
    var all := Gathered(units, n);
    assert all[..|units|] == units;
    assert all == all[..|units|] + all[|units|..];
  }

  /** A long name reads back byte for byte. */
  lemma LongRoundTrip(name: Bytes, cps: Points)
    requires AllScalar(cps) && AllAllowed(cps) && name == Utf8(cps)
    ensures var all := Gathered(Utf16(cps), SlotCount(Utf16(cps)));
      Words(all) && Points16(all) == cps && Utf8(Points16(all)) == name
  {
    hide Utf8, Utf16, Points16, Gathered, SlotCount;
    var units := Utf16(cps);
    Utf16Words(cps);
    SlotsHold(units);
    var tail := Gathered(units, SlotCount(units))[|units|..];
    ReadBack(cps, tail);
  }

  // ----- the 8.3 form -----

  predicate IsLower(c: nat) { 'a' as int <= c <= 'z' as int }

  predicate IsUpper(c: nat) { 'A' as int <= c <= 'Z' as int }

  function Up(c: nat): nat { if IsLower(c) then c - 32 else c }

  function UpAll(s: Bytes): (u: Bytes)
    ensures |u| == |s| && forall i :: 0 <= i < |s| ==> u[i] == Up(s[i])
  {
    seq(|s|, i requires 0 <= i < |s| => Up(s[i]))
  }

  /** short_char_ok. */
  predicate ShortOk(c: nat) {
    IsUpper(c) || '0' as int <= c <= '9' as int
    || c in {0x21, 0x23, 0x24, 0x25, 0x26, 0x27, 0x28, 0x29, 0x2D, 0x40, 0x5E, 0x5F, 0x60, 0x7B, 0x7D, 0x7E}
  }

  ghost predicate AllShortOk(s: Bytes) { forall i :: 0 <= i < |s| ==> ShortOk(s[i]) }

  ghost predicate NoLower(s: Bytes) { forall i :: 0 <= i < |s| ==> !IsLower(s[i]) }

  ghost predicate NoUpper(s: Bytes) { forall i :: 0 <= i < |s| ==> !IsUpper(s[i]) }

  function Pad(s: Bytes, n: nat): (p: Bytes)
    requires |s| <= n
    ensures |p| == n && p[..|s|] == s && forall i :: |s| <= i < n ==> p[i] == SPACE
  {
    s + seq(n - |s|, _ => SPACE)
  }

  function Trim(s: Bytes): Bytes {
    if s != [] && s[|s| - 1] == SPACE then Trim(s[..|s| - 1]) else s
  }

  lemma {:induction false} TrimPad(s: Bytes, n: nat)
    requires |s| <= n && (s == [] || s[|s| - 1] != SPACE)
    ensures Trim(Pad(s, n)) == s
  {
    if n > |s| {
      TrimPad(s, n - 1);
      assert Pad(s, n)[..n - 1] == Pad(s, n - 1);
    } else {
      assert Pad(s, n) == s;
    }
  }

  datatype Gen = Gen(raw: Bytes, lowBase: bool, lowExt: bool, lossy: bool, lfn: bool, baseLen: nat)

  /** How one character of the 8.3 form is shown. */
  function Shown(c: nat, lower: bool): Bytes {
    if c >= 0x80 then [0xC0 + c / 64, 0x80 + c % 64] else if lower && IsUpper(c) then [c + 32] else [c]
  }

  /** A byte beyond ASCII is shown as the character with its number, any other as itself, small letters apart. */
  lemma ShownAsText(c: nat)
    requires c < 0x100
    ensures Shown(c, false) == Utf8One(c)
    ensures Shown(c, true) == Utf8One(if 0x41 <= c <= 0x5A then c + 32 else c)
  {
  }

  function ShowAll(s: Bytes, lower: bool): Bytes {
    if s == [] then [] else ShowAll(s[..|s| - 1], lower) + Shown(s[|s| - 1], lower)
  }

  /** A first byte of 0x05 stands for 0xE5. */
  function Unescaped(raw: Bytes): (r: Bytes)
    requires |raw| == 11
    ensures |r| == 11
  {
    if raw[0] == 0x05 then raw[0 := 0xE5] else raw
  }

  /** build_short_name, the name that is shown. */
  function Display(raw: Bytes, lowBase: bool, lowExt: bool): Bytes
    requires |raw| == 11
  {
    var r := Unescaped(raw);
    var base, ext := Trim(r[..8]), Trim(r[8..]);
    ShowAll(base, lowBase) + if ext == [] then [] else [DOT] + ShowAll(ext, lowExt)
  }

  /** build_short_name, the name in capitals; other characters become underscores. */
  function ShortText(raw: Bytes): Bytes
    requires |raw| == 11
  {
    var r := Unescaped(raw);
    var base, ext := Trim(r[..8]), Trim(r[8..]);
    Plain(base) + if ext == [] then [] else [DOT] + Plain(ext)
  }

  function Plain(s: Bytes): (p: Bytes)
    ensures |p| == |s| && forall i :: 0 <= i < |s| ==> p[i] == if s[i] >= 0x80 then 0x5F else s[i]
  {
    seq(|s|, i requires 0 <= i < |s| => if s[i] >= 0x80 then 0x5F else s[i])
  }

  lemma ShownUp(c: nat, lower: bool)
    requires ShortOk(Up(c)) && (if lower then !IsUpper(c) else !IsLower(c))
    ensures Shown(Up(c), lower) == [c]
  {
  }

  /** Capitals shown with the right case bit are the original. */
  lemma {:induction false} ShowUp(s: Bytes, lower: bool)
    requires AllShortOk(UpAll(s)) && (if lower then NoUpper(s) else NoLower(s))
    ensures ShowAll(UpAll(s), lower) == s
  {
    hide ShortOk, Shown, IsUpper, IsLower, Up;
    if s != [] {
      var n := |s| - 1;
      assert UpAll(s)[..n] == UpAll(s[..n]) && UpAll(s)[n] == Up(s[n]);
      ShowUp(s[..n], lower);
      ShownUp(s[n], lower);
      assert s == s[..n] + [s[n]];
    }
  }

  /** The characters of a part that make it into the 8.3 form. */
  function Converted(s: Bytes): Bytes {
    if s == [] then []
    else
      var c := s[|s| - 1];
      Converted(s[..|s| - 1]) + if c == SPACE || c == DOT then [] else [if ShortOk(Up(c)) then Up(c) else 0x5F]
  }

  function Cut(s: Bytes, room: nat): (c: Bytes)
    ensures |c| <= room
  {
    if |s| <= room then s else s[..room]
  }

  /** Where the name proper begins. */
  function Lead(name: Bytes, i: nat): (start: nat)
    requires i <= |name|
    ensures i <= start <= |name|
    decreases |name| - i
  {
    if i < |name| && (name[i] == DOT || name[i] == SPACE) then Lead(name, i + 1) else i
  }

  /** The last dot of a stretch, or the end of the name if there is none. */
  function LastDot(name: Bytes, start: nat, n: nat): (dot: nat)
    requires start <= n <= |name|
    ensures start <= dot <= |name|
    decreases n
  {
    if n == start then |name| else if name[n - 1] == DOT then n - 1 else LastDot(name, start, n - 1)
  }

  function BaseForm(name: Bytes): (base: Bytes)
    ensures 0 < |base| <= 8
  {
    var start := Lead(name, 0);
    var base := Cut(Converted(name[start..LastDot(name, start, |name|)]), 8);
    if base == [] then [0x5F] else base
  }

  function ExtForm(name: Bytes): (ext: Bytes)
    ensures |ext| <= 3
  {
    var dot := LastDot(name, Lead(name, 0), |name|);
    if dot < |name| then Cut(Converted(name[dot + 1..]), 3) else []
  }

  /** The 8.3 form of a name before any number is added. */
  function RawForm(name: Bytes): (raw: Bytes)
    ensures |raw| == 11
  {
    Pad(BaseForm(name), 8) + Pad(ExtForm(name), 3)
  }

  /** One part of short_gen_base: capitals, spaces and dots dropped, bad characters
      replaced, the rest cut off; each of those is a loss. */
  method Part(name: Bytes, from: nat, till: nat, room: nat) returns (out: Bytes, lossy: bool, lower: bool, upper: bool)
    requires from <= till <= |name|
    ensures |out| <= room && AllShortOk(out) && (!lossy ==> out == UpAll(name[from..till]))
    ensures out == Cut(Converted(name[from..till]), room)
    ensures till - from <= room && AllShortOk(UpAll(name[from..till])) ==> !lossy
    ensures lower <==> !NoLower(name[from..till])
    ensures upper <==> !NoUpper(name[from..till])
  {
    hide ShortOk, Converted, Cut, UpAll, NoLower, NoUpper;
    out, lossy, lower, upper := [], false, false, false;
    assert name[from..from] == [];
    NoPart();
    Underscore();
    for i := from to till
      invariant |out| <= room && |out| <= i - from && AllShortOk(out) && (!lossy ==> out == UpAll(name[from..i]))
      invariant i - from <= room && AllShortOk(UpAll(name[from..i])) ==> !lossy
      invariant out == Cut(Converted(name[from..i]), room)
      invariant lower <==> !NoLower(name[from..i])
      invariant upper <==> !NoUpper(name[from..i])
    {
      var c := name[i];
      assert name[from..i + 1] == name[from..i] + [c];
      Longer(name[from..i], c);
      ConvertedMore(name[from..i], c, room);
      UpDot(c);
      if c == SPACE || c == DOT {
        lossy := true;
        continue;
      }
      if IsLower(c) {
        lower, c := true, c - 32;
      } else if IsUpper(c) {
        upper := true;
      }
      if !ShortOk(c) { c, lossy := 0x5F, true; }
      if |out| < room { out := out + [c]; } else { lossy := true; }
    }
  }

  lemma ConvertedMore(s: Bytes, c: nat, room: nat)
    ensures var x := if c == SPACE || c == DOT then [] else [if ShortOk(Up(c)) then Up(c) else 0x5F];
      Cut(Converted(s + [c]), room) == if |Cut(Converted(s), room)| < room then Cut(Converted(s), room) + x
      else Cut(Converted(s), room)
  {
    hide ShortOk, Up;
    assert (s + [c])[..|s|] == s;
  }

  lemma Longer(s: Bytes, c: nat)
    ensures AllShortOk(UpAll(s + [c])) <==> AllShortOk(UpAll(s)) && ShortOk(Up(c))
    ensures NoLower(s + [c]) <==> NoLower(s) && !IsLower(c)
    ensures NoUpper(s + [c]) <==> NoUpper(s) && !IsUpper(c)
    ensures UpAll(s + [c]) == UpAll(s) + [Up(c)]
  {
    hide ShortOk, IsLower, IsUpper, Up;
    var t := s + [c];
    assert t[|s|] == c && UpAll(t)[|s|] == Up(c);
    assert forall i :: 0 <= i < |s| ==> t[i] == s[i] && UpAll(t)[i] == UpAll(s)[i];
  }

  /** A name that is an 8.3 name in some case. */
  ghost predicate EightThree(name: Bytes) { exists base, ext :: InParts(name, base, ext) }

  ghost predicate InParts(name: Bytes, base: Bytes, ext: Bytes) {
    0 < |base| <= 8 && |ext| <= 3 && AllShortOk(base) && AllShortOk(ext) && UpAll(name) == Dotted(base, ext)
  }

  function Dotted(base: Bytes, ext: Bytes): Bytes { base + if ext == [] then [] else [DOT] + ext }

  /** Eleven bytes as this driver writes them. */
  ghost predicate CleanRaw(raw: Bytes) {
    && |raw| == 11 && Unescaped(raw) == raw
    && Trim(raw[..8]) != [] && AllShortOk(Trim(raw[..8])) && AllShortOk(Trim(raw[8..]))
  }

  ghost predicate Shows(name: Bytes, raw: Bytes)
    requires |raw| == 11
  {
    exists lowBase, lowExt :: Display(raw, lowBase, lowExt) == name
  }

  /** short_gen_base: the 8.3 form of a name. Something is lost exactly if the name is
      not an 8.3 name in some case; a long name is needed exactly if no case bits show
      the name byte for byte. */
  method ShortBase(name: Bytes) returns (g: Gen)
    requires Proper(name)
    ensures CleanRaw(g.raw) && g.baseLen == |Trim(g.raw[..8])| && 1 <= g.baseLen <= 8
    ensures (g.lossy <==> !EightThree(name)) && (g.lossy ==> g.lfn) && g.raw == RawForm(name)
    ensures !g.lossy ==> ShortText(g.raw) == UpAll(name)
    ensures g.lfn <==> !Shows(name, g.raw)
    ensures !g.lfn ==> Display(g.raw, g.lowBase, g.lowExt) == name
  {
    hide ShortOk, Trim, Display, ShortText, UpAll, Pad, Unescaped, EightThree, NoLower, NoUpper, Shows;
    ghost var b, x, dotted;
    var base, ext, lossy, bl, bu, el, eu;
    base, ext, lossy, bl, bu, el, eu, b, x, dotted := BothParts(name);
    var mixed := (bl && bu) || (el && eu);
    g := Gen(Pad(base, 8) + Pad(ext, 3), bl && !mixed, el && !mixed, lossy, mixed || lossy, |base|);
    Packed(base, ext);
    if lossy {
      Lost(name, g.raw);
    } else {
      Finish(name, b, x, dotted, base, ext, bl, bu, el, eu);
    }
  }

  /** The two parts of the 8.3 form, and the cases of letters in each. */
  method BothParts(name: Bytes)
    returns (base: Bytes, ext: Bytes, lossy: bool, bl: bool, bu: bool, el: bool, eu: bool, ghost b: Bytes,
             ghost x: Bytes,
      ghost dotted: bool)
    requires Proper(name)
    ensures 0 < |base| <= 8 && |ext| <= 3 && AllShortOk(base) && AllShortOk(ext)
    ensures base == BaseForm(name) && ext == ExtForm(name)
    ensures EightThree(name) ==> !lossy
    ensures !lossy ==>
      name == b + (if dotted then [DOT] + x else []) && base == UpAll(b) && ext == UpAll(x) && (!dotted ==> x == [])
    ensures !lossy ==> (bl <==> !NoLower(b)) && (bu <==> !NoUpper(b)) && (el <==> !NoLower(x)) && (eu <==> !NoUpper(x))
  {
    hide ShortOk, UpAll, EightThree, NoLower, NoUpper, Lead, LastDot, Converted, Cut;
    var start, dot;
    start, dot, lossy := Divide(name);
    Lossless(name, start, dot, lossy);
    var l1, l2;
    base, l1, bl, bu := Part(name, start, dot, 8);
    ext, l2, el, eu := [], false, false, false;
    NoPart();
    if dot < |name| { ext, l2, el, eu := Part(name, dot + 1, |name|, 3); }
    lossy := lossy || l1 || l2;
    assert dot < |name| ==> name[dot + 1..|name|] == name[dot + 1..];
    b, x, dotted := name[start..dot], if dot < |name| then name[dot + 1..|name|] else [], dot < |name|;
    assert |base| == 0 ==> !EightThree(name) || lossy by { UpLength(name[start..dot]); }
    if |base| == 0 {
      base, lossy := [0x5F], true;
      Underscore();
    }
  }

  lemma UpLength(s: Bytes)
    ensures |UpAll(s)| == |s|
  {
  }

  lemma Lost(name: Bytes, raw: Bytes)
    requires CleanRaw(raw)
    ensures !EightThree(name) ==> !Shows(name, raw)
  {
    if !EightThree(name) { NotShown(name, raw); }
  }

  lemma NoPart()
    ensures AllShortOk([]) && UpAll([]) == [] && NoLower([]) && NoUpper([])
    ensures forall room: nat :: Cut(Converted([]), room) == []
  {
  }

  lemma Underscore()
    ensures AllShortOk([0x5F])
  {
  }

  /** Where the name proper begins and its last dot. */
  method Divide(name: Bytes) returns (start: nat, dot: nat, lossy: bool)
    ensures start <= dot <= |name| && (dot < |name| ==> name[dot] == DOT) && (lossy <==> start > 0)
    ensures start == Lead(name, 0) && dot == LastDot(name, start, |name|)
    ensures name != [] && name[0] != DOT && name[0] != SPACE ==> start == 0
    ensures forall i :: start <= i < |name| && (i > dot || dot == |name|) ==> name[i] != DOT
  {
    start, lossy := 0, false;
    while start < |name| && (name[start] == DOT || name[start] == SPACE)
      invariant 0 <= start <= |name| && (lossy <==> start > 0) && Lead(name, start) == Lead(name, 0)
      invariant start > 0 ==> name[0] == DOT || name[0] == SPACE
    {
      start, lossy := start + 1, true;
    }
    dot := |name|;
    for i := start to |name|
      invariant (dot == |name| || (start <= dot < i && name[dot] == DOT)) && dot == LastDot(name, start, i)
      invariant forall j :: start <= j < i && (j > dot || dot == |name|) ==> name[j] != DOT
    {
      if name[i] == DOT { dot := i; }
    }
  }

  lemma UpDot(c: nat)
    ensures Up(c) == DOT <==> c == DOT
    ensures ShortOk(Up(c)) ==> c != DOT && c != SPACE
  {
  }

  /** An 8.3 name comes apart into parts that lose nothing. */
  lemma Lossless(name: Bytes, start: nat, dot: nat, lossy: bool)
    requires start <= dot <= |name| && (dot < |name| ==> name[dot] == DOT) && (lossy <==> start > 0)
    requires name != [] && name[0] != DOT && name[0] != SPACE ==> start == 0
    requires forall i :: start <= i < |name| && (i > dot || dot == |name|) ==> name[i] != DOT
    ensures EightThree(name) ==> !lossy && 0 < dot <= 8 && AllShortOk(UpAll(name[start..dot]))
    ensures EightThree(name) && dot < |name| ==> |name| - dot - 1 <= 3 && AllShortOk(UpAll(name[dot + 1..|name|]))
  {
    if EightThree(name) {
      var base, ext :| InParts(name, base, ext);
      OneDot(name, base, ext);
      assert start == 0;
      assert dot == |base|;
      assert UpAll(name[start..dot]) == base;
      if dot < |name| { assert UpAll(name[dot + 1..|name|]) == ext; }
    }
  }

  lemma OneDot(name: Bytes, base: Bytes, ext: Bytes)
    requires InParts(name, base, ext)
    ensures name != [] && name[0] != DOT && name[0] != SPACE
    ensures |name| == |base| + (if ext == [] then 0 else 1 + |ext|)
    ensures forall i :: 0 <= i < |base| ==> name[i] != DOT && Up(name[i]) == base[i]
    ensures ext != [] ==>
      name[|base|] == DOT && forall i :: 0 <= i < |ext| ==>
        name[|base| + 1 + i] != DOT && Up(name[|base| + 1 + i]) == ext[i]
  {
    hide ShortOk, Up;
    var u := UpAll(name);
    forall i | 0 <= i < |base| ensures name[i] != DOT && name[i] != SPACE && Up(name[i]) == base[i] {
      assert u[i] == base[i] == Up(name[i]);
      UpDot(name[i]);
    }
    if ext != [] {
      assert u[|base|] == DOT == Up(name[|base|]);
      UpDot(name[|base|]);
      forall i | 0 <= i < |ext| ensures name[|base| + 1 + i] != DOT && Up(name[|base| + 1 + i]) == ext[i] {
        assert u[|base| + 1 + i] == ext[i] == Up(name[|base| + 1 + i]);
        UpDot(name[|base| + 1 + i]);
      }
    }
  }

  /** What an 8.3 form of this driver shows, character by character. */
  lemma {:induction false} ShowAt(s: Bytes, lower: bool)
    requires AllShortOk(s)
    ensures |ShowAll(s, lower)| == |s| && UpAll(ShowAll(s, lower)) == s
    ensures forall i :: 0 <= i < |s| ==> ShowAll(s, lower)[i] == if lower && IsUpper(s[i]) then s[i] + 32 else s[i]
  {
    hide ShortOk, Up, Shown, UpAll, IsUpper;
    if s == [] {
      NoPart();
    } else {
      var n := |s| - 1;
      ShowAt(s[..n], lower);
      ShownCapital(s[n], lower);
      var t, c := ShowAll(s[..n], lower), Shown(s[n], lower)[0];
      assert Shown(s[n], lower) == [c];
      Longer(t, c);
      assert s == s[..n] + [s[n]];
    }
  }

  lemma ShownCapital(c: nat, lower: bool)
    requires ShortOk(c)
    ensures |Shown(c, lower)| == 1 && Up(Shown(c, lower)[0]) == c
    ensures Shown(c, lower)[0] == if lower && IsUpper(c) then c + 32 else c
  {
  }

  lemma DisplayUp(raw: Bytes, lowBase: bool, lowExt: bool)
    requires CleanRaw(raw)
    ensures UpAll(Display(raw, lowBase, lowExt)) == ShortText(raw) == Dotted(Trim(raw[..8]), Trim(raw[8..]))
  {
    hide ShortOk, Trim, Up, IsUpper, ShowAll;
    var base, ext := Trim(raw[..8]), Trim(raw[8..]);
    ShowAt(base, lowBase);
    ShowAt(ext, lowExt);
    PlainIs(base);
    PlainIs(ext);
    UpDotted(ShowAll(base, lowBase), ShowAll(ext, lowExt));
  }

  lemma PlainIs(s: Bytes)
    requires AllShortOk(s)
    ensures Plain(s) == s
  {
  }

  lemma UpDotted(b: Bytes, x: Bytes)
    ensures UpAll(Dotted(b, x)) == Dotted(UpAll(b), UpAll(x))
  {
  }

  lemma {:induction false} TrimShort(s: Bytes)
    ensures |Trim(s)| <= |s| && Pad(Trim(s), |s|) == s
  {
    if s != [] && s[|s| - 1] == SPACE {
      TrimShort(s[..|s| - 1]);
    }
  }

  /** Only 8.3 names can be shown by an 8.3 form. */
  lemma NotShown(name: Bytes, raw: Bytes)
    requires CleanRaw(raw) && !EightThree(name)
    ensures !Shows(name, raw)
  {
    hide Unescaped, Trim, AllShortOk, EightThree, Display;
    forall lb, le ensures Display(raw, lb, le) != name {
      if Display(raw, lb, le) == name { ShownIs(name, raw, lb, le); }
    }
  }

  lemma ShownIs(name: Bytes, raw: Bytes, lowBase: bool, lowExt: bool)
    requires CleanRaw(raw) && Display(raw, lowBase, lowExt) == name
    ensures EightThree(name)
  {
    hide ShortOk, Trim, Up, IsUpper, ShowAll, Display, ShortText, Dotted;
    DisplayUp(raw, lowBase, lowExt);
    TrimShort(raw[..8]);
    TrimShort(raw[8..]);
    assert InParts(name, Trim(raw[..8]), Trim(raw[8..]));
  }

  /** Forms that read the same are the same. */
  lemma SameForm(a: Bytes, b: Bytes)
    requires CleanRaw(a) && CleanRaw(b) && ShortText(a) == ShortText(b)
    ensures a == b
  {
    hide ShortOk, Trim, Pad, ShortText;
    DisplayUp(a, false, false);
    DisplayUp(b, false, false);
    SameParts(Trim(a[..8]), Trim(a[8..]), Trim(b[..8]), Trim(b[8..]));
    TrimShort(a[..8]);
    TrimShort(b[..8]);
    TrimShort(a[8..]);
    TrimShort(b[8..]);
    assert a == a[..8] + a[8..] && b == b[..8] + b[8..];
  }

  lemma SameParts(b: Bytes, x: Bytes, c: Bytes, y: Bytes)
    requires AllShortOk(b) && AllShortOk(c) && AllShortOk(x) && AllShortOk(y) && Dotted(b, x) == Dotted(c, y)
    ensures b == c && x == y
  {
    hide ShortOk;
    NoDot();
    FirstDot(b, x);
    FirstDot(c, y);
    assert |b| == |c|;
    SamePieces(b, x, c, y);
  }

  lemma FirstDot(b: Bytes, x: Bytes)
    requires AllShortOk(b)
    ensures var s := Dotted(b, x); |s| >= |b| && (|s| > |b| ==> s[|b|] == DOT) && forall i :: 0 <= i < |b| ==>
      s[i] != DOT
  {
    hide ShortOk;
    NoDot();
    assert forall i :: 0 <= i < |b| ==> Dotted(b, x)[i] == b[i];
  }

  lemma SamePieces(b: Bytes, x: Bytes, c: Bytes, y: Bytes)
    requires Dotted(b, x) == Dotted(c, y) && |b| == |c|
    ensures b == c && x == y
  {
    var s := Dotted(b, x);
    assert s[..|b|] == b && s[..|c|] == c;
    assert x != [] ==> s[|b| + 1..] == x;
    assert y != [] ==> s[|c| + 1..] == y;
  }

  lemma NoDot()
    ensures !ShortOk(DOT)
  {
  }

  lemma Packed(base: Bytes, ext: Bytes)
    requires 0 < |base| <= 8 && |ext| <= 3 && AllShortOk(base) && AllShortOk(ext)
    ensures var raw := Pad(base, 8) + Pad(ext, 3);
      |raw| == 11 && Trim(raw[..8]) == base && Trim(raw[8..]) == ext && Unescaped(raw) == raw
  {
    var raw := Pad(base, 8) + Pad(ext, 3);
    assert raw[..8] == Pad(base, 8) && raw[8..] == Pad(ext, 3);
    assert ShortOk(base[|base| - 1]) && ShortOk(base[0]) && raw[0] == Pad(base, 8)[0] == Pad(base, 8)[..|base|][0];
    TrimPad(base, 8);
    if ext != [] { assert ShortOk(ext[|ext| - 1]); }
    TrimPad(ext, 3);
  }

  lemma Finish(name: Bytes, b: Bytes, x: Bytes, dotted: bool, base: Bytes, ext: Bytes, bl: bool, bu: bool, el: bool,
               eu: bool)
    requires Proper(name) && name == b + (if dotted then [DOT] + x else []) && base == UpAll(b) && ext == UpAll(x)
    requires 0 < |base| <= 8 && |ext| <= 3 && AllShortOk(base) && AllShortOk(ext) && (!dotted ==> x == [])
    requires (bl <==> !NoLower(b)) && (bu <==> !NoUpper(b)) && (el <==> !NoLower(x)) && (eu <==> !NoUpper(x))
    ensures var raw, mixed := Pad(base, 8) + Pad(ext, 3), (bl && bu) || (el && eu);
      && |raw| == 11 && ShortText(raw) == UpAll(name) && EightThree(name)
      && (if mixed then !Shows(name, raw) else Display(raw, bl, el) == name && Shows(name, raw))
  {
    hide ShortOk, Trim, Pad, UpAll, Unescaped, ShowAll, Plain, IsLower, IsUpper;
    Packed(base, ext);
    Whole(name, b, x, dotted, base, ext);
    assert InParts(name, base, ext) by { PlainIs(base); PlainIs(ext); }
    if (bl && bu) || (el && eu) {
      MixedCase(name, b, x, base, ext);
    } else {
      ShowUp(b, bl);
      ShowUp(x, el);
    }
  }

  /** Two cases in one part cannot be shown. */
  lemma MixedCase(name: Bytes, b: Bytes, x: Bytes, base: Bytes, ext: Bytes)
    requires name == Dotted(b, x) && base == UpAll(b) && ext == UpAll(x) && 0 < |base| <= 8 && |ext| <= 3 &&
      AllShortOk(base) && AllShortOk(ext)
    requires (!NoLower(b) && !NoUpper(b)) || (!NoLower(x) && !NoUpper(x))
    ensures !Shows(name, Pad(base, 8) + Pad(ext, 3))
  {
    hide ShortOk, Trim, Pad, UpAll, Unescaped, ShowAll;
    var raw := Pad(base, 8) + Pad(ext, 3);
    Packed(base, ext);
    forall lb, le ensures Display(raw, lb, le) != name {
      OneCase(base, lb);
      OneCase(ext, le);
      var s, t := ShowAll(base, lb), ShowAll(ext, le);
      if Dotted(s, t) == name { SamePieces(b, x, s, t); }
    }
  }

  lemma OneCase(s: Bytes, lower: bool)
    requires AllShortOk(s)
    ensures |ShowAll(s, lower)| == |s| && (NoLower(ShowAll(s, lower)) || NoUpper(ShowAll(s, lower)))
  {
    ShowAt(s, lower);
    if !lower { assert forall i :: 0 <= i < |s| ==> ShortOk(s[i]) && !IsLower(s[i]); }
  }

  lemma NotLast(name: Bytes, b: Bytes, x: Bytes, dotted: bool)
    requires Proper(name) && name == b + (if dotted then [DOT] + x else [])
    ensures dotted ==> x != []
  {
    assert (b + [DOT])[|b|] == DOT;
  }

  lemma Whole(name: Bytes, b: Bytes, x: Bytes, dotted: bool, base: Bytes, ext: Bytes)
    requires Proper(name) && name == b + (if dotted then [DOT] + x else []) && base == UpAll(b) && ext == UpAll(x)
    requires AllShortOk(base) && AllShortOk(ext) && (!dotted ==> x == [])
    ensures dotted <==> ext != []
    ensures Plain(base) + (if ext == [] then [] else [DOT] + Plain(ext)) == UpAll(name)
  {
    NotLast(name, b, x, dotted);
    assert Plain(base) == base && Plain(ext) == ext;
  }
}
