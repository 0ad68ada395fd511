/** The name encodings of src/fs/fat32.c: UTF-8 (section 3 of RFC 3629) and UTF-16
    (section 2 of RFC 2781), both ways. */
module Unicode {
  const EINVAL := -22
  const ENAMETOOLONG := -36

  type Bytes = seq<nat>
  type Units = seq<nat>
  type Points = seq<nat>

  predicate Surrogate(cp: nat) { 0xD800 <= cp < 0xE000 }

  predicate Scalar(cp: nat) { cp < 0x11_0000 && !Surrogate(cp) }

  /** What a file name may contain: no controls and none of \ / : * ? " < > | */
  predicate Allowed(cp: nat) {
    Scalar(cp) && cp >= 0x20 && cp !in {0x5C, 0x2F, 0x3A, 0x2A, 0x3F, 0x22, 0x3C, 0x3E, 0x7C}
  }

  ghost predicate AllScalar(cps: Points) { forall i :: 0 <= i < |cps| ==> Scalar(cps[i]) }

  ghost predicate AllAllowed(cps: Points) { forall i :: 0 <= i < |cps| ==> Allowed(cps[i]) }

  // ----- the two encodings -----

  function Utf8One(cp: nat): (b: Bytes)
    requires cp < 0x11_0000
    ensures 1 <= |b| <= 4
  {
    if cp < 0x80 then [cp]
    else if cp < 0x800 then [0xC0 + cp / 64, 0x80 + cp % 64]
    else if cp < 0x1_0000 then [0xE0 + cp / 4096, 0x80 + cp / 64 % 64, 0x80 + cp % 64]
    else [0xF0 + cp / 0x4_0000, 0x80 + cp / 4096 % 64, 0x80 + cp / 64 % 64, 0x80 + cp % 64]
  }

  function Utf16One(cp: nat): (u: Units)
    requires cp < 0x11_0000
    ensures 1 <= |u| <= 2
  {
    if cp < 0x1_0000 then [cp] else [0xD800 + (cp - 0x1_0000) / 1024, 0xDC00 + (cp - 0x1_0000) % 1024]
  }

  ghost function Utf8(cps: Points): Bytes
    requires AllScalar(cps)
  {
    if cps == [] then [] else Utf8(cps[..|cps| - 1]) + Utf8One(cps[|cps| - 1])
  }

  ghost function Utf16(cps: Points): Units
    requires AllScalar(cps)
  {
    if cps == [] then [] else Utf16(cps[..|cps| - 1]) + Utf16One(cps[|cps| - 1])
  }

  lemma Utf8More(cps: Points, cp: nat)
    requires AllScalar(cps) && Scalar(cp)
    ensures AllScalar(cps + [cp]) && Utf8(cps + [cp]) == Utf8(cps) + Utf8One(cp)
    ensures Utf16(cps + [cp]) == Utf16(cps) + Utf16One(cp)
  {
    assert (cps + [cp])[..|cps|] == cps;
  }

  lemma {:induction false} Utf8First(cps: Points)
    requires AllScalar(cps) && cps != []
    ensures AllScalar(cps[1..]) && Utf8(cps) == Utf8One(cps[0]) + Utf8(cps[1..])
    ensures Utf16(cps) == Utf16One(cps[0]) + Utf16(cps[1..])
  {
    hide Utf8One, Utf16One;
    var n := |cps| - 1;
    if n == 0 {
      assert cps[1..] == [] && cps[..0] == [];
      assert Utf8(cps) == [] + Utf8One(cps[0]) && Utf16(cps) == [] + Utf16One(cps[0]);
      assert Utf8One(cps[0]) + [] == Utf8One(cps[0]) && Utf16One(cps[0]) + [] == Utf16One(cps[0]);
    } else {
      var init, rest := cps[..n], cps[1..];
      Utf8First(init);
      assert init[1..] == rest[..n - 1] && rest[n - 1] == cps[n] && init[0] == cps[0];
      Assoc(Utf8One(cps[0]), Utf8(init[1..]), Utf8One(cps[n]));
      Assoc(Utf16One(cps[0]), Utf16(init[1..]), Utf16One(cps[n]));
    }
  }

  lemma Assoc(a: seq<nat>, b: seq<nat>, c: seq<nat>)
    ensures (a + b) + c == a + (b + c)
  {
  }

  // ----- reading UTF-8 -----

  /** How many bytes follow a first byte; 4 says it is none. */
  function Extra(c: nat): nat {
    if c < 0x80 then 0 else if c < 0xC0 then 4 else if c < 0xE0 then 1 else if c < 0xF0 then 2 else if c < 0xF8 then 3
    else 4
  }

  predicate Follows(s: Bytes, i: nat) { i < |s| && 0x80 <= s[i] < 0xC0 }

  /** The code point at a position, or -1: too long, surrogate and out of range are refused. */
  function Decode1(s: Bytes, i: nat): int
    requires i < |s|
  {
    var c := s[i];
    if Extra(c) == 0 then c
    else if Extra(c) == 1 then (if Follows(s, i + 1) then Two(c - 0xC0, s[i + 1] - 0x80) else -1)
    else if Extra(c) == 2 then
      (if Follows(s, i + 1) && Follows(s, i + 2) then Three(c - 0xE0, s[i + 1] - 0x80, s[i + 2] - 0x80) else -1)
    else if Extra(c) == 3 then
      (if Follows(s, i + 1) && Follows(s, i + 2) && Follows(s, i + 3)
       then Four(c - 0xF0, s[i + 1] - 0x80, s[i + 2] - 0x80, s[i + 3] - 0x80) else -1)
    else -1
  }

  function Two(a: nat, b: nat): int {
    var cp := a * 64 + b;
    if cp < 0x80 then -1 else cp
  }

  function Three(a: nat, b: nat, c: nat): int {
    var cp := (a * 64 + b) * 64 + c;
    if cp < 0x800 || Surrogate(cp) then -1 else cp
  }

  function Four(a: nat, b: nat, c: nat, d: nat): int {
    var cp := ((a * 64 + b) * 64 + c) * 64 + d;
    if cp < 0x1_0000 || cp > 0x10_FFFF then -1 else cp
  }

  lemma Pair(a: nat, b: nat)
    requires b < 64
    ensures (a * 64 + b) / 64 == a && (a * 64 + b) % 64 == b
  {
  }

  lemma TwoIs(a: nat, b: nat)
    requires a < 32 && b < 64 && Two(a, b) >= 0
    ensures Scalar(Two(a, b)) && Utf8One(Two(a, b)) == [0xC0 + a, 0x80 + b]
  {
    Pair(a, b);
  }

  lemma ThreeIs(a: nat, b: nat, c: nat)
    requires a < 16 && b < 64 && c < 64 && Three(a, b, c) >= 0
    ensures Scalar(Three(a, b, c)) && Utf8One(Three(a, b, c)) == [0xE0 + a, 0x80 + b, 0x80 + c]
  {
    var cp := Three(a, b, c);
    Pair(a * 64 + b, c);
    Pair(a, b);
    assert cp / 4096 == cp / 64 / 64;
  }

  lemma FourIs(a: nat, b: nat, c: nat, d: nat)
    requires a < 8 && b < 64 && c < 64 && d < 64 && Four(a, b, c, d) >= 0
    ensures Scalar(Four(a, b, c, d)) && Utf8One(Four(a, b, c, d)) == [0xF0 + a, 0x80 + b, 0x80 + c, 0x80 + d]
  {
    var cp := Four(a, b, c, d);
    Pair((a * 64 + b) * 64 + c, d);
    Pair(a * 64 + b, c);
    Pair(a, b);
    assert cp / 4096 == cp / 64 / 64 && cp / 0x4_0000 == cp / 64 / 64 / 64;
  }

  /** What is read is what would be written. */
  lemma Sound(s: Bytes, i: nat)
    requires i < |s| && Decode1(s, i) >= 0
    ensures var cp := Decode1(s, i);
      && Scalar(cp) && |Utf8One(cp)| == Extra(s[i]) + 1 && i + |Utf8One(cp)| <= |s|
      && s[i..i + |Utf8One(cp)|] == Utf8One(cp)
  {
    hide Two, Three, Four, Utf8One, Scalar;
    var c := s[i];
    if Extra(c) == 0 {
      OneIs(c);
    } else if Extra(c) == 1 {
      TwoIs(c - 0xC0, s[i + 1] - 0x80);
    } else if Extra(c) == 2 {
      ThreeIs(c - 0xE0, s[i + 1] - 0x80, s[i + 2] - 0x80);
    } else {
      FourIs(c - 0xF0, s[i + 1] - 0x80, s[i + 2] - 0x80, s[i + 3] - 0x80);
    }
  }

  lemma OneIs(c: nat)
    requires c < 0x80
    ensures Scalar(c) && Utf8One(c) == [c]
  {
  }

  /** What is written is read. */
  lemma Complete(s: Bytes, i: nat, cp: nat)
    requires i < |s| && Scalar(cp) && i + |Utf8One(cp)| <= |s| && s[i..i + |Utf8One(cp)|] == Utf8One(cp)
    ensures Decode1(s, i) == cp
  {
    var u := Utf8One(cp);
    Same(s, i, u);
    if cp < 0x80 {
    } else if cp < 0x800 {
      assert cp == cp / 64 * 64 + cp % 64;
    } else if cp < 0x1_0000 {
      Split3(cp);
    } else {
      Split4(cp);
    }
  }

  lemma Same(s: Bytes, i: nat, u: Bytes)
    requires i + |u| <= |s| && s[i..i + |u|] == u && |u| <= 4
    ensures |u| > 0 ==> s[i] == u[0]
    ensures |u| > 1 ==> s[i + 1] == u[1]
    ensures |u| > 2 ==> s[i + 2] == u[2]
    ensures |u| > 3 ==> s[i + 3] == u[3]
  {
    forall k | 0 <= k < |u| ensures s[i + k] == u[k] { assert s[i..i + |u|][k] == u[k]; }
  }

  lemma Split3(cp: nat)
    requires 0x800 <= cp < 0x1_0000
    ensures cp / 4096 < 16 && (cp / 4096 * 64 + cp / 64 % 64) * 64 + cp % 64 == cp
  {
    var t := cp / 64;
    assert cp == t * 64 + cp % 64 && cp / 4096 == t / 64 && t == t / 64 * 64 + t % 64;
  }

  lemma Split4(cp: nat)
    requires 0x1_0000 <= cp < 0x11_0000
    ensures cp / 0x4_0000 < 8 && ((cp / 0x4_0000 * 64 + cp / 4096 % 64) * 64 + cp / 64 % 64) * 64 + cp % 64 == cp
  {
    var t := cp / 64;
    var v := t / 64;
    assert cp == t * 64 + cp % 64 && cp / 4096 == v && t == v * 64 + t % 64 && cp / 0x4_0000 == v / 64;
    assert v == v / 64 * 64 + v % 64;
  }

  /** No text has two readings. */
  lemma {:induction false} OneReading(a: Points, b: Points, rest: Bytes)
    requires AllScalar(a) && AllScalar(b) && Utf8(b) == Utf8(a) + rest
    ensures |a| <= |b| && b[..|a|] == a && AllScalar(b[|a|..]) && rest == Utf8(b[|a|..])
    decreases |a|
  {
    hide Utf8One;
    if a == [] {
      assert b[0..] == b && Utf8(a) + rest == rest;
    } else {
      Utf8First(a);
      Assoc(Utf8One(a[0]), Utf8(a[1..]), rest);
      assert |Utf8(b)| > 0;
      assert b != [];
      Utf8First(b);
      FirstSame(Utf8(b), a[0], Utf8(a[1..]) + rest, b[0], Utf8(b[1..]));
      OneReading(a[1..], b[1..], rest);
      Rejoin(a, b);
    }
  }

  lemma Rejoin(a: Points, b: Points)
    requires a != [] && b != [] && a[0] == b[0] && |a| <= |b| && b[1..][..|a| - 1] == a[1..]
    ensures b[..|a|] == a && b[|a|..] == b[1..][|a| - 1..]
  {
    assert b[..|a|] == [b[0]] + b[1..][..|a| - 1] && a == [a[0]] + a[1..];
  }

  lemma FirstSame(s: Bytes, x: nat, p: Bytes, y: nat, q: Bytes)
    requires Scalar(x) && Scalar(y) && s == Utf8One(x) + p && s == Utf8One(y) + q
    ensures x == y && p == q
  {
    hide Utf8One, Decode1;
    assert s[0..0 + |Utf8One(x)|] == Utf8One(x) && s[0..0 + |Utf8One(y)|] == Utf8One(y);
    Long(x);
    Long(y);
    Complete(s, 0, x);
    Complete(s, 0, y);
    assert s[|Utf8One(x)|..] == p && s[|Utf8One(y)|..] == q;
  }

  lemma Long(cp: nat)
    requires Scalar(cp)
    ensures |Utf8One(cp)| > 0
  {
  }

  /** utf8_to_utf16: exactly the well-formed texts of allowed characters that fit. */
  method Utf8ToUtf16(s: Bytes, cap: nat) returns (r: int, units: Units, ghost cps: Points)
    ensures r >= 0 ==> AllAllowed(cps) && AllScalar(cps) && s == Utf8(cps) && units == Utf16(cps) && r == |units| <= cap
    ensures r == EINVAL ==> forall c :: AllScalar(c) && AllAllowed(c) ==> s != Utf8(c)
    ensures r == ENAMETOOLONG ==>
      |s| > cap && forall c :: AllScalar(c) && AllAllowed(c) && s == Utf8(c) ==> |Utf16(c)| > cap
    ensures r >= 0 || r == EINVAL || r == ENAMETOOLONG
  {
    hide Utf8One, Utf16One, Decode1, Scalar, Allowed, Utf8, Utf16;
    units, cps := [], [];
    Nothing();
    var p := 0;
    assert s[..0] == [];
    while p < |s|
      invariant 0 <= p <= |s| && AllAllowed(cps) && AllScalar(cps) && s[..p] == Utf8(cps) && units == Utf16(cps)
      invariant |units| <= cap
    {
      var cp := Decode1(s, p);
      if cp < 0 || !Allowed(cp) {
        Refused(s, p, cps);
        return EINVAL, [], [];
      }
      Sound(s, p);
      Utf8More(cps, cp);
      AllowedScalar(cp);
      var u := Utf16One(cp);
      if |units| + |u| > cap {
        TooLong(s, p, cps, cp, cap);
        FewerUnits(cps + [cp]);
        return ENAMETOOLONG, [], [];
      }
      assert s[..p + |Utf8One(cp)|] == s[..p] + s[p..p + |Utf8One(cp)|];
      Long(cp);
      units, cps := units + u, cps + [cp];
      p := p + |Utf8One(cp)|;
    }
    assert s[..p] == s;
    return |units|, units, cps;
  }

  lemma Nothing()
    ensures AllScalar([]) && Utf8([]) == [] && Utf16([]) == []
  {
  }

  lemma AllowedScalar(cp: nat)
    requires Allowed(cp)
    ensures Scalar(cp)
  {
  }

  /** If the next bytes are no allowed character, the whole text is refused rightly. */
  lemma Refused(s: Bytes, p: nat, cps: Points)
    requires p < |s| && AllScalar(cps) && s[..p] == Utf8(cps) && (Decode1(s, p) < 0 || !Allowed(Decode1(s, p)))
    ensures forall c :: AllScalar(c) && AllAllowed(c) ==> s != Utf8(c)
  {
    hide Utf8One, Decode1, Scalar, Allowed, Utf8;
    forall c | AllScalar(c) && AllAllowed(c) ensures s != Utf8(c) {
      if s == Utf8(c) {
        var rest := s[p..];
        assert s == s[..p] + rest;
        OneReading(cps, c, rest);
        NextPoint(s, p, c, |cps|);
      }
    }
  }

  lemma NextPoint(s: Bytes, p: nat, c: Points, k: nat)
    requires p < |s| && AllScalar(c) && k <= |c| && AllScalar(c[k..]) && s[p..] == Utf8(c[k..])
    ensures k < |c| && Decode1(s, p) == c[k]
  {
    hide Decode1;
    assert c[k..] != [];
    Utf8First(c[k..]);
    var u := Utf8One(c[k]);
    assert s[p..p + |u|] == s[p..][..|u|] == u;
    Complete(s, p, c[k]);
  }

  lemma TooLong(s: Bytes, p: nat, cps: Points, cp: nat, cap: nat)
    requires p < |s| && AllScalar(cps) && s[..p] == Utf8(cps) && Decode1(s, p) == cp && Scalar(cp)
    requires |Utf16(cps)| + |Utf16One(cp)| > cap
    ensures forall c :: AllScalar(c) && AllAllowed(c) && s == Utf8(c) ==> |Utf16(c)| > cap
  {
    hide Utf8One, Decode1, Allowed, Utf8, Utf16, Utf16One;
    forall c | AllScalar(c) && AllAllowed(c) && s == Utf8(c) ensures |Utf16(c)| > cap {
      var rest := s[p..];
      assert s == s[..p] + rest;
      OneReading(cps, c, rest);
      NextPoint(s, p, c, |cps|);
      assert c[..|cps| + 1] == cps + [cp];
      Utf8More(cps, cp);
      LongerPrefix(c, |cps| + 1);
    }
  }

  /** A text has no more units than bytes. */
  lemma {:induction false} FewerUnits(cps: Points)
    requires AllScalar(cps)
    ensures |Utf16(cps)| <= |Utf8(cps)|
  {
    if cps != [] { FewerUnits(cps[..|cps| - 1]); }
  }

  lemma {:induction false} LongerPrefix(c: Points, k: nat)
    requires AllScalar(c) && k <= |c|
    ensures AllScalar(c[..k]) && |Utf16(c[..k])| <= |Utf16(c)|
    decreases |c|
  {
    if k == |c| {
      assert c[..k] == c;
    } else {
      LongerPrefix(c[..|c| - 1], k);
      assert c[..|c| - 1][..k] == c[..k];
    }
  }

  // ----- reading UTF-16 -----

  predicate High(u: nat) { 0xD800 <= u < 0xDC00 }

  predicate Low(u: nat) { 0xDC00 <= u < 0xE000 }

  /** The code points up to the first zero; a lone surrogate reads as a question mark. */
  function Points16(u: Units): (c: Points)
    requires forall i :: 0 <= i < |u| ==> u[i] < 0x1_0000
    ensures AllScalar(c)
    decreases |u|
  {
    if u == [] || u[0] == 0 then []
    else if High(u[0]) && |u| > 1 && Low(u[1])
    then [0x1_0000 + (u[0] - 0xD800) * 1024 + (u[1] - 0xDC00)] + Points16(u[2..])
    else if High(u[0]) || Low(u[0]) then [0x3F] + Points16(u[1..])
    else [u[0]] + Points16(u[1..])
  }

  ghost predicate Words(u: Units) { forall i :: 0 <= i < |u| ==> u[i] < 0x1_0000 }

  lemma OneWord(cp: nat)
    requires Scalar(cp)
    ensures Words(Utf16One(cp))
  {
  }

  lemma {:induction false} Utf16Words(cps: Points)
    requires AllScalar(cps)
    ensures Words(Utf16(cps))
  {
    hide Utf16One;
    if cps != [] {
      Utf16Words(cps[..|cps| - 1]);
      OneWord(cps[|cps| - 1]);
    }
  }

  lemma FirstPoint(cp: nat, rest: Units)
    requires Scalar(cp) && cp > 0 && Words(rest)
    ensures Words(Utf16One(cp) + rest) && Points16(Utf16One(cp) + rest) == [cp] + Points16(rest)
  {
    var u := Utf16One(cp) + rest;
    if cp < 0x1_0000 {
      assert u[1..] == rest;
    } else {
      var d := cp - 0x1_0000;
      assert u[2..] == rest && d == d / 1024 * 1024 + d % 1024 && d / 1024 < 1024;
    }
  }

  /** Reading back what was written, padding behind a zero ignored. */
  lemma {:induction false} ReadBack(cps: Points, tail: Units)
    requires AllScalar(cps) && (forall i :: 0 <= i < |cps| ==> cps[i] > 0) && Words(tail)
    requires (tail == [] || tail[0] == 0)
    ensures Words(Utf16(cps) + tail) && Points16(Utf16(cps) + tail) == cps
    decreases |cps|
  {
    hide Utf16One, Points16;
    Utf16Words(cps);
    if cps == [] {
      assert Utf16(cps) + tail == tail;
      Stops(tail);
    } else {
      Utf8First(cps);
      Utf16Words(cps[1..]);
      ReadBack(cps[1..], tail);
      Assoc(Utf16One(cps[0]), Utf16(cps[1..]), tail);
      FirstPoint(cps[0], Utf16(cps[1..]) + tail);
    }
  }

  lemma Stops(tail: Units)
    requires Words(tail) && (tail == [] || tail[0] == 0)
    ensures Points16(tail) == []
  {
  }

  /** utf16_to_utf8: the text of the units, if it is not empty and fits. */
  method Utf16ToUtf8(units: Units, cap: nat) returns (r: int, out: Bytes)
    requires Words(units)
    ensures r >= 0 <==> Points16(units) != [] && |Utf8(Points16(units))| < cap
    ensures r >= 0 ==> out == Utf8(Points16(units)) && r == |out|
  {
    hide Utf8One, Points16, Scalar;
    out := [];
    ghost var done: Points := [];
    var i := 0;
    Nothing();
    assert units[0..] == units && [] + Points16(units) == Points16(units);
    while i < |units| && units[i] != 0
      invariant 0 <= i <= |units| && AllScalar(done) && out == Utf8(done) && (out == [] || |out| < cap)
      invariant (out == [] <==> done == [])
      invariant Words(units[i..]) && Points16(units) == done + Points16(units[i..])
      decreases |units| - i
    {
      var cp, n := Take(units, i);
      Rest(done, cp, units, i, n);
      Long(cp);
      Utf8More(done, cp);
      if |out| + |Utf8One(cp)| >= cap {
        Prefix8(done + [cp], Points16(units[i + n..]));
        return -1, [];
      }
      out, done, i := out + Utf8One(cp), done + [cp], i + n;
    }
    Stops(units[i..]);
    assert done + [] == done;
    return if |out| > 0 then |out| else -1, out;
  }

  /** One code point of the units. */
  method Take(units: Units, i: nat) returns (cp: nat, n: nat)
    requires i < |units| && units[i] != 0 && Words(units[i..]) && Words(units)
    ensures 0 < n <= |units| - i && Scalar(cp) && Words(units[i + n..])
    ensures Points16(units[i..]) == [cp] + Points16(units[i + n..])
  {
    cp, n := units[i], 1;
    assert units[i..][1..] == units[i + 1..];
    if High(cp) {
      if i + 1 < |units| && Low(units[i + 1]) {
        assert units[i..][2..] == units[i + 2..];
        cp, n := 0x1_0000 + (cp - 0xD800) * 1024 + (units[i + 1] - 0xDC00), 2;
      } else {
        cp := 0x3F;
      }
    } else if Low(cp) {
      cp := 0x3F;
    }
  }

  lemma Rest(done: Points, cp: nat, units: Units, i: nat, n: nat)
    requires i + n <= |units| && Words(units[i..]) && Words(units[i + n..])
    requires Points16(units[i..]) == [cp] + Points16(units[i + n..])
    ensures done + Points16(units[i..]) == done + [cp] + Points16(units[i + n..])
  {
  }

  lemma {:induction false} Prefix8(a: Points, b: Points)
    requires AllScalar(a) && AllScalar(b)
    ensures AllScalar(a + b) && |Utf8(a)| <= |Utf8(a + b)|
    decreases |b|
  {
    hide Utf8One, Scalar;
    if b == [] {
      assert a + b == a;
    } else {
      Prefix8(a, b[..|b| - 1]);
      Utf8More(a + b[..|b| - 1], b[|b| - 1]);
      assert a + b[..|b| - 1] + [b[|b| - 1]] == a + b;
    }
  }
}
