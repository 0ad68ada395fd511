/** Lines of text in one buffer, as user/bin/sort.c keeps them: newlines become ends of
    strings in place, a line is known by where it starts, and lines are compared as
    strings, as strings without regard to case, or as numbers. */
module TextLines {
  import opened Sorting
  import opened Numbers

  const NUL := '\0'
  const NEWLINE := '\n'

  ghost predicate NoNul(s: string) { forall i :: 0 <= i < |s| ==> s[i] != NUL }

  // ----- comparing strings -----

  function Lower(c: char): char { if 'A' <= c <= 'Z' then c + 32 as char else c }

  /** Characters fold together exactly if they are the same or the two forms of one letter. */
  lemma FoldsTogether(c: char, d: char)
    ensures Lower(c) == Lower(d) <==>
      c == d || ('A' <= c <= 'Z' && d as int == c as int + 32) || ('A' <= d <= 'Z' && c as int == d as int + 32)
  {
  }

  function Code(s: string, i: nat, fold: bool): int {
    if i >= |s| then 0 else if fold then Lower(s[i]) as int else s[i] as int
  }

  /** The difference at the first place where two strings differ, or where both end. */
  function Lex(x: string, y: string, i: nat, fold: bool): int
    decreases |x| - i
  {
    if i < |x| && Code(x, i, fold) == Code(y, i, fold) then Lex(x, y, i + 1, fold)
    else Code(x, i, fold) - Code(y, i, fold)
  }

  /** strcmp. */
  method StrCmp(x: string, y: string) returns (r: int)
    requires NoNul(x) && NoNul(y)
    ensures r == Lex(x, y, 0, false)
  {
    var i := 0;
    while i < |x| && i < |y| && x[i] == y[i]
      invariant 0 <= i <= |x| && i <= |y| && Lex(x, y, 0, false) == Lex(x, y, i, false)
    {
      i := i + 1;
    }
    return Code(x, i, false) - Code(y, i, false);
  }

  /** strcasecmp. */
  method StrCaseCmp(x: string, y: string) returns (r: int)
    requires NoNul(x) && NoNul(y)
    ensures r == Lex(x, y, 0, true)
  {
    var i := 0;
    while true
      invariant 0 <= i <= |x| && i <= |y| && Lex(x, y, 0, true) == Lex(x, y, i, true)
      decreases |x| - i
    {
      var a, b := Code(x, i, true), Code(y, i, true);
      SomeCode(x, i, true);
      SomeCode(y, i, true);
      if a != b { return a - b; }
      if a == 0 { return 0; }
      i := i + 1;
    }
  }

  lemma SomeCode(x: string, i: nat, fold: bool)
    requires NoNul(x)
    ensures Code(x, i, fold) >= 0 && (Code(x, i, fold) == 0 <==> i >= |x|)
  {
  }

  /** Two strings agree before a place. */
  ghost predicate Agree(x: string, y: string, i: nat, j: nat, fold: bool) {
    forall k: nat :: i <= k < j ==> Code(x, k, fold) == Code(y, k, fold)
  }

  /** Where the comparison stops: the first difference, or the end of both. */
  lemma {:induction false} LexAt(x: string, y: string, i: nat, fold: bool) returns (k: nat)
    requires NoNul(x) && NoNul(y) && i <= |x| && i <= |y|
    ensures i <= k <= |x| && k <= |y| && Agree(x, y, i, k, fold)
    ensures Lex(x, y, i, fold) == Code(x, k, fold) - Code(y, k, fold)
    ensures Lex(x, y, i, fold) == 0 ==> k == |x| == |y|
    decreases |x| - i
  {
    hide Code;
    SomeCode(x, i, fold);
    SomeCode(y, i, fold);
    if i < |x| && Code(x, i, fold) == Code(y, i, fold) {
      k := LexAt(x, y, i + 1, fold);
    } else {
      k := i;
    }
  }

  /** A difference after a stretch of agreement is the answer. */
  lemma {:induction false} LexIs(x: string, y: string, i: nat, k: nat, fold: bool)
    requires NoNul(x) && NoNul(y) && i <= k <= |x| && Agree(x, y, i, k, fold)
    requires Code(x, k, fold) != Code(y, k, fold) || k == |x|
    ensures Lex(x, y, i, fold) == Code(x, k, fold) - Code(y, k, fold)
    decreases k - i
  {
    hide Code;
    if i < k { LexIs(x, y, i + 1, k, fold); }
  }

  lemma LexMirror(x: string, y: string, fold: bool)
    requires NoNul(x) && NoNul(y)
    ensures Lex(y, x, 0, fold) == -Lex(x, y, 0, fold)
  {
    hide Code, Lex;
    var k := LexAt(x, y, 0, fold);
    SomeCode(x, k, fold);
    SomeCode(y, k, fold);
    LexIs(y, x, 0, k, fold);
  }

  lemma LexThrough(x: string, y: string, z: string, fold: bool)
    requires NoNul(x) && NoNul(y) && NoNul(z) && Lex(x, y, 0, fold) <= 0 && Lex(y, z, 0, fold) <= 0
    ensures Lex(x, z, 0, fold) <= 0
  {
    hide Code, Lex;
    var j := LexAt(x, y, 0, fold);
    var k := LexAt(y, z, 0, fold);
    var n := if j < k then j else k;
    SomeCode(x, n, fold);
    SomeCode(y, n, fold);
    SomeCode(z, n, fold);
    assert Agree(x, z, 0, n, fold) by {
      forall i: nat | i < n ensures Code(x, i, fold) == Code(z, i, fold) {
        assert Code(x, i, fold) == Code(y, i, fold) && Code(y, i, fold) == Code(z, i, fold);
      }
    }
    if j != k || Lex(x, y, 0, fold) != 0 {
      Stopped(x, y, z, j, k, n, fold);
      LexIs(x, z, 0, n, fold);
    } else {
      LexIs(x, z, 0, n, fold);
    }
  }

  /** At the first place where either pair differs the outer pair does, or is done. */
  lemma Stopped(x: string, y: string, z: string, j: nat, k: nat, n: nat, fold: bool)
    requires NoNul(x) && NoNul(y) && NoNul(z) && n == (if j < k then j else k) && j <= |x| && j <= |y| && k <= |y|
    requires k <= |z|
    requires Agree(x, y, 0, j, fold) && Agree(y, z, 0, k, fold)
    requires Code(x, j, fold) < Code(y, j, fold) || (Code(x, j, fold) == Code(y, j, fold) && j == |x| == |y|)
    requires Code(y, k, fold) < Code(z, k, fold) || (Code(y, k, fold) == Code(z, k, fold) && k == |y| == |z|)
    ensures Code(x, n, fold) <= Code(z, n, fold) && n <= |x|
    ensures Code(x, n, fold) != Code(z, n, fold) || n == |x| || j == k
  {
    hide Code;
    SomeCode(x, n, fold);
    SomeCode(y, n, fold);
    SomeCode(z, n, fold);
    if j < k {
      assert Code(y, n, fold) == Code(z, n, fold);
    } else if k < j {
      assert Code(x, n, fold) == Code(y, n, fold);
    }
  }

  // ----- keys -----

  datatype Mode = Plain | Folded | Numeric

  /** key_compare on the texts of two lines. */
  function KeyCompare(mode: Mode, x: string, y: string): int {
    match mode
    case Plain => Lex(x, y, 0, false)
    case Folded => Lex(x, y, 0, true)
    case Numeric =>
      var a, b := ParsedSigned(x, 10), ParsedSigned(y, 10);
      if a < b then -1 else if a > b then 1 else 0
  }

  /** The text of a line: from its place to the end mark. */
  function TextAt(buffer: string, p: int): (t: string)
    ensures NoNul(t)
    decreases |buffer| - p
  {
    if 0 <= p < |buffer| && buffer[p] != NUL then [buffer[p]] + TextAt(buffer, p + 1) else ""
  }

  function Key(buffer: string, mode: Mode): Order { (x, y) => KeyCompare(mode, TextAt(buffer, x), TextAt(buffer, y)) }

  /** Every form of the comparison is a total preorder of the lines. */
  lemma KeyConsistent(buffer: string, mode: Mode)
    ensures Consistent(Key(buffer, mode))
  {
    hide Lex, TextAt, ParsedSigned;
    var key := Key(buffer, mode);
    forall a, b ensures key(a, b) < 0 <==> key(b, a) > 0 {
      Mirrored(mode, TextAt(buffer, a), TextAt(buffer, b));
    }
    forall a, b, c | key(a, b) <= 0 && key(b, c) <= 0 ensures key(a, c) <= 0 {
      Chained(mode, TextAt(buffer, a), TextAt(buffer, b), TextAt(buffer, c));
    }
  }

  lemma Mirrored(mode: Mode, x: string, y: string)
    requires NoNul(x) && NoNul(y)
    ensures KeyCompare(mode, x, y) < 0 <==> KeyCompare(mode, y, x) > 0
  {
    hide Lex, ParsedSigned;
    LexMirror(x, y, false);
    LexMirror(x, y, true);
  }

  lemma Chained(mode: Mode, x: string, y: string, z: string)
    requires NoNul(x) && NoNul(y) && NoNul(z) && KeyCompare(mode, x, y) <= 0 && KeyCompare(mode, y, z) <= 0
    ensures KeyCompare(mode, x, z) <= 0
  {
    hide Lex, ParsedSigned;
    if mode.Plain? { LexThrough(x, y, z, false); }
    if mode.Folded? { LexThrough(x, y, z, true); }
  }

  /** Two lines have the same key exactly if they are the same text, the same text up to
      case, or the same number. */
  lemma SameKey(mode: Mode, x: string, y: string)
    requires NoNul(x) && NoNul(y)
    ensures mode.Plain? ==> (KeyCompare(mode, x, y) == 0 <==> x == y)
    ensures mode.Folded? ==>
      (KeyCompare(mode, x, y) == 0 <==> |x| == |y| && forall i :: 0 <= i < |x| ==> Lower(x[i]) == Lower(y[i]))
    ensures mode.Numeric? ==> (KeyCompare(mode, x, y) == 0 <==> ParsedSigned(x, 10) == ParsedSigned(y, 10))
  {
    hide Lex, ParsedSigned;
    if !mode.Numeric? {
      var fold := mode.Folded?;
      var k := LexAt(x, y, 0, fold);
      if Lex(x, y, 0, fold) == 0 {
        forall i: nat | i < |x| ensures Code(x, i, fold) == Code(y, i, fold) &&
          (if fold then Lower(x[i]) == Lower(y[i]) else x[i] == y[i]) {
          assert Code(x, i, fold) == Code(y, i, fold);
        }
      } else {
        SomeCode(x, k, fold);
        SomeCode(y, k, fold);
        assert Code(x, k, fold) != Code(y, k, fold);
      }
    }
  }

  // ----- lines -----

  /** The buffer once every newline ends a string. */
  function Cut(data: string): (b: string)
    ensures |b| == |data| && forall i :: 0 <= i < |data| ==> b[i] == if data[i] == NEWLINE then NUL else data[i]
  {
    seq(|data|, i requires 0 <= i < |data| => if data[i] == NEWLINE then NUL else data[i])
  }

  /** The first newline from a place on, or the end. */
  function LineEnd(data: string, p: nat): (e: nat)
    requires p <= |data|
    ensures p <= e <= |data| && (e < |data| ==> data[e] == NEWLINE) && forall i :: p <= i < e ==> data[i] != NEWLINE
    decreases |data| - p
  {
    if p < |data| && data[p] != NEWLINE then LineEnd(data, p + 1) else p
  }

  /** Where the lines from a place on start: there is none behind a last newline. */
  function Starts(data: string, p: nat): (s: seq<int>)
    requires p <= |data|
    ensures forall i :: 0 <= i < |s| ==> p <= s[i] < |data|
    decreases |data| - p
  {
    if p == |data| then []
    else if LineEnd(data, p) == |data| then [p]
    else [p as int] + Starts(data, LineEnd(data, p) + 1)
  }

  /** The split loop of main: the newlines are overwritten one by one. */
  method SplitLines(data: string) returns (buffer: string, lines: seq<int>)
    ensures buffer == Cut(data) && lines == Starts(data, 0)
  {
    hide Starts;
    buffer, lines := data, [];
    var position := 0;
    NoLine(data);
    while position < |data|
      invariant 0 <= position <= |data| && |buffer| == |data| && lines + Starts(data, position) == Starts(data, 0)
      invariant forall i :: 0 <= i < |data| ==> buffer[i] == if i < position && data[i] == NEWLINE then NUL else data[i]
      decreases |data| - position
    {
      OneLine(data, position);
      lines := lines + [position];
      var e := MemChr(buffer, position, NEWLINE);
      SameEnd(buffer, data, position);
      if e == |buffer| {
        assert buffer == Cut(data);
        return;
      }
      buffer := buffer[e := NUL];
      position := e + 1;
    }
    NoLine(data);
  }

  lemma NoLine(data: string)
    ensures Starts(data, |data|) == []
  {
  }

  lemma OneLine(data: string, p: nat)
    requires p < |data|
    ensures Starts(data, p) == if LineEnd(data, p) == |data| then [p]
      else [p as int] + Starts(data, LineEnd(data, p) + 1)
  {
  }

  /** memchr, or the end if there is none. */
  method MemChr(s: string, from: nat, c: char) returns (e: nat)
    requires from <= |s|
    ensures from <= e <= |s| && (e < |s| ==> s[e] == c) && forall i :: from <= i < e ==> s[i] != c
  {
    e := from;
    while e < |s| && s[e] != c
      invariant from <= e <= |s| && forall i :: from <= i < e ==> s[i] != c
    {
      e := e + 1;
    }
  }

  lemma SameEnd(a: string, b: string, p: nat)
    requires |a| == |b| && p <= |a| && forall i :: p <= i < |a| ==> a[i] == b[i]
    ensures LineEnd(b, p) <= |a|
    ensures forall e ::
      (p <= e <= |a| && (e < |a| ==> a[e] == NEWLINE) && forall i :: p <= i < e ==> a[i] != NEWLINE) ==>
        e == LineEnd(b, p)
  {
  }

  /** key_compare: strtol, strcasecmp or strcmp on the texts at two places. */
  method CompareKeys(buffer: string, mode: Mode, x: int, y: int) returns (r: int)
    ensures r == Key(buffer, mode)(x, y)
  {
    hide Lex, TextAt, ParsedSigned;
    var s, t := TextAt(buffer, x), TextAt(buffer, y);
    if mode.Numeric? {
      var a := Strtol(s, 10);
      var b := Strtol(t, 10);
      return if a < b then -1 else if a > b then 1 else 0;
    }
    if mode.Folded? {
      r := StrCaseCmp(s, t);
    } else {
      r := StrCmp(s, t);
    }
  }

  // ----- what a split means -----

  /** Lines written one after the other, each with a newline. */
  function Printed(buffer: string, lines: seq<int>): string {
    if lines == [] then "" else Printed(buffer, lines[..|lines| - 1]) + TextAt(buffer, lines[|lines| - 1]) + [NEWLINE]
  }

  lemma {:induction false} PrintedFirst(buffer: string, p: int, rest: seq<int>)
    ensures Printed(buffer, [p] + rest) == TextAt(buffer, p) + [NEWLINE] + Printed(buffer, rest)
    decreases |rest|
  {
    hide TextAt;
    if rest == [] {
      assert [p] + rest == [p] && [p][..0] == [];
    } else {
      var n := |rest| - 1;
      PrintedFirst(buffer, p, rest[..n]);
      assert ([p] + rest)[..|[p] + rest| - 1] == [p] + rest[..n] && ([p] + rest)[|[p] + rest| - 1] == rest[n];
      var a, b, c := TextAt(buffer, p) + [NEWLINE], Printed(buffer, rest[..n]), TextAt(buffer, rest[n]);
      assert a + b + c + [NEWLINE] == a + (b + c + [NEWLINE]);
    }
  }

  /** The text of a line is the data up to the next newline, or to a zero byte before. */
  lemma {:induction false} LineText(data: string, p: nat)
    requires p <= |data| && NoNul(data)
    ensures TextAt(Cut(data), p) == data[p..LineEnd(data, p)]
    decreases |data| - p
  {
    hide Cut;
    var b := Cut(data);
    if p < |data| && data[p] != NEWLINE {
      assert b[p] == data[p] != NUL;
      LineText(data, p + 1);
      assert data[p..LineEnd(data, p)] == [data[p]] + data[p + 1..LineEnd(data, p)];
    }
  }

  /** Text as it is printed: the last line gets a newline if it has none. */
  function Closed(data: string): string {
    if data == "" || data[|data| - 1] == NEWLINE then data else data + [NEWLINE]
  }

  /** Nothing is lost by the split: the lines in their order are the input. */
  lemma {:induction false} SplitWhole(data: string, p: nat)
    requires p <= |data| && NoNul(data)
    ensures Printed(Cut(data), Starts(data, p)) == Closed(data[p..])
    decreases |data| - p
  {
    hide Cut, TextAt, Printed, NoNul;
    if p == |data| {
      NothingPrinted(Cut(data));
    } else {
      var e := LineEnd(data, p);
      LineText(data, p);
      if e == |data| {
        PrintedFirst(Cut(data), p, []);
        NothingPrinted(Cut(data));
        assert data[p..e] == data[p..] && [p as int] + [] == [p as int];
        assert data[p..][|data[p..]| - 1] == data[|data| - 1];
        assert data[p..] + [NEWLINE] + "" == data[p..] + [NEWLINE];
      } else {
        SplitWhole(data, e + 1);
        PrintedFirst(Cut(data), p, Starts(data, e + 1));
        assert data[p..] == data[p..e] + [NEWLINE] + data[e + 1..];
        ClosedMore(data[p..e] + [NEWLINE], data[e + 1..]);
      }
    }
  }

  lemma NothingPrinted(buffer: string)
    ensures Printed(buffer, []) == ""
  {
  }

  lemma ClosedMore(a: string, b: string)
    requires a != "" && a[|a| - 1] == NEWLINE
    ensures Closed(a + b) == a + Closed(b)
  {
    if b == "" { assert a + b == a; } else { assert a + b + [NEWLINE] == a + (b + [NEWLINE]); }
  }
}
