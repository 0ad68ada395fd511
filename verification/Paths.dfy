/** Path normalisation and resolution of src/fs/vfs.c, in place in one buffer. */
module Paths {
  const EINVAL := -22
  const ENOENT := -2
  const ENAMETOOLONG := -36
  const NUL := '\0'

  // ----- what a path means -----

  /** How far the component at the front reaches. */
  function Span(s: string): (n: nat)
    ensures n <= |s| && (forall i :: 0 <= i < n ==> s[i] != '/') && (n < |s| ==> s[n] == '/')
  {
    if s == "" || s[0] == '/' then 0 else 1 + Span(s[1..])
  }

  /** The components between slashes; empty ones do not count. */
  function Components(s: string): (c: seq<string>)
    decreases |s|
  {
    if s == "" then [] else if s[0] == '/' then Components(s[1..]) else [s[..Span(s)]] + Components(s[Span(s)..])
  }

  /** One component applied to a stack of directories. */
  function Enter(stack: seq<string>, c: string): seq<string> {
    if c == "." then stack
    else if c == ".." then (if stack == [] then [] else stack[..|stack| - 1])
    else stack + [c]
  }

  function Walk(stack: seq<string>, cs: seq<string>): seq<string>
    decreases |cs|
  {
    if cs == [] then stack else Walk(Enter(stack, cs[0]), cs[1..])
  }

  function Tail(stack: seq<string>): string {
    if stack == [] then "" else Tail(stack[..|stack| - 1]) + "/" + stack[|stack| - 1]
  }

  function Render(stack: seq<string>): string { if stack == [] then "/" else Tail(stack) }

  /** The normal form of an absolute path. */
  function Normal(s: string): string { Render(Walk([], Components(s))) }

  ghost predicate Plain(c: string) { c != "" && c != "." && c != ".." && '/' !in c && NUL !in c }

  ghost predicate AllPlain(stack: seq<string>) { forall i :: 0 <= i < |stack| ==> Plain(stack[i]) }

  ghost predicate Whole(c: string) { c != "" && '/' !in c && NUL !in c }

  ghost predicate AllWhole(cs: seq<string>) { forall i :: 0 <= i < |cs| ==> Whole(cs[i]) }

  lemma {:induction false} ComponentsWhole(s: string)
    requires NUL !in s
    ensures AllWhole(Components(s))
    decreases |s|
  {
    if s != "" {
      if s[0] == '/' { ComponentsWhole(s[1..]); } else { ComponentsWhole(s[Span(s)..]); }
    }
  }

  lemma EnterPlain(stack: seq<string>, c: string)
    requires AllPlain(stack) && Whole(c)
    ensures AllPlain(Enter(stack, c))
  {
  }

  lemma {:induction false} WalkPlain(stack: seq<string>, cs: seq<string>)
    requires AllPlain(stack) && AllWhole(cs)
    ensures AllPlain(Walk(stack, cs))
    decreases |cs|
  {
    if cs != [] {
      EnterPlain(stack, cs[0]);
      WalkPlain(Enter(stack, cs[0]), cs[1..]);
    }
  }

  lemma {:induction false} WalkConcat(stack: seq<string>, a: seq<string>, b: seq<string>)
    ensures Walk(stack, a + b) == Walk(Walk(stack, a), b)
    decreases |a|
  {
    if a == [] {
      assert a + b == b;
    } else {
      WalkConcat(Enter(stack, a[0]), a[1..], b);
      assert (a + b)[0] == a[0] && (a + b)[1..] == a[1..] + b;
    }
  }

  /** A stack of plain names is built by walking them. */
  lemma {:induction false} WalkNames(stack: seq<string>, names: seq<string>)
    requires AllPlain(names)
    ensures Walk(stack, names) == stack + names
    decreases |names|
  {
    if names == [] {
      assert stack + names == stack;
    } else {
      WalkNames(stack + [names[0]], names[1..]);
      assert stack + [names[0]] + names[1..] == stack + names;
    }
  }

  lemma {:induction false} SpanPrefix(c: string, rest: string)
    requires '/' !in c && (rest == "" || rest[0] == '/')
    ensures Span(c + rest) == |c|
  {
    if c == "" {
      assert c + rest == rest;
    } else {
      SpanPrefix(c[1..], rest);
      assert (c + rest)[1..] == c[1..] + rest;
    }
  }

  lemma ComponentsStep(c: string, rest: string)
    requires c != "" && '/' !in c && (rest == "" || rest[0] == '/')
    ensures Components(c + rest) == [c] + Components(rest)
  {
    SpanPrefix(c, rest);
    assert (c + rest)[..|c|] == c && (c + rest)[|c|..] == rest;
  }

  lemma ComponentsSlash(s: string)
    ensures Components("/" + s) == Components(s)
  {
    assert ("/" + s)[1..] == s;
  }

  /** A slash separates components. */
  lemma {:induction false} ComponentsJoin(a: string, b: string)
    ensures Components(a + "/" + b) == Components(a) + Components(b)
    decreases |a|
  {
    hide Components, Span;
    if a == "" {
      assert a + "/" + b == "/" + b;
      ComponentsSlash(b);
      ComponentsEmpty();
    } else if a[0] == '/' {
      assert a == "/" + a[1..] && a + "/" + b == "/" + (a[1..] + "/" + b);
      ComponentsSlash(a[1..]);
      ComponentsSlash(a[1..] + "/" + b);
      ComponentsJoin(a[1..], b);
    } else {
      var n := Span(a);
      FirstIsNot(a);
      var c, rest := a[..n], a[n..];
      assert a == c + rest && a + "/" + b == c + (rest + "/" + b);
      ComponentsStep(c, rest);
      ComponentsStep(c, rest + "/" + b);
      ComponentsJoin(rest, b);
      assert [c] + (Components(rest) + Components(b)) == [c] + Components(rest) + Components(b);
    }
  }

  lemma ComponentsEmpty()
    ensures Components("") == []
  {
  }

  lemma FirstIsNot(a: string)
    requires a != "" && a[0] != '/'
    ensures Span(a) > 0
  {
  }

  lemma ComponentsOne(c: string)
    requires Whole(c)
    ensures Components(c) == [c]
  {
    assert c + "" == c;
    SpanPrefix(c, "");
    assert c[|c|..] == "";
  }

  lemma {:induction false} ComponentsTail(stack: seq<string>)
    requires AllPlain(stack)
    ensures Components(Tail(stack)) == stack
  {
    if stack != [] {
      var n := |stack| - 1;
      ComponentsTail(stack[..n]);
      ComponentsJoin(Tail(stack[..n]), stack[n]);
      ComponentsOne(stack[n]);
    }
  }

  lemma ComponentsRender(stack: seq<string>)
    requires AllPlain(stack)
    ensures Components(Render(stack)) == stack
  {
    ComponentsTail(stack);
    if stack == [] { assert "/"[1..] == ""; }
  }

  // ----- laws of normal forms -----

  /** The normal form has only plain components: none empty, no dots. */
  lemma NormalPlain(s: string)
    requires NUL !in s
    ensures AllPlain(Components(Normal(s))) && Components(Normal(s)) == Walk([], Components(s))
  {
    ComponentsWhole(s);
    WalkPlain([], Components(s));
    ComponentsRender(Walk([], Components(s)));
  }

  /** Normalising twice changes nothing. */
  lemma Idempotent(s: string)
    requires NUL !in s
    ensures Normal(Normal(s)) == Normal(s)
  {
    NormalPlain(s);
    WalkNames([], Components(Normal(s)));
    assert [] + Components(Normal(s)) == Components(Normal(s));
  }

  /** The path a relative or absolute one stands for, seen from a directory. */
  function Resolved(cwd: string, path: string): string {
    if path != "" && path[0] == '/' then Normal(path)
    else if cwd == "" || cwd[0] != '/' then Normal("/" + path)
    else Normal(if |cwd| > 1 then cwd + "/" + path else cwd + path)
  }

  lemma Relative(cwd: string, path: string)
    requires cwd != "" && cwd[0] == '/' && (path == "" || path[0] != '/')
    ensures Resolved(cwd, path) == Render(Walk(Walk([], Components(cwd)), Components(path)))
  {
    if |cwd| > 1 {
      ComponentsJoin(cwd, path);
      WalkConcat([], Components(cwd), Components(path));
    } else {
      assert cwd == "/" && (cwd + path)[1..] == path;
      assert "/"[1..] == "";
    }
  }

  /** Two steps are one: resolving b against what a resolves to is resolving a/b. */
  lemma Compose(cwd: string, a: string, b: string)
    requires cwd != "" && cwd[0] == '/' && a != "" && b != "" && b[0] != '/' && NUL !in cwd && NUL !in a
    ensures Resolved(Resolved(cwd, a), b) == Resolved(cwd, a + "/" + b)
  {
    ComponentsJoin(a, b);
    if a[0] == '/' {
      TwoSteps(a, b);
      WalkConcat([], Components(a), Components(b));
    } else {
      Relative(cwd, a);
      Relative(cwd, a + "/" + b);
      var full := if |cwd| > 1 then cwd + "/" + a else cwd + a;
      TwoSteps(full, b);
      if |cwd| > 1 { ComponentsJoin(cwd, a); } else { assert full[1..] == a; assert "/"[1..] == ""; }
      WalkConcat([], Components(cwd), Components(a));
      WalkConcat(Walk([], Components(cwd)), Components(a), Components(b));
    }
  }

  lemma TwoSteps(s: string, b: string)
    requires NUL !in s && b != "" && b[0] != '/'
    ensures Resolved(Normal(s), b) == Render(Walk(Walk([], Components(s)), Components(b)))
  {
    NormalPlain(s);
    RenderStarts(Walk([], Components(s)));
    Relative(Normal(s), b);
    WalkNames([], Components(Normal(s)));
    assert [] + Components(Normal(s)) == Components(Normal(s));
  }

  lemma {:induction false} RenderStarts(stack: seq<string>)
    ensures Render(stack) != "" && Render(stack)[0] == '/'
  {
    if |stack| > 1 {
      RenderStarts(stack[..|stack| - 1]);
    } else if |stack| == 1 {
      assert stack[..0] == [] && Tail(stack) == "" + "/" + stack[0];
      assert ("" + "/" + stack[0])[0] == '/';
    }
  }

  // ----- in place -----

  /** The C string in a buffer. */
  ghost predicate Holds(buf: array<char>, n: nat, s: string)
    reads buf
  {
    n < buf.Length && buf[..n] == s && buf[n] == NUL && NUL !in s
  }

  /** The text from a position on is still in the buffer. */
  ghost predicate Unread(path: array<char>, cursor: nat, n: nat, s: string)
    reads path
  {
    n == |s| && cursor <= n < path.Length && path[n] == NUL && forall i :: cursor <= i < n ==> path[i] == s[i]
  }

  lemma {:induction false} SkipSlashes(s: string, a: nat, b: nat)
    requires a <= b <= |s| && forall i :: a <= i < b ==> s[i] == '/'
    ensures Components(s[a..]) == Components(s[b..])
    decreases b - a
  {
    if a < b {
      assert s[a..][1..] == s[a + 1..];
      SkipSlashes(s, a + 1, b);
    }
  }

  lemma FirstComponent(s: string, a: nat, b: nat)
    requires a < b <= |s| && (forall i :: a <= i < b ==> s[i] != '/') && (b < |s| ==> s[b] == '/')
    ensures Components(s[a..]) == [s[a..b]] + Components(s[b..])
  {
    var t := s[a..];
    assert t == s[a..b] + s[b..];
    SpanPrefix(s[a..b], s[b..]);
    assert t[..b - a] == s[a..b] && t[b - a..] == s[b..];
  }

  lemma {:induction false} TailSize(stack: seq<string>)
    requires AllPlain(stack)
    ensures stack == [] <==> Tail(stack) == ""
    ensures stack != [] ==> |Tail(stack)| >= 2 && Tail(stack) == Tail(stack[..|stack| - 1]) + "/" + stack[|stack| - 1]
  {
  }

  /** The last slash of a rendered stack is the one before its top. */
  lemma LastSlash(stack: seq<string>)
    requires AllPlain(stack) && stack != []
    ensures var k := |Tail(stack[..|stack| - 1])|; var text := Render(stack);
      && k < |text| && text[k] == '/' && (forall i :: k < i < |text| ==> text[i] != '/')
      && text[..k] == Tail(stack[..|stack| - 1]) && text[..1] == "/" && (k == 0 <==> |stack| == 1)
  {
    TailSize(stack);
    TailSize(stack[..|stack| - 1]);
    RenderStarts(stack);
  }

  lemma RenderPush(stack: seq<string>, c: string)
    requires AllPlain(stack)
    ensures Render(stack + [c]) == if stack == [] then Render(stack) + c else Render(stack) + "/" + c
    ensures |Render(stack)| == 1 <==> stack == []
  {
    TailSize(stack);
    assert (stack + [c])[..|stack|] == stack;
    if stack == [] { assert Tail(stack + [c]) == "" + "/" + c; assert "" + "/" + c == "/" + c; }
  }

  /** Back over the last component and the slash before it. */
  method Pop(path: array<char>, length: nat, ghost stack: seq<string>) returns (len: nat)
    requires length <= path.Length && path[..length] == Render(stack) && AllPlain(stack)
    ensures 1 <= len <= length && path[..len] == Render(Enter(stack, ".."))
  {
    hide Tail, AllPlain;
    len := length;
    RenderPush(stack, "");
    if stack != [] { LastSlash(stack); }
    ghost var text := path[..length];
    assert forall i :: 0 <= i < length ==> path[i] == text[i];
    while len > 1 && path[len - 1] != '/'
      invariant 1 <= len <= length && (stack != [] ==> |Tail(stack[..|stack| - 1])| < len)
    {
      len := len - 1;
    }
    if len > 1 { len := len - 1; }
    assert path[..len] == text[..len];
  }

  /** A component moved down behind a slash. */
  method Push(path: array<char>, length: nat, start: nat, part: nat, ghost stack: seq<string>, ghost c: string)
    returns (len: nat)
    requires 1 <= length <= start && start + part <= path.Length && (length > 1 ==> length < start)
    requires path[..length] == Render(stack) && AllPlain(stack) && Plain(c) && path[start..start + part] == c
    modifies path
    ensures length < len <= start + part && path[..len] == Render(stack + [c])
    ensures forall i :: start + part <= i < path.Length ==> path[i] == old(path[i])
  {
    hide Tail, AllPlain, Render;
    RenderPush(stack, c);
    len := length;
    if len > 1 {
      path[len] := '/';
      len := len + 1;
      assert path[..len] == old(path[..length]) + "/" && path[start..start + part] == c;
    }
    MoveDown(path, len, start, part);
    assert path[..len + part] == path[..len] + path[len..len + part];
    len := len + part;
  }

  /** memmove towards the front. */
  method MoveDown(path: array<char>, at: nat, start: nat, part: nat)
    requires at <= start && start + part <= path.Length
    modifies path
    ensures path[at..at + part] == old(path[start..start + part]) && path[..at] == old(path[..at])
    ensures forall i :: at + part <= i < path.Length ==> path[i] == old(path[i])
  {
    forall i | at <= i < at + part { path[i] := path[i + (start - at)]; }
  }

  method PastSlashes(path: array<char>, from: nat, ghost n: nat, ghost s: string) returns (cursor: nat)
    requires Unread(path, from, n, s) && NUL !in s
    ensures from <= cursor <= n && Unread(path, cursor, n, s) && (cursor == n || s[cursor] != '/')
    ensures (from < n && s[from] == '/' ==> from < cursor) && Components(s[from..]) == Components(s[cursor..])
  {
    cursor := from;
    while path[cursor] == '/'
      invariant from <= cursor && Unread(path, cursor, n, s) && forall i :: from <= i < cursor ==> s[i] == '/'
      decreases n - cursor
    {
      cursor := cursor + 1;
    }
    SkipSlashes(s, from, cursor);
  }

  method PastComponent(path: array<char>, start: nat, ghost n: nat, ghost s: string) returns (cursor: nat)
    requires Unread(path, start, n, s) && NUL !in s && start < n && s[start] != '/'
    ensures start < cursor <= n && Unread(path, cursor, n, s) && (cursor < n ==> s[cursor] == '/')
    ensures path[start..cursor] == s[start..cursor] && Whole(s[start..cursor])
    ensures Components(s[start..]) == [s[start..cursor]] + Components(s[cursor..])
  {
    cursor := start;
    while path[cursor] != NUL && path[cursor] != '/'
      invariant start <= cursor && Unread(path, cursor, n, s) && forall i :: start <= i < cursor ==> s[i] != '/'
      decreases n - cursor
    {
      cursor := cursor + 1;
    }
    FirstComponent(s, start, cursor);
  }

  /** vfs_normalize_path: the buffer ends up with the normal form; writing never
      overtakes reading, so nothing behind the old text is touched. */
  method Normalize(path: array<char>, ghost n: nat, ghost s: string) returns (r: int, ghost m: nat)
    requires Holds(path, n, s)
    modifies path
    ensures s == "" || s[0] != '/' ==> r == EINVAL && path[..] == old(path[..])
    ensures s != "" && s[0] == '/' ==> r == 0 && m <= n && Holds(path, m, Normal(s))
    ensures forall i :: n < i < path.Length ==> path[i] == old(path[i])
  {
    hide Components, Walk, Render, Span, Normal, AllPlain;
    m := 0;
    assert |s| == n && forall i :: 0 <= i < n ==> path[i] == path[..n][i];
    if path[0] != '/' { return EINVAL, 0; }
    var length, cursor := 1, 1;
    ghost var stack: seq<string> := [];
    Begin(s);
    assert path[..1] == s[..1];
    while path[cursor] != NUL
      invariant 1 <= length <= cursor && Unread(path, cursor, n, s)
      invariant forall i :: n < i < path.Length ==> path[i] == old(path[i])
      invariant path[..length] == Render(stack) && AllPlain(stack)
      invariant length > 1 && cursor < n ==> s[cursor] == '/'
      invariant Walk(stack, Components(s[cursor..])) == Walk([], Components(s))
      decreases n - cursor
    {
      var start := PastSlashes(path, cursor, n, s);
      if path[start] == NUL {
        cursor := start;
        break;
      }
      cursor := PastComponent(path, start, n, s);
      ghost var c := s[start..cursor];
      WalkOne(stack, c, Components(s[cursor..]));
      length := Apply(path, length, start, cursor - start, stack, c);
      EnterPlain(stack, c);
      stack := Enter(stack, c);
    }
    Finished(s, stack, cursor);
    RenderClean(stack);
    path[length] := NUL;
    assert path[..length] == Render(stack);
    return 0, length;
  }

  /** One component, in the text written so far. */
  method Apply(path: array<char>, length: nat, start: nat, part: nat, ghost stack: seq<string>, ghost c: string)
    returns (len: nat)
    requires 1 <= length <= start && start + part <= path.Length && (length > 1 ==> length < start) && part > 0
    requires path[..length] == Render(stack) && AllPlain(stack) && Whole(c) && path[start..start + part] == c
    modifies path
    ensures 1 <= len <= start + part && path[..len] == Render(Enter(stack, c))
    ensures forall i :: start + part <= i < path.Length ==> path[i] == old(path[i])
  {
    hide Render, AllPlain;
    assert |c| == part && path[start] == c[0] && (part == 2 ==> path[start + 1] == c[1]);
    if part == 1 && path[start] == '.' {
      assert c == ".";
      return length;
    }
    if part == 2 && path[start] == '.' && path[start + 1] == '.' {
      assert c == "..";
      len := Pop(path, length, stack);
      return;
    }
    len := Push(path, length, start, part, stack, c);
  }

  lemma Begin(s: string)
    requires s != "" && s[0] == '/'
    ensures "/" == Render([]) && AllPlain([]) && Walk([], Components(s[1..])) == Walk([], Components(s))
    ensures s[..1] == "/"
  {
  }

  lemma WalkOne(stack: seq<string>, c: string, rest: seq<string>)
    ensures Walk(stack, [c] + rest) == Walk(Enter(stack, c), rest)
  {
    assert ([c] + rest)[1..] == rest;
  }

  lemma Finished(s: string, stack: seq<string>, cursor: nat)
    requires cursor == |s| && Walk(stack, Components(s[cursor..])) == Walk([], Components(s))
    ensures Render(stack) == Normal(s)
  {
  }

  lemma {:induction false} RenderClean(stack: seq<string>)
    requires AllPlain(stack)
    ensures NUL !in Render(stack) && NUL !in Tail(stack)
  {
    if stack != [] { RenderClean(stack[..|stack| - 1]); }
  }

  /** vfs_resolve_path: the normal form of the path seen from a directory, if both
      fit into the buffer. */
  method Resolve(cwd: string, path: string, out: array<char>) returns (r: int, ghost m: nat)
    requires NUL !in cwd && NUL !in path
    modifies out
    ensures out.Length == 0 ==> r == EINVAL
    ensures out.Length > 0 && path == "" ==> r == ENOENT
    ensures out.Length > 0 && path != "" ==> (r == ENAMETOOLONG <==> TooLong(cwd, path, out.Length))
    ensures out.Length > 0 && path != "" && !TooLong(cwd, path, out.Length) ==>
      r == 0 && Holds(out, m, Resolved(cwd, path))
  {
    hide Normal;
    m := 0;
    if out.Length == 0 { return EINVAL, 0; }
    if path == "" { return ENOENT, 0; }
    var used := 0;
    ghost var text := path;
    if path[0] != '/' {
      var from := if cwd == "" || cwd[0] != '/' then "/" else cwd;
      if |from| + 1 >= out.Length { return ENAMETOOLONG, 0; }
      CopyIn(out, 0, from);
      used := |from|;
      text := from + path;
      if used > 1 {
        out[used] := '/';
        used := used + 1;
        text := from + "/" + path;
      }
      assert out[..used] + path == text;
    }
    if used + |path| >= out.Length { return ENAMETOOLONG, 0; }
    CopyIn(out, used, path);
    out[used + |path|] := NUL;
    assert out[..used + |path|] == out[..used] + path;
    r, m := Normalize(out, used + |path|, text);
  }

  predicate TooLong(cwd: string, path: string, capacity: nat)
    requires path != ""
  {
    if path[0] == '/' then |path| >= capacity
    else
      var from := if cwd == "" || cwd[0] != '/' then "/" else cwd;
      |from| + 1 >= capacity || |from| + (if |from| > 1 then 1 else 0) + |path| >= capacity
  }

  /** memcpy into the buffer. */
  method CopyIn(out: array<char>, at: nat, s: string)
    requires at + |s| <= out.Length
    modifies out
    ensures out[..at] == old(out[..at]) && out[at..at + |s|] == s
  {
    forall i | at <= i < at + |s| { out[i] := s[i - at]; }
  }
}
