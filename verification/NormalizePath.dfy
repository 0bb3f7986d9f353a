/** Normalising a path: a stack of at most eight components, of which at most two may remain. */
module NormalizePath {
  import opened Bytes
  import opened Directory
  import opened FileSystem

  const MAX_DEPTH := 8
  const MAX_NAME := 63
  const DOT: CString := [0x2E]
  const DOT_DOT: CString := [0x2E, 0x2E]
  const ROOT_PATH: CString := [SLASH]

  // ----- taking a path apart

  /** The path without slashes at its start. */
  function SkipSlashes(p: CString): (q: CString)
    ensures |q| <= |p| && (q != [] ==> q[0] != SLASH)
  {
    if p != [] && p[0] == SLASH then SkipSlashes(p[1..]) else p
  }

  /** How many of the first n characters come before a slash. */
  function NameLength(p: CString, n: nat): (k: nat)
    ensures k <= |p| && k <= n && SLASH !in p[..k]
    ensures k < n && k < |p| ==> p[k] == SLASH
  {
    if n == 0 || p == [] || p[0] == SLASH then 0
    else
      var k := NameLength(p[1..], n - 1);
      assert p[..k + 1] == [p[0]] + p[1..][..k];
      k + 1
  }

  /** What a component does to the stack. */
  function Push(stack: seq<CString>, c: CString): seq<CString>
  {
    if c == DOT then stack
    else if c == DOT_DOT then (if stack == [] then [] else stack[..|stack| - 1])
    else stack + [c]
  }

  /** The components left when the rest p of the path has been walked through. Names are cut into pieces of 63
      characters, and the walk ends once there are eight components. */
  function Walk(p: CString, stack: seq<CString>): seq<CString>
    decreases |p|
  {
    if p == [] || |stack| >= MAX_DEPTH then stack
    else
      var q := SkipSlashes(p);
      if q == [] then stack
      else
        var k := NameLength(q, MAX_NAME);
        Walk(q[k..], Push(stack, q[..k]))
  }

  /** The path that a path stands for in a directory. */
  function Input(current: CString, path: CString): CString
  {
    if path != [] && path[0] == SLASH then path
    else if current == ROOT_PATH then ROOT_PATH + path
    else current + [SLASH] + path
  }

  /** Components put together again. */
  function Joined(stack: seq<CString>): CString
  {
    if stack == [] then ROOT_PATH
    else if |stack| == 1 then [SLASH] + stack[0]
    else Joined(stack[..|stack| - 1]) + [SLASH] + stack[|stack| - 1]
  }

  /** The path of a stack of components; views do not nest, so more than two are an error. */
  function PathOf(stack: seq<CString>): Option<CString>
  {
    if |stack| > 2 then None else Some(Joined(stack))
  }

  /** The normalised path. */
  function Normalized(current: CString, path: CString): Option<CString>
  {
    PathOf(Walk(StripSlash(Input(current, path)), []))
  }

  // ----- the algorithm

  /** The first n characters. */
  function Cut(s: CString, n: nat): CString
  {
    if |s| <= n then s else s[..n]
  }

  /** How many characters fit a buffer whose length was cut to a signed 32-bit int. The first slash is written
      in any case. */
  function Limit(maxLen: U64): (n: nat)
    ensures 1 <= n
  {
    var room := AsInt(maxLen % 0x1_0000_0000) - 1;
    if room < 1 then 1 else room
  }

  /** Only the low 32 bits of the length count, and as a signed number: from 2^31 on there is room for the slash
      alone. */
  lemma LimitWraps(maxLen: U64)
    ensures Limit(maxLen) == Limit(maxLen % 0x1_0000_0000)
    ensures 0x8000_0000 <= maxLen % 0x1_0000_0000 || maxLen % 0x1_0000_0000 < 2 ==> Limit(maxLen) == 1
  {
  }

  /** With the NUL behind it the output fits the buffer, and it is cut only if it would not. */
  lemma LimitFits(out: CString, maxLen: U64)
    requires 2 <= maxLen < 0x8000_0000
    ensures |Cut(out, Limit(maxLen))| + 1 <= maxLen && Cut(out, Limit(maxLen)) <= out
    ensures Cut(out, Limit(maxLen)) == out <==> |out| + 1 <= maxLen
  {
  }

  /** Normalises a path into a buffer of maxLen bytes. A path with components is cut to fit. */
  method Normalize(current: CString, path: CString, maxLen: U64) returns (r: Option<CString>)
    requires maxLen != 1 && maxLen % 0x1_0000_0000 != 0x8000_0000
    requires path == [] || path[0] != SLASH ==> |Input(current, path)| < 256
    ensures r == if maxLen == 0 then None
                 else match Normalized(current, path)
                      case None => None
                      case Some(out) => Some(Cut(out, Limit(maxLen)))
  {
    if maxLen == 0 {
      return None;
    }
    var input := Input(current, path);
    var stack, count := Collect(StripSlash(input));
    if count == 0 {
      return Some(ROOT_PATH);
    }
    if count > 2 {
      return None;
    }
    var out := Build(stack, count, Limit(maxLen));
    return Some(out);
  }

  /** Collects the components in an array of eight. */
  method Collect(p0: CString) returns (components: array<CString>, count: nat)
    ensures components.Length == MAX_DEPTH && count <= MAX_DEPTH && components[..count] == Walk(p0, [])
  {
    components := new CString[MAX_DEPTH](_ => []);
    count := 0;
    var p: CString := p0;
    assert components[..0] == [];
    while p != [] && count < MAX_DEPTH
      invariant count <= MAX_DEPTH && Walk(p, components[..count]) == Walk(p0, [])
      decreases |p|
    {
      var q := SkipSlashes(p);
      if q == [] {
        p := q;
        break;
      }
      var k := NameLength(q, MAX_NAME);
      ghost var stack := components[..count];
      components[count] := q[..k];
      assert components[..count] == stack && components[..count + 1] == stack + [q[..k]];
      p := q[k..];
      if components[count] == DOT {
        continue;
      } else if components[count] == DOT_DOT {
        if count > 0 {
          count := count - 1;
          assert components[..count] == stack[..|stack| - 1];
        }
        continue;
      }
      count := count + 1;
    }
  }

  /** Writes the components to the output while there is room for them. */
  method Build(components: array<CString>, count: nat, limit: nat) returns (out: CString)
    requires components.Length == MAX_DEPTH && 1 <= count <= 2 && 1 <= limit
    ensures out == Cut(Joined(components[..count]), limit)
  {
    hide Cut, Joined;
    ghost var stack: seq<CString> := components[..count];
    out := ROOT_PATH;
    var i := 0;
    RootFits(stack, limit);
    while i < count && |out| < limit
      invariant i <= count && out == Cut(Front(stack, i), limit)
    {
      ghost var done := Front(stack, i);
      FrontNext(stack, i, limit);
      out := Append(out, components[i], limit, done);
      if i < count - 1 && |out| < limit {
        CutSlash(done + components[i], limit);
        out := out + [SLASH];
      }
      i := i + 1;
    }
    FrontAll(stack, i, limit);
  }

  /** Writes the characters of one component while there is room for them. */
  method Append(out: CString, c: CString, n: nat, ghost done: CString) returns (out': CString)
    requires out == Cut(done, n)
    ensures out' == Cut(done + c, n)
  {
    out' := out;
    var j := 0;
    assert done + c[..0] == done;
    while j < |c| && |out'| < n
      invariant j <= |c| && out' == Cut(done + c[..j], n)
    {
      assert done + c[..j + 1] == done + c[..j] + [c[j]];
      out' := out' + [c[j]];
      j := j + 1;
    }
    CutEnd(done, c, j, n);
  }

  /** What has been written after i components of at most two. */
  function Front(stack: seq<CString>, i: nat): CString
    requires i <= |stack|
  {
    if i == 0 then ROOT_PATH
    else if i < |stack| then Front(stack, i - 1) + stack[i - 1] + [SLASH]
    else Front(stack, i - 1) + stack[i - 1]
  }

  lemma RootFits(stack: seq<CString>, n: nat)
    requires 1 <= n
    ensures Cut(Front(stack, 0), n) == ROOT_PATH
  {
  }

  lemma FrontNext(stack: seq<CString>, i: nat, n: nat)
    requires i < |stack|
    ensures Front(stack, i + 1) == Front(stack, i) + stack[i] + (if i + 1 < |stack| then [SLASH] else [])
    ensures |Cut(Front(stack, i) + stack[i], n)| >= n
            ==> Cut(Front(stack, i + 1), n) == Cut(Front(stack, i) + stack[i], n)
    ensures i + 1 == |stack| ==> Front(stack, i + 1) == Front(stack, i) + stack[i]
  {
    CutMore(Front(stack, i) + stack[i], if i + 1 < |stack| then [SLASH] else [], n);
  }

  lemma CutSlash(done: CString, n: nat)
    requires |Cut(done, n)| < n
    ensures Cut(done + [SLASH], n) == Cut(done, n) + [SLASH]
  {
  }

  lemma FrontAll(stack: seq<CString>, i: nat, n: nat)
    requires 1 <= |stack| <= 2 && i <= |stack| && (i < |stack| ==> |Cut(Front(stack, i), n)| >= n)
    ensures Cut(Front(stack, i), n) == Cut(Joined(stack), n)
  {
    JoinedIs(stack);
    assert Front(stack, 1) == ROOT_PATH + stack[0] + (if |stack| == 2 then [SLASH] else []);
    if i < |stack| {
      CutPrefix(Front(stack, i), Joined(stack), n);
    }
  }

  lemma JoinedIs(stack: seq<CString>)
    requires 1 <= |stack| <= 2
    ensures Joined(stack) == if |stack| == 1 then [SLASH] + stack[0] else [SLASH] + stack[0] + [SLASH] + stack[1]
  {
    if |stack| == 2 {
      assert |stack[..1]| == 1 && stack[..1][0] == stack[0];
    }
  }

  /** Once the output is full, the rest of a component changes nothing. */
  lemma CutEnd(done: CString, c: CString, j: nat, n: nat)
    requires j <= |c| && (j < |c| ==> |Cut(done + c[..j], n)| >= n)
    ensures Cut(done + c[..j], n) == Cut(done + c, n)
  {
    if j < |c| {
      assert (done + c)[..n] == (done + c[..j])[..n];
    } else {
      assert c[..j] == c;
    }
  }

  lemma CutMore(done: CString, more: CString, n: nat)
    ensures |Cut(done, n)| >= n ==> Cut(done + more, n) == Cut(done, n)
  {
    if |done| >= n {
      assert (done + more)[..n] == done[..n];
    }
  }

  lemma CutPrefix(done: CString, whole: CString, n: nat)
    requires done <= whole && |Cut(done, n)| >= n
    ensures Cut(done, n) == Cut(whole, n)
  {
    assert whole[..n] == done[..n];
  }

  // ----- the usual meaning of a path

  /** The components of a path: what stands between slashes. */
  function Components(p: CString): seq<CString>
    decreases |p|
  {
    var q := SkipSlashes(p);
    if q == [] then []
    else
      var k := NameLength(q, |q|);
      [q[..k]] + Components(q[k..])
  }

  /** The usual meaning of "." and "..": a stack of any depth. */
  function Resolved(parts: seq<CString>, stack: seq<CString>): seq<CString>
  {
    if parts == [] then stack else Resolved(parts[1..], Push(stack, parts[0]))
  }

  lemma {:induction false} ResolvedAppend(a: seq<CString>, b: seq<CString>, stack: seq<CString>)
    ensures Resolved(a + b, stack) == Resolved(b, Resolved(a, stack))
    decreases |a|
  {
    if a == [] {
      assert a + b == b;
    } else {
      assert (a + b)[0] == a[0] && (a + b)[1..] == a[1..] + b;
      ResolvedAppend(a[1..], b, Push(stack, a[0]));
    }
  }

  /** A dot means nothing, wherever it is. */
  lemma DotIgnored(a: seq<CString>, b: seq<CString>)
    ensures Resolved(a + [DOT] + b, []) == Resolved(a + b, [])
  {
    ResolvedAppend(a + [DOT], b, []);
    ResolvedAppend(a, [DOT], []);
    ResolvedAppend(a, b, []);
    ResolvedOne(DOT, Resolved(a, []));
  }

  /** Two dots take back the name before them. */
  lemma DotDotCancels(a: seq<CString>, c: CString, b: seq<CString>)
    requires NameOk(c)
    ensures Resolved(a + [c] + [DOT_DOT] + b, []) == Resolved(a + b, [])
  {
    ResolvedAppend(a + [c] + [DOT_DOT], b, []);
    ResolvedAppend(a + [c], [DOT_DOT], []);
    ResolvedAppend(a, [c], []);
    ResolvedAppend(a, b, []);
    ResolvedOne(c, Resolved(a, []));
    ResolvedOne(DOT_DOT, Resolved(a, []) + [c]);
    assert (Resolved(a, []) + [c])[..|Resolved(a, [])|] == Resolved(a, []);
  }

  /** Names mean themselves. */
  lemma {:induction false} NamesStay(parts: seq<CString>, stack: seq<CString>)
    requires AllOk(parts)
    ensures Resolved(parts, stack) == stack + parts
    decreases |parts|
  {
    if parts != [] {
      NamesStay(parts[1..], stack + [parts[0]]);
      assert parts == [parts[0]] + parts[1..];
    }
  }

  /** At the root two dots mean nothing. */
  lemma RootDotDot(parts: seq<CString>)
    ensures Resolved([DOT_DOT] + parts, []) == Resolved(parts, [])
  {
    assert ([DOT_DOT] + parts)[1..] == parts;
  }

  lemma ResolvedOne(c: CString, stack: seq<CString>)
    ensures Resolved([c], stack) == Push(stack, c)
  {
    assert [c][1..] == [];
  }

  lemma {:induction false} ComponentsAppend(a: CString, b: CString)
    ensures Components(a + [SLASH] + b) == Components(a) + Components(b)
    decreases |a|
  {
    var q, whole := SkipSlashes(a), a + [SLASH] + b;
    SkipAppend(a, b);
    if q != [] {
      var k, rest := NameLength(q, |q|), q + [SLASH] + b;
      LengthAppend(q, b, |q|, |rest|);
      assert rest[..k] == q[..k] && rest[k..] == q[k..] + [SLASH] + b;
      NameSome(q);
      ComponentsAppend(q[k..], b);
    }
  }

  lemma {:induction false} SkipAppend(a: CString, b: CString)
    ensures SkipSlashes(a + [SLASH] + b)
         == if SkipSlashes(a) == [] then SkipSlashes(b) else SkipSlashes(a) + [SLASH] + b
    decreases |a|
  {
    var whole := a + [SLASH] + b;
    if a == [] {
      assert whole[1..] == b;
    } else if a[0] == SLASH {
      assert whole[1..] == a[1..] + [SLASH] + b;
      SkipAppend(a[1..], b);
    }
  }

  lemma NameSome(q: CString)
    requires q != [] && q[0] != SLASH
    ensures 0 < NameLength(q, |q|)
  {
  }

  lemma {:induction false} LengthAppend(q: CString, b: CString, n: nat, m: nat)
    requires |q| <= n && |q| <= m
    ensures NameLength(q + [SLASH] + b, m) == NameLength(q, n)
    decreases |q|
  {
    var rest := q + [SLASH] + b;
    if q != [] && q[0] != SLASH {
      assert rest[1..] == q[1..] + [SLASH] + b;
      LengthAppend(q[1..], b, n - 1, m - 1);
    }
  }

  /** A path from the root means the same in every directory; any other means what it says after the components of the
      directory. */
  lemma InputMeans(current: CString, path: CString)
    ensures Components(StripSlash(Input(current, path)))
         == if path != [] && path[0] == SLASH then Components(path) else Components(current) + Components(path)
  {
    ComponentsStripped(Input(current, path));
    if path == [] || path[0] != SLASH {
      if current == ROOT_PATH {
        assert ROOT_PATH + path == [] + [SLASH] + path && current == [] + [SLASH] + [];
        ComponentsAppend([], path);
        ComponentsAppend([], []);
      } else {
        ComponentsAppend(current, path);
      }
    }
  }

  /** Eight components are reached while there are more to come. */
  predicate TooDeep(parts: seq<CString>, stack: seq<CString>)
  {
    parts != [] && (|stack| >= MAX_DEPTH || TooDeep(parts[1..], Push(stack, parts[0])))
  }

  /** No component is longer than 63 characters. */
  predicate Short(parts: seq<CString>)
  {
    forall i :: 0 <= i < |parts| ==> |parts[i]| <= MAX_NAME
  }

  /** Names of up to 63 characters are not cut. */
  lemma SameLength(q: CString, n: nat)
    requires NameLength(q, |q|) <= n
    ensures NameLength(q, n) == NameLength(q, |q|)
  {
  }

  /** With short components, the walk is the usual meaning, unless eight components are reached too early: then it
      ends with eight. */
  lemma {:induction false} WalkIsResolved(p: CString, stack: seq<CString>)
    requires Short(Components(p)) && |stack| <= MAX_DEPTH
    ensures if TooDeep(Components(p), stack) then |Walk(p, stack)| == MAX_DEPTH
            else Walk(p, stack) == Resolved(Components(p), stack)
    decreases |p|
  {
    var q, parts := SkipSlashes(p), Components(p);
    if q != [] && |stack| < MAX_DEPTH {
      var k := NameLength(q, |q|);
      assert parts[0] == q[..k] && parts[1..] == Components(q[k..]);
      SameLength(q, MAX_NAME);
      WalkIsResolved(q[k..], Push(stack, q[..k]));
    }
  }

  /** So the normalised path is the usual one exactly if the path does not pass through eight components to one of
      at most two. */
  lemma NormalizedIff(current: CString, path: CString)
    requires Short(Components(StripSlash(Input(current, path))))
    ensures var parts := Components(StripSlash(Input(current, path)));
            Normalized(current, path) == PathOf(Resolved(parts, [])) <==>
            !(TooDeep(parts, []) && |Resolved(parts, [])| <= 2)
  {
    WalkIsResolved(StripSlash(Input(current, path)), []);
  }

  // ----- normalised paths

  /** A component that stays in a normalised path. */
  predicate NameOk(c: CString)
  {
    0 < |c| <= MAX_NAME && SLASH !in c && c != DOT && c != DOT_DOT
  }

  predicate AllOk(stack: seq<CString>)
  {
    forall i :: 0 <= i < |stack| ==> NameOk(stack[i])
  }

  lemma {:induction false} WalkOk(p: CString, stack: seq<CString>)
    requires AllOk(stack)
    ensures AllOk(Walk(p, stack))
    decreases |p|
  {
    var q := SkipSlashes(p);
    if p != [] && |stack| < MAX_DEPTH && q != [] {
      var k := NameLength(q, MAX_NAME);
      WalkOk(q[k..], Push(stack, q[..k]));
    }
  }

  /** The length of a name in front of a slash, or at the end. */
  lemma {:induction false} NameLengthIs(c: CString, rest: CString, n: nat)
    requires SLASH !in c && |c| <= n && (rest != [] ==> rest[0] == SLASH)
    ensures NameLength(c + rest, n) == |c|
  {
    if c == [] {
      assert c + rest == rest;
    } else {
      NameLengthIs(c[1..], rest, n - 1);
      assert (c + rest)[1..] == c[1..] + rest;
    }
  }

  /** Walking over a name pushes it. */
  lemma WalkName(c: CString, rest: CString, stack: seq<CString>)
    requires NameOk(c) && |stack| < MAX_DEPTH && (rest != [] ==> rest[0] == SLASH)
    ensures Walk(c + rest, stack) == Walk(rest, stack + [c])
  {
    var p := c + rest;
    assert p[0] == c[0] && SkipSlashes(p) == p;
    NameLengthIs(c, rest, MAX_NAME);
    assert p[..|c|] == c && p[|c|..] == rest;
  }

  lemma WalkSlash(p: CString, stack: seq<CString>)
    requires p != [] && p[0] != SLASH
    ensures Walk([SLASH] + p, stack) == Walk(p, stack)
  {
    assert ([SLASH] + p)[1..] == p;
  }

  /** A normalised path has at most two components, none of them "." or "..", and it is its own normal form. */
  lemma NormalizedTwice(current: CString, path: CString, elsewhere: CString)
    ensures var r := Normalized(current, path);
            r.Some? ==>
              && (exists stack :: |stack| <= 2 && AllOk(stack) && r.value == Joined(stack))
              && |r.value| <= 128 && Normalized(elsewhere, r.value) == r
  {
    var stack := Walk(StripSlash(Input(current, path)), []);
    WalkOk(StripSlash(Input(current, path)), []);
    if |stack| <= 2 {
      var out := Joined(stack);
      JoinedWalks(stack);
      assert Input(elsewhere, out) == out;
    }
  }

  /** A buffer of 129 bytes holds every normal form, whatever the path. */
  lemma NeverCut(current: CString, path: CString, maxLen: U64)
    requires 129 <= maxLen < 0x8000_0000
    ensures var r := Normalized(current, path);
            r.Some? ==> Cut(r.value, Limit(maxLen)) == r.value
  {
    hide Normalized;
    NormalizedTwice(current, path, current);
  }

  lemma JoinedWalks(stack: seq<CString>)
    requires |stack| <= 2 && AllOk(stack)
    ensures var out := Joined(stack);
            && out != [] && out[0] == SLASH && |out| <= 128 && Walk(StripSlash(out), []) == stack
  {
    hide Walk;
    if |stack| == 0 {
      NothingToWalk();
    } else {
      JoinedIs(stack);
      if |stack| == 1 {
        OneWalks(stack[0], []);
        assert StripSlash(Joined(stack)) == stack[0] && [] + [stack[0]] == stack;
      } else {
        var rest := [SLASH] + stack[1];
        assert StripSlash(Joined(stack)) == stack[0] + rest;
        WalkName(stack[0], rest, []);
        WalkSlash(stack[1], [stack[0]]);
        OneWalks(stack[1], [stack[0]]);
        assert [] + [stack[0]] == [stack[0]] && [stack[0]] + [stack[1]] == stack;
      }
    }
  }

  lemma NothingToWalk()
    ensures Walk([], []) == []
  {
  }

  lemma OneWalks(c: CString, stack: seq<CString>)
    requires NameOk(c) && |stack| < MAX_DEPTH
    ensures Walk(c, stack) == stack + [c]
  {
    assert c == c + [];
    WalkName(c, [], stack);
  }

  // ----- paths that pass through too many components

  /** The path of some components. */
  function Slashed(parts: seq<CString>): CString
  {
    if parts == [] then [] else [SLASH] + parts[0] + Slashed(parts[1..])
  }

  lemma {:induction false} ComponentsOf(parts: seq<CString>)
    requires forall i :: 0 <= i < |parts| ==> parts[i] != [] && SLASH !in parts[i]
    ensures Components(Slashed(parts)) == parts
    decreases |parts|
  {
    if parts != [] {
      var c, rest := parts[0], Slashed(parts[1..]);
      var p := c + rest;
      assert Slashed(parts) == [SLASH] + p && Slashed(parts)[1..] == p;
      assert SkipSlashes(Slashed(parts)) == p;
      NameLengthIs(c, rest, |p|);
      assert p[..|c|] == c && p[|c|..] == rest;
      ComponentsOf(parts[1..]);
    }
  }

  lemma ComponentsStripped(p: CString)
    ensures Components(StripSlash(p)) == Components(p)
  {
  }

  function Repeat(c: CString, n: nat): (r: seq<CString>)
    ensures |r| == n && forall i :: 0 <= i < n ==> r[i] == c
  {
    seq(n, _ => c)
  }

  lemma {:induction false} NamesResolved(c: CString, n: nat, rest: seq<CString>, stack: seq<CString>)
    requires NameOk(c)
    ensures Resolved(Repeat(c, n) + rest, stack) == Resolved(rest, stack + Repeat(c, n))
    ensures rest != [] && |stack| + n >= MAX_DEPTH ==> TooDeep(Repeat(c, n) + rest, stack)
    decreases n
  {
    if n == 0 {
      assert Repeat(c, 0) + rest == rest && stack + Repeat(c, 0) == stack;
    } else {
      var parts := Repeat(c, n) + rest;
      assert parts[0] == c && parts[1..] == Repeat(c, n - 1) + rest;
      NamesResolved(c, n - 1, rest, stack + [c]);
      assert stack + [c] + Repeat(c, n - 1) == stack + Repeat(c, n);
    }
  }

  lemma {:induction false} BackResolved(n: nat, stack: seq<CString>)
    requires n <= |stack|
    ensures Resolved(Repeat(DOT_DOT, n), stack) == stack[..|stack| - n]
    decreases n
  {
    if n == 0 {
    } else {
      var parts := Repeat(DOT_DOT, n);
      assert parts[0] == DOT_DOT && parts[1..] == Repeat(DOT_DOT, n - 1);
      BackResolved(n - 1, stack[..|stack| - 1]);
    }
  }

  /** A path down through eight names or more and back up to the first is an error, although it means one
      component. */
  lemma DownAndBack(c: CString, n: nat, current: CString)
    requires NameOk(c) && MAX_DEPTH <= n
    ensures var parts := Repeat(c, n) + Repeat(DOT_DOT, n - 1);
            Resolved(parts, []) == [c] && Normalized(current, Slashed(parts)) == None
  {
    hide Components, Walk, Resolved, TooDeep;
    var back := Repeat(DOT_DOT, n - 1);
    var parts := Repeat(c, n) + back;
    NamesResolved(c, n, back, []);
    assert [] + Repeat(c, n) == Repeat(c, n);
    BackResolved(n - 1, Repeat(c, n));
    assert Repeat(c, n)[..1] == [c];
    ComponentsOf(parts);
    ComponentsStripped(Slashed(parts));
    assert Input(current, Slashed(parts)) == Slashed(parts);
    WalkIsResolved(StripSlash(Slashed(parts)), []);
  }
}
