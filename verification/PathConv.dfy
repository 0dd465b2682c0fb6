/** The in-place path normaliser of task.c. */
module PathConv {
  import opened PathSpec

  const PATH_MAX := 4096

  predicate Absolute(s: string) {
    s != "" && s[0] == '/'
  }

  /** What strlcpy keeps of a path. */
  function Clipped(s: string): (r: string)
    ensures r <= s && |r| == if |s| < 4096 then |s| else 4095
  {
    if |s| < PATH_MAX then s else s[..PATH_MAX - 1]
  }

  /** The path starts with a name whose first character is a dot: no slash goes between it and the working directory. */
  predicate Glued(base: seq<string>, s: string) {
    base != [] && s != "" && s[0] == '.' && s[..SegEnd(s)] != "." && s[..SegEnd(s)] != ".."
  }

  /** The stack of names that the conversion of s from the directory base produces. */
  function Result(base: seq<string>, s: string): seq<string> {
    if Glued(base, s) then
      var k, n := SegEnd(s), |base| - 1;
      Normal(base[..n] + [base[n] + s[..k]], Comps(s[k..]))
    else Normal(base, Comps(s))
  }

  lemma {:induction false} ShownLength(stack: seq<string>)
    requires Names(stack)
    ensures |Dir(stack)| == 1 <==> stack == []
    ensures stack != [] ==> |Dir(stack)| >= 3 && Dir(stack) == Bare(stack) + "/" && Bare(stack)[|Bare(stack)| - 1] != '/'
  {
    if stack != [] {
      NamesInit(stack);
    }
  }

  /** Where the last name of a text is. */
  lemma {:induction false} LastNameAt(t: string, stack: seq<string>, slash: bool)
    requires Names(stack) && stack != [] && Shows(t, stack, slash)
    ensures var d, n := |Dir(stack[..|stack| - 1])|, |stack[|stack| - 1]|;
            && d > 0 && n > 0 && |t| == d + n + (if slash then 1 else 0) && t[..d] == Dir(stack[..|stack| - 1])
            && t[d - 1] == '/' && forall i :: d <= i < d + n ==> t[i] != '/'
  {
    var init, last := stack[..|stack| - 1], stack[|stack| - 1];
    NamesInit(stack);
    var d := |Dir(init)|;
    assert t[..d] == Dir(init) && t[d..d + |last|] == last;
    forall i | d <= i < d + |last|
      ensures t[i] != '/'
    {
      assert t[i] == t[d..d + |last|][i - d];
    }
  }

  /** Drops the last name: scans back from the end to the slash before it. */
  method PopName(full: array<char>, len: nat, ghost stack: seq<string>, ghost slash: bool) returns (r: nat)
    requires len <= full.Length && Names(stack) && stack != [] && Shows(full[..len], stack, slash)
    ensures r <= len && var init := stack[..|stack| - 1]; Shows(full[..r], init, init == [])
  {
    hide Names, Name, Dir;
    ghost var init, last := stack[..|stack| - 1], stack[|stack| - 1];
    ghost var d := |Dir(init)|;
    NamesInit(stack);
    ShownLength(init);
    LastNameAt(full[..len], stack, slash);
    assert forall i :: 0 <= i < len ==> full[i] == full[..len][i];
    r := len - 2;
    while full[r] != '/'
      invariant d - 1 <= r < d + |last|
      decreases r
    {
      r := r - 1;
    }
    assert r == d - 1 && full[..r] == full[..len][..d][..r];
    if r == 0 {
      r := 1;
      assert full[..1] == full[..len][..d];
    }
  }

  /** Appends a segment of path to full. */
  method CopySegment(path: array<char>, src: nat, p: nat, full: array<char>, len: nat) returns (r: nat)
    requires path != full && src <= p <= path.Length && len + (p - src) <= full.Length
    modifies full
    ensures r == len + (p - src) && full[..r] == old(full[..len]) + path[src..p]
  {
    r := len;
    var i := src;
    while i < p
      invariant src <= i <= p && r == len + (i - src)
      invariant full[..r] == old(full[..len]) + path[src..i]
    {
      full[r] := path[i];
      r, i := r + 1, i + 1;
    }
  }

  /** The stack after one segment of the path. */
  function Push(stack: seq<string>, slash: bool, c: string): seq<string>
    requires slash || stack != []
  {
    if c == "" then stack
    else if c == "." || c == ".." || slash then Step(stack, c)
    else stack[..|stack| - 1] + [stack[|stack| - 1] + c]
  }

  /** Applies one segment to the text in full. */
  method Segment(path: array<char>, src: nat, p: nat, full: array<char>, len: nat, ghost stack: seq<string>, ghost slash: bool)
    returns (r: nat, ghost slash': bool)
    requires path != full && src <= p <= path.Length && len + (p - src) <= full.Length
    requires '/' !in path[src..p] && Names(stack) && Shows(full[..len], stack, slash) && (!slash ==> p > src)
    requires '\0' !in full[..len] && '\0' !in path[src..p]
    modifies full
    ensures r <= len + (p - src) && '\0' !in full[..r]
    ensures var c, stack' := path[src..p], Push(stack, slash, path[src..p]);
            && Names(stack') && Shows(full[..r], stack', slash')
            && (c == "" || c == "." ==> slash' == slash) && (Name(c) ==> !slash') && (c == ".." ==> (slash' <==> stack' == []))
            && (r == len + (p - src) <==> Name(c) || c == "" || (!slash && c != "." && c != ".."))
  {
    hide Dir;
    ghost var c := path[src..p];
    ShownLength(stack);
    r, slash' := len, slash;
    if path[src..p] == ".." {
      if len >= 2 {
        r := PopName(full, len, stack, slash);
        assert full[..r] == full[..len][..r];
        slash' := stack[..|stack| - 1] == [];
        NamesInit(stack);
      }
    } else if path[src..p] == "." {
      // Ignored.
    } else {
      r := CopySegment(path, src, p, full, len);
      slash' := slash && c == "";
      Pushed(stack, slash, c);
    }
  }

  lemma {:induction false} Pushed(stack: seq<string>, slash: bool, c: string)
    requires Names(stack) && '/' !in c && c != "." && c != ".." && (slash || (stack != [] && c != ""))
    ensures var t := (if slash then Dir(stack) else Bare(stack)) + c;
            Names(Push(stack, slash, c)) && Shows(t, Push(stack, slash, c), slash && c == "")
  {
    hide Dir, Name, Bare;
    if c == "" {
      assert Dir(stack) + c == Dir(stack);
    } else if slash {
      NewName(stack, c);
    } else {
      GrownName(stack, c);
    }
  }

  lemma {:induction false} NewName(stack: seq<string>, c: string)
    requires Names(stack) && '/' !in c && c != "" && c != "." && c != ".."
    ensures Names(stack + [c]) && Bare(stack + [c]) == Dir(stack) + c
  {
    assert (stack + [c])[..|stack|] == stack;
  }

  lemma {:induction false} GrownName(stack: seq<string>, c: string)
    requires Names(stack) && stack != [] && '/' !in c && c != ""
    ensures var n := |stack| - 1;
            var stack' := stack[..n] + [stack[n] + c]; Names(stack') && Bare(stack') == Bare(stack) + c
  {
    hide Dir;
    var n := |stack| - 1;
    var stack' := stack[..n] + [stack[n] + c];
    assert Name(stack[n]);
    NameGrows(stack[n], c);
    assert stack'[..n] == stack[..n];
    assert Dir(stack[..n]) + (stack[n] + c) == (Dir(stack[..n]) + stack[n]) + c;
  }

  lemma {:induction false} NameGrows(n: string, c: string)
    requires Name(n) && '/' !in c && c != ""
    ensures Name(n + c)
  {
    assert n == (n + c)[..|n|] && ".."[..1] == ".";
  }

  /** What one segment leaves to do. */
  function Rest(s: string, p: nat): seq<string>
    requires p <= |s|
  {
    if p == |s| then [] else Comps(s[p + 1..])
  }

  /** Where the conversion stands at src: a text for stack that ends in a slash, or the working directory alone. */
  ghost predicate Stands(base: seq<string>, s: string, src: nat, stack: seq<string>, slash: bool) {
    && src <= |s|
    && (slash ==> Result(base, s) == Normal(stack, Comps(s[src..])) && LastSeg(s) == LastSeg(s[src..]))
    && (!slash ==> src == 0 && stack == base != [] && s != "" && s[0] == '.')
  }

  lemma {:induction false} SegmentMeaning(base: seq<string>, s: string, src: nat, p: nat, stack: seq<string>, slash: bool)
    requires Stands(base, s, src, stack, slash) && src < |s| && p == src + SegEnd(s[src..])
    ensures Result(base, s) == Normal(Push(stack, slash, s[src..p]), Rest(s, p))
    ensures p < |s| ==> LastSeg(s) == LastSeg(s[p + 1..])
    ensures p == |s| ==> LastSeg(s) == s[src..p]
  {
    hide SegEnd, Comps, LastSeg, Normal, Result, Step;
    var t := s[src..];
    assert t[..SegEnd(t)] == s[src..p] && (p < |s| ==> t[SegEnd(t) + 1..] == s[p + 1..]);
    LastSegUnfold(t);
    if slash {
      CompsUnfold(t);
      NormalNext(stack, s[src..p], Rest(s, p));
    } else {
      assert t == s;
      FirstSegment(base, s, p);
    }
  }

  /** The first segment after a working directory that has no slash yet. */
  lemma {:induction false} FirstSegment(base: seq<string>, s: string, p: nat)
    requires base != [] && s != "" && s[0] == '.' && p == SegEnd(s)
    ensures Result(base, s) == Normal(Push(base, false, s[..p]), Rest(s, p)) && p > 0
  {
    hide Comps, Normal, Step, SegEnd;
    FirstEnd(s);
    CompsUnfold(s);
    NormalNext(base, s[..p], Rest(s, p));
    CompsUnfold(s[p..]);
    if p < |s| {
      SegEndAtSlash(s[p..]);
      assert s[p..][1..] == s[p + 1..];
      assert Comps(s[p..]) == [] + Rest(s, p) == Rest(s, p);
    }
  }

  lemma {:induction false} FirstEnd(s: string)
    requires s != "" && s[0] != '/'
    ensures SegEnd(s) > 0
  {}

  lemma {:induction false} CompsUnfold(s: string)
    ensures var k := SegEnd(s);
            Comps(s) == (if k == 0 then [] else [s[..k]]) + (if k == |s| then [] else Comps(s[k + 1..]))
    ensures s == "" ==> SegEnd(s) == 0
  {
    hide SegEnd;
  }

  lemma {:induction false} SegEndAtSlash(s: string)
    requires s != "" && s[0] == '/'
    ensures SegEnd(s) == 0
  {}

  lemma {:induction false} LastSegUnfold(s: string)
    ensures var k := SegEnd(s); LastSeg(s) == if k == |s| then s else LastSeg(s[k + 1..])
  {
    hide SegEnd;
  }

  lemma {:induction false} NormalNext(stack: seq<string>, c: string, rest: seq<string>)
    ensures Normal(stack, [c] + rest) == Normal(Step(stack, c), rest) && Normal(stack, [] + rest) == Normal(stack, rest)
  {
    assert ([c] + rest)[1..] == rest && [] + rest == rest;
  }

  /** The end of the segment that starts at src. */
  method FindEnd(path: array<char>, src: nat, ghost s: string) returns (p: nat)
    requires src <= |s| < path.Length && path[|s|] == '\0' && '\0' !in s
    requires forall i :: src <= i < |s| ==> path[i] == s[i]
    ensures src <= p <= |s| && p == src + SegEnd(s[src..])
  {
    p := src;
    assert s[src..] == s[p..];
    while path[p] != '/' && path[p] != '\0'
      invariant src <= p <= |s| && src + SegEnd(s[src..]) == p + SegEnd(s[p..])
      decreases |s| - p
    {
      assert p < |s| && s[p] in s;
      assert s[p..][1..] == s[p + 1..];
      p := p + 1;
    }
    if p < |s| {
      assert s[p] in s;
    }
  }

  /** Appends a slash unless there is one. */
  method EndWithSlash(full: array<char>, len: nat, ghost stack: seq<string>, ghost slash: bool) returns (r: nat)
    requires len < full.Length && Names(stack) && Shows(full[..len], stack, slash) && '\0' !in full[..len]
    modifies full
    ensures r == (if slash then len else len + 1) && full[..r] == Dir(stack) && '\0' !in full[..r]
  {
    hide Dir;
    ShownLength(stack);
    DirEnd(stack);
    assert full[..len][len - 1] == full[len - 1];
    r := len;
    if full[len - 1] != '/' {
      full[r] := '/';
      r := r + 1;
      assert full[..r] == old(full[..len]) + "/";
    }
  }

  lemma {:induction false} DirEnd(stack: seq<string>)
    ensures Dir(stack) != "" && Dir(stack)[|Dir(stack)| - 1] == '/'
  {}

  /** Every segment is a name, except that the last may be empty. */
  predicate AllNames(s: string)
    decreases |s|
  {
    var k := SegEnd(s);
    if k == |s| then s == "" || Name(s) else Name(s[..k]) && AllNames(s[k + 1..])
  }

  /** One segment uses up all the room that goes with it exactly if it is a name that has a slash in front. */
  lemma {:induction false} AllNamesNext(s: string, src: nat, p: nat)
    requires src < |s| && p == src + SegEnd(s[src..])
    ensures p < |s| ==> (AllNames(s[src..]) <==> Name(s[src..p]) && AllNames(s[p + 1..]))
    ensures p == |s| ==> s[src..p] != "" && (AllNames(s[src..]) <==> Name(s[src..p]))
  {
    hide SegEnd;
    var t := s[src..];
    assert t[..SegEnd(t)] == s[src..p] && (p < |s| ==> t[SegEnd(t) + 1..] == s[p + 1..]);
  }

  lemma {:induction false} AllNamesEnd(s: string)
    ensures AllNames(s[|s|..])
  {
    assert s[|s|..] == "";
  }

  /** Converts the rest of the path; extra is the room taken in front of it. Behind a slash the whole room is used
      exactly if the rest of the path consists of names. */
  method Walk(path: array<char>, n: nat, start: nat, full: array<char>, length: nat, ghost s: string,
              ghost base: seq<string>, ghost first: bool, ghost extra: nat)
    returns (len: nat, ghost slash: bool)
    requires path != full && |s| == n < path.Length && path[n] == '\0' && '\0' !in s
    requires forall i :: start <= i < n ==> path[i] == s[i]
    requires start <= n && length <= extra + start && extra + n <= full.Length
    requires Names(base) && Shows(full[..length], base, first) && Stands(base, s, start, base, first)
    requires '\0' !in full[..length]
    modifies path, full
    ensures len <= extra + n && '\0' !in full[..len]
    ensures first && length == extra + start ==> (len == extra + n <==> AllNames(s[start..]))
    ensures Names(Result(base, s)) && Shows(full[..len], Result(base, s), slash)
    ensures LastSeg(s) == "" ==> slash
    ensures Name(LastSeg(s)) ==> !slash
    ensures LastSeg(s) == ".." ==> (slash <==> Result(base, s) == [])
    ensures LastSeg(s) == "." ==> (slash <==> first || s != ".")
  {
    hide Comps, SegEnd, LastSeg, Result, Normal, Step, Push, Dir, Name, Bare, Shows, Stands, AllNames;
    var src := start;
    len, slash := length, first;
    ghost var stack := base;
    assert forall i :: 0 <= i < n ==> s[i] in s;
    StandsFacts(base, s, src, stack, slash);
    ghost var tight := first && length == extra + start;
    while path[src] != '\0'
      invariant src <= n && path[n] == '\0' && len <= extra + src && '\0' !in full[..len]
      invariant forall i :: src <= i < n ==> path[i] == s[i]
      invariant Names(stack) && Shows(full[..len], stack, slash) && Stands(base, s, src, stack, slash)
      invariant start <= src && if src == start then slash == first else slash
      invariant tight ==> slash && (len == extra + src && AllNames(s[src..]) <==> AllNames(s[start..]))
      decreases n - src
    {
      var p;
      assert s[0..n] == s;
      p, len, stack, slash := OneSegment(path, src, full, len, s, base, stack, slash);
      AllNamesNext(s, src, p);
      if p == n {
        NormalDone(stack);
        return;
      }
      len := EndWithSlash(full, len, stack, slash);
      slash, src := true, p + 1;
      StandsNext(base, s, src, stack);
      ShowsDir(full[..len], stack);
    }
    StandsFacts(base, s, src, stack, slash);
    AtEnd(base, s, stack, slash);
    AllNamesEnd(s);
  }

  /** Cuts out the segment at src and applies it. */
  method OneSegment(path: array<char>, src: nat, full: array<char>, length: nat, ghost s: string,
                    ghost base: seq<string>, ghost stack: seq<string>, ghost slash: bool)
    returns (p: nat, len: nat, ghost stack': seq<string>, ghost slash': bool)
    requires path != full && src < |s| < path.Length && path[|s|] == '\0' && '\0' !in s
    requires forall i :: src <= i < |s| ==> path[i] == s[i]
    requires length + (|s| - src) <= full.Length && '\0' !in full[..length]
    requires Names(stack) && Shows(full[..length], stack, slash) && Stands(base, s, src, stack, slash)
    modifies path, full
    ensures src <= p <= |s| && path[|s|] == '\0' && forall i :: p < i < |s| ==> path[i] == s[i]
    ensures p == src + SegEnd(s[src..]) && len <= length + (p - src) && '\0' !in full[..len]
    ensures slash ==> (len == length + (p - src) <==> Name(s[src..p]) || s[src..p] == "")
    ensures s[src..p] == "" ==> slash' == slash
    ensures Name(s[src..p]) ==> !slash'
    ensures Names(stack') && Shows(full[..len], stack', slash') && Result(base, s) == Normal(stack', Rest(s, p))
    ensures if p < |s| then LastSeg(s) == LastSeg(s[p + 1..])
            else LastSeg(s) == s[src..p] != "" && (Name(LastSeg(s)) ==> !slash')
    ensures s[src..p] == "." ==> slash' == slash
    ensures s[src..p] == ".." ==> (slash' <==> stack' == [])
  {
    hide Comps, SegEnd, LastSeg, Result, Normal, Step, Push, Dir, Name, Bare, Shows, Stands;
    p := FindEnd(path, src, s);
    StandsFacts(base, s, src, stack, slash);
    SegmentMeaning(base, s, src, p, stack, slash);
    InSegment(s, src, p, slash);
    ghost var c := s[src..p];
    stack' := Push(stack, slash, c);
    path[p] := '\0';
    assert path[src..p] == c && '\0' !in c;
    len, slash' := Segment(path, src, p, full, length, stack, slash);
  }

  lemma {:induction false} StandsFacts(base: seq<string>, s: string, src: nat, stack: seq<string>, slash: bool)
    requires Stands(base, s, src, stack, slash)
    ensures src <= |s| && (!slash ==> src == 0 && stack != [] && s != "" && s[0] == '.')
  {}

  lemma {:induction false} StandsNext(base: seq<string>, s: string, src: nat, stack: seq<string>)
    requires 0 < src <= |s| && Result(base, s) == Normal(stack, Rest(s, src - 1)) && LastSeg(s) == LastSeg(s[src..])
    ensures Stands(base, s, src, stack, true)
  {}

  lemma {:induction false} ShowsDir(t: string, stack: seq<string>)
    requires t == Dir(stack)
    ensures Shows(t, stack, true)
  {}

  lemma {:induction false} InSegment(s: string, src: nat, p: nat, slash: bool)
    requires src < |s| && p == src + SegEnd(s[src..]) && (!slash ==> src == 0 && s[0] == '.')
    ensures p <= |s| && '/' !in s[src..p] && (!slash ==> p > src)
  {
    hide SegEnd;
    assert s[src..p] == s[src..][..p - src];
    if !slash {
      assert s[0..] == s;
      FirstEnd(s);
    }
  }

  lemma {:induction false} NormalDone(stack: seq<string>)
    ensures Normal(stack, []) == stack
  {}

  lemma {:induction false} AtEnd(base: seq<string>, s: string, stack: seq<string>, slash: bool)
    requires Stands(base, s, |s|, stack, slash)
    ensures slash && stack == Result(base, s) && LastSeg(s) == "" && !Name("")
  {
    assert s[|s|..] == "";
    CompsEmpty();
  }

  /** The terminator of the converted path falls behind the buffer: from a directory other than the root, a path
      of names for which the test of the lengths has no room for the slash in front. */
  predicate Overflows(base: seq<string>, s: string) {
    && base != [] && !Absolute(s) && |Cwd(base)| + |s| == PATH_MAX - 1
    && (s == "" || s[0] != '.') && AllNames(s)
  }

  /** Converts a path to a full path. The names of the result are those of Result, which its final slash follows
      unless the path ends in a name. The text always fits, its terminator does except where Overflows says. */
  method Convert(wd: string, cpath: string, full: array<char>, ghost base: seq<string>)
    returns (tooLong: bool, overflow: bool, len: nat, ghost slash: bool)
    requires full.Length == PATH_MAX && '\0' !in wd && '\0' !in cpath && Names(base)
    requires if Absolute(cpath) then base == [] else wd == Cwd(base)
    modifies full
    ensures tooLong <==> |wd| + |Clipped(cpath)| >= PATH_MAX
    ensures tooLong ==> full[..] == old(full[..])
    ensures overflow <==> Overflows(base, Clipped(cpath))
    ensures !tooLong ==>
              var s := Clipped(cpath);
              && len <= PATH_MAX && (overflow <==> len == PATH_MAX) && (!overflow ==> full[len] == '\0')
              && '\0' !in full[..len]
              && Names(Result(base, s)) && Shows(full[..len], Result(base, s), slash) && Comps(full[..len]) == Result(base, s)
              && (slash <==> || LastSeg(s) == ""
                             || (LastSeg(s) == ".." && Result(base, s) == [])
                             || (LastSeg(s) == "." && (|s| > 1 || base == [])))
  {
    hide Comps, SegEnd, LastSeg, Result, Normal, Step, Dir, Bare, Stands, AllNames;
    len, slash, overflow := 0, true, false;
    var s := Clipped(cpath);
    var n := |s|;
    ghost var clear := ClippedClear(cpath);
    var path := new char[PATH_MAX](i requires 0 <= i < PATH_MAX => if i < n then s[i] else '\0');
    tooLong := |wd| + n >= PATH_MAX;
    if tooLong {
      return;
    }
    var src: nat;
    ghost var extra: nat;
    src, len, slash, extra := StartText(wd, path, n, s, full, base);
    len, slash := Walk(path, n, src, full, len, s, base, slash, extra);
    LastSegIs(s);
    overflow := len == full.Length;
    if !overflow {
      full[len] := '\0';
    }
    assert s[0..] == s;
    CompsOfDir(Result(base, s));
  }

  /** The text before the first segment: the root, or the working directory with the slash behind it. */
  method StartText(wd: string, path: array<char>, n: nat, ghost s: string, full: array<char>, ghost base: seq<string>)
    returns (src: nat, len: nat, ghost slash: bool, ghost extra: nat)
    requires path != full && full.Length == path.Length == PATH_MAX && |s| == n < PATH_MAX && |wd| + n < PATH_MAX
    requires '\0' !in wd && '\0' !in s && Names(base) && (forall i :: 0 <= i < n ==> path[i] == s[i]) && path[n] == '\0'
    requires if Absolute(s) then base == [] else wd == Cwd(base)
    modifies full
    ensures src <= n && len == extra + src <= PATH_MAX && '\0' !in full[..len]
    ensures Shows(full[..len], base, slash) && Stands(base, s, src, base, slash)
    ensures slash <==> base == [] || s == "" || s[0] != '.'
    ensures if base != [] && (s == "" || s[0] != '.') then src == 0 && extra == |wd| + 1 && slash else extra + n < PATH_MAX
  {
    hide Comps, SegEnd, LastSeg, Result, Normal, Step, Dir, Name, Bare, Stands;
    if path[0] == '/' {
      assert s[0] == '/';
      full[0] := path[0];
      src, len, slash, extra := 1, 1, true, 0;
      AbsoluteStart(s);
      assert full[..1] == "/";
    } else {
      CwdShown(base, s);
      forall i | 0 <= i < |wd| {
        full[i] := wd[i];
      }
      src, len := 0, |wd|;
      slash := base == [] || s == "" || s[0] != '.';
      assert full[..len] == wd;
      if len > 1 && path[0] != '.' {
        full[len] := '/';
        len := len + 1;
        assert full[..len] == wd + "/";
      }
      extra := len;
    }
  }

  /** From /a, a name of 4093 characters is let through and overruns the buffer by its terminator. */
  lemma {:induction false} OverflowExample(c: string)
    requires |c| == 4093 && '/' !in c && c[0] != '.'
    ensures Overflows(["a"], c) && |Cwd(["a"])| + |c| < PATH_MAX
  {
    SegEndNoSlash(c, "");
    assert c + "" == c;
    assert Dir([]) == "/" && ["a"][..0] == [];
    assert Cwd(["a"]) == "/" + "a";
  }

  lemma {:induction false} AbsoluteStart(s: string)
    requires Absolute(s)
    ensures Stands([], s, 1, [], true) && Shows("/", [], true)
  {
    hide SegEnd, Comps, LastSeg, Normal;
    SegEndAtSlash(s);
    CompsUnfold(s);
    LastSegUnfold(s);
    assert [] + Comps(s[1..]) == Comps(s[1..]);
  }

  /** The working directory, with a slash unless the path starts with a dot. */
  lemma {:induction false} CwdShown(base: seq<string>, s: string)
    requires Names(base) && !Absolute(s)
    ensures |Cwd(base)| > 1 <==> base != []
    ensures var slash := base == [] || s == "" || s[0] != '.';
            && Shows(if base != [] && slash then Cwd(base) + "/" else Cwd(base), base, slash) && Stands(base, s, 0, base, slash)
  {
    hide Comps, LastSeg, SegEnd;
    ShownLength(base);
    assert s[0..] == s;
  }

  ghost function ClippedClear(s: string): (b: bool)
    requires '\0' !in s
    ensures '\0' !in Clipped(s) && |Clipped(s)| < PATH_MAX && (Absolute(s) <==> Absolute(Clipped(s)))
  {
    true
  }

  // ----- Fixed points -----

  /** A converted path converts to itself. */
  lemma {:induction false} FixedPoint(t: string, stack: seq<string>, slash: bool)
    requires Names(stack) && Shows(t, stack, slash)
    ensures Absolute(t) && Result([], t) == stack
    ensures if slash then LastSeg(t) == "" else Name(LastSeg(t))
  {
    hide Comps, LastSeg, SegEnd;
    CompsOfDir(stack);
    NormalNames([], stack);
    LastSegShown(stack);
    assert [] + stack == stack;
    ShownLength(stack);
    if !slash {
      NamesInit(stack);
    }
  }

  /** Converting the result of a conversion changes nothing. */
  method ConvertTwice(wd: string, cpath: string, full: array<char>, again: array<char>, ghost base: seq<string>)
    returns (tooLong: bool, overflow: bool, len: nat)
    requires full != again && full.Length == again.Length == PATH_MAX && '\0' !in cpath && '\0' !in wd && Names(base)
    requires if Absolute(cpath) then base == [] else wd == Cwd(base)
    modifies full, again
    ensures tooLong <==> |wd| + |Clipped(cpath)| >= PATH_MAX
    ensures overflow <==> Overflows(base, Clipped(cpath))
    ensures !tooLong && !overflow ==> len < PATH_MAX && again[..len + 1] == full[..len + 1]
  {
    hide Comps, LastSeg, Result, Dir, Bare, AllNames;
    ghost var slash;
    tooLong, overflow, len, slash := Convert(wd, cpath, full, base);
    if !tooLong && !overflow {
      var t := full[..len];
      FixedPoint(t, Result(base, Clipped(cpath)), slash);
      var tooLong', overflow', len', slash' := Convert("", t, again, []);
    }
  }

  // ----- When the result is the right directory -----

  /** Starting depth levels down, the segments reach the root. */
  predicate ReachesRoot(depth: nat, comps: seq<string>)
    decreases |comps|
  {
    depth == 0 ||
    (comps != [] &&
     ReachesRoot(if comps[0] == "." then depth else if comps[0] == ".." then depth - 1 else depth + 1, comps[1..]))
  }

  /** From directories one level apart the same segments lead to the same place only through the root. */
  lemma {:induction false} MeetAtRoot(a: seq<string>, b: seq<string>, comps: seq<string>)
    requires |a| == |b| + 1
    ensures Normal(a, comps) == Normal(b, comps) <==> ReachesRoot(|a|, comps)
    decreases |comps|
  {
    if comps != [] {
      var a', b' := Step(a, comps[0]), Step(b, comps[0]);
      if |a'| == 0 {
        assert a' == b';
      } else {
        MeetAtRoot(a', b', comps[1..]);
      }
    }
  }

  /** The result is the directory that the path names from base, except when the path starts with a name that
      begins with a dot and its segments do not go back up to the root. */
  lemma {:induction false} RightDirectory(base: seq<string>, s: string)
    ensures Result(base, s) == Normal(base, Comps(s)) <==>
            !Glued(base, s) || ReachesRoot(|base| + 1, Comps(s)[1..])
  {
    hide Comps, SegEnd;
    if Glued(base, s) {
      var k, n := SegEnd(s), |base| - 1;
      FirstSegment(base, s, k);
      CompsUnfold(s);
      assert s[..k] != "";
      NormalNext(base, s[..k], Rest(s, k));
      assert Comps(s)[1..] == Rest(s, k);
      MeetAtRoot(base + [s[..k]], base[..n] + [base[n] + s[..k]], Rest(s, k));
    }
  }

  /** A path that is one name with a leading dot extends the name of the working directory: from /a, .b leads to
      /a.b and not to /a/.b. */
  lemma {:induction false} DotNameGlued(a: string, c: string)
    requires Name(c) && c[0] == '.'
    ensures Result([a], c) == [a + c] && Normal([a], Comps(c)) == [a, c]
  {
    hide SegEnd, Comps;
    SegEndNoSlash(c, "");
    assert c + "" == c && c[..|c|] == c && c[|c|..] == "";
    CompsEmpty();
    CompsOne(c);
    var base := [a];
    assert base[..0] + [a + c] == [a + c] && base + [c] == [a, c];
    NormalNext(base, c, []);
    assert [c] + [] == [c];
  }
}
