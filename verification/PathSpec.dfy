/** Paths as stacks of names. */
module PathSpec {

  /** Where the first segment of a path ends. */
  function SegEnd(s: string): (k: nat)
    ensures k <= |s| && '/' !in s[..k] && (k < |s| ==> s[k] == '/')
  {
    if s == "" || s[0] == '/' then 0
    else
      var k := 1 + SegEnd(s[1..]);
      assert s[..k] == [s[0]] + s[1..][..k - 1];
      k
  }

  /** The segments of a path that are not empty. */
  function Comps(s: string): seq<string>
    decreases |s|
  {
    var k := SegEnd(s);
    (if k == 0 then [] else [s[..k]]) + (if k == |s| then [] else Comps(s[k + 1..]))
  }

  /** What follows the last slash. */
  function LastSeg(s: string): string
    decreases |s|
  {
    var k := SegEnd(s);
    if k == |s| then s else LastSeg(s[k + 1..])
  }

  lemma {:induction false} LastSegIs(s: string)
    ensures var l := LastSeg(s);
            && |l| <= |s| && s[|s| - |l|..] == l && '/' !in l
            && (|l| < |s| ==> s[|s| - |l| - 1] == '/')
    decreases |s|
  {
    hide SegEnd;
    var k := SegEnd(s);
    if k < |s| {
      var t := s[k + 1..];
      LastSegIs(t);
      assert t[|t| - |LastSeg(t)|..] == s[|s| - |LastSeg(t)|..];
    } else {
      assert s[..k] == s && s[0..] == s;
    }
  }

  /** A segment seen from a directory: "." stays, ".." goes up, but not above the root. */
  function Step(stack: seq<string>, c: string): seq<string> {
    if c == "." then stack
    else if c == ".." then if stack == [] then [] else stack[..|stack| - 1]
    else stack + [c]
  }

  function Normal(stack: seq<string>, comps: seq<string>): seq<string>
    decreases |comps|
  {
    if comps == [] then stack else Normal(Step(stack, comps[0]), comps[1..])
  }

  /** Segments are taken from left to right: the last one acts on what the others lead to. */
  lemma {:induction false} NormalLast(stack: seq<string>, comps: seq<string>, c: string)
    ensures var s := Normal(stack, comps);
            Normal(stack, comps + [c]) ==
            if c == "." then s else if c != ".." then s + [c] else if s == [] then [] else s[..|s| - 1]
    decreases |comps|
  {
    if comps == [] {
      assert comps + [c] == [c] && [c][1..] == [];
    } else {
      NormalLast(Step(stack, comps[0]), comps[1..], c);
      assert (comps + [c])[1..] == comps[1..] + [c] && (comps + [c])[0] == comps[0];
    }
  }

  predicate Name(c: string) {
    c != "" && c != "." && c != ".." && '/' !in c
  }

  predicate Names(stack: seq<string>) {
    forall i :: 0 <= i < |stack| ==> Name(stack[i])
  }

  /** A directory written with its final slash. */
  function Dir(stack: seq<string>): (s: string)
    ensures s != "" && s[0] == '/' && s[|s| - 1] == '/'
  {
    if stack == [] then "/" else Dir(stack[..|stack| - 1]) + stack[|stack| - 1] + "/"
  }

  function Bare(stack: seq<string>): (s: string)
    requires stack != []
  {
    Dir(stack[..|stack| - 1]) + stack[|stack| - 1]
  }

  /** A text for a stack, with the final slash or without. */
  predicate Shows(t: string, stack: seq<string>, slash: bool) {
    if slash then t == Dir(stack) else stack != [] && t == Bare(stack)
  }

  /** How the working directory is written. */
  function Cwd(stack: seq<string>): string {
    if stack == [] then "/" else Bare(stack)
  }

  // ----- Reading back what was written -----

  lemma {:induction false} CompsBehind(a: string, b: string)
    requires a == "" || a[|a| - 1] == '/'
    ensures Comps(a + b) == Comps(a) + Comps(b)
    decreases |a|
  {
    hide Comps, SegEnd;
    if a == "" {
      assert a + b == b;
      CompsEmpty();
    } else {
      var k := SegEnd(a);
      assert a[|a| - 1] in a[..|a|];
      SegEndPrefix(a, b, k);
      assert (a + b)[..k] == a[..k] && (a + b)[k + 1..] == a[k + 1..] + b;
      CompsBehind(a[k + 1..], b);
      CompsSplit(a);
      CompsSplit(a + b);
    }
  }

  lemma {:induction false} CompsEmpty()
    ensures Comps("") == [] && Comps("/") == []
  {
    assert SegEnd("/") == 0 && "/"[1..] == "";
  }

  lemma {:induction false} CompsSplit(s: string)
    requires SegEnd(s) < |s|
    ensures var k := SegEnd(s); Comps(s) == (if k == 0 then [] else [s[..k]]) + Comps(s[k + 1..])
  {}

  lemma {:induction false} SegEndPrefix(a: string, b: string, k: nat)
    requires k == SegEnd(a) && k < |a|
    ensures SegEnd(a + b) == k
  {
    if k > 0 {
      assert (a + b)[1..] == a[1..] + b;
      SegEndPrefix(a[1..], b, k - 1);
    }
  }

  lemma {:induction false} SegEndNoSlash(c: string, b: string)
    requires '/' !in c && (b == "" || b[0] == '/')
    ensures SegEnd(c + b) == |c|
  {
    if c == "" {
      assert c + b == b;
    } else {
      assert (c + b)[1..] == c[1..] + b;
      SegEndNoSlash(c[1..], b);
    }
  }

  lemma {:induction false} CompsOne(c: string)
    requires '/' !in c && c != ""
    ensures Comps(c) == [c] && Comps(c + "/") == [c]
  {
    SegEndNoSlash(c, "");
    SegEndNoSlash(c, "/");
    assert c + "" == c && (c + "/")[..|c|] == c && (c + "/")[|c| + 1..] == "";
    assert Comps("") == [];
  }

  /** The components of a written stack are the stack. */
  lemma {:induction false} CompsOfDir(stack: seq<string>)
    requires Names(stack)
    ensures Comps(Dir(stack)) == stack && (stack != [] ==> Comps(Bare(stack)) == stack)
    decreases |stack|
  {
    hide Comps, SegEnd, Names, Name;
    if stack == [] {
      CompsEmpty();
    } else {
      var init, last := stack[..|stack| - 1], stack[|stack| - 1];
      assert stack == init + [last];
      NamesInit(stack);
      CompsOfDir(init);
      CompsBehind(Dir(init), last);
      CompsBehind(Dir(init), last + "/");
      assert Dir(init) + last + "/" == Dir(init) + (last + "/");
      CompsOne(last);
    }
  }

  lemma {:induction false} NamesInit(stack: seq<string>)
    requires Names(stack) && stack != []
    ensures Names(stack[..|stack| - 1]) && Name(stack[|stack| - 1]) && '/' !in stack[|stack| - 1] && stack[|stack| - 1] != ""
  {}

  lemma {:induction false} LastSegBehind(a: string, b: string)
    requires a != "" && a[|a| - 1] == '/'
    ensures LastSeg(a + b) == LastSeg(b)
    decreases |a|
  {
    hide SegEnd;
    var k := SegEnd(a);
    assert a[|a| - 1] in a[..|a|];
    SegEndPrefix(a, b, k);
    assert (a + b)[k + 1..] == a[k + 1..] + b;
    if a[k + 1..] == "" {
      assert a[k + 1..] + b == b;
    } else {
      LastSegBehind(a[k + 1..], b);
    }
  }

  /** A text for a stack tells by its last segment whether it has the final slash. */
  lemma {:induction false} LastSegShown(stack: seq<string>)
    requires Names(stack)
    ensures LastSeg(Dir(stack)) == ""
    ensures stack != [] ==> LastSeg(Bare(stack)) == stack[|stack| - 1]
  {
    assert Dir(stack) + "" == Dir(stack);
    LastSegBehind(Dir(stack), "");
    if stack != [] {
      var init, last := stack[..|stack| - 1], stack[|stack| - 1];
      assert Name(last);
      LastSegBehind(Dir(init), last);
      SegEndNoSlash(last, "");
      assert last + "" == last;
    }
  }

  /** Names are pushed as they are. */
  lemma {:induction false} NormalNames(stack: seq<string>, comps: seq<string>)
    requires Names(comps)
    ensures Normal(stack, comps) == stack + comps
    decreases |comps|
  {
    if comps != [] {
      assert Name(comps[0]);
      NormalNames(stack + [comps[0]], comps[1..]);
      assert stack + [comps[0]] + comps[1..] == stack + comps;
    } else {
      assert stack + comps == stack;
    }
  }
}
