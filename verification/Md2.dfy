/** The incremental MD2 of md2.c: checksum and hash advance together, block by block. */
module Md2 {
  import opened Md2Spec

  /** The checksum after the first i bytes of a block. */
  function ChecksumIn(c: seq<Byte>, b: seq<Byte>, i: nat): (r: seq<Byte>)
    requires IsBlock(c) && IsBlock(b) && i <= BLOCK
    ensures IsBlock(r)
  {
    if i == 0 then c
    else
      var p := ChecksumIn(c, b, i - 1);
      p[i - 1 := Stir(p[i - 1], Mix(b[i - 1], if i == 1 then c[BLOCK - 1] else p[i - 2]))]
  }

  lemma {:induction false} ChecksumStart(c: seq<Byte>, b: seq<Byte>)
    requires IsBlock(c) && IsBlock(b)
    ensures ChecksumIn(c, b, 0) == c
  {}

  lemma {:induction false} ChecksumStep(c: seq<Byte>, b: seq<Byte>, i: nat)
    requires IsBlock(c) && IsBlock(b) && i < BLOCK
    ensures var p := ChecksumIn(c, b, i);
            ChecksumIn(c, b, i + 1) == p[i := Stir(p[i], Mix(b[i], if i == 0 then c[BLOCK - 1] else p[i - 1]))]
  {}

  /** The checksum of whole blocks, block by block. */
  function Checksums(m: seq<Byte>): (c: seq<Byte>)
    requires |m| % BLOCK == 0
    ensures IsBlock(c)
  {
    if m == [] then Zeros() else ChecksumIn(Checksums(m[..|m| - BLOCK]), m[|m| - BLOCK..], BLOCK)
  }

  lemma {:induction false} ChecksumWithin(m: seq<Byte>, b: seq<Byte>, i: nat)
    requires |m| % BLOCK == 0 && IsBlock(b) && i <= BLOCK
    requires Checksum(m) == Running(Checksums(m), Checksums(m)[BLOCK - 1])
    ensures var c := ChecksumIn(Checksums(m), b, i);
            Checksum(m + b[..i]) == Running(c, if i == 0 then c[BLOCK - 1] else c[i - 1])
  {
    hide Stir, Mix, Checksums, Checksum;
    if i == 0 {
      assert m + b[..0] == m;
    } else {
      ChecksumWithin(m, b, i - 1);
      assert m + b[..i] == (m + b[..i - 1]) + [b[i - 1]];
      ChecksumNext(m + b[..i - 1], b[i - 1]);
      Position(|m|, i - 1);
    }
  }

  lemma {:induction false} ChecksumNext(m: seq<Byte>, b: Byte)
    ensures var r, n := Checksum(m), |m| % BLOCK;
            var v := Stir(r.c[n], Mix(b, r.l)); Checksum(m + [b]) == Running(r.c[n := v], v)
  {
    assert (m + [b])[..|m|] == m;
  }

  lemma {:induction false} Position(n: nat, i: nat)
    requires n % BLOCK == 0 && i < BLOCK
    ensures (n + i) % BLOCK == i
  {}

  /** The blockwise checksum, which starts each block from its last byte, is the bytewise one. */
  lemma {:induction false} ChecksumsAgree(m: seq<Byte>)
    requires |m| % BLOCK == 0
    ensures Checksum(m) == Running(Checksums(m), Checksums(m)[BLOCK - 1])
  {
    hide Stir, Mix;
    if m != [] {
      var k := |m| - BLOCK;
      ChecksumsAgree(m[..k]);
      ChecksumWithin(m[..k], m[k..], BLOCK);
      assert m[..k] + m[k..][..BLOCK] == m;
    }
  }

  lemma {:induction false} HashAppend(m: seq<Byte>, b: seq<Byte>)
    requires |m| % BLOCK == 0 && IsBlock(b)
    ensures Hash(m + b) == Compress(Hash(m), b) && Checksums(m + b) == ChecksumIn(Checksums(m), b, BLOCK)
  {
    hide Compress, ChecksumIn;
    assert (m + b)[..|m|] == m && (m + b)[|m|..] == b;
  }

  lemma {:induction false} SweepFirst(a: seq<Byte>, b: seq<Byte>, t: Byte, k: nat)
    requires k <= |a|
    ensures var s := Sweep(a, t, k); Sweep(a + b, t, k) == Sweeping(s.x + b, s.t)
  {
    hide Stir;
    if k > 0 {
      SweepFirst(a, b, t, k - 1);
      var s := Sweep(a, t, k - 1);
      assert (s.x + b)[k - 1 := Stir(s.x[k - 1], s.t)] == s.x[k - 1 := Stir(s.x[k - 1], s.t)] + b;
    }
  }

  /** A pass over two parts passes over one and then the other. */
  lemma {:induction false} SweepBoth(a: seq<Byte>, b: seq<Byte>, t: Byte, k: nat)
    requires k <= |b|
    ensures var s := Sweep(a, t, |a|);
            var r := Sweep(b, s.t, k); Sweep(a + b, t, |a| + k) == Sweeping(s.x + r.x, r.t)
  {
    hide Stir;
    var s := Sweep(a, t, |a|);
    if k == 0 {
      SweepFirst(a, b, t, |a|);
    } else {
      SweepBoth(a, b, t, k - 1);
      var r := Sweep(b, s.t, k - 1);
      assert (s.x + r.x)[|a| + k - 1 := Stir(r.x[k - 1], r.t)] == s.x + r.x[k - 1 := Stir(r.x[k - 1], r.t)];
    }
  }

  /** A pass over the three parts of the buffer. */
  lemma {:induction false} SweepThree(a: seq<Byte>, b: seq<Byte>, c: seq<Byte>, t: Byte)
    requires IsBlock(a) && IsBlock(b) && IsBlock(c)
    ensures var s := Sweep(a, t, BLOCK);
            var r := Sweep(b, s.t, BLOCK);
            var q := Sweep(c, r.t, BLOCK); Sweep(a + b + c, t, 48) == Sweeping(s.x + r.x + q.x, q.t)
  {
    hide Sweep;
    SweepBoth(a + b, c, t, BLOCK);
    SweepBoth(a, b, t, BLOCK);
  }

  class Context {
    const hash: array<Byte>
    const blk1: array<Byte>
    const blk2: array<Byte>
    const last: array<Byte>
    const checksum: array<Byte>
    var used: nat

    ghost predicate Separate()
    {
      && hash.Length == blk1.Length == blk2.Length == last.Length == checksum.Length == BLOCK
      && hash != blk1 && hash != blk2 && hash != last && hash != checksum && blk1 != blk2 && blk1 != last
      && blk1 != checksum && blk2 != last && blk2 != checksum && last != checksum
    }

    /** The context after consuming the message m. */
    ghost predicate Consumed(m: seq<Byte>)
      reads this, hash, last, checksum
    {
      && Separate() && used == |m| % BLOCK
      && last[..used] == m[|m| - used..]
      && hash[..] == Hash(m[..|m| - used]) && checksum[..] == Checksums(m[..|m| - used])
    }

    constructor ()
      ensures Consumed([]) && fresh(hash) && fresh(blk1) && fresh(blk2) && fresh(last) && fresh(checksum)
    {
      hide Hash, Checksums, Zeros;
      hash := new Byte[BLOCK](i => 0);
      blk1 := new Byte[BLOCK](i => 0);
      blk2 := new Byte[BLOCK](i => 0);
      last := new Byte[BLOCK](i => 0);
      checksum := new Byte[BLOCK](i => 0);
      used := 0;
      new;
      NothingConsumed(hash[..]);
      NothingConsumed(checksum[..]);
    }

    method UpdateChecksum(b: seq<Byte>)
      requires Separate() && IsBlock(b)
      modifies checksum
      ensures checksum[..] == ChecksumIn(old(checksum[..]), b, BLOCK)
    {
      hide Stir, Mix, ChecksumIn;
      ghost var c0 := checksum[..];
      ChecksumStart(c0, b);
      var l := checksum[BLOCK - 1];
      for i := 0 to BLOCK
        invariant checksum[..] == ChecksumIn(c0, b, i) && l == if i == 0 then c0[BLOCK - 1] else checksum[i - 1]
      {
        var c := b[i];
        ChecksumStep(c0, b, i);
        checksum[i] := Stir(checksum[i], Mix(c, l));
        l := checksum[i];
      }
    }

    method PrepareBlk(b: seq<Byte>)
      requires Separate() && IsBlock(b)
      modifies blk1, blk2
      ensures hash[..] + blk1[..] + blk2[..] == Loaded(hash[..], b)
    {
      for i := 0 to BLOCK
        invariant forall k :: 0 <= k < i ==> blk1[k] == b[k] && blk2[k] == Mix(b[k], hash[k])
      {
        blk1[i] := b[i];
        blk2[i] := Mix(blk1[i], hash[i]);
      }
      assert blk1[..] == b && blk2[..] == Xor(b, hash[..]);
    }

    /** One pass over a part of the buffer. */
    method SweepPart(a: array<Byte>, t: Byte) returns (tmp: Byte)
      modifies a
      ensures Sweeping(a[..], tmp) == Sweep(old(a[..]), t, a.Length)
    {
      hide Stir, Sweep;
      ghost var s := a[..];
      tmp := t;
      SweepStart(s, t);
      for j := 0 to a.Length
        invariant Sweeping(a[..], tmp) == Sweep(s, t, j)
      {
        SweepStep(s, t, j);
        a[j] := Stir(a[j], tmp);
        tmp := a[j];
      }
    }

    method ProcessBlock(b: seq<Byte>)
      requires Separate() && IsBlock(b)
      modifies hash, blk1, blk2, checksum
      ensures hash[..] == Compress(old(hash[..]), b)
      ensures checksum[..] == ChecksumIn(old(checksum[..]), b, BLOCK)
    {
      hide Stir, Sweep, ChecksumIn, Loaded, Rounds;
      UpdateChecksum(b);
      PrepareBlk(b);
      ghost var x := hash[..] + blk1[..] + blk2[..];
      var tmp: Byte := 0;
      RoundsStart(x);
      for i := 0 to 18
        invariant Sweeping(hash[..] + blk1[..] + blk2[..], tmp) == Rounds(x, i)
        invariant checksum[..] == ChecksumIn(old(checksum[..]), b, BLOCK)
      {
        SweepThree(hash[..], blk1[..], blk2[..], tmp);
        RoundsStep(x, i);
        tmp := SweepPart(hash, tmp);
        tmp := SweepPart(blk1, tmp);
        tmp := SweepPart(blk2, tmp);
        tmp := tmp + i as Byte;
      }
      assert hash[..] == (hash[..] + blk1[..] + blk2[..])[..BLOCK];
    }

    /** Whole blocks p have been processed. */
    ghost predicate AtBlock(p: seq<Byte>)
      reads this, hash, checksum
    {
      Separate() && |p| % BLOCK == 0 && hash[..] == Hash(p) && checksum[..] == Checksums(p)
    }

    method ProcessNext(b: seq<Byte>, ghost p: seq<Byte>)
      requires AtBlock(p) && IsBlock(b)
      modifies hash, blk1, blk2, checksum
      ensures AtBlock(p + b)
    {
      hide Compress, ChecksumIn, Hash, Checksums;
      ProcessBlock(b);
      HashAppend(p, b);
    }

    /** Copies bytes into the pending block. */
    method Copy(at: nat, data: seq<Byte>)
      requires Separate() && at + |data| <= BLOCK
      modifies last
      ensures last[..at] == old(last[..at]) && last[at..at + |data|] == data
    {
      forall i | 0 <= i < |data| {
        last[at + i] := data[i];
      }
    }

    /** Consumes more of the message; how the message is cut up does not matter. */
    method Update(data: seq<Byte>, ghost m: seq<Byte>)
      requires Consumed(m)
      modifies this`used, hash, blk1, blk2, last, checksum
      ensures Consumed(m + data)
    {
      hide Hash, Checksums;
      var rest := data;
      ghost var p := m;
      if used != 0 {
        if used + |data| < BLOCK {
          AppendPending(data, m);
          return;
        }
        rest, p := CompletePending(data, m);
      } else {
        assert m[..|m| - used] == m;
      }
      UpdateBlocks(rest, p, m + data);
    }

    /** Adds to the pending block without completing it. */
    method AppendPending(data: seq<Byte>, ghost m: seq<Byte>)
      requires Consumed(m) && used + |data| < BLOCK
      modifies this`used, last
      ensures Consumed(m + data)
    {
      hide Hash, Checksums;
      StillShort(m, data, m[..|m| - used]);
      Copy(used, data);
      assert last[..used + |data|] == last[..used] + last[used..used + |data|];
      used := used + |data|;
    }

    /** Fills up the pending block and processes it. */
    method CompleteWith(bytes: seq<Byte>, ghost m: seq<Byte>)
      requires Consumed(m) && used + |bytes| == BLOCK
      modifies hash, blk1, blk2, last, checksum
      ensures AtBlock(m + bytes)
    {
      hide Hash, Checksums;
      ghost var p, tail := m[..|m| - used], m[|m| - used..];
      Copy(used, bytes);
      ghost var b := tail + bytes;
      assert last[..] == last[..used] + last[used..used + |bytes|] == b;
      ProcessNext(last[..], p);
      assert p + b == m + bytes;
    }

    /** Completes the pending block with the first of the data. */
    method CompletePending(data: seq<Byte>, ghost m: seq<Byte>) returns (rest: seq<Byte>, ghost p: seq<Byte>)
      requires Consumed(m) && used + |data| >= BLOCK
      modifies this`used, hash, blk1, blk2, last, checksum
      ensures used == 0 && AtBlock(p) && p + rest == m + data
    {
      hide Hash, Checksums;
      var copied := BLOCK - used;
      CompleteWith(data[..copied], m);
      p, rest := m + data[..copied], data[copied..];
      used := 0;
      forall i | 0 <= i < BLOCK {
        last[i] := 0;
      }
    }

    /** Processes whole blocks and keeps what is left. */
    method UpdateBlocks(data: seq<Byte>, ghost p0: seq<Byte>, ghost m: seq<Byte>)
      requires AtBlock(p0) && p0 + data == m
      modifies this`used, hash, blk1, blk2, last, checksum
      ensures Consumed(m)
    {
      hide Hash, Checksums;
      var rest := data;
      ghost var p := p0;
      while |rest| >= BLOCK
        invariant AtBlock(p) && p + rest == m
      {
        ProcessNext(rest[..BLOCK], p);
        assert p + rest == (p + rest[..BLOCK]) + rest[BLOCK..];
        p := p + rest[..BLOCK];
        rest := rest[BLOCK..];
      }
      Copy(0, rest);
      used := |rest|;
      Leftover(p, rest, m);
      assert last[..used] == rest;
    }

    /** Pads the message and processes its last block. */
    method ProcessPadding(ghost m: seq<Byte>)
      requires Consumed(m)
      modifies this`used, hash, blk1, blk2, last, checksum
      ensures AtBlock(Pad(m))
    {
      hide Hash, Checksums, Pad;
      var n := BLOCK - used;
      CompleteWith(seq(n, i => n as Byte), m);
      Padded(m, n);
      used := 0;
    }

    /** Pads, appends the checksum and delivers the digest that the two-pass definition gives. */
    method Final(ghost m: seq<Byte>) returns (digest: seq<Byte>)
      requires Consumed(m)
      modifies this`used, hash, blk1, blk2, last, checksum
      ensures digest == Digest(m)
    {
      hide Hash, Checksums, Checksum, Pad;
      ProcessPadding(m);
      ChecksumsAgree(Pad(m));
      Copy(0, checksum[..]);
      assert last[..] == checksum[..];
      ProcessNext(last[..], Pad(m));
      digest := hash[..];
    }
  }

  lemma {:induction false} NothingConsumed(z: seq<Byte>)
    requires |z| == BLOCK && forall i :: 0 <= i < BLOCK ==> z[i] == 0
    ensures Hash([]) == Checksums([]) == z
  {
    assert z == Zeros();
  }

  lemma {:induction false} StillShort(m: seq<Byte>, data: seq<Byte>, p: seq<Byte>)
    requires p == m[..|m| - |m| % BLOCK] && |m| % BLOCK + |data| < BLOCK
    ensures |m + data| % BLOCK == |m| % BLOCK + |data|
    ensures (m + data)[..|m + data| - |m + data| % BLOCK] == p
    ensures (m + data)[|m + data| - |m + data| % BLOCK..] == m[|m| - |m| % BLOCK..] + data
  {}

  lemma {:induction false} Leftover(p: seq<Byte>, rest: seq<Byte>, m: seq<Byte>)
    requires |p| % BLOCK == 0 && |rest| < BLOCK && p + rest == m
    ensures |m| % BLOCK == |rest| && m[..|m| - |rest|] == p && m[|m| - |rest|..] == rest
  {}

  lemma {:induction false} Padded(m: seq<Byte>, n: nat)
    requires n == BLOCK - |m| % BLOCK
    ensures m + seq(n, i => n as Byte) == Pad(m)
  {}

  function Concat(chunks: seq<seq<Byte>>): seq<Byte> {
    if chunks == [] then [] else Concat(chunks[..|chunks| - 1]) + chunks[|chunks| - 1]
  }

  /** Feeding a message in any chunks gives the digest of the whole message. */
  method HashChunks(chunks: seq<seq<Byte>>) returns (digest: seq<Byte>)
    ensures digest == Digest(Concat(chunks))
  {
    hide Digest;
    var ctx := new Context();
    assert Concat(chunks[..0]) == [];
    for i := 0 to |chunks|
      invariant ctx.Consumed(Concat(chunks[..i]))
      invariant fresh(ctx) && fresh(ctx.hash) && fresh(ctx.blk1) && fresh(ctx.blk2) && fresh(ctx.last) && fresh(ctx.checksum)
    {
      ctx.Update(chunks[i], Concat(chunks[..i]));
      assert chunks[..i + 1][..i] == chunks[..i];
    }
    assert chunks[..|chunks|] == chunks;
    digest := ctx.Final(Concat(chunks));
  }

  lemma {:induction false} SweepStart(x: seq<Byte>, t: Byte)
    ensures Sweep(x, t, 0) == Sweeping(x, t)
  {}

  lemma {:induction false} SweepStep(x: seq<Byte>, t: Byte, k: nat)
    requires k < |x|
    ensures var s := Sweep(x, t, k);
            var b := Stir(s.x[k], s.t); Sweep(x, t, k + 1) == Sweeping(s.x[k := b], b)
  {}

  lemma {:induction false} RoundsStart(x: seq<Byte>)
    requires |x| == 48
    ensures Rounds(x, 0) == Sweeping(x, 0)
  {}

  lemma {:induction false} RoundsStep(x: seq<Byte>, n: nat)
    requires |x| == 48 && n < 18
    ensures var s := Rounds(x, n);
            var r := Sweep(s.x, s.t, 48); Rounds(x, n + 1) == Sweeping(r.x, r.t + n as Byte)
  {
    hide Sweep;
  }
}
