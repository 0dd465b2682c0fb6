/** Scatter/gather transfers between a buffer and the vectors of a request. */
module Uio {

  type Byte = b: int | 0 <= b < 256

  datatype Iovec = Iovec(buf: array<Byte>, off: nat, len: nat)

  /** One byte of a vector's memory. */
  datatype Loc = Loc(buf: array<Byte>, i: nat)

  function Range(v: Iovec): (r: seq<Loc>)
    ensures |r| == v.len && forall t :: 0 <= t < v.len ==> r[t] == Loc(v.buf, v.off + t)
  {
    seq(v.len, t requires 0 <= t => Loc(v.buf, v.off + t))
  }

  /** The memory that a list of vectors covers, in order. */
  function Locs(iov: seq<Iovec>): seq<Loc> {
    if iov == [] then [] else Range(iov[0]) + Locs(iov[1..])
  }

  /** The locations exist and do not overlap. */
  ghost predicate Distinct(ls: seq<Loc>) {
    && (forall j :: 0 <= j < |ls| ==> ls[j].i < ls[j].buf.Length)
    && forall i, j :: 0 <= i < j < |ls| ==> ls[i] != ls[j]
  }

  ghost function Bufs(ls: seq<Loc>): set<array<Byte>> {
    set j | 0 <= j < |ls| :: ls[j].buf
  }

  /** What the locations hold. */
  ghost function Held(ls: seq<Loc>): (s: seq<Byte>)
    requires Distinct(ls)
    reads Bufs(ls)
    ensures |s| == |ls| && forall j :: 0 <= j < |ls| ==> s[j] == ls[j].buf[ls[j].i]
  {
    if ls == [] then []
    else
      var n := |ls| - 1;
      assert ls[n].buf in Bufs(ls) && Bufs(ls[..n]) <= Bufs(ls);
      Held(ls[..n]) + [ls[n].buf[ls[n].i]]
  }

  class Request {
    /** The vectors that are left, the file position and the bytes that are left to move. */
    var iov: seq<Iovec>
    var offset: int
    var resid: nat

    constructor (iov: seq<Iovec>, offset: int)
      ensures this.iov == iov && this.offset == offset && resid == |Locs(iov)|
    {
      this.iov, this.offset, this.resid := iov, offset, |Locs(iov)|;
    }
  }

  /** Taking bytes from the first vector takes them from the front of the memory covered. */
  lemma {:induction false} TakeFront(iov: seq<Iovec>, cnt: nat)
    requires iov != [] && cnt <= iov[0].len
    ensures var v := iov[0];
            Locs([Iovec(v.buf, v.off + cnt, v.len - cnt)] + iov[1..]) == Locs(iov)[cnt..]
    ensures forall t :: 0 <= t < cnt ==> t < |Locs(iov)| && Locs(iov)[t] == Loc(iov[0].buf, iov[0].off + t)
  {
    var v := iov[0];
    var w := Iovec(v.buf, v.off + cnt, v.len - cnt);
    assert ([w] + iov[1..])[1..] == iov[1..];
    assert Range(w) == Range(v)[cnt..];
  }

  lemma {:induction false} DropEmpty(iov: seq<Iovec>)
    requires iov != [] && iov[0].len == 0
    ensures Locs(iov[1..]) == Locs(iov)
  {}

  /** The next bytes of the memory covered are those of the first vector. */
  lemma {:induction false} FrontOf(ls: seq<Loc>, k: nat, iov: seq<Iovec>, cnt: nat)
    requires Distinct(ls) && k <= |ls| && Locs(iov) == ls[k..] && iov != [] && 0 < cnt <= iov[0].len
    ensures k + cnt <= |ls| && iov[0].buf in Bufs(ls) && iov[0].off + cnt <= iov[0].buf.Length
    ensures forall j :: k <= j < k + cnt ==> ls[j] == Loc(iov[0].buf, iov[0].off + (j - k))
    ensures forall j :: 0 <= j < |ls| && !(k <= j < k + cnt) && ls[j].buf == iov[0].buf ==>
              !(iov[0].off <= ls[j].i < iov[0].off + cnt)
  {
    var v := iov[0];
    assert |Locs(iov)| >= cnt;
    forall j | k <= j < k + cnt
      ensures ls[j] == Loc(v.buf, v.off + (j - k))
    {
      assert ls[k..][j - k] == ls[j];
    }
    assert ls[k].buf in Bufs(ls) && ls[k + cnt - 1].i < v.buf.Length;
    forall j | 0 <= j < |ls| && !(k <= j < k + cnt) && ls[j].buf == v.buf
      ensures !(v.off <= ls[j].i < v.off + cnt)
    {
      var t := k + (ls[j].i - v.off);
      assert k <= t < k + cnt ==> ls[t] == Loc(v.buf, v.off + (t - k));
    }
  }

  /** Takes cnt bytes off the first vector. */
  method Advance(uio: Request, cnt: nat)
    requires uio.iov != [] && cnt <= uio.iov[0].len && cnt <= uio.resid
    modifies uio
    ensures Locs(uio.iov) == old(Locs(uio.iov))[cnt..]
    ensures uio.resid == old(uio.resid) - cnt && uio.offset == old(uio.offset) + cnt && |uio.iov| == |old(uio.iov)|
  {
    TakeFront(uio.iov, cnt);
    var v := uio.iov[0];
    uio.iov := [Iovec(v.buf, v.off + cnt, v.len - cnt)] + uio.iov[1..];
    uio.resid, uio.offset := uio.resid - cnt, uio.offset + cnt;
  }

  /** Copies src into the vectors: the first min(n, resid) bytes of the memory they cover become the bytes of src,
      the rest keeps its contents, and every byte moved is taken from resid and added to the offset. */
  method MoveOut(src: array<Byte>, at: nat, n: nat, uio: Request, ghost ls: seq<Loc>)
    requires ls == Locs(uio.iov) && Distinct(ls) && uio.resid == |ls|
    requires at + n <= src.Length && src !in Bufs(ls)
    modifies uio, Bufs(ls)
    ensures var moved := if n < |ls| then n else |ls|;
            && uio.resid == |ls| - moved && uio.offset == old(uio.offset) + moved && Locs(uio.iov) == ls[moved..]
            && Held(ls) == src[at..at + moved] + old(Held(ls))[moved..]
  {
    hide Locs, Held, Range, Bufs;
    var left, cp := n, at;
    ghost var k, h0 := 0, Held(ls);
    while left > 0 && uio.resid > 0
      invariant 0 <= k <= n && k + left == n && k + uio.resid == |ls| && cp == at + k && uio.offset == old(uio.offset) + k
      invariant Locs(uio.iov) == ls[k..]
      invariant forall j :: 0 <= j < |ls| ==> ls[j].buf[ls[j].i] == if j < k then src[at + j] else h0[j]
      decreases left, |uio.iov|
    {
      MoreLeft(uio.iov);
      var v := uio.iov[0];
      var cnt := v.len;
      if cnt == 0 {
        DropEmpty(uio.iov);
        uio.iov := uio.iov[1..];
        continue;
      }
      if cnt > left {
        cnt := left;
      }
      FrontOf(ls, k, uio.iov, cnt);
      CopyBytes(src, cp, v.buf, v.off, cnt);
      Advance(uio, cnt);
      cp, left, k := cp + cnt, left - cnt, k + cnt;
    }
  }

  lemma {:induction false} InBufs(ls: seq<Loc>, j: nat)
    requires j < |ls|
    ensures ls[j].buf in Bufs(ls)
  {}

  lemma {:induction false} MoreLeft(iov: seq<Iovec>)
    ensures Locs(iov) != [] ==> iov != []
  {}

  /** Copies the memory the vectors cover into dst, the other way round. */
  method MoveIn(dst: array<Byte>, at: nat, n: nat, uio: Request, ghost ls: seq<Loc>)
    requires ls == Locs(uio.iov) && Distinct(ls) && uio.resid == |ls|
    requires at + n <= dst.Length && dst !in Bufs(ls)
    modifies uio, dst
    ensures var moved := if n < |ls| then n else |ls|;
            && uio.resid == |ls| - moved && uio.offset == old(uio.offset) + moved && Locs(uio.iov) == ls[moved..]
            && dst[..] == old(dst[..at]) + Held(ls)[..moved] + old(dst[at + moved..])
  {
    hide Locs, Held, Range, Bufs;
    var left, cp := n, at;
    ghost var k, d0, h0 := 0, dst[..], Held(ls);
    forall j | 0 <= j < |ls|
      ensures ls[j].buf != dst
    {
      InBufs(ls, j);
    }
    while left > 0 && uio.resid > 0
      invariant 0 <= k <= n && k + left == n && k + uio.resid == |ls| && cp == at + k && uio.offset == old(uio.offset) + k
      invariant Locs(uio.iov) == ls[k..]
      invariant forall j :: at <= j < at + k ==> dst[j] == ls[j - at].buf[ls[j - at].i]
      invariant forall j :: 0 <= j < dst.Length && !(at <= j < at + k) ==> dst[j] == d0[j]
      invariant forall j :: 0 <= j < |ls| ==> ls[j].buf[ls[j].i] == h0[j]
      decreases left, |uio.iov|
    {
      MoreLeft(uio.iov);
      var v := uio.iov[0];
      var cnt := v.len;
      if cnt == 0 {
        DropEmpty(uio.iov);
        uio.iov := uio.iov[1..];
        continue;
      }
      if cnt > left {
        cnt := left;
      }
      FrontOf(ls, k, uio.iov, cnt);
      CopyBytes(v.buf, v.off, dst, cp, cnt);
      Advance(uio, cnt);
      cp, left, k := cp + cnt, left - cnt, k + cnt;
    }
  }

  /** memcpy between different buffers. */
  method CopyBytes(src: array<Byte>, from: nat, dst: array<Byte>, to: nat, cnt: nat)
    requires src != dst && from + cnt <= src.Length && to + cnt <= dst.Length
    modifies dst
    ensures forall i :: 0 <= i < dst.Length ==> dst[i] == if to <= i < to + cnt then src[from + (i - to)] else old(dst[i])
  {
    forall t | 0 <= t < cnt {
      dst[to + t] := src[from + t];
    }
  }
}
