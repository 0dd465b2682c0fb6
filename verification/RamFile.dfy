/** A RAM file: a growable buffer that stands for a sequence of bytes. */
module RamFile {
  import opened Sizes
  import opened Uio

  const INT_MAX := 0x7fff_ffff
  const LONG_MAX := 0x7fff_ffff_ffff_ffff

  datatype VType = VReg | VDir | VOther
  datatype Errno = Ok | EISDIR | EINVAL | EFBIG | EIO

  /** The file after data is written at off; a gap before off reads as zeros. */
  function Patched(c: seq<Byte>, off: nat, data: seq<Byte>): (r: seq<Byte>)
    ensures |r| == if off + |data| > |c| then off + |data| else |c|
    ensures forall i :: 0 <= i < |r| ==>
              r[i] == if off <= i < off + |data| then data[i - off] else if i < |c| then c[i] else 0
  {
    seq(if off + |data| > |c| then off + |data| else |c|,
        i requires 0 <= i => if off <= i < off + |data| then data[i - off] else if i < |c| then c[i] else 0)
  }

  /** An unsigned 64-bit sum stored in a signed variable. */
  function Signed(sum: nat): (r: int)
    requires sum < 0x1_0000_0000_0000_0000
    ensures r >= 0 <==> sum <= LONG_MAX
    ensures r >= 0 ==> r == sum
  {
    if sum <= LONG_MAX then sum else sum - 0x1_0000_0000_0000_0000
  }

  /** The size asked of the allocator for a file that is to end at end. */
  function NewSize(end: nat, bufLength: nat): (r: nat)
    requires end > 0
    ensures end <= r < end + 101 * PARTITION_SIZE
    ensures bufLength > 0 ==> r % PARTITION_SIZE == 0 && end <= r - 100 * PARTITION_SIZE < end + PARTITION_SIZE
    ensures bufLength == 0 ==> r % PAGE_SIZE == 0 && r < end + PAGE_SIZE
  {
    if bufLength > 0 then PartitionUp(end) + 100 * PARTITION_SIZE else PageUp(end)
  }

  /** The file cannot be made to end at end: the allocator is out of memory, or the size is more than it ever gives. */
  predicate NoRoom(end: nat, bufLength: nat, oom: bool)
    requires end > 0
  {
    end > bufLength && (oom || NewSize(end, bufLength) > LONG_MAX)
  }

  class Node {
    const vtype: VType
    var buf: array<Byte>
    var size: nat
    var vsize: int

    /** The buffer is large enough and zero past the end of the file. */
    ghost predicate Valid()
      reads this, buf
    {
      size == vsize <= buf.Length <= LONG_MAX && forall i :: size <= i < buf.Length ==> buf[i] == 0
    }

    ghost function Contents(): seq<Byte>
      requires Valid()
      reads this, buf
    {
      buf[..size]
    }

    constructor (vtype: VType)
      ensures Valid() && Contents() == [] && this.vtype == vtype && fresh(buf)
    {
      this.vtype, this.buf, this.size, this.vsize := vtype, new Byte[0], 0, 0;
    }

    /** Reads at the offset of the request: what fits of the rest of the file, and nothing more, is stored. */
    method Read(uio: Request, ghost ls: seq<Loc>) returns (r: Errno)
      requires Valid() && ls == Locs(uio.iov) && Distinct(ls) && uio.resid == |ls| <= INT_MAX && buf !in Bufs(ls)
      modifies uio, Bufs(ls)
      ensures Valid() && Contents() == old(Contents())
      ensures r == if vtype.VDir? then EISDIR else if vtype.VOther? || old(uio.offset) < 0 then EINVAL else Ok
      ensures r == Ok ==>
                var off := old(uio.offset);
                var len := if off >= size then 0 else if size - off < |ls| then size - off else |ls|;
                && uio.resid == |ls| - len && uio.offset == off + len
                && Held(ls) == (if len == 0 then [] else Contents()[off..off + len]) + old(Held(ls))[len..]
      ensures r != Ok ==> Held(ls) == old(Held(ls)) && uio.resid == |ls| && uio.offset == old(uio.offset)
    {
      hide Locs, Held, Bufs;
      if vtype.VDir? {
        return EISDIR;
      }
      if vtype.VOther? || uio.offset < 0 {
        return EINVAL;
      }
      if uio.resid == 0 || uio.offset >= vsize {
        NothingRead(Held(ls));
        return Ok;
      }
      var len := if vsize - uio.offset < uio.resid then vsize - uio.offset else uio.resid;
      Fetch(len, uio, ls);
      r := Ok;
    }

    /** Copies a part of the file to the memory of the request. */
    method Fetch(len: nat, uio: Request, ghost ls: seq<Loc>)
      requires Valid() && ls == Locs(uio.iov) && Distinct(ls) && uio.resid == |ls| && buf !in Bufs(ls)
      requires uio.offset >= 0 && uio.offset + len <= size && len <= |ls|
      modifies uio, Bufs(ls)
      ensures Valid() && Contents() == old(Contents())
      ensures uio.resid == |ls| - len && uio.offset == old(uio.offset) + len
      ensures Held(ls) == Contents()[old(uio.offset)..old(uio.offset) + len] + old(Held(ls))[len..]
    {
      hide Locs, Held, Bufs;
      ghost var off := uio.offset;
      MoveOut(buf, uio.offset, len, uio, ls);
      assert Contents()[off..off + len] == buf[off..off + len];
    }

    /** Makes the file end at end, moving it to a larger buffer if need be. An end above LONG_MAX turns negative
        and leaves the buffer as it is. */
    method Extend(end: nat, oom: bool) returns (ok: bool)
      requires Valid() && size < end < 0x1_0000_0000_0000_0000
      modifies this
      ensures ok <==> end > LONG_MAX || !NoRoom(end, old(buf.Length), oom)
      ensures end <= LONG_MAX ==> Valid() && (buf == old(buf) || fresh(buf)) && buf.Length >= old(buf.Length)
      ensures end <= LONG_MAX && ok ==> size == end && Contents() == old(Contents()) + seq(end - old(size), i => 0)
      ensures end <= LONG_MAX && ok ==>
                if end <= old(buf.Length) then buf == old(buf) else buf.Length == NewSize(end, old(buf.Length))
      ensures !ok ==> Valid() && buf == old(buf) && Contents() == old(Contents())
      ensures end > LONG_MAX ==> buf == old(buf) && size == end && vsize < 0
    {
      var endPos := Signed(end);
      if endPos > buf.Length {
        var newSize := NewSize(endPos, buf.Length);
        if oom || newSize > LONG_MAX {
          return false;
        }
        var newBuf := new Byte[newSize](i => 0);
        if size != 0 {
          CopyBytes(buf, 0, newBuf, 0, vsize);
        }
        buf := newBuf;
      }
      size, vsize := end, endPos;
      ok := true;
    }

    /** Stores the data of a request inside the file. */
    method Store(uio: Request, ghost ls: seq<Loc>)
      requires Valid() && ls == Locs(uio.iov) && Distinct(ls) && uio.resid == |ls| && buf !in Bufs(ls)
      requires uio.offset >= 0 && uio.offset + |ls| <= size
      modifies buf, uio
      ensures Valid() && Held(ls) == old(Held(ls)) && Contents() == Patched(old(Contents()), old(uio.offset), Held(ls))
      ensures uio.resid == 0 && uio.offset == old(uio.offset) + |ls|
    {
      hide Locs, Patched;
      MoveIn(buf, uio.offset, uio.resid, uio, ls);
    }

    /** Writes at the offset of the request, or at the end of the file. The write leaves the buffer exactly if its
        end is above LONG_MAX. */
    method Write(uio: Request, append: bool, oom: bool, ghost ls: seq<Loc>) returns (r: Errno, fault: bool)
      requires Valid() && ls == Locs(uio.iov) && Distinct(ls) && uio.resid == |ls| <= INT_MAX && buf !in Bufs(ls)
      modifies this, buf, uio
      ensures var off := if append then old(size) else old(uio.offset);
              fault <==> vtype.VReg? && 0 <= old(uio.offset) < LONG_MAX && ls != [] && off + |ls| > LONG_MAX
      ensures !fault ==> Valid() && (buf == old(buf) || fresh(buf)) && Held(ls) == old(Held(ls))
      ensures !fault ==>
              var off := if append then old(size) else old(uio.offset);
              r == if vtype.VDir? then EISDIR else if vtype.VOther? || old(uio.offset) < 0 then EINVAL
                   else if old(uio.offset) >= LONG_MAX then EFBIG
                   else if ls != [] && off + |ls| > old(buf.Length) && (oom || NewSize(off + |ls|, old(buf.Length)) > LONG_MAX) then EIO
                   else Ok
      ensures !fault && r == Ok && ls != [] ==>
                var off := if append then old(size) else old(uio.offset);
                && Contents() == Patched(old(Contents()), off, Held(ls))
                && uio.resid == 0 && uio.offset == off + |ls|
      ensures !fault && (r != Ok || ls == []) ==> Contents() == old(Contents()) && uio.resid == |ls|
      ensures !fault && (r != Ok || ls == []) ==>
                buf == old(buf) && uio.offset == if r == EIO && append then old(size) else old(uio.offset)
      ensures !fault && r == Ok && ls != [] ==>
                var end := (if append then old(size) else old(uio.offset)) + |ls|;
                if end <= old(buf.Length) then buf == old(buf) else buf.Length == NewSize(end, old(buf.Length))
    {
      hide Locs, Patched, NewSize;
      fault := false;
      if vtype.VDir? {
        return EISDIR, false;
      }
      if vtype.VOther? || uio.offset < 0 {
        return EINVAL, false;
      }
      if uio.offset >= LONG_MAX {
        return EFBIG, false;
      }
      if uio.resid == 0 {
        return Ok, false;
      }
      if append {
        uio.offset := size;
      }
      r, fault := Place(uio, oom, ls);
    }

    /** The part of a write that moves data: the file grows to its end, then the data is stored. */
    method Place(uio: Request, oom: bool, ghost ls: seq<Loc>) returns (r: Errno, fault: bool)
      requires Valid() && ls == Locs(uio.iov) && Distinct(ls) && 0 < uio.resid == |ls| <= INT_MAX && buf !in Bufs(ls)
      requires 0 <= uio.offset <= LONG_MAX
      modifies this, buf, uio
      ensures fault <==> old(uio.offset) + |ls| > LONG_MAX
      ensures !fault ==> Valid() && (buf == old(buf) || fresh(buf)) && Held(ls) == old(Held(ls))
      ensures !fault ==>
              var end := old(uio.offset) + |ls|;
              r == if end > old(size) && NoRoom(end, old(buf.Length), oom) then EIO else Ok
      ensures !fault && r == Ok ==>
                && Contents() == Patched(old(Contents()), old(uio.offset), Held(ls))
                && uio.resid == 0 && uio.offset == old(uio.offset) + |ls|
      ensures !fault && r != Ok ==> Contents() == old(Contents()) && uio.resid == |ls| && uio.offset == old(uio.offset)
      ensures !fault ==>
                var end := old(uio.offset) + |ls|;
                if r != Ok || end <= old(buf.Length) then buf == old(buf) else buf.Length == NewSize(end, old(buf.Length))
    {
      hide Locs, Patched, NoRoom, NewSize;
      ghost var c0 := Contents();
      if uio.offset + uio.resid > vsize {
        var ok := Extend(uio.offset + uio.resid, oom);
        if !ok {
          return EIO, false;
        }
      }
      r, fault := Ok, uio.offset + uio.resid > buf.Length;
      if !fault {
        PatchedGrown(c0, Contents(), uio.offset, Held(ls));
        Store(uio, ls);
      }
    }

    /** Cuts the file off or lengthens it; fill is what a new buffer holds. Length 0 drops the buffer. Otherwise bytes
        cut off stay in the buffer and new ones are not cleared, so the file stays zero past its end exactly if those
        bytes happen to be zero. */
    method Truncate(length: nat, fill: seq<Byte>, oom: bool) returns (r: Errno)
      requires Valid() && length <= LONG_MAX && (length > buf.Length ==> |fill| == TruncatedSize(length))
      modifies this
      ensures r == if length > old(buf.Length) && (oom || TruncatedSize(length) > LONG_MAX) then EIO else Ok
      ensures r == EIO ==> Valid() && buf == old(buf) && Contents() == old(Contents())
      ensures r == Ok ==> (buf == old(buf) || fresh(buf)) && size == vsize == length <= buf.Length <= LONG_MAX
      ensures r == Ok ==>
                if length == 0 then buf.Length == 0
                else if length > old(buf.Length) then buf.Length == TruncatedSize(length) else buf == old(buf)
      ensures r == Ok ==>
                buf[..length] ==
                if length <= old(size) then old(Contents())[..length]
                else old(Contents()) + if length <= old(buf.Length) then seq(length - old(size), i => 0) else fill[old(size)..length]
      ensures r == Ok ==>
                (Valid() <==>
                 if length == 0 then true
                 else if length > old(buf.Length) then ZeroFrom(fill, length)
                 else length >= old(size) || ZeroFrom(old(Contents()), length))
    {
      if length == 0 {
        buf := new Byte[0];
      } else if length > buf.Length {
        var newSize := TruncatedSize(length);
        if oom || newSize > LONG_MAX {
          return EIO;
        }
        Move(newSize, fill);
      }
      size, vsize := length, length;
      r := Ok;
      ZeroPastEnd();
      CutOrLengthened(old(Contents()), old(buf[..]), fill, length, buf[..]);
      assert buf[..][..length] == buf[..length];
    }

    /** Moves the file to a new buffer that holds fill. */
    method Move(newSize: nat, fill: seq<Byte>)
      requires Valid() && |fill| == newSize >= buf.Length
      modifies this`buf
      ensures fresh(buf) && buf[..] == old(Contents()) + fill[size..]
    {
      var newBuf := new Byte[newSize](i requires 0 <= i < newSize => fill[i]);
      if size != 0 {
        CopyBytes(buf, 0, newBuf, 0, vsize);
      }
      buf := newBuf;
    }

    lemma {:induction false} ZeroPastEnd()
      requires size == vsize <= buf.Length <= LONG_MAX
      ensures Valid() <==> ZeroFrom(buf[..], size)
    {
      assert forall i :: 0 <= i < buf.Length ==> buf[..][i] == buf[i];
    }
  }

  /** The buffer after a truncation, from the contents c of the file and the buffer it had. */
  lemma {:induction false} CutOrLengthened(c: seq<Byte>, was: seq<Byte>, fill: seq<Byte>, length: nat, now: seq<Byte>)
    requires |c| <= |was| && was[..|c|] == c && ZeroFrom(was, |c|) && length <= |now|
    requires length == 0 ==> now == []
    requires length > |was| ==> length <= |fill| && now == c + fill[|c|..]
    requires 0 < length <= |was| ==> now == was
    ensures now[..length] ==
            if length <= |c| then c[..length]
            else c + if length <= |was| then seq(length - |c|, i => 0) else fill[|c|..length]
    ensures ZeroFrom(now, length) <==>
            if length == 0 then true
            else if length > |was| then ZeroFrom(fill, length) else length >= |c| || ZeroFrom(c, length)
  {
    assert forall i :: 0 <= i < |c| ==> c[i] == was[..|c|][i] == was[i];
    if length > |was| {
      assert forall i :: length <= i < |fill| ==> fill[i] == now[i];
      assert now[..length] == c + fill[|c|..length];
    }
  }

  /** The size of the buffer for a truncation that needs a new one. */
  function TruncatedSize(length: nat): (r: nat)
    requires length > 0
    ensures r % PARTITION_SIZE == 0 && length <= r - 2 * PARTITION_SIZE < length + PARTITION_SIZE
  {
    PartitionUp(length) + 2 * PARTITION_SIZE
  }

  predicate ZeroFrom(s: seq<Byte>, k: nat) {
    forall i :: k <= i < |s| ==> s[i] == 0
  }

  lemma {:induction false} NothingRead(h: seq<Byte>)
    ensures [] + h[0..] == h
  {}

  /** Zeros appended up to the end of the written data make no difference. */
  lemma {:induction false} PatchedGrown(c: seq<Byte>, c': seq<Byte>, off: nat, data: seq<Byte>)
    requires |c| <= |c'| && c'[..|c|] == c && (forall i :: |c| <= i < |c'| ==> c'[i] == 0)
    requires |c'| > |c| ==> |c'| == off + |data|
    ensures Patched(c', off, data) == Patched(c, off, data)
  {
    assert forall i :: 0 <= i < |c| ==> c'[i] == c'[..|c|][i];
  }

  // ----- Runs on one file -----

  datatype FileOp = WriteAt(off: nat, data: seq<Byte>) | Append(data: seq<Byte>) | Truncate

  /** What an operation means for the sequence of bytes. */
  function Apply(c: seq<Byte>, op: FileOp): seq<Byte> {
    match op
    case WriteAt(off, data) => if data == [] || off >= LONG_MAX then c else Patched(c, off, data)
    case Append(data) => c + data
    case Truncate => []
  }

  function Replay(script: seq<FileOp>): seq<Byte> {
    if script == [] then [] else Apply(Replay(script[..|script| - 1]), script[|script| - 1])
  }

  /** A request with one vector that holds the data. */
  method OneVector(data: seq<Byte>, off: nat) returns (uio: Request, ghost ls: seq<Loc>)
    ensures fresh(uio) && ls == Locs(uio.iov) && Distinct(ls) && uio.resid == |ls| == |data| && uio.offset == off
    ensures Held(ls) == data && fresh(Bufs(ls))
  {
    var buf := new Byte[|data|](i requires 0 <= i < |data| => data[i]);
    var v := Iovec(buf, 0, |data|);
    uio := new Request([v], off);
    ls := Locs([v]);
    assert [v][1..] == [] && ls == Range(v);
  }

  /** On a fresh file, two bytes written at LONG_MAX - 1 pass every test and miss the buffer. */
  method WrapExample(data: seq<Byte>) returns (fault: bool)
    requires |data| == 2
    ensures fault
  {
    hide Locs;
    var f := new Node(VReg);
    var uio, ls := OneVector(data, LONG_MAX - 1);
    var r;
    r, fault := f.Write(uio, false, false, ls);
  }

  /** The end up to which files can always grow. */
  const FILE_LIMIT := LONG_MAX - 101 * PARTITION_SIZE

  /** The operation writes past the limit. */
  predicate OverLimit(c: seq<Byte>, op: FileOp) {
    match op
    case WriteAt(off, data) => data != [] && off < LONG_MAX && off + |data| > FILE_LIMIT
    case Append(data) => data != [] && |c| + |data| > FILE_LIMIT
    case Truncate => false
  }

  /** Any run of writes, appends and truncations leaves the bytes of the reference sequence, up to the first
      operation that writes past the limit. */
  method Run(script: seq<FileOp>) returns (f: Node, done: nat)
    requires forall op :: op in script && !op.Truncate? ==> |op.data| <= INT_MAX
    ensures done <= |script| && f.Valid() && f.Contents() == Replay(script[..done]) && fresh(f)
    ensures forall i :: 0 <= i < done ==> !OverLimit(Replay(script[..i]), script[i])
    ensures done < |script| ==> OverLimit(Replay(script[..done]), script[done])
    ensures done < |script| ==> |Replay(script[..done + 1])| > LONG_MAX - 101 * PARTITION_SIZE
  {
    hide Locs, Patched, Apply, Replay, OverLimit;
    f := new Node(VReg);
    done := 0;
    ReplayStart(script);
    while done < |script|
      invariant done <= |script| && f.Valid() && f.vtype == VReg && f.Contents() == Replay(script[..done])
      invariant fresh(f) && fresh(f.buf)
      invariant forall i :: 0 <= i < done ==> !OverLimit(Replay(script[..i]), script[i])
    {
      ReplayNext(script, done);
      var op := script[done];
      assert op in script;
      if OverLimit(f.buf[..f.size], op) {
        OverLimitIs(f.Contents(), op);
        return;
      }
      Perform(f, op);
      done := done + 1;
    }
  }

  lemma {:induction false} ReplayStart(script: seq<FileOp>)
    ensures Replay(script[..0]) == []
  {}

  lemma {:induction false} ReplayNext(script: seq<FileOp>, i: nat)
    requires i < |script|
    ensures Replay(script[..i + 1]) == Apply(Replay(script[..i]), script[i])
  {
    assert script[..i + 1][..i] == script[..i];
  }

  /** An operation past the limit would make the file end past it. */
  lemma {:induction false} OverLimitIs(c: seq<Byte>, op: FileOp)
    requires OverLimit(c, op)
    ensures |Apply(c, op)| > FILE_LIMIT
  {}

  /** One operation below the limit. */
  method Perform(f: Node, op: FileOp)
    requires f.Valid() && f.vtype == VReg && !OverLimit(f.Contents(), op) && (!op.Truncate? ==> |op.data| <= INT_MAX)
    modifies f, f.buf
    ensures f.Valid() && f.Contents() == Apply(old(f.Contents()), op) && (f.buf == old(f.buf) || fresh(f.buf))
  {
    hide Locs, Patched, Apply;
    ApplyIs(f.Contents(), op);
    if op.Truncate? {
      var r := f.Truncate(0, [], false);
    } else {
      var uio, ls := OneVector(op.data, if op.WriteAt? then op.off else 0);
      var r, fault := f.Write(uio, op.Append?, false, ls);
    }
  }

  lemma {:induction false} ApplyIs(c: seq<Byte>, op: FileOp)
    ensures op.Truncate? ==> Apply(c, op) == []
    ensures op.Append? ==> Apply(c, op) == if op.data == [] then c else Patched(c, |c|, op.data)
    ensures op.WriteAt? ==> Apply(c, op) == if op.data == [] || op.off >= LONG_MAX then c else Patched(c, op.off, op.data)
  {
    if op.Append? {
      assert Patched(c, |c|, op.data) == c + op.data;
    }
  }
}
