/** MD2 as sections 3.1 to 3.5 of RFC 1319 define it, with the checksum XORed in as in its appendix A.3. */
module Md2Spec {

  type Byte = bv8
  const BLOCK := 16

  /** The substitution table. */
  const S: seq<Byte> := [
    41, 46, 67, 201, 162, 216, 124, 1, 61, 54, 84, 161, 236, 240, 6, 19,
    98, 167, 5, 243, 192, 199, 115, 140, 152, 147, 43, 217, 188, 76, 130, 202,
    30, 155, 87, 60, 253, 212, 224, 22, 103, 66, 111, 24, 138, 23, 229, 18,
    190, 78, 196, 214, 218, 158, 222, 73, 160, 251, 245, 142, 187, 47, 238, 122,
    169, 104, 121, 145, 21, 178, 7, 63, 148, 194, 16, 137, 11, 34, 95, 33,
    128, 127, 93, 154, 90, 144, 50, 39, 53, 62, 204, 231, 191, 247, 151, 3,
    255, 25, 48, 179, 72, 165, 181, 209, 215, 94, 146, 42, 172, 86, 170, 198,
    79, 184, 56, 210, 150, 164, 125, 182, 118, 252, 107, 226, 156, 116, 4, 241,
    69, 157, 112, 89, 100, 113, 135, 32, 134, 91, 207, 101, 230, 45, 168, 2,
    27, 96, 37, 173, 174, 176, 185, 246, 28, 70, 97, 105, 52, 64, 126, 15,
    85, 71, 163, 35, 221, 81, 175, 58, 195, 92, 249, 206, 186, 197, 234, 38,
    44, 83, 13, 110, 133, 40, 132, 9, 211, 223, 205, 244, 65, 129, 77, 82,
    106, 220, 55, 200, 108, 193, 171, 250, 36, 225, 123, 8, 12, 189, 177, 74,
    120, 136, 149, 139, 227, 99, 232, 109, 233, 203, 213, 254, 59, 0, 29, 57,
    242, 239, 183, 14, 102, 88, 208, 228, 166, 119, 114, 248, 235, 117, 75, 10,
    49, 68, 80, 180, 143, 237, 31, 26, 219, 153, 141, 51, 159, 17, 131, 20
  ]

  function Sub(b: Byte): Byte {
    S[b as int]
  }

  function Mix(a: Byte, b: Byte): Byte {
    a ^ b
  }

  /** A byte of the buffer or checksum after its substitution step. */
  function Stir(a: Byte, t: Byte): Byte {
    Mix(a, Sub(t))
  }

  /** Sixteen bytes. */
  predicate IsBlock(b: seq<Byte>) {
    |b| == BLOCK
  }

  function Zeros(): (z: seq<Byte>)
    ensures IsBlock(z) && forall i :: 0 <= i < BLOCK ==> z[i] == 0
  {
    seq(BLOCK, i => 0)
  }

  // ----- Step 1: padding -----

  /** Padding appends 1 to 16 bytes, each of which is the number appended. */
  function Pad(m: seq<Byte>): (p: seq<Byte>)
    ensures |p| % BLOCK == 0 && m < p
  {
    var n := BLOCK - |m| % BLOCK;
    m + seq(n, i => n as Byte)
  }

  // ----- Step 2: the checksum, byte by byte over the whole message -----

  datatype Running = Running(c: seq<Byte>, l: Byte)

  function Checksum(m: seq<Byte>): (r: Running)
    ensures IsBlock(r.c)
  {
    if m == [] then Running(Zeros(), 0)
    else
      var n := |m| - 1;
      var r := Checksum(m[..n]);
      var b := Stir(r.c[n % BLOCK], Mix(m[n], r.l));
      Running(r.c[n % BLOCK := b], b)
  }

  // ----- Steps 3 and 4: the 48-byte buffer -----

  datatype Sweeping = Sweeping(x: seq<Byte>, t: Byte)

  /** The first k bytes of one pass over the buffer. */
  function Sweep(x: seq<Byte>, t: Byte, k: nat): (s: Sweeping)
    requires k <= |x|
    ensures |s.x| == |x|
  {
    if k == 0 then Sweeping(x, t)
    else
      var s := Sweep(x, t, k - 1);
      var b := Stir(s.x[k - 1], s.t);
      Sweeping(s.x[k - 1 := b], b)
  }

  /** The first n of the 18 passes. */
  function Rounds(x: seq<Byte>, n: nat): (s: Sweeping)
    requires |x| == 48 && n <= 18
    ensures |s.x| == 48
  {
    if n == 0 then Sweeping(x, 0)
    else
      var s := Rounds(x, n - 1);
      var s' := Sweep(s.x, s.t, 48);
      Sweeping(s'.x, s'.t + (n - 1) as Byte)
  }

  function Xor(a: seq<Byte>, b: seq<Byte>): (r: seq<Byte>)
    requires IsBlock(a) && IsBlock(b)
    ensures IsBlock(r)
  {
    seq(BLOCK, i requires 0 <= i < BLOCK => Mix(a[i], b[i]))
  }

  /** The buffer that a block starts from. */
  function Loaded(h: seq<Byte>, b: seq<Byte>): (x: seq<Byte>)
    requires IsBlock(h) && IsBlock(b)
    ensures |x| == 48
  {
    h + b + Xor(b, h)
  }

  function Compress(h: seq<Byte>, b: seq<Byte>): (r: seq<Byte>)
    requires IsBlock(h) && IsBlock(b)
    ensures IsBlock(r)
  {
    Rounds(Loaded(h, b), 18).x[..BLOCK]
  }

  function Hash(m: seq<Byte>): (h: seq<Byte>)
    requires |m| % BLOCK == 0
    ensures IsBlock(h)
  {
    if m == [] then Zeros() else Compress(Hash(m[..|m| - BLOCK]), m[|m| - BLOCK..])
  }

  // ----- The digest, in two passes -----

  function Digest(m: seq<Byte>): (d: seq<Byte>)
    ensures IsBlock(d)
  {
    Hash(Pad(m) + Checksum(Pad(m)).c)
  }
}
