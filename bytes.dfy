/** Bytes, WORDs and DWORDs, and little-endian fields inside a byte buffer. */
module Bytes {

  type byte = x: int | 0 <= x < 0x100
  type u16 = x: int | 0 <= x < 0x1_0000
  type u32 = x: int | 0 <= x < 0x1_0000_0000

  /** The WORD stored at `off`, least significant byte first. */
  function U16At(s: seq<byte>, off: nat): u16
    requires off + 2 <= |s|
  {
    s[off] as int + 0x100 * s[off + 1] as int
  }

  /** The DWORD stored at `off`, least significant byte first. */
  function U32At(s: seq<byte>, off: nat): u32
    requires off + 4 <= |s|
  {
    s[off] as int + 0x100 * s[off + 1] as int + 0x1_0000 * s[off + 2] as int + 0x100_0000 * s[off + 3] as int
  }

  /** The four bytes of a DWORD, least significant first; they read back as the DWORD. */
  function U32Bytes(v: u32): (r: seq<byte>)
    ensures |r| == 4
    ensures U32At(r, 0) == v
  {
    var q1 := v / 0x100;
    var q2 := q1 / 0x100;
    assert v == v % 0x100 + 0x100 * q1;
    assert q1 == q1 % 0x100 + 0x100 * q2;
    assert q2 == q2 % 0x100 + 0x100 * (q2 / 0x100);
    [v % 0x100, q1 % 0x100, q2 % 0x100, q2 / 0x100]
  }

  /** The buffer after a DWORD store at `off`: the field reads back as `v`, every other byte is kept. */
  function PutU32(s: seq<byte>, off: nat, v: u32): (r: seq<byte>)
    requires off + 4 <= |s|
    ensures |r| == |s|
    ensures U32At(r, off) == v
    ensures forall i :: 0 <= i < |s| && !(off <= i < off + 4) ==> r[i] == s[i]
  {
    var b := U32Bytes(v);
    var r := s[..off] + b + s[off + 4..];
    assert r[off..off + 4] == b;
    r
  }

  /** A field reads the same in two buffers that agree on its four bytes. */
  lemma U32AtAgree(a: seq<byte>, b: seq<byte>, off: nat)
    requires off + 4 <= |a| && off + 4 <= |b|
    requires forall i :: off <= i < off + 4 ==> a[i] == b[i]
    ensures U32At(a, off) == U32At(b, off)
  {
  }

  /** A WORD reads the same in two buffers that agree on its two bytes. */
  lemma U16AtAgree(a: seq<byte>, b: seq<byte>, off: nat)
    requires off + 2 <= |a| && off + 2 <= |b|
    requires forall i :: off <= i < off + 2 ==> a[i] == b[i]
    ensures U16At(a, off) == U16At(b, off)
  {
  }

  /** Store a DWORD into the buffer in place, least significant byte first. */
  method StoreU32(buf: array<byte>, off: nat, v: u32)
    requires off + 4 <= buf.Length
    modifies buf
    ensures buf[..] == PutU32(old(buf[..]), off, v)
  {
    var b := U32Bytes(v);
    buf[off] := b[0];
    buf[off + 1] := b[1];
    buf[off + 2] := b[2];
    buf[off + 3] := b[3];
    assert buf[..] == PutU32(old(buf[..]), off, v);
  }
}
