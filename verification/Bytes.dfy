/** Big-endian integers in byte buffers: the readers and writers that Node's
    Buffer provides and that every codec of the gateway uses. */
module Bytes {
  type byte = x: int | 0 <= x < 256

  type Bytes = seq<byte>

  datatype Option<+T> = None | Some(value: T) {
    predicate IsFailure() {
      None?
    }

    function PropagateFailure<U>(): Option<U>
      requires None?
    {
      None
    }

    function Extract(): T
      requires Some?
    {
      value
    }
  }

  /** The codes of a text whose characters are bytes. */
  function Codes(s: string): (b: Bytes)
    requires forall k :: 0 <= k < |s| ==> s[k] as int < 256
    ensures |b| == |s|
  {
    seq(|s|, k requires 0 <= k < |s| => s[k] as int)
  }

  const U16_LIMIT: int := 0x1_0000
  const U32_LIMIT: int := 0x1_0000_0000
  const U64_LIMIT: int := 0x1_0000_0000_0000_0000

  function U16(n: int): (b: Bytes)
    requires 0 <= n < U16_LIMIT
    ensures |b| == 2
  {
    [n / 256, n % 256]
  }

  function U32(n: int): (b: Bytes)
    requires 0 <= n < U32_LIMIT
    ensures |b| == 4
  {
    U16(n / 0x1_0000) + U16(n % 0x1_0000)
  }

  function U64(n: int): (b: Bytes)
    requires 0 <= n < U64_LIMIT
    ensures |b| == 8
  {
    U32(n / U32_LIMIT) + U32(n % U32_LIMIT)
  }

  function GetU16(b: Bytes, i: nat): (n: int)
    requires i + 2 <= |b|
    ensures 0 <= n < U16_LIMIT
  {
    b[i] as int * 256 + b[i + 1] as int
  }

  function GetU32(b: Bytes, i: nat): (n: int)
    requires i + 4 <= |b|
    ensures 0 <= n < U32_LIMIT
  {
    GetU16(b, i) * 0x1_0000 + GetU16(b, i + 2)
  }

  function GetU64(b: Bytes, i: nat): (n: int)
    requires i + 8 <= |b|
    ensures 0 <= n < U64_LIMIT
  {
    GetU32(b, i) * U32_LIMIT + GetU32(b, i + 4)
  }

  /** The number that bytes spell with the most significant one in front. */
  function BigEndian(s: Bytes): (n: nat)
  {
    if s == [] then 0 else BigEndian(s[..|s| - 1]) * 256 + s[|s| - 1]
  }

  lemma FieldsAreBigEndian(b: Bytes, i: nat)
    ensures i + 2 <= |b| ==> GetU16(b, i) == BigEndian(b[i..i + 2])
    ensures i + 4 <= |b| ==> GetU32(b, i) == BigEndian(b[i..i + 4])
    ensures i + 8 <= |b| ==> GetU64(b, i) == BigEndian(b[i..i + 8])
  {
    if i + 2 <= |b| {
      BigEndianTwo(b, i, 0);
    }
    if i + 4 <= |b| {
      BigEndianTwo(b, i, 2);
    }
    if i + 8 <= |b| {
      BigEndianTwo(b, i, 4);
      BigEndianTwo(b, i, 6);
    }
  }

  /** Two more bytes of a number. */
  lemma BigEndianTwo(b: Bytes, i: nat, n: nat)
    requires i + n + 2 <= |b|
    ensures BigEndian(b[i..i + n + 2]) == BigEndian(b[i..i + n]) * 0x1_0000 + GetU16(b, i + n)
    ensures BigEndian(b[i..i]) == 0
  {
    assert b[i..i + n + 2][..n + 1] == b[i..i + n + 1];
    assert b[i..i + n + 1][..n] == b[i..i + n];
  }

  /** The buffer with the bytes `w` written over it at `off`. */
  function Splice(b: Bytes, off: nat, w: Bytes): (r: Bytes)
    requires off + |w| <= |b|
    ensures |r| == |b|
  {
    b[..off] + w + b[off + |w|..]
  }

  /** The bytes `w` are written over a buffer in place. */
  method Overwrite(out: array<byte>, off: nat, w: Bytes)
    requires off + |w| <= out.Length
    modifies out
    ensures out[..] == Splice(old(out[..]), off, w)
  {
    for k := 0 to |w|
      invariant out[off..off + k] == w[..k]
      invariant out[..off] == old(out[..off]) && out[off + k..] == old(out[off + k..])
    {
      out[off + k] := w[k];
    }
    assert out[..] == out[..off] + out[off..off + |w|] + out[off + |w|..];
  }

  lemma SpliceInside(a: Bytes, p: Bytes, z: Bytes, o: nat, w: Bytes)
    requires o + |w| <= |p|
    ensures Splice(a + p + z, |a| + o, w) == a + Splice(p, o, w) + z
  {
    var s := a + p + z;
    assert s[..|a| + o] == a + p[..o];
    assert s[|a| + o + |w|..] == p[o + |w|..] + z;
  }

  /** Reading a field gives the number that was written there. */
  lemma ReadBackU16(b: Bytes, i: nat, n: int)
    requires 0 <= n < U16_LIMIT && i + 2 <= |b| && b[i..i + 2] == U16(n)
    ensures GetU16(b, i) == n
  {
    assert b[i] == b[i..i + 2][0] && b[i + 1] == b[i..i + 2][1];
  }

  lemma ReadBackU32(b: Bytes, i: nat, n: int)
    requires 0 <= n < U32_LIMIT && i + 4 <= |b| && b[i..i + 4] == U32(n)
    ensures GetU32(b, i) == n
  {
    var w := b[i..i + 4];
    assert b[i..i + 2] == w[..2] == U16(n / 0x1_0000);
    assert b[i + 2..i + 4] == w[2..] == U16(n % 0x1_0000);
    ReadBackU16(b, i, n / 0x1_0000);
    ReadBackU16(b, i + 2, n % 0x1_0000);
  }

  lemma ReadBackU64(b: Bytes, i: nat, n: int)
    requires 0 <= n < U64_LIMIT && i + 8 <= |b| && b[i..i + 8] == U64(n)
    ensures GetU64(b, i) == n
  {
    var w := b[i..i + 8];
    assert b[i..i + 4] == w[..4] == U32(n / U32_LIMIT);
    assert b[i + 4..i + 8] == w[4..] == U32(n % U32_LIMIT);
    ReadBackU32(b, i, n / U32_LIMIT);
    ReadBackU32(b, i + 4, n % U32_LIMIT);
  }

  /** Writing a number that was read gives the bytes it was read from. */
  lemma WriteBackU32(b: Bytes, i: nat)
    requires i + 4 <= |b|
    ensures U32(GetU32(b, i)) == b[i..i + 4]
  {
  }

  lemma WriteBackU64(b: Bytes, i: nat)
    requires i + 8 <= |b|
    ensures U64(GetU64(b, i)) == b[i..i + 8]
  {
    WriteBackU32(b, i);
    WriteBackU32(b, i + 4);
    hide GetU32, U32;
    assert GetU64(b, i) / U32_LIMIT == GetU32(b, i);
    assert b[i..i + 8] == b[i..i + 4] + b[i + 4..i + 8];
  }

  lemma SliceOfSlice<T>(s: seq<T>, a: nat, b: nat, c: nat, d: nat)
    requires a <= b <= |s| && c <= d <= b - a
    ensures s[a..b][c..d] == s[a + c..a + d]
  {
    var t, v := s[a..b], s[a + c..a + d];
    forall k | 0 <= k < d - c
      ensures t[c..d][k] == v[k]
    {
      assert t[c..d][k] == t[c + k] == s[a + c + k] == v[k];
    }
  }

  /** The bytes `w` stand in the buffer at `pos`. */
  ghost predicate Holds(buf: Bytes, pos: nat, w: Bytes) {
    pos + |w| <= |buf| && buf[pos..pos + |w|] == w
  }

  lemma HoldsBoth(buf: Bytes, pos: nat, a: Bytes, b: Bytes)
    requires Holds(buf, pos, a + b)
    ensures Holds(buf, pos, a) && Holds(buf, pos + |a|, b)
  {
    SliceOfSlice(buf, pos, pos + |a + b|, 0, |a|);
    SliceOfSlice(buf, pos, pos + |a + b|, |a|, |a + b|);
    assert (a + b)[0..|a|] == a && (a + b)[|a|..|a + b|] == b;
  }

  function Concat(parts: seq<Bytes>): (r: Bytes)
  {
    if parts == [] then [] else parts[0] + Concat(parts[1..])
  }

  lemma ConcatCons(p: Bytes, ps: seq<Bytes>)
    ensures Concat([p] + ps) == p + Concat(ps)
  {
    assert ([p] + ps)[1..] == ps;
  }

  lemma {:induction false} ConcatAppend(a: seq<Bytes>, b: seq<Bytes>)
    ensures Concat(a + b) == Concat(a) + Concat(b)
  {
    if a == [] {
      assert a + b == b;
    } else {
      assert (a + b)[1..] == a[1..] + b;
      ConcatAppend(a[1..], b);
      calc {
        Concat(a + b);
        a[0] + Concat(a[1..] + b);
        a[0] + (Concat(a[1..]) + Concat(b));
        (a[0] + Concat(a[1..])) + Concat(b);
        Concat(a) + Concat(b);
      }
    }
  }
}
