/** Bytes, 32-bit integers as they lie in memory, and the C library reads and copies
    the program is built on. */
module Bytes {

  type byte = x: int | 0 <= x < 0x100
  type int32 = x: int | -0x8000_0000 <= x < 0x8000_0000

  const INT_MAX := 0x7fff_ffff

  datatype Option<+T> = None | Some(value: T)

  /** The four bytes of an int, least significant first. */
  function EncodeInt32(n: int32): (b: seq<byte>)
    ensures |b| == 4
  {
    var u := if n < 0 then n + 0x1_0000_0000 else n;
    [u % 0x100, u / 0x100 % 0x100, u / 0x1_0000 % 0x100, u / 0x100_0000]
  }

  function Unsigned(b: seq<byte>): (u: int)
    requires |b| == 4
    ensures 0 <= u < 0x1_0000_0000
  {
    var b0: int, b1: int, b2: int, b3: int := b[0], b[1], b[2], b[3];
    b0 + 0x100 * b1 + 0x1_0000 * b2 + 0x100_0000 * b3
  }

  function DecodeInt32(b: seq<byte>): int32
    requires |b| == 4
  {
    var u := Unsigned(b);
    if u > INT_MAX then u - 0x1_0000_0000 else u
  }

  lemma DecodeEncodeInt32(n: int32)
    ensures DecodeInt32(EncodeInt32(n)) == n
  {
    var u := if n < 0 then n + 0x1_0000_0000 else n;
    assert u / 0x1_0000 == u / 0x100 / 0x100;
    assert u / 0x100_0000 == u / 0x1_0000 / 0x100;
  }

  /** Least significant byte first, negative numbers by their two's complement. */
  lemma LittleEndian(n: int32)
    ensures var b := EncodeInt32(n);
      (if n < 0 then n + 0x1_0000_0000 else n) ==
        b[0] as int + 0x100 * b[1] as int + 0x1_0000 * b[2] as int + 0x100_0000 * b[3] as int
  {
    var u := if n < 0 then n + 0x1_0000_0000 else n;
    assert u / 0x1_0000 == u / 0x100 / 0x100;
    assert u / 0x100_0000 == u / 0x1_0000 / 0x100;
  }

  lemma LowByte(low: byte, high: nat)
    ensures (low + 0x100 * high) % 0x100 == low && (low + 0x100 * high) / 0x100 == high
  {
  }

  lemma EncodeDecodeInt32(b: seq<byte>)
    requires |b| == 4
    ensures EncodeInt32(DecodeInt32(b)) == b
  {
    var u, b3: int := Unsigned(b), b[3];
    var u2 := b[2] + 0x100 * b3;
    var u1 := b[1] + 0x100 * u2;
    assert u == b[0] + 0x100 * u1;
    LowByte(b[0], u1);
    LowByte(b[1], u2);
    LowByte(b[2], b3);
    assert u / 0x1_0000 == u / 0x100 / 0x100 && u / 0x100_0000 == u / 0x1_0000 / 0x100;
  }

  /** Conversion of a size to int. */
  function Wrap(n: int): (r: int32)
    ensures 0 <= n <= INT_MAX ==> r == n
  {
    (n + 0x8000_0000) % 0x1_0000_0000 - 0x8000_0000
  }

  /** The value of a byte read through a signed char. */
  function SignedChar(b: byte): int {
    if b < 0x80 then b else b - 0x100
  }

  lemma SliceOfSlice<T>(s: seq<T>, lo: nat, hi: nat, i: nat, j: nat)
    requires lo <= hi <= |s| && i <= j <= hi - lo
    ensures s[lo..hi][i..j] == s[lo + i..lo + j]
  {
    var a, b := s[lo..hi][i..j], s[lo + i..lo + j];
    assert forall k | 0 <= k < |a| :: a[k] == s[lo..hi][i + k] == s[lo + i + k] == b[k];
  }

  /** Taking k more elements after n taken. */
  lemma TakeMore<T>(s: seq<T>, n: nat, k: nat)
    requires n + k <= |s|
    ensures s[n..][k..] == s[n + k..]
    ensures s[..n] + s[n..][..k] == s[..n + k]
  {
  }

  /** The bytes s lie at address at of mem. */
  ghost predicate Holds(mem: seq<byte>, at: int, s: seq<byte>) {
    0 <= at && at + |s| <= |mem| && mem[at..at + |s|] == s
  }

  lemma HoldsSplit(mem: seq<byte>, at: int, a: seq<byte>, b: seq<byte>)
    requires Holds(mem, at, a + b)
    ensures Holds(mem, at, a) && Holds(mem, at + |a|, b)
  {
    var s := a + b;
    assert mem[at..at + |a|] == s[..|a|] == a;
    assert mem[at + |a|..at + |s|] == s[|a|..] == b;
  }

  function Concat(parts: seq<seq<byte>>): seq<byte> {
    if parts == [] then [] else parts[0] + Concat(parts[1..])
  }

  /** What a C string copy keeps of s. */
  function UpToNul(s: seq<byte>): (r: seq<byte>)
    ensures r <= s && 0 !in r
    ensures if 0 in s then |r| < |s| && s[|r|] == 0 else r == s
  {
    if s == [] || s[0] == 0 then [] else [s[0]] + UpToNul(s[1..])
  }

  /** The C string at address at; None when no terminator is met inside mem. */
  function CString(mem: seq<byte>, at: int): Option<seq<byte>>
    decreases |mem| - at
  {
    if at < 0 || at >= |mem| then None
    else if mem[at] == 0 then Some([])
    else Prepend([mem[at]], CString(mem, at + 1))
  }

  function Prepend<T>(s: seq<T>, r: Option<seq<T>>): Option<seq<T>> {
    if r.Some? then Some(s + r.value) else None
  }

  lemma PrependTwice<T>(a: seq<T>, b: seq<T>, r: Option<seq<T>>)
    ensures Prepend(a, Prepend(b, r)) == Prepend(a + b, r)
    ensures Prepend([], r) == r
  {
    if r.Some? {
      assert a + (b + r.value) == a + b + r.value;
      assert [] + r.value == r.value;
    }
  }

  lemma {:induction false} CStringReads(mem: seq<byte>, at: int, s: seq<byte>)
    requires Holds(mem, at, s + [0])
    ensures CString(mem, at) == Some(UpToNul(s))
    decreases |s|
  {
    var t := s + [0];
    assert mem[at] == mem[at..at + |t|][0] == t[0];
    if s != [] && s[0] != 0 {
      assert t == [s[0]] + (s[1..] + [0]);
      HoldsSplit(mem, at, [s[0]], s[1..] + [0]);
      CStringReads(mem, at + 1, s[1..]);
    }
  }

  /** memcpy of src to dst + at. */
  method MemCopy(dst: array<byte>, at: nat, src: seq<byte>)
    requires at + |src| <= dst.Length
    modifies dst
    ensures dst[..] == old(dst[..at]) + src + old(dst[at + |src|..])
  {
    forall i | 0 <= i < |src| { dst[at + i] := src[i]; }
  }

  /** memmove of n bytes from a + from to the front of a. */
  method MemMoveDown(a: array<byte>, from: nat, n: nat)
    requires from + n <= a.Length
    modifies a
    ensures a[..n] == old(a[from..from + n])
  {
    forall i | 0 <= i < n { a[i] := a[from + i]; }
  }

  /** The scan a std::string append makes from a char pointer. */
  method ReadCString(mem: array<byte>, at: int) returns (r: Option<seq<byte>>)
    ensures r == CString(mem[..], at)
  {
    if at < 0 {
      return None;
    }
    ghost var whole := CString(mem[..], at);
    var i, s := at, [];
    PrependTwice([], [], whole);
    while i < mem.Length && mem[i] != 0
      invariant i >= at
      invariant whole == Prepend(s, CString(mem[..], i))
      decreases mem.Length - i
    {
      PrependTwice(s, [mem[i]], CString(mem[..], i + 1));
      s := s + [mem[i]];
      i := i + 1;
    }
    r := if i < mem.Length then Some(s) else None;
    assert s + [] == s;
  }
}
