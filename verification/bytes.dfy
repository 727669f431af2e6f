/**
  Byte-level vocabulary shared by the nextion_ez model: the integer widths the
  driver stores into, the Arduino `Stream::read()` convention, and searches over
  received byte sequences.
 */
module Bytes {

  type uint8 = x: int | 0 <= x < 0x100
  type uint32 = x: int | 0 <= x < 0x1_0000_0000

  datatype Option<+T> = None | Some(value: T)

  /** The three-byte terminator that ends every outbound command and inbound reply. */
  const END: uint8 := 0xFF
  const TERMINATOR: seq<uint8> := [0xFF, 0xFF, 0xFF]

  /** `read()` on an Arduino stream: the next byte, or -1 when nothing is buffered. */
  function Read(buf: seq<uint8>): (r: (int, seq<uint8>))
    ensures |buf| == 0 ==> r.0 == -1 && r.1 == []
    ensures |buf| > 0 ==> r.0 == buf[0] && buf == [buf[0]] + r.1
    ensures -1 <= r.0 < 0x100
  {
    if |buf| == 0 then (-1, []) else (buf[0], buf[1..])
  }

  /** C conversion of an `int` into a `uint8_t` field: reduction modulo 256. */
  function ToUint8(v: int): (r: uint8)
    ensures 0 <= v < 0x100 ==> r == v
    ensures v == -1 ==> r == 0xFF
    ensures (r - v) % 0x100 == 0
  {
    v % 0x100
  }

  /**
    The terminator test `c == 0xFF || c == 0xFFFFFFFF` on a `char` that received
    `read()`. Whether `char` is signed or not, it holds exactly for the byte 0xFF
    and for the -1 an empty stream returns.
   */
  predicate IsEndChar(v: int)
  {
    v == 0xFF || v == -1
  }

  predicate IsSuffix<T(==)>(rest: seq<T>, s: seq<T>)
  {
    |rest| <= |s| && s[|s| - |rest|..] == rest
  }

  lemma SuffixTrans<T>(a: seq<T>, b: seq<T>, c: seq<T>)
    requires IsSuffix(a, b) && IsSuffix(b, c)
    ensures IsSuffix(a, c)
  {
    assert c[|c| - |b|..][|b| - |a|..] == c[|c| - |a|..];
  }

  lemma DropIsSuffix<T>(s: seq<T>, i: nat)
    requires i <= |s|
    ensures IsSuffix(s[i..], s)
  {
  }

  /** Position of the first `x` in `s`, as a byte-by-byte marker search finds it. */
  function FirstIndexOf(s: seq<uint8>, x: uint8): (r: Option<nat>)
    ensures r.None? <==> x !in s
    ensures r.Some? ==> r.value < |s| && s[r.value] == x && x !in s[..r.value]
  {
    if |s| == 0 then None
    else if s[0] == x then Some(0)
    else
      match FirstIndexOf(s[1..], x)
      case None => None
      case Some(i) => Some(i + 1)
  }

  /** Position of the last `x` in `s`. */
  function LastIndexOf(s: seq<uint8>, x: uint8): (r: Option<nat>)
    ensures r.None? <==> x !in s
    ensures r.Some? ==> r.value < |s| && s[r.value] == x && x !in s[r.value + 1..]
  {
    if |s| == 0 then None
    else if s[|s| - 1] == x then Some(|s| - 1)
    else LastIndexOf(s[..|s| - 1], x)
  }

  /** A marker preceded by bytes that do not contain it is found right after them. */
  lemma FirstIndexAfterPrefix(junk: seq<uint8>, x: uint8, rest: seq<uint8>)
    requires x !in junk
    ensures FirstIndexOf(junk + [x] + rest, x) == Some(|junk|)
  {
    var s := junk + [x] + rest;
    assert s[|junk|] == x;
    assert s[..|junk|] == junk;
  }

  /** A separator followed by bytes that do not contain it is the last one. */
  lemma LastIndexBeforeSuffix(front: seq<uint8>, x: uint8, tail: seq<uint8>)
    requires x !in tail
    ensures LastIndexOf(front + [x] + tail, x) == Some(|front|)
  {
    var s := front + [x] + tail;
    assert s[|front|] == x;
    assert s[|front| + 1..] == tail;
  }
}
