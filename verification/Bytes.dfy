/** Bytes, C integer conversions and the sequence helpers every module shares. */
module Bytes {

  /** An octet of memory, as an unsigned value. */
  type byte = b: int | 0 <= b < 256

  const TWO_31 := 0x8000_0000
  const TWO_32 := 0x1_0000_0000

  /** The value of a C `char` holding `b` (char is a signed 8-bit type here). */
  function SignedChar(b: byte): int {
    if b < 128 then b else b - 256
  }

  /** Conversion to a 32-bit unsigned int. */
  function U32(x: int): int {
    x % TWO_32
  }

  /** Conversion of any integer to a 32-bit two's complement int. */
  function I32(x: int): int {
    var u := U32(x);
    if u < TWO_31 then u else u - TWO_32
  }

  /** Conversion to an octet, as in an assignment to a char. */
  function Octet(x: int): byte {
    x % 256
  }

  /** The concatenation of a sequence of sequences. */
  function Flatten<T>(ss: seq<seq<T>>): seq<T> {
    if ss == [] then [] else ss[0] + Flatten(ss[1..])
  }

  lemma {:induction false} FlattenAppend<T>(a: seq<seq<T>>, b: seq<seq<T>>)
    ensures Flatten(a + b) == Flatten(a) + Flatten(b)
  {
    if a == [] {
      assert a + b == b;
    } else {
      assert (a + b)[1..] == a[1..] + b;
      FlattenAppend(a[1..], b);
    }
  }

  lemma FlattenSnoc<T>(a: seq<seq<T>>, x: seq<T>)
    ensures Flatten(a + [x]) == Flatten(a) + x
  {
    FlattenAppend(a, [x]);
    assert Flatten([x]) == x + Flatten<T>([]);
  }

  /** `data` reads `s` at position `i`. */
  predicate At<T(==)>(data: seq<T>, i: nat, s: seq<T>) {
    i + |s| <= |data| && data[i..i + |s|] == s
  }

  lemma AtIndex<T>(data: seq<T>, i: nat, s: seq<T>, j: nat)
    requires At(data, i, s) && j < |s|
    ensures data[i + j] == s[j]
  {
    assert data[i..i + |s|][j] == data[i + j];
  }

  lemma AtSlice<T>(data: seq<T>, i: nat, s: seq<T>)
    requires At(data, i, s)
    ensures i + |s| <= |data| && data[i..i + |s|] == s && At(data[i..i + |s|], 0, s)
  {
  }

  /** What is read at `i` splits at any point. */
  lemma AtSplit<T>(data: seq<T>, i: nat, s: seq<T>, t: seq<T>)
    requires At(data, i, s + t)
    ensures At(data, i, s) && At(data, i + |s|, t)
  {
    assert data[i..i + |s|] == (s + t)[..|s|];
    assert data[i + |s|..i + |s| + |t|] == (s + t)[|s|..];
  }

  lemma AtJoin<T>(data: seq<T>, i: nat, s: seq<T>, t: seq<T>)
    requires At(data, i, s) && At(data, i + |s|, t)
    ensures At(data, i, s + t)
  {
    assert data[i..i + |s + t|] == s + t;
  }

  lemma AtTwo<T>(data: seq<T>, i: nat, a: T, b: T, rest: seq<T>)
    requires At(data, i, [a, b] + rest)
    ensures i + 2 + |rest| <= |data| && data[i] == a && data[i + 1] == b
    ensures At(data, i + 1, [b]) && At(data, i + 2, rest)
  {
    hide *;
    AtSplit(data, i, [a, b], rest);
    AtIndex(data, i, [a, b], 0);
    AtIndex(data, i, [a, b], 1);
    AtBounds(data, i + 2, rest);
    assert [a, b] == [a] + [b];
    AtSplit(data, i, [a], [b]);
  }

  lemma AtBounds<T>(data: seq<T>, i: nat, s: seq<T>)
    requires At(data, i, s)
    ensures i + |s| <= |data|
  {
  }

  lemma AtWhole<T>(s: seq<T>)
    ensures At(s, 0, s)
  {
  }

  lemma Regroup<T>(a: seq<T>, b: seq<T>, c: seq<T>)
    ensures a + b + c == a + (b + c)
  {
  }

  lemma Regroup4<T>(a: seq<T>, b: seq<T>, c: seq<T>, d: seq<T>)
    ensures a + b + c + d == a + (b + c + d)
  {
  }

  lemma SameTail<T>(q: seq<T>, s: seq<T>, t: seq<T>)
    ensures q + s == q + t <==> s == t
  {
    assert (q + s)[|q|..] == s && (q + t)[|q|..] == t;
  }

  ghost predicate Distinct<T>(s: seq<T>) {
    forall i, j :: 0 <= i < j < |s| ==> s[i] != s[j]
  }

  function Zeros(n: nat): seq<byte> {
    seq(n, _ => 0)
  }

  /** A fixed-size buffer written through a running index, one octet or one block at a time. */
  class Buffer {
    const data: array<byte>
    var len: nat
    ghost var contents: seq<byte>

    ghost predicate Valid()
      reads this, data
    {
      len <= data.Length && contents == data[..len]
    }

    constructor (size: nat)
      ensures Valid() && contents == [] && data.Length == size
      ensures fresh(data)
    {
      data := new byte[size](_ => 0);
      len := 0;
      contents := [];
    }

    /** Store one octet at the running index. */
    method Put(x: byte)
      requires Valid() && |contents| < data.Length
      modifies this, data
      ensures Valid() && contents == old(contents) + [x]
    {
      data[len] := x;
      len := len + 1;
      contents := contents + [x];
    }

    /** memcpy to the running index. */
    method Copy(s: seq<byte>)
      requires Valid() && |contents| + |s| <= data.Length
      modifies this, data
      ensures Valid() && contents == old(contents) + s
    {
      forall j | 0 <= j < |s| {
        data[len + j] := s[j];
      }
      len := len + |s|;
      contents := contents + s;
      assert data[..len] == contents;
    }

    /** What has been written. */
    method Written() returns (s: seq<byte>)
      requires Valid()
      ensures s == contents
    {
      s := data[..len];
    }
  }
}
