/** Octet strings, and the two byte orders the program uses: network (big-endian) order in BACnet
    encodings, little-endian in zip files. */
module Octets {

  type Byte = b: int | 0 <= b < 256

  type Bytes = seq<Byte>

  datatype Option<+T> = None | Some(value: T)

  /** Every key once: the order in which a map or set is gone through. */
  predicate Enumerates<T(==)>(order: seq<T>, keys: set<T>) {
    && (forall i, j | 0 <= i < j < |order| :: order[i] != order[j])
    && (forall i | 0 <= i < |order| :: order[i] in keys)
    && (forall k | k in keys :: k in order)
  }

  lemma {:induction false} EnumeratesCounts<T>(order: seq<T>, keys: set<T>)
    requires Enumerates(order, keys)
    ensures |order| == |keys|
  {
    if order != [] {
      var init, last := order[..|order| - 1], order[|order| - 1];
      assert order == init + [last];
      EnumeratesCounts(init, keys - {last});
    }
  }

  /** The unsigned number whose octets, most significant first, are `s`. */
  function BigEndian(s: Bytes): (value: nat) {
    if s == [] then 0 else BigEndian(s[..|s| - 1]) * 256 + s[|s| - 1] as int
  }

  /** `value` in exactly two octets, most significant first. */
  function Big16(value: nat): (s: Bytes)
    requires value < 0x1_0000
    ensures |s| == 2 && BigEndian(s) == value
  {
    var s := [value / 0x100, value % 0x100];
    BigEndian2(s);
    s
  }

  /** `value` in exactly four octets, most significant first. */
  function Big32(value: nat): (s: Bytes)
    requires value < 0x1_0000_0000
    ensures |s| == 4 && BigEndian(s) == value
  {
    var s := Big16(value / 0x1_0000) + Big16(value % 0x1_0000);
    BigEndian4(s);
    BigEndian2(s[..2]);
    BigEndian2(s[2..]);
    assert s[..2] == Big16(value / 0x1_0000) && s[2..] == Big16(value % 0x1_0000);
    s
  }

  lemma BigEndian1(s: Bytes)
    requires |s| == 1
    ensures BigEndian(s) == s[0]
  {
    assert BigEndian(s[..0]) == 0;
  }

  lemma BigEndian2(s: Bytes)
    requires |s| == 2
    ensures BigEndian(s) == s[0] as int * 0x100 + s[1] as int
  {
    BigEndian1(s[..1]);
  }

  lemma BigEndian3(s: Bytes)
    requires |s| == 3
    ensures BigEndian(s) == s[0] as int * 0x1_0000 + s[1] as int * 0x100 + s[2] as int
  {
    BigEndian2(s[..2]);
    assert s[..2][0] == s[0] && s[..2][1] == s[1];
  }

  lemma BigEndian4(s: Bytes)
    requires |s| == 4
    ensures BigEndian(s) == s[0] as int * 0x100_0000 + s[1] as int * 0x1_0000 + s[2] as int * 0x100 + s[3] as int
  {
    BigEndian3(s[..3]);
    assert s[..3][0] == s[0] && s[..3][1] == s[1] && s[..3][2] == s[2];
  }

  lemma BigEndianMore(s: Bytes, from: nat, to: nat)
    requires from <= to < |s|
    ensures BigEndian(s[from..to + 1]) == BigEndian(s[from..to]) * 256 + s[to] as int
  {
    assert s[from..to + 1][..to - from] == s[from..to];
  }

  /** `s` without its first `n` octets; empty when there are no more than `n`, as a Python slice is. */
  function Drop(s: Bytes, n: nat): (rest: Bytes)
    ensures |rest| == if n <= |s| then |s| - n else 0
  {
    if n <= |s| then s[n..] else []
  }

  /** Python's `s[from:from + length]`. */
  function Slice(s: Bytes, from: nat, length: nat): (r: Bytes) {
    if from + length <= |s| then s[from..from + length] else Drop(s, from)
  }

  lemma DropDrop(s: Bytes, n: nat, m: nat)
    ensures Drop(Drop(s, n), m) == Drop(s, n + m)
  {
  }

  lemma DropTake(s: Bytes, from: nat, to: nat)
    requires from <= to <= |s|
    ensures Drop(s, from)[..to - from] == s[from..to]
  {
  }

  lemma DropWithin(s: Bytes, n: nat)
    requires n <= |s|
    ensures Drop(s, n) == s[n..]
  {
  }

  lemma SliceOfSlice<T>(s: seq<T>, from: nat, to: nat, k: nat, n: nat)
    requires from <= to <= |s| && k + n <= to - from
    ensures s[from..to][k..k + n] == s[from + k..from + k + n]
  {
    var a, b := s[from..to][k..k + n], s[from + k..from + k + n];
    assert forall i | 0 <= i < n :: a[i] == b[i];
  }
}
