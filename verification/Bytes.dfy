/** Byte strings and their big-endian numbers. */
module Bytes {

  type byte = x: int | 0 <= x < 256

  const U16_LIMIT: nat := 0x1_0000
  const U32_LIMIT: nat := 0x1_0000_0000

  datatype Range = Range(offset: nat, length: nat)

  function BigEndian(bytes: seq<byte>): nat {
    if bytes == [] then 0 else BigEndian(bytes[..|bytes| - 1]) * 256 + bytes[|bytes| - 1]
  }

  function ToBytes(n: nat, width: nat): (r: seq<byte>)
    ensures |r| == width
  {
    if width == 0 then [] else ToBytes(n / 256, width - 1) + [n % 256]
  }

  function Power(width: nat): (r: nat)
    ensures r > 0
  {
    if width == 0 then 1 else Power(width - 1) * 256
  }

  lemma {:induction false} BytesOfNumber(n: nat, width: nat)
    requires n < Power(width)
    ensures BigEndian(ToBytes(n, width)) == n
  {
    if width > 0 {
      BytesOfNumber(n / 256, width - 1);
      assert ToBytes(n, width)[..width - 1] == ToBytes(n / 256, width - 1);
    }
  }

  lemma {:induction false} NumberOfBytes(bytes: seq<byte>)
    ensures ToBytes(BigEndian(bytes), |bytes|) == bytes
    ensures BigEndian(bytes) < Power(|bytes|)
  {
    if bytes != [] {
      NumberOfBytes(bytes[..|bytes| - 1]);
      assert bytes == bytes[..|bytes| - 1] + [bytes[|bytes| - 1]];
    }
  }

  lemma SameNumberSameBytes(a: seq<byte>, b: seq<byte>)
    requires |a| == |b| && BigEndian(a) == BigEndian(b)
    ensures a == b
  {
    NumberOfBytes(a);
    NumberOfBytes(b);
  }

  lemma Powers()
    ensures Power(2) == U16_LIMIT && Power(4) == U32_LIMIT
  {
    assert Power(1) == 256;
    assert Power(2) == 256 * 256;
    assert Power(3) == 256 * 256 * 256;
  }

  lemma ShortNumber(n: nat)
    requires n < U16_LIMIT
    ensures BigEndian(ToBytes(n, 2)) == n
  {
    Powers();
    BytesOfNumber(n, 2);
  }

  /** The bytes at an offset, when they are all there. */
  predicate Matches(bytes: seq<byte>, offset: nat, expected: seq<byte>) {
    offset + |expected| <= |bytes| && bytes[offset..offset + |expected|] == expected
  }

  function NumberAt(bytes: seq<byte>, offset: nat, width: nat): nat
    requires offset + width <= |bytes|
  {
    BigEndian(bytes[offset..offset + width])
  }

  lemma ShortNumberAt(bytes: seq<byte>, offset: nat, n: nat)
    requires offset + 2 <= |bytes| && n < U16_LIMIT && bytes[offset..offset + 2] == ToBytes(n, 2)
    ensures NumberAt(bytes, offset, 2) == n
  {
    hide BigEndian, ToBytes;
    ShortNumber(n);
  }

  lemma SliceOfDrop<T>(s: seq<T>, o: nat, i: nat, j: nat)
    requires i <= j && o + j <= |s|
    ensures s[o..][i..j] == s[o + i..o + j]
  {
  }

  lemma DropSplits<T>(s: seq<T>, i: nat, j: nat)
    requires i <= j <= |s|
    ensures s[i..] == s[i..j] + s[j..]
  {
  }

  lemma SplitWindow<T>(s: seq<T>, at: nat, x: seq<T>, y: seq<T>)
    requires at + |x| + |y| <= |s| && s[at..at + |x| + |y|] == x + y
    ensures s[at..at + |x|] == x && s[at + |x|..at + |x| + |y|] == y
  {
    assert s[at..at + |x|] == s[at..at + |x| + |y|][..|x|];
    assert s[at + |x|..at + |x| + |y|] == s[at..at + |x| + |y|][|x|..];
  }

  lemma WindowSplits<T>(s: seq<T>, i: nat, j: nat, k: nat)
    requires i <= j <= k <= |s|
    ensures s[i..k] == s[i..j] + s[j..k]
  {
  }

  lemma JoinIsAssociative<T>(a: seq<T>, b: seq<T>, c: seq<T>)
    ensures (a + b) + c == a + (b + c)
  {
  }

  lemma SplitInThree<T>(s: seq<T>, at: nat, x: seq<T>, y: seq<T>, z: seq<T>)
    requires at + |x| + |y| + |z| <= |s| && s[at..at + |x| + |y| + |z|] == x + y + z
    ensures s[at..at + |x|] == x && s[at + |x|..at + |x| + |y|] == y
    ensures s[at + |x| + |y|..at + |x| + |y| + |z|] == z
  {
    SplitWindow(s, at, x + y, z);
    SplitWindow(s, at, x, y);
  }

  function Concat<T>(parts: seq<seq<T>>): seq<T> {
    if parts == [] then [] else Concat(parts[..|parts| - 1]) + parts[|parts| - 1]
  }

  lemma {:induction false} ConcatOfParts<T>(a: seq<seq<T>>, b: seq<seq<T>>)
    ensures Concat(a + b) == Concat(a) + Concat(b)
  {
    if b == [] {
      assert a + b == a;
    } else {
      assert (a + b)[..|a + b| - 1] == a + b[..|b| - 1];
      ConcatOfParts(a, b[..|b| - 1]);
      JoinIsAssociative(Concat(a), Concat(b[..|b| - 1]), b[|b| - 1]);
    }
  }
}
