/** Bytes, little-endian integers and slices of byte buffers. */
module Bytes {
  type byte = b: int | 0 <= b < 256

  function Pow256(k: nat): (p: nat)
    ensures p > 0
  {
    if k == 0 then 1 else 256 * Pow256(k - 1)
  }

  /** `to_le_bytes` on `k` bytes. */
  function LE(n: nat, k: nat): (s: seq<byte>)
    ensures |s| == k
  {
    if k == 0 then [] else [n % 256] + LE(n / 256, k - 1)
  }

  /** `from_le_bytes`. */
  function UnLE(s: seq<byte>): (n: nat)
    ensures n < Pow256(|s|)
  {
    if s == [] then 0 else s[0] + 256 * UnLE(s[1..])
  }

  lemma {:induction false} LERoundTrip(n: nat, k: nat)
    requires n < Pow256(k)
    ensures UnLE(LE(n, k)) == n
  {
    if k > 0 {
      LERoundTrip(n / 256, k - 1);
      assert LE(n, k)[1..] == LE(n / 256, k - 1);
    }
  }

  /** The other round trip: `k` bytes are those of the number they spell. */
  lemma {:induction false} LEBack(s: seq<byte>)
    ensures LE(UnLE(s), |s|) == s
  {
    if s != [] {
      LEBack(s[1..]);
      assert UnLE(s) % 256 == s[0] && UnLE(s) / 256 == UnLE(s[1..]);
    }
  }

  /** Lowest byte first. */
  lemma {:induction false} SmallEnds(a: byte, b: byte, c: byte, d: byte)
    ensures UnLE([a]) == a && UnLE([a, b]) == a as int + 0x100 * b as int
    ensures UnLE([a, b, c, d]) == a as int + 0x100 * b as int + 0x1_0000 * c as int + 0x100_0000 * d as int
  {
    assert UnLE([d]) == d;
    assert UnLE([c, d]) == c as int + 0x100 * d as int by { assert [c, d][1..] == [d]; }
    assert [b, c, d][1..] == [c, d] && [a, b, c, d][1..] == [b, c, d];
    assert [a, b][1..] == [b] && UnLE([b]) == b;
  }

  /** Eight bytes are two times four. */
  lemma {:induction false} SmallEndsEight(s: seq<byte>)
    requires |s| == 8
    ensures UnLE(s) == UnLE(s[..4]) + 0x1_0000_0000 * UnLE(s[4..])
  {
    UnLEConcat(s[..4], s[4..]);
    assert s[..4] + s[4..] == s;
    Widths();
  }

  lemma {:induction false} UnLEConcat(a: seq<byte>, b: seq<byte>)
    ensures UnLE(a + b) == UnLE(a) + Pow256(|a|) * UnLE(b)
  {
    if a == [] {
      assert a + b == b;
    } else {
      UnLEConcat(a[1..], b);
      assert (a + b)[0] == a[0] && (a + b)[1..] == a[1..] + b;
      Shifted(Pow256(|a| - 1), UnLE(b));
    }
  }

  lemma {:induction false} Shifted(p: nat, u: nat)
    ensures 256 * (p * u) == 256 * p * u
  {
  }

  /** The sizes the formats use. */
  lemma {:induction false} Widths()
    ensures Pow256(1) == 0x100 && Pow256(2) == 0x1_0000 && Pow256(4) == 0x1_0000_0000
    ensures Pow256(8) == 0x1_0000_0000_0000_0000
  {
    assert Pow256(3) == 256 * Pow256(2);
    assert Pow256(5) == 256 * Pow256(4);
    assert Pow256(6) == 256 * Pow256(5);
    assert Pow256(7) == 256 * Pow256(6);
  }

  /** `d` with `s` written over it at `off`. */
  function Splice(d: seq<byte>, off: nat, s: seq<byte>): (r: seq<byte>)
    requires off + |s| <= |d|
    ensures |r| == |d|
  {
    d[..off] + s + d[off + |s|..]
  }

  lemma {:induction false} SpliceSelf(d: seq<byte>, off: nat, s: seq<byte>)
    requires off + |s| <= |d|
    ensures Splice(d, off, s)[off..off + |s|] == s
  {
  }

  /** A write at the front of a range keeps the range's tail. */
  lemma {:induction false} SpliceFront(d: seq<byte>, off: nat, s: seq<byte>, b: nat)
    requires off + |s| <= b <= |d|
    ensures Splice(d, off, s)[off..b] == s + d[off..b][|s|..]
  {
  }

  /** A write leaves every range it does not touch. */
  lemma {:induction false} SpliceOther(d: seq<byte>, off: nat, s: seq<byte>, a: nat, b: nat)
    requires off + |s| <= |d| && a <= b <= |d| && (b <= off || off + |s| <= a)
    ensures Splice(d, off, s)[a..b] == d[a..b]
  {
    var r := Splice(d, off, s);
    forall i | a <= i < b ensures r[i] == d[i] {}
  }

  /** Overwrites a range of a buffer in place. */
  method CopyInto(buf: array<byte>, off: nat, s: seq<byte>)
    requires off + |s| <= buf.Length
    modifies buf
    ensures buf[..] == Splice(old(buf[..]), off, s)
  {
    for i := 0 to |s|
      invariant forall j :: 0 <= j < buf.Length ==>
        buf[j] == if off <= j < off + i then s[j - off] else old(buf[j])
    {
      buf[off + i] := s[i];
    }
    assert buf[..] == Splice(old(buf[..]), off, s);
  }

  // --- Strings ---

  predicate Continues(b: byte) { 0x80 <= b < 0xC0 }

  /** The length of the UTF-8 character at the front, or 0 where there is none. */
  function CharLength(s: seq<byte>): (n: nat)
    ensures n <= |s|
  {
    if s == [] then 0
    else if s[0] < 0x80 then 1
    else if 0xC2 <= s[0] < 0xE0 then if |s| >= 2 && Continues(s[1]) then 2 else 0
    else if 0xE0 <= s[0] < 0xF0 then
      if |s| >= 3 && Continues(s[1]) && Continues(s[2]) && (s[0] == 0xE0 ==> s[1] >= 0xA0) &&
         (s[0] == 0xED ==> s[1] < 0xA0)
      then 3 else 0
    else if 0xF0 <= s[0] < 0xF5 then
      if |s| >= 4 && Continues(s[1]) && Continues(s[2]) && Continues(s[3]) && (s[0] == 0xF0 ==> s[1] >= 0x90) &&
         (s[0] == 0xF4 ==> s[1] < 0x90)
      then 4 else 0
    else 0
  }

  /** What `String::from_utf8` accepts. */
  predicate ValidUtf8(s: seq<byte>)
    decreases |s|
  {
    s == [] || (CharLength(s) > 0 && ValidUtf8(s[CharLength(s)..]))
  }

  /** A string: valid UTF-8 bytes. */
  type Str = s: seq<byte> | ValidUtf8(s)
}
