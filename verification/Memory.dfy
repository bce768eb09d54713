/**
 Byte sequences as flat memory: slices and stores at an address.
 */
module Memory {
  import opened Bits

  /** Memory with `y` stored at `at`. */
  function Stored(mem: seq<Byte>, at: nat, y: seq<Byte>): (r: seq<Byte>)
    requires at + |y| <= |mem|
    ensures |r| == |mem|
  {
    seq(|mem|, k requires 0 <= k < |mem| => if at <= k < at + |y| then y[k - at] else mem[k])
  }

  /** `y` is at its place and no other byte has changed. */
  lemma StoredRegions(mem: seq<Byte>, at: nat, y: seq<Byte>)
    requires at + |y| <= |mem|
    ensures Stored(mem, at, y) == mem[..at] + y + mem[at + |y|..]
  {
  }

  lemma ThreeParts(low: seq<Byte>, y: seq<Byte>, high: seq<Byte>)
    ensures var r := low + y + high;
            r[..|low|] == low && r[|low|..|low| + |y|] == y && r[|low| + |y|..] == high
  {
  }

  lemma StoredNothing(mem: seq<Byte>, at: nat)
    requires at <= |mem|
    ensures Stored(mem, at, []) == mem
  {
  }

  /** Two stores, one after the other. */
  lemma StoredTwice(mem: seq<Byte>, at: nat, y: seq<Byte>, next: nat, z: seq<Byte>)
    requires at + |y| + |z| <= |mem| && next == at + |y|
    ensures Stored(Stored(mem, at, y), next, z) == Stored(mem, at, y + z)
  {
  }

  lemma StoredRead(mem: seq<Byte>, at: nat, y: seq<Byte>)
    requires at + |y| <= |mem|
    ensures Stored(mem, at, y)[at..at + |y|] == y
  {
  }

  lemma StoredBack(mem: seq<Byte>, at: nat, y: seq<Byte>)
    requires at + |y| <= |mem|
    ensures Stored(Stored(mem, at, y), at, mem[at..at + |y|]) == mem
  {
  }

  /** A memory that holds a single 1. */
  function OneByte(at: nat, size: nat): (mem: seq<Byte>)
    ensures |mem| == size && forall k :: 0 <= k < size ==> mem[k] == if k == at then 1 else 0
  {
    seq(size, k => if k == at then 1 else 0)
  }

  /** A slice of a slice, at absolute positions. */
  lemma Slice(s: seq<Byte>, a: nat, b: nat, i: nat, j: nat, from: nat, to: nat)
    requires a <= b <= |s| && i <= j <= b - a && from == a + i && to == a + j
    ensures s[a..b][i..j] == s[from..to]
  {
    var t := s[a..b];
    forall k | 0 <= k < j - i ensures t[i..j][k] == s[from..to][k] {
      assert t[i..j][k] == t[i + k] == s[a + (i + k)];
    }
    assert t[i..j] == s[from..to];
  }

  lemma DropTwice(s: seq<Byte>, i: nat, j: nat, k: nat)
    requires k == i + j <= |s|
    ensures s[i..][j..] == s[k..]
  {
    var t := s[i..];
    forall m | 0 <= m < |s| - k ensures t[j..][m] == s[k..][m] {
      assert t[j..][m] == t[j + m] == s[i + (j + m)];
    }
    assert t[j..] == s[k..];
  }
}
