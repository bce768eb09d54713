/**
 `fdt_memmove` of `libfdt.h`, on one flat memory in which the two regions may overlap.
 */
module FdtMove {
  import opened Bits
  import opened Memory

  /** The memory after `count` bytes at `src` have been moved to `dest`. */
  function Moved(mem: seq<Byte>, dest: nat, src: nat, count: nat): (r: seq<Byte>)
    requires dest + count <= |mem| && src + count <= |mem|
    ensures |r| == |mem|
  {
    Stored(mem, dest, mem[src..src + count])
  }

  /** `dest` holds the old source bytes and no other byte has changed. */
  lemma MovedRegions(mem: seq<Byte>, dest: nat, src: nat, count: nat)
    requires dest + count <= |mem| && src + count <= |mem|
    ensures var r := Moved(mem, dest, src, count);
            && r[dest..dest + count] == mem[src..src + count]
            && r[..dest] == mem[..dest] && r[dest + count..] == mem[dest + count..]
  {
    var y := mem[src..src + count];
    StoredRegions(mem, dest, y);
    ThreeParts(mem[..dest], y, mem[dest + count..]);
  }

  // ----- the two loops -----

  /** Copying from the lowest byte upwards, whatever the regions. */
  function CopyUp(mem: seq<Byte>, dest: nat, src: nat, count: nat): (r: seq<Byte>)
    requires dest + count <= |mem| && src + count <= |mem|
    ensures |r| == |mem|
    decreases count
  {
    if count == 0 then mem
    else CopyUp(mem[dest := mem[src]], dest + 1, src + 1, count - 1)
  }

  /** Copying from the highest byte downwards. */
  function CopyDown(mem: seq<Byte>, dest: nat, src: nat, count: nat): (r: seq<Byte>)
    requires dest + count <= |mem| && src + count <= |mem|
    ensures |r| == |mem|
    decreases count
  {
    if count == 0 then mem
    else CopyDown(mem[dest + (count - 1) := mem[src + (count - 1)]], dest, src, count - 1)
  }

  /** `fdt_memmove`; addresses are indices into `mem` */
  method FdtMemmove(mem: array<Byte>, dest: nat, src: nat, count: nat) returns (r: nat)
    requires dest + count <= mem.Length && src + count <= mem.Length
    modifies mem
    ensures r == dest
    ensures mem[..] == Moved(old(mem[..]), dest, src, count)
  {
    if dest == src {
      MovedToItself(mem[..], dest, count);
      return dest;
    } else if dest < src {
      CopyUpMoves(mem[..], dest, src, count);
      ghost var goal := CopyUp(mem[..], dest, src, count);
      var tmp, s, n := dest, src, count;
      while n > 0
        invariant 0 <= n && tmp + n == dest + count && s + n == src + count
        invariant CopyUp(mem[..], tmp, s, n) == goal
      {
        ghost var now := mem[..];
        n := n - 1;
        mem[tmp] := mem[s];
        assert mem[..] == now[tmp := now[s]];
        tmp := tmp + 1;
        s := s + 1;
      }
    } else {
      CopyDownMoves(mem[..], dest, src, count);
      ghost var goal := CopyDown(mem[..], dest, src, count);
      var tmp, s, n := dest + count, src + count, count;
      while n > 0
        invariant 0 <= n && tmp == dest + n && s == src + n
        invariant CopyDown(mem[..], dest, src, n) == goal
      {
        ghost var now := mem[..];
        n := n - 1;
        tmp := tmp - 1;
        s := s - 1;
        mem[tmp] := mem[s];
        assert mem[..] == now[tmp := now[s]];
      }
    }
    return dest;
  }

  lemma MovedToItself(mem: seq<Byte>, at: nat, count: nat)
    requires at + count <= |mem|
    ensures Moved(mem, at, at, count) == mem
  {
  }

  lemma {:induction false} CopyUpMoves(mem: seq<Byte>, dest: nat, src: nat, count: nat)
    requires dest + count <= |mem| && src + count <= |mem|
    requires dest <= src || src + count <= dest
    ensures CopyUp(mem, dest, src, count) == Moved(mem, dest, src, count)
    decreases count
  {
    if count == 0 {
      assert Moved(mem, dest, src, 0) == mem;
    } else {
      CopyUpMoves(mem[dest := mem[src]], dest + 1, src + 1, count - 1);
      FirstByteMoved(mem, dest, src, count);
    }
  }

  lemma FirstByteMoved(mem: seq<Byte>, dest: nat, src: nat, count: nat)
    requires count > 0 && dest + count <= |mem| && src + count <= |mem|
    requires dest <= src || src + count <= dest
    ensures Moved(mem[dest := mem[src]], dest + 1, src + 1, count - 1) == Moved(mem, dest, src, count)
  {
    var mem' := mem[dest := mem[src]];
    var x, x' := mem[src..src + count], mem'[src + 1..src + 1 + (count - 1)];
    assert x' == x[1..] && x[0] == mem[src];
    var a, b := Stored(mem', dest + 1, x'), Stored(mem, dest, x);
    forall k | 0 <= k < |mem| ensures a[k] == b[k] {
    }
  }

  lemma {:induction false} CopyDownMoves(mem: seq<Byte>, dest: nat, src: nat, count: nat)
    requires dest + count <= |mem| && src + count <= |mem|
    requires src <= dest || dest + count <= src
    ensures CopyDown(mem, dest, src, count) == Moved(mem, dest, src, count)
    decreases count
  {
    if count == 0 {
      assert Moved(mem, dest, src, 0) == mem;
    } else {
      var n := count - 1;
      CopyDownMoves(mem[dest + n := mem[src + n]], dest, src, n);
      LastByteMoved(mem, dest, src, n);
    }
  }

  lemma LastByteMoved(mem: seq<Byte>, dest: nat, src: nat, n: nat)
    requires dest + n < |mem| && src + n < |mem|
    requires src <= dest || dest + n < src
    ensures Moved(mem[dest + n := mem[src + n]], dest, src, n) == Moved(mem, dest, src, n + 1)
  {
    var mem' := mem[dest + n := mem[src + n]];
    var x, x' := mem[src..src + (n + 1)], mem'[src..src + n];
    assert x' == x[..n] && x[n] == mem[src + n];
    var a, b := Stored(mem', dest, x'), Stored(mem, dest, x);
    forall k | 0 <= k < |mem| ensures a[k] == b[k] {
    }
  }

  // ----- why the direction matters -----

  /** The upward loop moves every memory correctly exactly when it does not overwrite source bytes still to be read. */
  lemma CopyUpIsSafe(dest: nat, src: nat, count: nat, size: nat)
    requires dest + count <= size && src + count <= size
    ensures dest <= src || src + count <= dest
       <==> forall mem: seq<Byte> :: |mem| == size ==> CopyUp(mem, dest, src, count) == Moved(mem, dest, src, count)
  {
    if dest <= src || src + count <= dest {
      forall mem: seq<Byte> | |mem| == size
        ensures CopyUp(mem, dest, src, count) == Moved(mem, dest, src, count)
      {
        CopyUpMoves(mem, dest, src, count);
      }
    } else {
      var mem := OneByte(src, size);
      CopyUpSmears(mem, dest, src, count);
      MovedByte(mem, dest, src, count, dest - src);
      assert CopyUp(mem, dest, src, count) != Moved(mem, dest, src, count);
    }
  }

  /** So does the downward loop, under the mirrored condition. */
  lemma CopyDownIsSafe(dest: nat, src: nat, count: nat, size: nat)
    requires dest + count <= size && src + count <= size
    ensures src <= dest || dest + count <= src
       <==> forall mem: seq<Byte> :: |mem| == size ==> CopyDown(mem, dest, src, count) == Moved(mem, dest, src, count)
  {
    if src <= dest || dest + count <= src {
      forall mem: seq<Byte> | |mem| == size
        ensures CopyDown(mem, dest, src, count) == Moved(mem, dest, src, count)
      {
        CopyDownMoves(mem, dest, src, count);
      }
    } else {
      var last := src + count - 1;
      var mem := OneByte(last, size);
      var k := count - 1 - (src - dest);
      CopyDownRepeats(mem, dest, src, count, k);
      CopyDownRepeats(mem, dest, src, count, count - 1);
      MovedByte(mem, dest, src, count, k);
      assert CopyDown(mem, dest, src, count) != Moved(mem, dest, src, count);
    }
  }

  lemma MovedByte(mem: seq<Byte>, dest: nat, src: nat, count: nat, k: nat)
    requires dest + count <= |mem| && src + count <= |mem| && k < count
    ensures Moved(mem, dest, src, count)[dest + k] == mem[src + k]
  {
  }

  /** With src < dest < src + count the first source byte reaches both dest and dest + (dest - src). */
  lemma CopyUpSmears(mem: seq<Byte>, dest: nat, src: nat, count: nat)
    requires dest + count <= |mem| && src < dest < src + count
    ensures CopyUp(mem, dest, src, count)[dest + (dest - src)] == mem[src]
  {
    CopyUpRepeats(mem, dest, src, count, 0);
    CopyUpRepeats(mem, dest, src, count, dest - src);
  }

  /** Upward, the byte written at distance k is the one found at the source when its turn comes. */
  lemma {:induction false} CopyUpRepeats(mem: seq<Byte>, dest: nat, src: nat, count: nat, k: nat)
    requires dest + count <= |mem| && src < dest && k < count
    ensures var r := CopyUp(mem, dest, src, count);
            r[dest + k] == if src + k < dest then mem[src + k] else r[src + k]
    decreases count
  {
    var mem' := mem[dest := mem[src]];
    CopyUpBelow(mem', dest + 1, src + 1, count - 1);
    if k == 0 {
    } else {
      CopyUpRepeats(mem', dest + 1, src + 1, count - 1, k - 1);
    }
  }

  lemma {:induction false} CopyUpBelow(mem: seq<Byte>, dest: nat, src: nat, count: nat)
    requires dest + count <= |mem| && src + count <= |mem|
    ensures forall j :: 0 <= j < dest ==> CopyUp(mem, dest, src, count)[j] == mem[j]
    decreases count
  {
    if count == 0 {
    } else {
      CopyUpBelow(mem[dest := mem[src]], dest + 1, src + 1, count - 1);
    }
  }

  /** The same downward. */
  lemma {:induction false} CopyDownRepeats(mem: seq<Byte>, dest: nat, src: nat, count: nat, k: nat)
    requires src + count <= |mem| && dest < src && k < count
    ensures var r := CopyDown(mem, dest, src, count);
            r[dest + k] == if dest + count <= src + k then mem[src + k] else r[src + k]
    decreases count
  {
    var n := count - 1;
    var mem' := mem[dest + n := mem[src + n]];
    CopyDownAbove(mem', dest, src, n);
    if k == n {
    } else {
      CopyDownRepeats(mem', dest, src, n, k);
    }
  }

  lemma {:induction false} CopyDownAbove(mem: seq<Byte>, dest: nat, src: nat, count: nat)
    requires dest + count <= |mem| && src + count <= |mem|
    ensures forall j :: dest + count <= j < |mem| ==> CopyDown(mem, dest, src, count)[j] == mem[j]
    decreases count
  {
    if count == 0 {
    } else {
      CopyDownAbove(mem[dest + (count - 1) := mem[src + (count - 1)]], dest, src, count - 1);
    }
  }
}
