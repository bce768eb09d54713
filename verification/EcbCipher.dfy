/**
 The ECB loop of `evp_locl.h` (section 6.1 of NIST SP 800-38A), on one flat memory in which the
 input and the output region may alias.  The block cipher is a callee: a function on blocks.
 */
module EcbCipher {
  import opened Bits
  import opened Memory

  type BlockFunction = seq<Byte> -> seq<Byte>

  /** The callee's contract: a block in, a block out. */
  ghost predicate OnBlocks(f: BlockFunction, bl: nat) {
    forall b: seq<Byte> {:trigger f(b)} :: |b| == bl ==> |f(b)| == bl
  }

  ghost predicate Inverse(d: BlockFunction, e: BlockFunction, bl: nat) {
    forall b: seq<Byte> {:trigger e(b)} :: |b| == bl ==> d(e(b)) == b
  }

  /** The bytes of the whole blocks among `len`. */
  function Full(len: nat, bl: nat): (n: nat)
    requires bl > 0
    ensures n <= len < n + bl
  {
    if len < bl then 0 else bl + Full(len - bl, bl)
  }

  /** Both regions hold the whole blocks; the trailing bytes are never touched. */
  predicate Fits(bl: nat, out: nat, inp: nat, len: nat, size: nat)
    requires bl > 0
  {
    out + Full(len, bl) <= size && inp + Full(len, bl) <= size
  }

  /** ECB mode: the cipher on each whole block by itself. */
  ghost function Ecb(f: BlockFunction, bl: nat, x: seq<Byte>): seq<Byte>
    requires bl > 0
  {
    if |x| < bl then [] else f(x[..bl]) + Ecb(f, bl, x[bl..])
  }

  /** Block by block in memory: each block is read when its turn comes. */
  ghost function Run(f: BlockFunction, bl: nat, mem: seq<Byte>, out: nat, inp: nat, len: nat): (r: seq<Byte>)
    requires bl > 0 && OnBlocks(f, bl)
    requires Fits(bl, out, inp, len, |mem|)
    ensures |r| == |mem|
    decreases len
  {
    if len < bl then mem
    else Run(f, bl, Stored(mem, out, f(mem[inp..inp + bl])), out + bl, inp + bl, len - bl)
  }

  lemma RunStep(f: BlockFunction, bl: nat, mem: seq<Byte>, out: nat, inp: nat, len: nat)
    requires 0 < bl <= len && OnBlocks(f, bl)
    requires Fits(bl, out, inp, len, |mem|)
    ensures Run(f, bl, mem, out, inp, len)
         == Run(f, bl, Stored(mem, out, f(mem[inp..inp + bl])), out + bl, inp + bl, len - bl)
  {
  }

  /** The blocks that are left turn this memory into `goal`. */
  ghost predicate LeadsTo(f: BlockFunction, bl: nat, mem: seq<Byte>, out: nat, inp: nat, len: nat, goal: seq<Byte>)
    requires bl > 0 && OnBlocks(f, bl)
  {
    Fits(bl, out, inp, len, |mem|) && Run(f, bl, mem, out, inp, len) == goal
  }

  lemma OneBlockLess(f: BlockFunction, bl: nat, mem: seq<Byte>, out: nat, inp: nat, len: nat, goal: seq<Byte>, mem': seq<Byte>)
    requires 0 < bl <= len && OnBlocks(f, bl) && LeadsTo(f, bl, mem, out, inp, len, goal)
    requires out + bl <= |mem| && inp + bl <= |mem| && mem' == Stored(mem, out, f(mem[inp..inp + bl]))
    ensures LeadsTo(f, bl, mem', out + bl, inp + bl, len - bl, goal)
  {
    RunStep(f, bl, mem, out, inp, len);
  }

  lemma NoBlockLeft(f: BlockFunction, bl: nat, mem: seq<Byte>, out: nat, inp: nat, len: nat, goal: seq<Byte>)
    requires bl > 0 && OnBlocks(f, bl) && len < bl && LeadsTo(f, bl, mem, out, inp, len, goal)
    ensures mem == goal
  {
  }

  /** The `_ecb_encrypt` callee */
  method CipherBlock(f: BlockFunction, bl: nat, mem: array<Byte>, out: nat, inp: nat)
    requires OnBlocks(f, bl)
    requires out + bl <= mem.Length && inp + bl <= mem.Length
    modifies mem
    ensures mem[..] == Stored(old(mem[..]), out, f(old(mem[..])[inp..inp + bl]))
  {
    ghost var was := mem[..];
    var block := f(mem[inp..inp + bl]);
    assert mem[inp..inp + bl] == was[inp..inp + bl];
    forall k | 0 <= k < bl {
      mem[out + k] := block[k];
    }
    assert mem[..] == Stored(was, out, block);
  }

  /** `BLOCK_CIPHER_func_ecb` */
  method EcbCipher(f: BlockFunction, blockSize: Word, mem: array<Byte>, out: nat, inp: nat, inl: Word) returns (r: int)
    requires blockSize > 0 && OnBlocks(f, blockSize)
    requires Fits(blockSize, out, inp, inl, mem.Length)
    modifies mem
    ensures r == 1
    ensures mem[..] == Run(f, blockSize, old(mem[..]), out, inp, inl)
  {
    var bl: nat := blockSize;
    if inl < bl {
      return 1;
    }
    ghost var goal := Run(f, bl, mem[..], out, inp, inl);
    var to: nat, from: nat := out, inp;      // out + i and in + i
    ghost var left: nat, now := inl, mem[..];
    var last: Word := inl - bl;
    var i: Word := 0;
    while i <= last
      invariant to == out + i && from == inp + i && left == inl - i
      invariant mem[..] == now && LeadsTo(f, bl, now, to, from, left, goal)
      decreases left
    {
      CipherBlock(f, bl, mem, to, from);
      ghost var next := mem[..];
      OneBlockLess(f, bl, now, to, from, left, goal, next);
      to, from, left, now := to + bl, from + bl, left - bl, next;
      i := Add32(i, bl);
    }
    NoBlockLeft(f, bl, now, to, from, left, goal);
    return 1;
  }

  // ----- what the loop computes -----

  lemma {:induction false} FullIsWholeBlocks(len: nat, bl: nat)
    requires bl > 0
    ensures Full(len, bl) == len / bl * bl
  {
    if len < bl {
      DivModUnique(len, bl, 0, len);
    } else {
      FullIsWholeBlocks(len - bl, bl);
      var q, r := (len - bl) / bl, (len - bl) % bl;
      assert len == (q + 1) * bl + r;
      DivModUnique(len, bl, q + 1, r);
    }
  }

  lemma {:induction false} EcbLength(f: BlockFunction, bl: nat, x: seq<Byte>)
    requires bl > 0 && OnBlocks(f, bl)
    ensures |Ecb(f, bl, x)| == Full(|x|, bl)
    decreases |x|
  {
    if |x| < bl {
    } else {
      EcbLength(f, bl, x[bl..]);
    }
  }

  lemma {:induction false} FullOfFull(len: nat, bl: nat)
    requires bl > 0
    ensures Full(Full(len, bl), bl) == Full(len, bl)
  {
    if len < bl {
    } else {
      FullOfFull(len - bl, bl);
    }
  }

  /** No block is overwritten before it is read: the output does not start inside the later input. */
  predicate Safe(bl: nat, out: nat, inp: nat, len: nat)
    requires bl > 0
  {
    out <= inp || inp + Full(len, bl) <= out || Full(len, bl) <= bl
  }

  /** The whole input blocks, enciphered, are at `out` and no other byte has changed. */
  ghost predicate RunsEcb(f: BlockFunction, bl: nat, mem: seq<Byte>, out: nat, inp: nat, len: nat)
    requires bl > 0 && OnBlocks(f, bl)
    requires Fits(bl, out, inp, len, |mem|)
  {
    var c := Ecb(f, bl, mem[inp..inp + Full(len, bl)]);
    |c| == Full(len, bl) && Run(f, bl, mem, out, inp, len) == Stored(mem, out, c)
  }

  /** So it is for every cipher, memory and safe placement, such as separate regions or the same one. */
  lemma {:induction false} RunIsEcb(f: BlockFunction, bl: nat, mem: seq<Byte>, out: nat, inp: nat, len: nat)
    requires bl > 0 && OnBlocks(f, bl)
    requires Fits(bl, out, inp, len, |mem|)
    requires Safe(bl, out, inp, len)
    ensures RunsEcb(f, bl, mem, out, inp, len)
    decreases len
  {
    if len < bl {
      StoredNothing(mem, out);
    } else {
      var mem' := Stored(mem, out, f(mem[inp..inp + bl]));
      RunIsEcb(f, bl, mem', out + bl, inp + bl, len - bl);
      OneMoreBlock(f, bl, mem, out, inp, len, mem');
    }
  }

  /** The first block and then the others. */
  lemma OneMoreBlock(f: BlockFunction, bl: nat, mem: seq<Byte>, out: nat, inp: nat, len: nat, mem': seq<Byte>)
    requires 0 < bl <= len && OnBlocks(f, bl)
    requires Fits(bl, out, inp, len, |mem|)
    requires Safe(bl, out, inp, len) && mem' == Stored(mem, out, f(mem[inp..inp + bl]))
    requires RunsEcb(f, bl, mem', out + bl, inp + bl, len - bl)
    ensures RunsEcb(f, bl, mem, out, inp, len)
  {
    RunStep(f, bl, mem, out, inp, len);
    var n := Full(len - bl, bl);
    var y, later := f(mem[inp..inp + bl]), Ecb(f, bl, mem'[inp + bl..inp + bl + n]);
    FirstAndLater(f, bl, mem, out, inp, n, y);
    StoredTwice(mem, out, y, out + bl, later);
  }

  /** A safe placement leaves the later n bytes of the input alone. */
  lemma FirstAndLater(f: BlockFunction, bl: nat, mem: seq<Byte>, out: nat, inp: nat, n: nat, y: seq<Byte>)
    requires 0 < bl && OnBlocks(f, bl) && out + bl + n <= |mem| && inp + bl + n <= |mem|
    requires out <= inp || inp + bl + n <= out || n == 0
    requires y == f(mem[inp..inp + bl])
    ensures Ecb(f, bl, mem[inp..inp + (bl + n)]) == y + Ecb(f, bl, Stored(mem, out, y)[inp + bl..inp + bl + n])
  {
    var x, mem' := mem[inp..inp + (bl + n)], Stored(mem, out, y);
    assert x[..bl] == mem[inp..inp + bl];
    assert x[bl..] == mem[inp + bl..inp + bl + n];
    assert mem'[inp + bl..inp + bl + n] == mem[inp + bl..inp + bl + n];
  }

  lemma EcbFirst(f: BlockFunction, bl: nat, y: seq<Byte>, z: seq<Byte>)
    requires bl > 0 && |y| == bl
    ensures Ecb(f, bl, y + z) == f(y) + Ecb(f, bl, z)
  {
    assert (y + z)[..bl] == y && (y + z)[bl..] == z;
  }

  /** Decrypting what was encrypted gives back the whole blocks. */
  lemma {:induction false} EcbInverse(e: BlockFunction, d: BlockFunction, bl: nat, x: seq<Byte>)
    requires bl > 0 && OnBlocks(e, bl) && Inverse(d, e, bl)
    ensures Ecb(d, bl, Ecb(e, bl, x)) == x[..Full(|x|, bl)]
    decreases |x|
  {
    if |x| < bl {
    } else {
      var b, x', n := x[..bl], x[bl..], Full(|x| - bl, bl);
      EcbInverse(e, d, bl, x');
      assert Ecb(e, bl, x) == e(b) + Ecb(e, bl, x');
      EcbFirst(d, bl, e(b), Ecb(e, bl, x'));
      assert d(e(b)) == b && Full(|x|, bl) == bl + n;
      assert b + x'[..n] == x[..bl + n];
    }
  }

  /** Encrypting in place and then decrypting in place restores the memory. */
  lemma InPlaceRoundTrip(e: BlockFunction, d: BlockFunction, bl: nat, mem: seq<Byte>, at: nat, len: nat)
    requires bl > 0 && OnBlocks(e, bl) && OnBlocks(d, bl) && Inverse(d, e, bl)
    requires Fits(bl, at, at, len, |mem|)
    ensures LeadsTo(d, bl, Run(e, bl, mem, at, at, len), at, at, len, mem)
  {
    var x := mem[at..at + Full(len, bl)];
    var c, mem' := Ecb(e, bl, x), Run(e, bl, mem, at, at, len);
    RunIsEcb(e, bl, mem, at, at, len);
    assert mem' == Stored(mem, at, c);
    DecryptWhole(e, d, bl, x, len);
    InPlaceDecrypt(d, bl, mem, at, len, c, mem');
  }

  lemma InPlaceDecrypt(d: BlockFunction, bl: nat, mem: seq<Byte>, at: nat, len: nat, c: seq<Byte>, mem': seq<Byte>)
    requires bl > 0 && OnBlocks(d, bl) && Fits(bl, at, at, len, |mem|)
    requires |c| == Full(len, bl) && mem' == Stored(mem, at, c) && Ecb(d, bl, c) == mem[at..at + Full(len, bl)]
    ensures LeadsTo(d, bl, mem', at, at, len, mem)
  {
    StoredRead(mem, at, c);
    StoredBack(mem, at, c);
    RunIsEcb(d, bl, mem', at, at, len);
    var r := Run(d, bl, mem', at, at, len);
    assert r == Stored(mem', at, Ecb(d, bl, c)) == mem;
  }

  lemma DecryptWhole(e: BlockFunction, d: BlockFunction, bl: nat, x: seq<Byte>, len: nat)
    requires bl > 0 && OnBlocks(e, bl) && Inverse(d, e, bl) && |x| == Full(len, bl)
    ensures Ecb(d, bl, Ecb(e, bl, x)) == x
  {
    EcbInverse(e, d, bl, x);
    FullOfFull(len, bl);
    assert x[..|x|] == x;
  }

  // ----- when it does not -----

  function Identity(b: seq<Byte>): seq<Byte> {
    b
  }

  ghost predicate Copied(bl: nat, mem: seq<Byte>, out: nat, inp: nat, len: nat)
    requires bl > 0 && Fits(bl, out, inp, len, |mem|)
  {
    Run(Identity, bl, mem, out, inp, len) == Stored(mem, out, mem[inp..inp + Full(len, bl)])
  }

  /** The placement is safe exactly when even the identity cipher copies every memory correctly. */
  lemma SafeIsExact(bl: nat, size: nat, out: nat, inp: nat, len: nat)
    requires bl > 0 && Fits(bl, out, inp, len, size)
    ensures Safe(bl, out, inp, len)
       <==> forall mem: seq<Byte> :: |mem| == size ==> Copied(bl, mem, out, inp, len)
  {
    if Safe(bl, out, inp, len) {
      forall mem: seq<Byte> | |mem| == size ensures Copied(bl, mem, out, inp, len) {
        IdentityCopies(bl, mem, out, inp, len);
      }
    } else {
      Smears(bl, size, out, inp, len);
    }
  }

  lemma IdentityCopies(bl: nat, mem: seq<Byte>, out: nat, inp: nat, len: nat)
    requires bl > 0 && Fits(bl, out, inp, len, |mem|)
    requires Safe(bl, out, inp, len)
    ensures Copied(bl, mem, out, inp, len)
  {
    var x := mem[inp..inp + Full(len, bl)];
    RunIsEcb(Identity, bl, mem, out, inp, len);
    EcbIdentity(bl, x);
    FullOfFull(len, bl);
    assert x[..|x|] == x;
  }

  /** Otherwise an output byte lands on a later input block before that is read. */
  lemma Smears(bl: nat, size: nat, out: nat, inp: nat, len: nat)
    requires bl > 0 && Fits(bl, out, inp, len, size)
    requires !Safe(bl, out, inp, len)
    ensures exists mem: seq<Byte> :: |mem| == size && !Copied(bl, mem, out, inp, len)
  {
    var d := out - inp;
    var u := if d < bl then bl - d else 0;
    var mem := OneByte(inp + u, size);
    var k := u + d;
    RunIdentity(bl, mem, out, inp, len);
    FirstBlockSmears(bl, mem, out, inp, len, inp + u, out + k);
    StoredByte(mem, out, inp, Full(len, bl), k);
    assert mem[inp + u] == 1 && mem[inp + k] == 0;
    assert !Copied(bl, mem, out, inp, len);
  }

  lemma StoredByte(mem: seq<Byte>, out: nat, inp: nat, n: nat, k: nat)
    requires out + n <= |mem| && inp + n <= |mem| && k < n
    ensures Stored(mem, out, mem[inp..inp + n])[out + k] == mem[inp + k]
  {
    assert mem[inp..inp + n][k] == mem[inp + k];
  }

  lemma {:induction false} EcbIdentity(bl: nat, x: seq<Byte>)
    requires bl > 0
    ensures Full(|x|, bl) <= |x| && Ecb(Identity, bl, x) == x[..Full(|x|, bl)]
    decreases |x|
  {
    if |x| < bl {
    } else {
      EcbIdentity(bl, x[bl..]);
      var n := Full(|x| - bl, bl);
      assert x[..bl] + x[bl..][..n] == x[..bl + n];
    }
  }

  /** What the loop does with the identity cipher. */
  function BlockCopy(bl: nat, mem: seq<Byte>, out: nat, inp: nat, len: nat): (r: seq<Byte>)
    requires bl > 0 && Fits(bl, out, inp, len, |mem|)
    ensures |r| == |mem|
    decreases len
  {
    if len < bl then mem
    else BlockCopy(bl, Stored(mem, out, mem[inp..inp + bl]), out + bl, inp + bl, len - bl)
  }

  lemma {:induction false} RunIdentity(bl: nat, mem: seq<Byte>, out: nat, inp: nat, len: nat)
    requires bl > 0 && Fits(bl, out, inp, len, |mem|)
    ensures Run(Identity, bl, mem, out, inp, len) == BlockCopy(bl, mem, out, inp, len)
    decreases len
  {
    if len < bl {
    } else {
      assert Identity(mem[inp..inp + bl]) == mem[inp..inp + bl];
      RunIdentity(bl, Stored(mem, out, mem[inp..inp + bl]), out + bl, inp + bl, len - bl);
    }
  }

  /** The byte b ends up at `to`. */
  predicate Delivers(bl: nat, mem: seq<Byte>, out: nat, inp: nat, len: nat, to: nat, b: Byte)
    requires bl > 0 && Fits(bl, out, inp, len, |mem|) && to < |mem|
  {
    BlockCopy(bl, mem, out, inp, len)[to] == b
  }

  lemma BlockStep(bl: nat, mem: seq<Byte>, out: nat, inp: nat, len: nat)
    requires 0 < bl <= len && Fits(bl, out, inp, len, |mem|)
    ensures Fits(bl, out + bl, inp + bl, len - bl, |mem|)
    ensures forall to, b: Byte :: 0 <= to < |mem| ==>
              (Delivers(bl, mem, out, inp, len, to, b)
               <==> Delivers(bl, Stored(mem, out, mem[inp..inp + bl]), out + bl, inp + bl, len - bl, to, b))
  {
  }

  /** A byte below the output region stays. */
  lemma {:induction false} StaysBelow(bl: nat, mem: seq<Byte>, out: nat, inp: nat, len: nat, k: nat)
    requires bl > 0 && Fits(bl, out, inp, len, |mem|) && k < out
    ensures Delivers(bl, mem, out, inp, len, k, mem[k])
    decreases len
  {
    if len < bl {
    } else {
      BlockStep(bl, mem, out, inp, len);
      StaysBelow(bl, Stored(mem, out, mem[inp..inp + bl]), out + bl, inp + bl, len - bl, k);
    }
  }

  lemma StoredBlock(bl: nat, mem: seq<Byte>, out: nat, inp: nat, from: nat)
    requires out + bl <= |mem| && inp + bl <= |mem| && inp <= from < inp + bl && inp <= out
    ensures Stored(mem, out, mem[inp..inp + bl])[from + (out - inp)] == mem[from]
  {
    assert mem[inp..inp + bl][from - inp] == mem[from];
  }

  /** A source byte below the output region reaches its destination. */
  lemma {:induction false} BelowIsDelivered(bl: nat, mem: seq<Byte>, out: nat, inp: nat, len: nat, to: nat, from: nat)
    requires bl > 0 && Fits(bl, out, inp, len, |mem|)
    requires to - out == from - inp && inp <= from < inp + Full(len, bl) && from < out
    ensures Delivers(bl, mem, out, inp, len, to, mem[from])
    decreases len
  {
    var mem' := Stored(mem, out, mem[inp..inp + bl]);
    BlockStep(bl, mem, out, inp, len);
    if from < inp + bl {
      StoredBlock(bl, mem, out, inp, from);
      StaysBelow(bl, mem', out + bl, inp + bl, len - bl, to);
    } else {
      BelowIsDelivered(bl, mem', out + bl, inp + bl, len - bl, to, from);
    }
  }

  /** A byte of the first block that is copied on to a later one comes out twice. */
  lemma FirstBlockSmears(bl: nat, mem: seq<Byte>, out: nat, inp: nat, len: nat, from: nat, to: nat)
    requires 0 < bl <= len && Fits(bl, out, inp, len, |mem|) && inp < out
    requires inp <= from < inp + bl && to - from == 2 * (out - inp) && out + bl <= to < out + Full(len, bl)
    ensures Delivers(bl, mem, out, inp, len, to, mem[from])
  {
    var mem' := Stored(mem, out, mem[inp..inp + bl]);
    StoredBlock(bl, mem, out, inp, from);
    BlockStep(bl, mem, out, inp, len);
    BelowIsDelivered(bl, mem', out + bl, inp + bl, len - bl, to, from + (out - inp));
  }
}
