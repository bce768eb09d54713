/**
 The descriptor bitmap of `posix_types.h`: 1024 bits in 32 words of 32 bits.
 */
module FdSet {
  import opened Bits

  const FD_SETSIZE: nat := 1024
  const FDSET_LONGS: nat := 32

  type Descriptor = fd: nat | fd < FD_SETSIZE

  /** `fd >> 5` */
  function WordOf(fd: Descriptor): (i: nat)
    ensures i == fd / 32 < FDSET_LONGS
  {
    Pow2Values();
    ShrLowIsDivMod(fd, 5);
    Shr(fd, 5)
  }

  /** `fd & 31` */
  function BitOf(fd: Descriptor): (k: nat)
    ensures k == fd % 32
  {
    Pow2Values();
    AndLowMask(fd, 5);
    ShrLowIsDivMod(fd, 5);
    And(fd, 31)
  }

  /** `1 << (fd & 31)` */
  function MaskOf(fd: Descriptor): (m: Word)
    ensures m == Pow2(fd % 32)
  {
    Pow2Values();
    Pow2Monotonic(fd % 32, 31);
    Pow2(BitOf(fd))
  }

  /** The descriptors whose bits are set. */
  ghost function Members(words: seq<Word>): set<nat>
    requires |words| == FDSET_LONGS
  {
    set fd: nat | fd < FD_SETSIZE && Bit(words[fd / 32], fd % 32)
  }

  function WithBit(w: Word, k: nat): (r: Word)
    requires k < 32
  {
    Pow2Values();
    Pow2Monotonic(k, 31);
    OrBound(w, Pow2(k), 32);
    Or(w, Pow2(k))
  }

  function WithoutBit(w: Word, k: nat): (r: Word)
    requires k < 32
  {
    Pow2Values();
    Pow2Monotonic(k, 31);
    AndAtMost(w, Not(Pow2(k), 32));
    And(w, Not(Pow2(k), 32))
  }

  lemma WithBitBits(w: Word, k: nat, j: nat)
    requires k < 32 && j < 32
    ensures Bit(WithBit(w, k), j) <==> j == k || Bit(w, j)
    ensures Bit(WithoutBit(w, k), j) <==> j != k && Bit(w, j)
  {
    Pow2Values();
    Pow2Monotonic(k, 31);
    BitOr(w, Pow2(k), j);
    BitAnd(w, Not(Pow2(k), 32), j);
    BitNot(Pow2(k), 32, j);
    BitPow2(k, j);
  }

  /** Setting a bit adds its descriptor and clearing it removes its descriptor; no other one changes. */
  lemma OneBitChanges(words: seq<Word>, fd: Descriptor)
    requires |words| == FDSET_LONGS
    ensures var i, k := fd / 32, fd % 32;
            && Members(words[i := WithBit(words[i], k)]) == Members(words) + {fd}
            && Members(words[i := WithoutBit(words[i], k)]) == Members(words) - {fd}
  {
    var i, k := fd / 32, fd % 32;
    var with, without := words[i := WithBit(words[i], k)], words[i := WithoutBit(words[i], k)];
    forall other: nat | other < FD_SETSIZE
      ensures other in Members(with) <==> other == fd || other in Members(words)
      ensures other in Members(without) <==> other != fd && other in Members(words)
    {
      if other / 32 == i {
        WithBitBits(words[i], k, other % 32);
        assert other == i * 32 + other % 32 && fd == i * 32 + k;
      }
    }
  }

  lemma NoMembers(words: seq<Word>)
    requires |words| == FDSET_LONGS && forall i :: 0 <= i < FDSET_LONGS ==> words[i] == 0
    ensures Members(words) == {}
  {
    forall fd: nat | fd < FD_SETSIZE ensures fd !in Members(words) {
      BitZero(fd % 32);
    }
  }

  /** An operation on a descriptor set. */
  datatype Op = Zero | Set(fd: Descriptor) | Clr(fd: Descriptor)

  class DescriptorSet {
    var fds_bits: array<Word>

    ghost predicate Valid()
      reads this
    {
      fds_bits.Length == FDSET_LONGS
    }

    ghost function Contents(): set<nat>
      requires Valid()
      reads this, fds_bits
    {
      Members(fds_bits[..])
    }

    /** `__FD_SET` */
    method Add(fd: Descriptor)
      requires Valid()
      modifies fds_bits
      ensures Contents() == old(Contents()) + {fd}
    {
      ghost var was := fds_bits[..];
      OneBitChanges(was, fd);
      assert Or(fds_bits[WordOf(fd)], MaskOf(fd)) == WithBit(was[fd / 32], fd % 32);
      fds_bits[WordOf(fd)] := Or(fds_bits[WordOf(fd)], MaskOf(fd));
      assert fds_bits[..] == was[fd / 32 := WithBit(was[fd / 32], fd % 32)];
    }

    /** `__FD_CLR` */
    method Remove(fd: Descriptor)
      requires Valid()
      modifies fds_bits
      ensures Contents() == old(Contents()) - {fd}
    {
      ghost var was := fds_bits[..];
      Pow2Values();
      OneBitChanges(was, fd);
      assert And(fds_bits[WordOf(fd)], Not(MaskOf(fd), 32)) == WithoutBit(was[fd / 32], fd % 32);
      fds_bits[WordOf(fd)] := And(fds_bits[WordOf(fd)], Not(MaskOf(fd), 32));
      assert fds_bits[..] == was[fd / 32 := WithoutBit(was[fd / 32], fd % 32)];
    }

    /** `__FD_ISSET` */
    method IsSet(fd: Descriptor) returns (r: bool)
      requires Valid()
      ensures r <==> fd in Contents()
    {
      AndOneBit(fds_bits[WordOf(fd)], fd % 32);
      r := And(fds_bits[WordOf(fd)], MaskOf(fd)) != 0;
    }

    /** `__FD_ZERO` */
    method Clear()
      requires Valid()
      modifies fds_bits
      ensures Contents() == {}
    {
      forall i | 0 <= i < fds_bits.Length {
        fds_bits[i] := 0;
      }
      NoMembers(fds_bits[..]);
    }

    /** Any sequence of operations. */
    method Perform(ops: seq<Op>)
      requires Valid()
      modifies fds_bits
      ensures Contents() == After(old(Contents()), ops)
    {
      var i := 0;
      assert ops[..0] == [];
      while i < |ops|
        invariant 0 <= i <= |ops|
        invariant Contents() == After(old(Contents()), ops[..i])
      {
        assert ops[..i + 1][..i] == ops[..i];
        match ops[i] {
          case Zero => Clear();
          case Set(fd) => Add(fd);
          case Clr(fd) => Remove(fd);
        }
        i := i + 1;
      }
      assert ops[..i] == ops;
    }
  }

  /** The set a sequence of operations builds. */
  ghost function After(start: set<nat>, ops: seq<Op>): set<nat> {
    if ops == [] then start
    else
      var before := After(start, ops[..|ops| - 1]);
      match ops[|ops| - 1]
      case Zero => {}
      case Set(fd) => before + {fd}
      case Clr(fd) => before - {fd}
  }

  predicate Concerns(op: Op, fd: Descriptor) {
    op.Zero? || op.fd == fd
  }

  /** A descriptor is in the set exactly when the last operation that concerns it has set it. */
  lemma {:induction false} LastOperationDecides(start: set<nat>, ops: seq<Op>, fd: Descriptor)
    ensures fd in After(start, ops)
       <==> || (exists i :: 0 <= i < |ops| && ops[i] == Set(fd) && forall j :: i < j < |ops| ==> !Concerns(ops[j], fd))
            || (fd in start && forall j :: 0 <= j < |ops| ==> !Concerns(ops[j], fd))
  {
    if ops == [] {
    } else {
      var n := |ops| - 1;
      var prefix := ops[..n];
      LastOperationDecides(start, prefix, fd);
      assert forall i :: 0 <= i < n ==> prefix[i] == ops[i];
      if ops[n] == Set(fd) {
        assert fd in After(start, ops);
      } else if Concerns(ops[n], fd) {
        assert fd !in After(start, ops);
      } else if fd in After(start, ops) && exists i :: 0 <= i < n && prefix[i] == Set(fd) && forall j :: i < j < n ==> !Concerns(prefix[j], fd) {
        var i :| 0 <= i < n && prefix[i] == Set(fd) && forall j :: i < j < n ==> !Concerns(prefix[j], fd);
        forall j | i < j < |ops| ensures !Concerns(ops[j], fd) {
          if j < n {
            assert !Concerns(prefix[j], fd);
          }
        }
        assert ops[i] == Set(fd);
      }
    }
  }
}
