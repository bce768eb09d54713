/**
 The encoding macros of `asn1_mac.h`: a length pass that sums sizes, then a put pass that stores
 bytes through `p` and rewrites the tag byte of an implicitly tagged item.
 */
module Asn1Writer {
  import opened Bits
  import opened Memory
  import opened Asn1Header
  import opened Asn1Fields

  // ----- the contents and the whole of a sequence -----

  predicate AllWritable<V>(fs: seq<Field<V>>, vs: seq<Option<V>>) {
    |fs| == |vs| && forall i :: 0 <= i < |fs| ==> Writable(fs[i], vs[i])
  }

  function WriteFields<V>(fs: seq<Field<V>>, vs: seq<Option<V>>): Bytes
    requires AllWritable(fs, vs)
  {
    if fs == [] then [] else Write(fs[0], vs[0]) + WriteFields(fs[1..], vs[1..])
  }

  function LenFields<V>(fs: seq<Field<V>>, vs: seq<Option<V>>): nat
    requires |fs| == |vs|
  {
    if fs == [] then 0 else Len(fs[0], vs[0]) + LenFields(fs[1..], vs[1..])
  }

  ghost predicate AllGood<V(!new)>(fs: seq<Field<V>>) {
    forall f <- fs :: Good(f.codec)
  }

  /** A sequence with its header, in the definite form. */
  function WriteSequence<V>(fs: seq<Field<V>>, vs: seq<Option<V>>): Bytes
    requires AllWritable(fs, vs) && |WriteFields(fs, vs)| < 0x8000_0000
  {
    var contents := WriteFields(fs, vs);
    PutObject(true, |contents|, V_ASN1_SEQUENCE, V_ASN1_UNIVERSAL) + contents
  }

  /** The values fit the fields, and the size of the whole encoding is an int. */
  predicate Encodable<V>(fs: seq<Field<V>>, vs: seq<Option<V>>) {
    AllWritable(fs, vs) && |WriteFields(fs, vs)| < 0x8000_0000 && |WriteSequence(fs, vs)| < 0x8000_0000
  }

  /** The octets of field i stand between those of the earlier and of the later fields. */
  lemma WrittenInOrder<V>(fs: seq<Field<V>>, vs: seq<Option<V>>, i: nat)
    requires AllWritable(fs, vs) && i < |fs|
    ensures WriteFields(fs, vs)
         == WriteFields(fs[..i], vs[..i]) + (Write(fs[i], vs[i]) + WriteFields(fs[i + 1..], vs[i + 1..]))
  {
    WrittenApart(fs, vs, i);
    var gs, us := fs[i..], vs[i..];
    assert gs[0] == fs[i] && us[0] == vs[i] && gs[1..] == fs[i + 1..] && us[1..] == vs[i + 1..];
    assert WriteFields(gs, us) == Write(gs[0], us[0]) + WriteFields(gs[1..], us[1..]);
  }

  lemma {:induction false} WrittenApart<V>(fs: seq<Field<V>>, vs: seq<Option<V>>, i: nat)
    requires AllWritable(fs, vs) && i <= |fs|
    ensures WriteFields(fs, vs) == WriteFields(fs[..i], vs[..i]) + WriteFields(fs[i..], vs[i..])
    decreases i
  {
    if i == 0 {
      assert fs[0..] == fs && vs[0..] == vs;
    } else {
      var gs, us, hs, ts := fs[1..], vs[1..], fs[..i], vs[..i];
      WrittenApart(gs, us, i - 1);
      assert gs[i - 1..] == fs[i..] && us[i - 1..] == vs[i..];
      assert hs[1..] == gs[..i - 1] && ts[1..] == us[..i - 1];
      var first, before := Write(fs[0], vs[0]), WriteFields(hs[1..], ts[1..]);
      assert WriteFields(hs, ts) == first + before;
      ThreePieces(first, before, WriteFields(fs[i..], vs[i..]));
    }
  }

  lemma ThreePieces(a: Bytes, b: Bytes, c: Bytes)
    ensures a + (b + c) == a + b + c
  {
  }

  /** A written sequence, octet by octet: 0x30, the length of the fields, and the fields. */
  lemma SequenceOctets<V(!new)>(fs: seq<Field<V>>, vs: seq<Option<V>>)
    requires AllGood(fs) && AllWritable(fs, vs) && |WriteFields(fs, vs)| < 0x8000_0000
    ensures LenFields(fs, vs) == |WriteFields(fs, vs)|
    ensures WriteSequence(fs, vs) == [0x30] + LengthOctets(LenFields(fs, vs)) + WriteFields(fs, vs)
  {
    LenFieldsAgrees(fs, vs);
    assert IdentifierOctets(true, V_ASN1_SEQUENCE, V_ASN1_UNIVERSAL) == [0x30];
  }

  /** Such octets are an element: constructed, universal, SEQUENCE, with the definite length of what follows. */
  lemma SequenceElement(contents: Bytes, rest: Bytes)
    requires |contents| < 0x8000_0000
    ensures GetObject([0x30] + LengthOctets(|contents|) + contents + rest)
         == Some(Header(true, false, |contents|, 16, 0, 1 + |LengthOctets(|contents|)|))
  {
    var h := PutObject(true, |contents|, V_ASN1_SEQUENCE, V_ASN1_UNIVERSAL);
    assert h == [0x30] + LengthOctets(|contents|);
    HeaderRoundTrip(true, |contents|, V_ASN1_SEQUENCE, V_ASN1_UNIVERSAL, contents + rest);
    assert h + contents + rest == h + (contents + rest);
  }

  /** When the size is an int: by the length pass alone. */
  lemma EncodableBySize<V(!new)>(fs: seq<Field<V>>, vs: seq<Option<V>>)
    requires AllGood(fs) && AllWritable(fs, vs)
    ensures Encodable(fs, vs) <==> ObjectSize(LenFields(fs, vs), V_ASN1_SEQUENCE) < 0x8000_0000
  {
    LenFieldsAgrees(fs, vs);
    if LenFields(fs, vs) < 0x8000_0000 {
      ObjectSizeAgrees(true, LenFields(fs, vs), V_ASN1_SEQUENCE, V_ASN1_UNIVERSAL);
    }
  }

  /** The sizes of the length pass are those of the put pass, for every list of fields. */
  lemma {:induction false} LenFieldsAgrees<V(!new)>(fs: seq<Field<V>>, vs: seq<Option<V>>)
    requires AllGood(fs) && AllWritable(fs, vs)
    ensures LenFields(fs, vs) == |WriteFields(fs, vs)|
  {
    if fs == [] {
    } else {
      LenAgrees(fs[0], vs[0]);
      LenFieldsAgrees(fs[1..], vs[1..]);
    }
  }

  class Writer {
    const buf: array<Byte>
    var p: nat

    constructor (output: array<Byte>, start: nat)
      requires start <= output.Length
      ensures Valid() && buf == output && p == start
    {
      buf, p := output, start;
    }

    ghost predicate Valid()
      reads this
    {
      p <= buf.Length
    }

    /** `bytes` have been stored through p, which has moved past them; nothing else has changed. */
    twostate predicate Wrote(bytes: Bytes)
      requires old(Valid())
      reads this, buf
    {
      && old(p) + |bytes| == p <= buf.Length
      && buf[..] == Memory.Stored(old(buf[..]), old(p), bytes)
    }

    /** A callee that writes `bytes` through `&p`. */
    method Emit(bytes: Bytes)
      requires Valid() && p + |bytes| <= buf.Length
      modifies this`p, buf
      ensures Wrote(bytes)
    {
      ghost var was := buf[..];
      forall k | 0 <= k < |bytes| {
        buf[p + k] := bytes[k];
      }
      assert buf[..] == Stored(was, p, bytes);
      p := p + |bytes|;
    }

    /** `M_ASN1_I2D_put`, after the caller's test of an optional item */
    method Put<V>(c: Codec<V>, a: Option<V>)
      requires Valid() && Writable(Opt(c), a) && p + |Write(Opt(c), a)| <= buf.Length
      modifies this`p, buf
      ensures Wrote(Write(Opt(c), a))
      ensures a.Some? ==> Wrote(c.enc(a.value))
    {
      if a.Some? {
        Emit(c.enc(a.value));
      } else {
        StoredNothing(buf[..], p);
      }
    }

    /** `M_ASN1_I2D_put_IMP_opt` */
    method PutImpOpt<V>(c: Codec<V>, a: Option<V>, tag: nat)
      requires Valid() && Writable(Imp(c, tag), a) && p + |Write(Imp(c, tag), a)| <= buf.Length
      requires a.Some? ==> Encodes(c, a.value)
      modifies this`p, buf
      ensures Wrote(Write(Imp(c, tag), a))
      ensures a.Some? ==>
                var item := c.enc(a.value);
                item != [] && Wrote(item[0 := Or(Or(V_ASN1_CONTEXT_SPECIFIC, tag), Constructed(item[0])) % 0x100])
    {
      if a.Some? {
        var q := p;
        var item := c.enc(a.value);
        Emit(item);
        ghost var now := buf[..];
        assert now[q] == item[0];
        buf[q] := ImplicitByte(tag, buf[q]);
        assert buf[..] == now[q := ImplicitByte(tag, item[0])];
      } else {
        StoredNothing(buf[..], p);
      }
    }

    /** `M_ASN1_I2D_put_EXP_opt`; v is the contents' length that the length pass saved */
    method PutExpOpt<V>(c: Codec<V>, a: Option<V>, tag: nat, v: nat)
      requires Valid() && Writable(Exp(c, tag), a) && p + |Write(Exp(c, tag), a)| <= buf.Length
      requires a.Some? ==> v == c.len(a.value)
      modifies this`p, buf
      ensures Wrote(Write(Exp(c, tag), a))
      ensures a.Some? ==>
                && Wrote(PutObject(true, v, tag, V_ASN1_CONTEXT_SPECIFIC) + c.enc(a.value))
                && buf[old(p)] == 0xa0 + if tag < 31 then tag else 31
    {
      if a.Some? {
        ghost var was, start := buf[..], p;
        var header, item := PutObject(true, v, tag, V_ASN1_CONTEXT_SPECIFIC), c.enc(a.value);
        Emit(header);
        ghost var next := p;
        Emit(item);
        StoredTwice(was, start, header, next, item);
      } else {
        StoredNothing(buf[..], p);
      }
    }

    method PutField<V>(f: Field<V>, a: Option<V>, v: nat)
      requires Valid() && Writable(f, a) && p + |Write(f, a)| <= buf.Length
      requires a.Some? ==> Encodes(f.codec, a.value)
      requires f.Exp? && a.Some? ==> v == f.codec.len(a.value)
      modifies this`p, buf
      ensures Wrote(Write(f, a))
    {
      match f {
        case Plain(c) => Put(c, a);
        case Opt(c) => Put(c, a);
        case Imp(c, tag) => PutImpOpt(c, a, tag);
        case Exp(c, tag) => PutExpOpt(c, a, tag, v);
      }
    }

    /** The put macros of all fields, in order. */
    method PutFields<V(!new)>(fs: seq<Field<V>>, vs: seq<Option<V>>, lens: seq<Length>)
      requires Valid() && AllGood(fs) && AllWritable(fs, vs) && |lens| == |fs|
      requires p + |WriteFields(fs, vs)| <= buf.Length
      requires forall i :: 0 <= i < |fs| && vs[i].Some? ==> lens[i] == fs[i].codec.len(vs[i].value)
      modifies this`p, buf
      ensures Wrote(WriteFields(fs, vs))
      decreases |fs|
    {
      if fs != [] {
        ghost var was, start := buf[..], p;
        ghost var first, rest := Write(fs[0], vs[0]), WriteFields(fs[1..], vs[1..]);
        assert vs[0].Some? ==> Encodes(fs[0].codec, vs[0].value);
        PutField(fs[0], vs[0], lens[0]);
        ghost var next := p;
        PutFields(fs[1..], vs[1..], lens[1..]);
        StoredTwice(was, start, first, next, rest);
      } else {
        StoredNothing(buf[..], p);
      }
    }

    /** The header of `M_ASN1_I2D_seq_total` for contents of `ret` bytes, and the put pass. */
    method PutSequence<V(!new)>(fs: seq<Field<V>>, vs: seq<Option<V>>, ret: Length, lens: seq<Length>)
      requires Valid() && AllGood(fs) && AllWritable(fs, vs) && ret == |WriteFields(fs, vs)| && |lens| == |fs|
      requires p + |WriteSequence(fs, vs)| <= buf.Length
      requires forall i :: 0 <= i < |fs| && vs[i].Some? ==> lens[i] == fs[i].codec.len(vs[i].value)
      modifies this`p, buf
      ensures Wrote(WriteSequence(fs, vs))
    {
      ghost var was, start, contents := buf[..], p, WriteFields(fs, vs);
      var header := PutObject(true, ret, V_ASN1_SEQUENCE, V_ASN1_UNIVERSAL);
      Emit(header);
      ghost var next := p;
      PutFields(fs, vs, lens);
      StoredTwice(was, start, header, next, contents);
    }

    /** `M_ASN1_I2D_INF_seq_start` and `M_ASN1_I2D_INF_seq_end` around an item */
    method PutIndefinite<V>(c: Codec<V>, a: V, tag: nat, ctx: nat)
      requires tag < 31 && ctx in {0, 0x40, 0x80, 0xc0}
      requires Valid() && p + |IndefiniteElement(tag, ctx, c.enc(a))| <= buf.Length
      modifies this`p, buf
      ensures Wrote(IndefiniteElement(tag, ctx, c.enc(a)))
    {
      ghost var was, start := buf[..], p;
      LeadByte(tag, ctx);
      var head: Bytes := [Or(Or(V_ASN1_CONSTRUCTED, tag), ctx), 0x80];
      Emit(head);
      ghost var next := p;
      Emit(c.enc(a));
      StoredTwice(was, start, head, next, c.enc(a));
      next := p;
      Emit([0, 0]);
      StoredTwice(was, start, head + c.enc(a), next, [0, 0]);
    }
  }

  lemma LeadByte(tag: nat, ctx: nat)
    requires tag < 31 && ctx in {0, 0x40, 0x80, 0xc0}
    ensures Or(Or(V_ASN1_CONSTRUCTED, tag), ctx) == V_ASN1_CONSTRUCTED + ctx + tag
  {
    assert Or(0x20, tag) == 0x20 + tag by {
      Pow2Values();
      assert Low(0x20, 5) == 0;
      OrDisjoint(0x20, tag, 5);
    }
    OrComm(0x20 + tag, ctx);
    ClassBits(ctx, 0x20 + tag);
  }

  lemma ClassBits(ctx: nat, low: nat)
    requires ctx in {0, 0x40, 0x80, 0xc0} && low < 0x40
    ensures Or(ctx, low) == ctx + low
  {
    assert Pow2(6) == 0x40;
    assert Low(0, 6) == 0 && Low(0x40, 6) == 0 && Low(0x80, 6) == 0 && Low(0xc0, 6) == 0;
    OrDisjoint(ctx, low, 6);
  }

  /**
   An `i2d` function for a SEQUENCE of these fields: the length pass, `M_ASN1_I2D_seq_total`, and,
   unless only the size is wanted, the put pass and `M_ASN1_I2D_finish`.  A caller who makes
   room for the announced size gets exactly the encoding, and `*pp` moves by exactly that size.
   */
  method I2dSequence<V(!new)>(fs: seq<Field<V>>, vs: seq<Option<V>>, out: array<Byte>, pp: Option<nat>)
    returns (r: Length, pp': Option<nat>)
    requires AllGood(fs) && Encodable(fs, vs)
    requires pp.Some? ==> pp.value + |WriteSequence(fs, vs)| <= out.Length
    modifies out
    ensures r == |WriteSequence(fs, vs)|
    ensures pp.None? ==> pp' == None && out[..] == old(out[..])
    ensures pp.Some? ==>
              && pp' == Some(pp.value + r)
              && out[..] == Stored(old(out[..]), pp.value, WriteSequence(fs, vs))
    ensures pp.Some? ==>
              var at, n, was, now := pp.value, LenFields(fs, vs), old(out[..]), out[..];
              && at + r <= |was| == |now| && n < 0x8000_0000
              && now[at] == 0x30
              && now[at..at + r] == [0x30] + LengthOctets(n) + WriteFields(fs, vs)
              && now[..at] == was[..at] && now[at + r..] == was[at + r..]
  {
    ghost var was := out[..];
    r, pp' := SizeAndPut(fs, vs, out, pp);
    if pp.Some? {
      StoredSequence(fs, vs, was, out[..], pp.value, r);
    }
  }

  /** The two passes. */
  method SizeAndPut<V(!new)>(fs: seq<Field<V>>, vs: seq<Option<V>>, out: array<Byte>, pp: Option<nat>)
    returns (r: Length, pp': Option<nat>)
    requires AllGood(fs) && Encodable(fs, vs)
    requires pp.Some? ==> pp.value + |WriteSequence(fs, vs)| <= out.Length
    modifies out
    ensures r == |WriteSequence(fs, vs)|
    ensures pp.None? ==> pp' == None && out[..] == old(out[..])
    ensures pp.Some? ==>
              && pp' == Some(pp.value + r)
              && out[..] == Stored(old(out[..]), pp.value, WriteSequence(fs, vs))
  {
    LenFieldsAgrees(fs, vs);
    var ret, lens := LengthPass(fs, vs);
    ObjectSizeAgrees(true, ret, V_ASN1_SEQUENCE, V_ASN1_UNIVERSAL);
    r := ObjectSize(ret, V_ASN1_SEQUENCE);
    if pp.None? {
      return r, None;
    }
    var p := PutAt(fs, vs, out, pp.value, ret, lens);
    pp' := Some(p);
  }

  /** `p= *pp`, the header and the put pass. */
  method PutAt<V(!new)>(fs: seq<Field<V>>, vs: seq<Option<V>>, out: array<Byte>, at: nat, ret: Length, lens: seq<Length>)
    returns (p: nat)
    requires AllGood(fs) && AllWritable(fs, vs) && ret == |WriteFields(fs, vs)| && |lens| == |fs|
    requires at + |WriteSequence(fs, vs)| <= out.Length
    requires forall i :: 0 <= i < |fs| && vs[i].Some? ==> lens[i] == fs[i].codec.len(vs[i].value)
    modifies out
    ensures p == at + |WriteSequence(fs, vs)|
    ensures out[..] == Stored(old(out[..]), at, WriteSequence(fs, vs))
  {
    var w := new Writer(out, at);
    w.PutSequence(fs, vs, ret, lens);
    p := w.p;
  }

  lemma StoredSequence<V(!new)>(fs: seq<Field<V>>, vs: seq<Option<V>>, was: Bytes, now: Bytes, at: nat, r: nat)
    requires AllGood(fs) && Encodable(fs, vs) && r == |WriteSequence(fs, vs)| && at + r <= |was|
    requires now == Stored(was, at, WriteSequence(fs, vs))
    ensures var n := LenFields(fs, vs);
            && n < 0x8000_0000
            && now[at] == 0x30
            && now[at..at + r] == [0x30] + LengthOctets(n) + WriteFields(fs, vs)
            && now[..at] == was[..at] && now[at + r..] == was[at + r..]
  {
    var e := WriteSequence(fs, vs);
    SequenceOctets(fs, vs);
    StoredRegions(was, at, e);
    ThreeParts(was[..at], e, was[at + r..]);
    assert now[at] == e[0];
  }

  /** The length macros of all fields; `lens` holds the variables `v` that they save.  Every sum is an int. */
  method LengthPass<V>(fs: seq<Field<V>>, vs: seq<Option<V>>) returns (ret: Length, lens: seq<Length>)
    requires |fs| == |vs| && LenFields(fs, vs) < 0x8000_0000
    ensures ret == LenFields(fs, vs)
    ensures |lens| == |fs| && forall i :: 0 <= i < |fs| && vs[i].Some? ==> lens[i] == fs[i].codec.len(vs[i].value)
  {
    ret, lens := 0, [];
    var i := 0;
    while i < |fs|
      invariant 0 <= i <= |fs| && |lens| == i
      invariant forall j :: 0 <= j < i && vs[j].Some? ==> lens[j] == fs[j].codec.len(vs[j].value)
      invariant ret + LenFields(fs[i..], vs[i..]) == LenFields(fs, vs)
    {
      NextLength(fs, vs, i);
      var v: Length := if vs[i].Some? then fs[i].codec.len(vs[i].value) else 0;
      if vs[i].Some? {
        ret := ret + if fs[i].Exp? then ObjectSize(v, fs[i].tag) else v;
      }
      lens := lens + [v];
      i := i + 1;
    }
  }

  lemma NextLength<V>(fs: seq<Field<V>>, vs: seq<Option<V>>, i: nat)
    requires |fs| == |vs| && i < |fs|
    ensures LenFields(fs[i..], vs[i..]) == Len(fs[i], vs[i]) + LenFields(fs[i + 1..], vs[i + 1..])
    ensures vs[i].Some? ==> fs[i].codec.len(vs[i].value) <= Len(fs[i], vs[i])
  {
    assert fs[i..][0] == fs[i] && vs[i..][0] == vs[i];
    assert fs[i..][1..] == fs[i + 1..] && vs[i..][1..] == vs[i + 1..];
  }
}
