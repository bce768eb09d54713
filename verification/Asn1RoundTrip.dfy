/**
 What one side writes the other side reads: lists of tagged fields, whole sequences in both length
 forms, and a sequence as an item of another.
 */
module Asn1RoundTrip {
  import opened Bits
  import opened Asn1Header
  import opened Asn1Fields
  import opened Asn1Reader
  import opened Asn1Writer

  // ----- telling fields apart -----

  predicate IsOptional<V>(f: Field<V>) {
    !f.Plain?
  }

  /** Class and number of the tag a field is written with, for tag numbers of the low form. */
  function FieldId<V>(f: Field<V>): nat {
    match f
    case Plain(c) => c.tag
    case Opt(c) => c.tag
    case Imp(_, tag) => 0x80 + tag
    case Exp(_, tag) => 0x80 + tag
  }

  predicate LowTagged<V>(f: Field<V>) {
    (f.Imp? || f.Exp?) ==> f.tag < 31
  }

  /** Some value of this type is encoded with the constructed bit set. */
  ghost predicate WritesConstructed<V(!new)>(c: Codec<V>) {
    exists v :: c.ok(v) && c.enc(v) != [] && Constructed(c.enc(v)[0]) == V_ASN1_CONSTRUCTED
  }

  /**
   An item of g can be taken for the optional field f: their tags are equal.  The test for an
   explicit tag looks at the constructed bit as well, which g must then be able to set.
   */
  ghost predicate Clashes<V(!new)>(f: Field<V>, g: Field<V>) {
    FieldId(f) == FieldId(g) && (f.Exp? ==> g.Exp? || WritesConstructed(g.codec))
  }

  /** Some field at the front of the list, reached past optional ones only, clashes with f. */
  ghost predicate Reaches<V(!new)>(fs: seq<Field<V>>, f: Field<V>) {
    fs != [] && (Clashes(f, fs[0]) || (IsOptional(fs[0]) && Reaches(fs[1..], f)))
  }

  /** No optional field clashes with what can follow it when it is absent. */
  ghost predicate Distinct<V(!new)>(fs: seq<Field<V>>) {
    fs != [] ==> (IsOptional(fs[0]) ==> !Reaches(fs[1..], fs[0])) && Distinct(fs[1..])
  }

  ghost predicate WellTagged<V(!new)>(fs: seq<Field<V>>) {
    AllGood(fs) && Distinct(fs) && forall f <- fs :: LowTagged(f)
  }

  /** The first byte a present field is written with. */
  lemma WrittenTag<V(!new)>(f: Field<V>, v: V)
    requires Good(f.codec) && LowTagged(f) && Writable(f, Some(v))
    ensures var w := Write(f, Some(v)); w != [] && Identity(w[0]) == FieldId(f)
    ensures f.codec.enc(v) != []
    ensures Constructed(Write(f, Some(v))[0]) == if f.Exp? then 0x20 else Constructed(f.codec.enc(v)[0])
  {
    assert Encodes(f.codec, v);
    match f
    case Plain(_) =>
    case Opt(_) =>
    case Imp(c, tag) =>
      LowTag(tag);
      ContextTag(tag);
      ImplicitTagRoundTrip(tag, c.tag, c.enc(v)[0]);
    case Exp(_, tag) =>
      ContextTag(tag);
      ComposeByte(0x80 + tag, 0x20);
      assert Write(f, Some(v))[0] == 0xa0 + tag;
  }

  /** What an optional field is recognised by. */
  lemma MatchesByTag<V>(f: Field<V>, w: Bytes)
    requires IsOptional(f) && LowTagged(f) && w != []
    ensures Matches(f, w) <==> Identity(w[0]) == FieldId(f) && (f.Exp? ==> Constructed(w[0]) == 0x20)
  {
    match f
    case Opt(c) => assert Or(V_ASN1_UNIVERSAL, c.tag) == c.tag;
    case Imp(_, tag) => ContextTag(tag);
    case Exp(_, tag) =>
      ContextTag(tag);
      ByteParts(w[0]);
      ComposeByte(0x80 + tag, 0x20);
  }

  /** Fields clash exactly if some written item of one is recognised as the other. */
  lemma ClashIsMistake<V(!new)>(f: Field<V>, g: Field<V>, sample: V)
    requires IsOptional(f) && LowTagged(f) && LowTagged(g) && Good(g.codec) && Writable(g, Some(sample))
    ensures Clashes(f, g) <==> exists v :: Writable(g, Some(v)) && Matches(f, Write(g, Some(v)))
  {
    forall v | Writable(g, Some(v))
      ensures Matches(f, Write(g, Some(v))) ==> Clashes(f, g)
    {
      WrittenTag(g, v);
      MatchesByTag(f, Write(g, Some(v)));
      ByteParts(g.codec.enc(v)[0]);
    }
    if Clashes(f, g) {
      var v := Mistaken(f, g, sample);
    }
  }

  lemma Mistaken<V(!new)>(f: Field<V>, g: Field<V>, sample: V) returns (v: V)
    requires IsOptional(f) && LowTagged(f) && LowTagged(g) && Good(g.codec) && Writable(g, Some(sample))
    requires Clashes(f, g)
    ensures Writable(g, Some(v)) && Write(g, Some(v)) != [] && Matches(f, Write(g, Some(v)))
  {
    if f.Exp? && !g.Exp? {
      v :| g.codec.ok(v) && g.codec.enc(v) != [] && Constructed(g.codec.enc(v)[0]) == V_ASN1_CONSTRUCTED;
    } else {
      v := sample;
    }
    WrittenTag(g, v);
    MatchesByTag(f, Write(g, Some(v)));
  }

  lemma OneFieldRoundTrip<V(!new)>(f: Field<V>, v: V, rest: Bytes)
    requires Good(f.codec) && LowTagged(f) && Writable(f, Some(v))
    ensures Read(f, Write(f, Some(v)) + rest) == Got(v, |Write(f, Some(v))|)
  {
    match f
    case Plain(c) => GoodItem(c, v, rest);
    case Opt(c) =>
      GoodItem(c, v, rest);
      assert Or(V_ASN1_UNIVERSAL, c.tag) == c.tag;
    case Imp(c, tag) =>
      LowTag(tag);
      ImplicitRoundTrip(c, tag, v, rest);
      assert Encodes(c, v);
    case Exp(c, tag) => ExplicitRoundTrip(c, tag, v, rest);
  }

  /** What follows an absent field is not recognised as that field. */
  lemma {:induction false} NotRecognised<V(!new)>(fs: seq<Field<V>>, vs: seq<Option<V>>, tail: Bytes, f: Field<V>)
    requires AllGood(fs) && AllWritable(fs, vs) && (forall g <- fs :: LowTagged(g))
    requires IsOptional(f) && LowTagged(f) && !Reaches(fs, f) && !Matches(f, tail)
    ensures !Matches(f, WriteFields(fs, vs) + tail)
  {
    if fs == [] {
      assert WriteFields(fs, vs) + tail == tail;
    } else {
      var first, later := Write(fs[0], vs[0]), WriteFields(fs[1..], vs[1..]);
      match vs[0]
      case Some(v) =>
        ClashIsMistake(f, fs[0], v);
        WrittenTag(fs[0], v);
        MatchesByTag(f, first);
        MatchesByTag(f, first + later + tail);
      case None =>
        NotRecognised(fs[1..], vs[1..], tail, f);
        assert first + later == later;
    }
  }

  // ----- lists of fields -----

  /** What may follow the fields: nothing, or end-of-contents octets. */
  predicate EndsFields(tail: Bytes) {
    tail == [] || tail[0] == 0
  }

  lemma TailTag<V(!new)>(f: Field<V>, tail: Bytes)
    requires Good(f.codec) && IsOptional(f) && LowTagged(f) && EndsFields(tail)
    ensures !Matches(f, tail)
  {
    if tail != [] {
      MatchesByTag(f, tail);
    }
  }

  /**
   For every well-tagged list of fields and every choice of present and absent values, the get
   macros recover exactly the values that the put macros wrote, and stop where they stopped.
   */
  lemma {:induction false} FieldsRoundTrip<V(!new)>(fs: seq<Field<V>>, vs: seq<Option<V>>, tail: Bytes)
    requires WellTagged(fs) && AllWritable(fs, vs) && EndsFields(tail)
    ensures ReadFields(fs, WriteFields(fs, vs) + tail) == Some((vs, |WriteFields(fs, vs)|))
  {
    if fs == [] {
      assert vs == [];
    } else {
      var later := WriteFields(fs[1..], vs[1..]);
      FieldsRoundTrip(fs[1..], vs[1..], tail);
      if vs[0].Some? {
        FirstPresent(fs, vs, later, tail);
      } else {
        FirstAbsent(fs, vs, later, tail);
      }
    }
  }

  lemma FirstPresent<V(!new)>(fs: seq<Field<V>>, vs: seq<Option<V>>, later: Bytes, tail: Bytes)
    requires fs != [] && |vs| == |fs| && vs[0].Some?
    requires Good(fs[0].codec) && LowTagged(fs[0]) && Writable(fs[0], vs[0])
    requires ReadFields(fs[1..], later + tail) == Some((vs[1..], |later|))
    ensures var w := Write(fs[0], vs[0]) + later; ReadFields(fs, w + tail) == Some((vs, |w|))
  {
    var first := Write(fs[0], vs[0]);
    OneFieldRoundTrip(fs[0], vs[0].value, later + tail);
    var w := first + later + tail;
    assert w == first + (later + tail) && w[|first|..] == later + tail;
    PresentField(fs, w, vs[0].value, |first|, vs[1..], |later|);
    assert vs == [vs[0]] + vs[1..];
  }

  lemma FirstAbsent<V(!new)>(fs: seq<Field<V>>, vs: seq<Option<V>>, later: Bytes, tail: Bytes)
    requires fs != [] && WellTagged(fs) && AllWritable(fs, vs) && vs[0].None? && EndsFields(tail)
    requires later == WriteFields(fs[1..], vs[1..])
    requires ReadFields(fs[1..], later + tail) == Some((vs[1..], |later|))
    ensures var w := Write(fs[0], vs[0]) + later; ReadFields(fs, w + tail) == Some((vs, |w|))
  {
    var f := fs[0];
    assert Write(f, vs[0]) + later == later;
    TailTag(f, tail);
    NotRecognised(fs[1..], vs[1..], tail, f);
    assert Read(f, later + tail) == Absent;
    AbsentField(fs, later + tail, vs[1..], |later|);
    assert vs == [None] + vs[1..];
  }

  // ----- distinct tags are needed -----

  ghost predicate Recovered<V>(fs: seq<Field<V>>, vs: seq<Option<V>>)
    requires AllWritable(fs, vs)
  {
    ReadFields(fs, WriteFields(fs, vs)) == Some((vs, |WriteFields(fs, vs)|))
  }

  /** Fields with low tags that the samples fit. */
  ghost predicate Sampled<V(!new)>(fs: seq<Field<V>>, samples: seq<V>) {
    && AllGood(fs) && |samples| == |fs|
    && (forall f <- fs :: LowTagged(f))
    && (forall i :: 0 <= i < |fs| ==> Writable(fs[i], Some(samples[i])))
  }

  /**
   Distinct tags are exactly what it takes: with a value to encode for every field, all messages are
   recovered if and only if no optional field clashes with what can follow it.
   */
  lemma DistinctIsExact<V(!new)>(fs: seq<Field<V>>, samples: seq<V>)
    requires Sampled(fs, samples)
    ensures Distinct(fs) <==> forall vs :: AllWritable(fs, vs) ==> Recovered(fs, vs)
  {
    if Distinct(fs) {
      forall vs | AllWritable(fs, vs) ensures Recovered(fs, vs) {
        FieldsRoundTrip(fs, vs, []);
        assert WriteFields(fs, vs) + [] == WriteFields(fs, vs);
      }
    } else {
      var vs := Confused(fs, samples);
    }
  }

  /** Present and absent values whose encoding is recognised as the field f. */
  lemma {:induction false} StartingLike<V(!new)>(fs: seq<Field<V>>, samples: seq<V>, f: Field<V>)
    returns (vs: seq<Option<V>>)
    requires Sampled(fs, samples) && IsOptional(f) && LowTagged(f) && Reaches(fs, f)
    ensures AllWritable(fs, vs) && Matches(f, WriteFields(fs, vs))
  {
    if Clashes(f, fs[0]) {
      var v := Mistaken(f, fs[0], samples[0]);
      vs := AllPresent(fs, samples[0 := v]);
      var first, all := Write(fs[0], Some(v)), WriteFields(fs, vs);
      assert all[0] == first[0];
      MatchesByTag(f, first);
      MatchesByTag(f, all);
    } else {
      var us := StartingLike(fs[1..], samples[1..], f);
      vs := [None] + us;
      assert vs[1..] == us;
      AbsentFirst(fs, vs);
    }
  }

  lemma AllPresent<V>(fs: seq<Field<V>>, samples: seq<V>) returns (vs: seq<Option<V>>)
    requires |fs| == |samples| && forall i :: 0 <= i < |fs| ==> Writable(fs[i], Some(samples[i]))
    ensures AllWritable(fs, vs) && forall i :: 0 <= i < |fs| ==> vs[i] == Some(samples[i])
  {
    vs := seq(|fs|, i requires 0 <= i < |fs| => Some(samples[i]));
  }

  lemma AbsentFirst<V>(fs: seq<Field<V>>, vs: seq<Option<V>>)
    requires fs != [] && AllWritable(fs, vs) && vs[0].None?
    ensures WriteFields(fs, vs) == WriteFields(fs[1..], vs[1..])
  {
    assert [] + WriteFields(fs[1..], vs[1..]) == WriteFields(fs[1..], vs[1..]);
  }

  /** Values that are not recovered when tags clash. */
  lemma {:induction false} Confused<V(!new)>(fs: seq<Field<V>>, samples: seq<V>) returns (vs: seq<Option<V>>)
    requires Sampled(fs, samples) && !Distinct(fs)
    ensures AllWritable(fs, vs) && !Recovered(fs, vs)
  {
    if IsOptional(fs[0]) && Reaches(fs[1..], fs[0]) {
      var us := StartingLike(fs[1..], samples[1..], fs[0]);
      vs := [None] + us;
      assert vs[1..] == us;
      AbsentFirst(fs, vs);
      Taken(fs, WriteFields(fs, vs));
    } else {
      var us := Confused(fs[1..], samples[1..]);
      vs := [Some(samples[0])] + us;
      assert vs[1..] == us;
      PresentFirst(fs, vs, samples[0]);
    }
  }

  /** A field that is recognised does not come out absent. */
  lemma Taken<V>(fs: seq<Field<V>>, w: Bytes)
    requires fs != [] && Matches(fs[0], w)
    ensures var r := ReadFields(fs, w); r.None? || (r.value.0 != [] && r.value.0[0].Some?)
  {
    assert Read(fs[0], w) != Absent;
  }

  lemma PresentFirst<V(!new)>(fs: seq<Field<V>>, vs: seq<Option<V>>, v: V)
    requires fs != [] && AllWritable(fs, vs) && vs[0] == Some(v)
    requires Good(fs[0].codec) && LowTagged(fs[0])
    ensures Recovered(fs, vs) ==> Recovered(fs[1..], vs[1..])
  {
    var first, later := Write(fs[0], vs[0]), WriteFields(fs[1..], vs[1..]);
    OneFieldRoundTrip(fs[0], v, later);
    assert (first + later)[|first|..] == later;
    if Recovered(fs, vs) {
      var r := ReadFields(fs[1..], later);
      assert ReadFields(fs, first + later) == After([Some(v)], |first|, r);
      assert r.Some? && r.value.0 == ([Some(v)] + r.value.0)[1..] == vs[1..];
    }
  }

  // ----- sequences -----

  /** A sequence in the definite form is read back, whatever follows it. */
  lemma SequenceRoundTrip<V(!new)>(fs: seq<Field<V>>, vs: seq<Option<V>>, rest: Bytes)
    requires WellTagged(fs) && AllWritable(fs, vs) && |WriteFields(fs, vs)| < 0x8000_0000
    ensures ReadSequence(fs, WriteSequence(fs, vs) + rest) == Some((vs, |WriteSequence(fs, vs)|))
  {
    var contents, e := WriteFields(fs, vs), WriteSequence(fs, vs);
    assert ReadFields(fs, contents) == Some((vs, |contents|)) by {
      FieldsRoundTrip(fs, vs, []);
      assert contents + [] == contents;
    }
    var header := DefiniteHeader(e, contents, rest);
    DefiniteForm(fs, vs, e + rest, header, contents, |e|);
  }

  /** So is one in the indefinite form, as `M_ASN1_I2D_INF_seq_start` and `_end` write it. */
  lemma IndefiniteSequenceRoundTrip<V(!new)>(fs: seq<Field<V>>, vs: seq<Option<V>>, rest: Bytes)
    requires WellTagged(fs) && AllWritable(fs, vs)
    ensures var w := IndefiniteElement(V_ASN1_SEQUENCE, V_ASN1_UNIVERSAL, WriteFields(fs, vs));
            ReadSequence(fs, w + rest) == Some((vs, |w|))
  {
    FieldsRoundTrip(fs, vs, [0, 0] + rest);
    IndefiniteForm(fs, vs, WriteFields(fs, vs), rest);
  }

  lemma IndefiniteForm<V>(fs: seq<Field<V>>, vs: seq<Option<V>>, contents: Bytes, rest: Bytes)
    requires ReadFields(fs, contents + ([0, 0] + rest)) == Some((vs, |contents|))
    ensures var w := IndefiniteElement(V_ASN1_SEQUENCE, V_ASN1_UNIVERSAL, contents);
            ReadSequence(fs, w + rest) == Some((vs, |w|))
  {
    var w := IndefiniteElement(V_ASN1_SEQUENCE, V_ASN1_UNIVERSAL, contents) + rest;
    var inner := contents + ([0, 0] + rest);
    Regroup([0x30, 0x80], contents, [0, 0], rest);
    var header := IndefiniteSequenceHeader(inner, w);
    assert w[2 + |contents|] == 0 && w[2 + |contents| + 1] == 0 && w[2..] == inner;
    IndefiniteOctets(fs, w, header, ReadFields(fs, inner));
  }

  // ----- nesting -----

  /** The `i2d` and `d2i` functions of a SEQUENCE type, as an item codec. */
  function SequenceCodec<V>(fs: seq<Field<V>>): Codec<seq<Option<V>>> {
    Codec(
      V_ASN1_SEQUENCE,
      vs => Encodable(fs, vs),
      vs => if Encodable(fs, vs) then WriteSequence(fs, vs) else [],
      vs => if |fs| == |vs| then ObjectSize(LenFields(fs, vs), V_ASN1_SEQUENCE) else 0,
      w => ReadSequence(fs, w))
  }

  /** What that codec is: the encoding, its size, the decoding, and the values it takes. */
  lemma SequenceCodecMeans<V(!new)>(fs: seq<Field<V>>, vs: seq<Option<V>>, w: Bytes)
    requires AllGood(fs)
    ensures var c := SequenceCodec(fs);
            && (c.ok(vs) <==> AllWritable(fs, vs) && ObjectSize(LenFields(fs, vs), V_ASN1_SEQUENCE) < 0x8000_0000)
            && (c.ok(vs) ==> c.enc(vs) == WriteSequence(fs, vs))
            && (|fs| == |vs| ==> c.len(vs) == ObjectSize(LenFields(fs, vs), V_ASN1_SEQUENCE))
            && c.dec(w) == ReadSequence(fs, w)
  {
    if AllWritable(fs, vs) {
      EncodableBySize(fs, vs);
    }
  }

  /** A sequence of well-tagged good fields is itself a good item, over the list of its fields' values. */
  lemma SequenceIsGood<V(!new)>(fs: seq<Field<V>>)
    requires WellTagged(fs)
    ensures Good(SequenceCodec(fs))
  {
    var c := SequenceCodec(fs);
    forall w: Bytes ensures InWindow(c, w) {
      SequenceIsBounded(fs, w);
    }
    forall vs: seq<Option<V>> | c.ok(vs) ensures Encodes(c, vs) {
      var contents := WriteFields(fs, vs);
      LenFieldsAgrees(fs, vs);
      ObjectSizeAgrees(true, |contents|, V_ASN1_SEQUENCE, V_ASN1_UNIVERSAL);
      LowTag(V_ASN1_SEQUENCE);
      ComposeByte(V_ASN1_SEQUENCE, 0x20);
      assert c.enc(vs)[0] == 0x30;
    }
    forall vs: seq<Option<V>>, rest: Bytes | c.ok(vs) ensures RoundTrips(c, vs, rest) {
      SequenceRoundTrip(fs, vs, rest);
    }
  }

  lemma SequenceIsBounded<V(!new)>(fs: seq<Field<V>>, w: Bytes)
    ensures ReadSequence(fs, w).Some? ==> ReadSequence(fs, w).value.1 <= |w|
  {
  }
}
