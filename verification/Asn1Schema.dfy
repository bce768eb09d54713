/**
 Structures of any depth that mix items and nested sequences in one field list: each type becomes a
 codec over one tree of values, and the codecs of the macros keep their contract all the way up.
 */
module Asn1Schema {
  import opened Bits
  import opened Asn1Header
  import opened Asn1Fields
  import opened Asn1Writer
  import opened Asn1RoundTrip

  // ----- one value type for different codecs -----

  /** The codec c for the values of B that `get` finds an A in. */
  function Lifted<A, B>(c: Codec<A>, inj: A -> B, get: B -> Option<A>): Codec<B> {
    Codec(
      c.tag,
      b => get(b).Some? && c.ok(get(b).value),
      b => match get(b) { case None => [] case Some(a) => c.enc(a) },
      b => match get(b) { case None => 0 case Some(a) => c.len(a) },
      w => match c.dec(w) { case None => None case Some((a, n)) => Some((inj(a), n)) })
  }

  /** Lifting keeps the contract of an item codec. */
  lemma LiftedIsGood<A(!new), B(!new)>(c: Codec<A>, inj: A -> B, get: B -> Option<A>)
    requires Good(c)
    requires forall b: B :: get(b).Some? ==> inj(get(b).value) == b
    ensures Good(Lifted(c, inj, get))
  {
    var l := Lifted(c, inj, get);
    forall w: Bytes ensures InWindow(l, w) {
      assert InWindow(c, w);
    }
    forall b: B | l.ok(b) ensures Encodes(l, b) {
      assert Encodes(c, get(b).value);
    }
    forall b: B, rest: Bytes | l.ok(b) ensures RoundTrips(l, b, rest) {
      assert RoundTrips(c, get(b).value, rest);
    }
  }

  // ----- types and values -----

  /** A value: an item, or the fields of a structure, each present or absent. */
  datatype Tree<L> = Leaf(leaf: L) | Node(fields: seq<Option<Tree<L>>>)

  datatype Tagging = Untagged | Optional | Implicit(tag: nat) | Explicit(tag: nat)

  /** An ASN.1 type: an item with its codec, or a SEQUENCE of tagged fields. */
  datatype Schema<!L> = Item(codec: Codec<L>) | Sequence(slots: seq<Slot<L>>)

  datatype Slot<!L> = Slot(tagging: Tagging, schema: Schema<L>)

  function AsLeaf<L>(t: Tree<L>): Option<L> {
    match t
    case Leaf(x) => Some(x)
    case Node(_) => None
  }

  function AsNode<L>(t: Tree<L>): Option<seq<Option<Tree<L>>>> {
    match t
    case Leaf(_) => None
    case Node(vs) => Some(vs)
  }

  /** The `i2d` and `d2i` functions of a type, built from the macros at every level. */
  function CodecOf<L>(s: Schema<L>): Codec<Tree<L>>
    decreases s
  {
    match s
    case Item(c) => Lifted(c, x => Leaf(x), t => AsLeaf(t))
    case Sequence(slots) => Lifted(SequenceCodec(FieldsOf(slots)), vs => Node(vs), t => AsNode(t))
  }

  function FieldsOf<L>(slots: seq<Slot<L>>): seq<Field<Tree<L>>>
    decreases slots
  {
    if slots == [] then []
    else [FieldOf(slots[0])] + FieldsOf(slots[1..])
  }

  function FieldOf<L>(slot: Slot<L>): (f: Field<Tree<L>>)
    ensures f.codec == CodecOf(slot.schema)
    decreases slot
  {
    var c := CodecOf(slot.schema);
    match slot.tagging
    case Untagged => Plain(c)
    case Optional => Opt(c)
    case Implicit(tag) => Imp(c, tag)
    case Explicit(tag) => Exp(c, tag)
  }

  /** The i-th field of a sequence type: its tagging, and the codec of its own type. */
  lemma {:induction false} FieldsAt<L>(slots: seq<Slot<L>>, i: nat)
    requires i < |slots|
    ensures |FieldsOf(slots)| == |slots|
    ensures var f, c := FieldsOf(slots)[i], CodecOf(slots[i].schema);
            match slots[i].tagging
            case Untagged => f == Plain(c)
            case Optional => f == Opt(c)
            case Implicit(tag) => f == Imp(c, tag)
            case Explicit(tag) => f == Exp(c, tag)
    decreases slots
  {
    FieldsLength(slots);
    if i > 0 {
      FieldsAt(slots[1..], i - 1);
    }
  }

  lemma {:induction false} FieldsLength<L>(slots: seq<Slot<L>>)
    ensures |FieldsOf(slots)| == |slots|
    decreases slots
  {
    if slots == [] {
    } else {
      FieldsLength(slots[1..]);
    }
  }

  /** The codec of a type: an item as its codec encodes it, a sequence as its fields are written. */
  lemma CodecMeans<L>(s: Schema<L>, x: L, vs: seq<Option<Tree<L>>>)
    ensures s.Item? ==>
              && (CodecOf(s).ok(Leaf(x)) <==> s.codec.ok(x))
              && CodecOf(s).enc(Leaf(x)) == s.codec.enc(x)
              && !CodecOf(s).ok(Node(vs))
    ensures s.Sequence? ==>
              && (CodecOf(s).ok(Node(vs)) <==> Encodable(FieldsOf(s.slots), vs))
              && (Encodable(FieldsOf(s.slots), vs) ==> CodecOf(s).enc(Node(vs)) == WriteSequence(FieldsOf(s.slots), vs))
              && !CodecOf(s).ok(Leaf(x))
  {
  }

  /** Every item codec keeps its contract, and in every field list no tags clash. */
  ghost predicate WellFormed<L(!new)>(s: Schema<L>)
    decreases s
  {
    match s
    case Item(c) => Good(c)
    case Sequence(slots) =>
      && AllWellFormed(slots)
      && Distinct(FieldsOf(slots)) && forall f <- FieldsOf(slots) :: LowTagged(f)
  }

  ghost predicate AllWellFormed<L(!new)>(slots: seq<Slot<L>>)
    decreases slots
  {
    slots != [] ==> SlotWellFormed(slots[0]) && AllWellFormed(slots[1..])
  }

  ghost predicate SlotWellFormed<L(!new)>(slot: Slot<L>)
    decreases slot
  {
    WellFormed(slot.schema)
  }

  // ----- round trips at every depth -----

  lemma {:induction false} SchemaIsGood<L(!new)>(s: Schema<L>)
    requires WellFormed(s)
    ensures Good(CodecOf(s))
    decreases s
  {
    match s
    case Item(c) => LiftedIsGood(c, x => Leaf(x), t => AsLeaf(t));
    case Sequence(slots) =>
      SlotsAreGood(slots);
      SequenceIsGood(FieldsOf(slots));
      LiftedIsGood(SequenceCodec(FieldsOf(slots)), vs => Node(vs), t => AsNode(t));
  }

  lemma {:induction false} SlotsAreGood<L(!new)>(slots: seq<Slot<L>>)
    requires AllWellFormed(slots)
    ensures AllGood(FieldsOf(slots))
    decreases slots
  {
    if slots == [] {
    } else {
      SlotIsGood(slots[0]);
      SlotsAreGood(slots[1..]);
    }
  }

  lemma SlotIsGood<L(!new)>(slot: Slot<L>)
    requires SlotWellFormed(slot)
    ensures Good(FieldOf(slot).codec)
    decreases slot
  {
    SchemaIsGood(slot.schema);
  }

  /**
   For every well-formed type of any depth and every value it can encode, decoding restores the
   value and stops at the end of its encoding, whatever follows; and the announced size is right.
   */
  lemma SchemaRoundTrip<L(!new)>(s: Schema<L>, v: Tree<L>, rest: Bytes)
    requires WellFormed(s) && CodecOf(s).ok(v)
    ensures var c := CodecOf(s);
            && c.dec(c.enc(v) + rest) == Some((v, |c.enc(v)|))
            && c.len(v) == |c.enc(v)|
  {
    SchemaIsGood(s);
    GoodItem(CodecOf(s), v, rest);
  }
}
