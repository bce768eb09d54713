/**
 Identifier and length octets (ITU-T X.690, sections 8.1.2 and 8.1.3).

 `ASN1_get_object`, `ASN1_put_object` and `ASN1_object_size` are called by the macros of
 `asn1_mac.h`, but their bodies are not in the repository; these functions state what the standard
 requires of them.  The tag-byte operations at the start are the macros' own.
 */
module Asn1Header {
  import opened Bits

  datatype Option<+T> = None | Some(value: T)

  type Bytes = seq<Byte>

  /** A length that a C `int` holds. */
  type Length = n: nat | n < 0x8000_0000

  const V_ASN1_UNIVERSAL: nat := 0x00
  const V_ASN1_CONTEXT_SPECIFIC: nat := 0x80
  const V_ASN1_CONSTRUCTED: nat := 0x20
  const V_ASN1_SEQUENCE: nat := 16

  // ----- tag bytes -----

  /** `b & V_ASN1_CONSTRUCTED` */
  function Constructed(b: Byte): nat {
    And(b, V_ASN1_CONSTRUCTED)
  }

  /** `~V_ASN1_CONSTRUCTED`, a 32-bit int */
  const NOT_CONSTRUCTED: nat := 0xffff_ffdf

  /** `b & ~V_ASN1_CONSTRUCTED`: class and tag number */
  function Identity(b: Byte): nat {
    And(b, NOT_CONSTRUCTED)
  }

  /** A byte is its constructed bit and its identity. */
  lemma ByteParts(b: Byte)
    ensures b == Identity(b) + Constructed(b)
    ensures Constructed(b) == if Bit(b, 5) then 0x20 else 0
    ensures !Bit(Identity(b), 5)
  {
    Pow2Values();
    assert NOT_CONSTRUCTED == Not(0x20, 32);
    AndOneBit(b, 5);
    AndClearBit(b, 5, 32);
    BitAnd(b, Not(0x20, 32), 5);
    BitNot(0x20, 32, 5);
    BitPow2(5, 5);
  }

  /** Combining an identity with a constructed bit, in either order, and taking them apart again. */
  lemma ComposeByte(id: nat, c: nat)
    requires id < 0x100 && !Bit(id, 5) && (c == 0 || c == 0x20)
    ensures Or(c, id) == Or(id, c) == id + c < 0x100
    ensures Identity(id + c) == id && Constructed(id + c) == c
  {
    Pow2Values();
    OrOneBit(id, 5);
    OrComm(id, c);
    OrBound(id, c, 8);
    BitOr(id, c, 5);
    BitPow2(5, 5);
    ByteParts(id + c);
  }

  /** Bit 5 of a number below 32 is clear. */
  lemma LowTag(tag: nat)
    requires tag < 0x20
    ensures !Bit(tag, 5)
  {
    Pow2Values();
    ShrSmall(tag, 5);
  }

  /** `V_ASN1_CONTEXT_SPECIFIC | tag` for tag numbers of the low form. */
  lemma ContextTag(tag: nat)
    requires tag < 0x20
    ensures Or(V_ASN1_CONTEXT_SPECIFIC, tag) == 0x80 + tag && !Bit(0x80 + tag, 5)
    ensures Or(Or(V_ASN1_CONSTRUCTED, V_ASN1_CONTEXT_SPECIFIC), tag) == 0xa0 + tag
  {
    Pow2Values();
    assert Low(0x80, 5) == 0 && Low(0xa0, 5) == 0;
    OrDisjoint(0x80, tag, 5);
    OrDisjoint(0xa0, tag, 5);
    assert Or(0x20, 0x80) == 0xa0;
    LowTag(tag);
    BitOr(0x80, tag, 5);
  }

  // ----- tag numbers above 30: base 128, all octets but the last marked -----

  function Continued(n: nat): Bytes {
    if n == 0 then [] else Continued(n / 128) + [0x80 + n % 128]
  }

  function Base128(n: nat): Bytes {
    Continued(n / 128) + [n % 128]
  }

  /** The number and how many octets it took; `acc` is what has been read so far. */
  function ReadBase128(w: Bytes, acc: nat): (r: Option<(nat, nat)>)
    ensures r.Some? ==> 0 < r.value.1 <= |w|
  {
    if w == [] then None
    else if w[0] < 0x80 then Some((acc * 128 + w[0], 1))
    else
      match ReadBase128(w[1..], acc * 128 + (w[0] - 0x80))
      case None => None
      case Some(r) => Some((r.0, r.1 + 1))
  }

  lemma {:induction false} ReadContinued(n: nat, w: Bytes)
    ensures ReadBase128(Continued(n) + w, 0)
         == match ReadBase128(w, n) { case None => None case Some(r) => Some((r.0, r.1 + |Continued(n)|)) }
    decreases n
  {
    if n == 0 {
      assert Continued(n) + w == w;
    } else {
      var x: Byte := 0x80 + n % 128;
      assert Continued(n) + w == Continued(n / 128) + ([x] + w);
      ReadContinued(n / 128, [x] + w);
      assert ([x] + w)[1..] == w;
    }
  }

  lemma ReadBase128RoundTrip(n: nat, w: Bytes)
    ensures ReadBase128(Base128(n) + w, 0) == Some((n, |Base128(n)|))
  {
    assert Base128(n) + w == Continued(n / 128) + ([n % 128] + w);
    ReadContinued(n / 128, [n % 128] + w);
  }

  // ----- lengths above 127: big-endian octets after their count -----

  function BigEndian(n: nat): Bytes {
    if n == 0 then [] else BigEndian(n / 256) + [n % 256]
  }

  function FromBigEndian(w: Bytes): nat {
    if w == [] then 0 else FromBigEndian(w[..|w| - 1]) * 256 + w[|w| - 1]
  }

  lemma {:induction false} BigEndianRoundTrip(n: nat)
    ensures FromBigEndian(BigEndian(n)) == n
  {
    if n == 0 {
    } else {
      BigEndianRoundTrip(n / 256);
      assert BigEndian(n)[..|BigEndian(n)| - 1] == BigEndian(n / 256);
    }
  }

  lemma LengthIsShort(n: Length)
    ensures |BigEndian(n)| <= 4
  {
    assert n / 256 / 256 / 256 / 256 == 0;
    assert |BigEndian(n / 256 / 256 / 256)| <= 1;
    assert |BigEndian(n / 256 / 256)| <= 2;
    assert |BigEndian(n / 256)| <= 3;
  }

  // ----- headers -----

  function IdentifierOctets(constructed: bool, tag: nat, xclass: nat): Bytes
    requires xclass in {0, 0x40, 0x80, 0xc0}
  {
    var lead := xclass + if constructed then V_ASN1_CONSTRUCTED else 0;
    if tag < 31 then [lead + tag] else [lead + 31] + Base128(tag)
  }

  function LengthOctets(n: Length): Bytes {
    LengthIsShort(n);
    if n < 0x80 then [n] else [0x80 + |BigEndian(n)|] + BigEndian(n)
  }

  /** `ASN1_put_object(&p, constructed, length, tag, xclass)` */
  function PutObject(constructed: bool, length: Length, tag: nat, xclass: nat): Bytes
    requires xclass in {0, 0x40, 0x80, 0xc0}
  {
    IdentifierOctets(constructed, tag, xclass) + LengthOctets(length)
  }

  /** `ASN1_object_size(1, length, tag)`, which counts octets without writing them */
  function ObjectSize(length: nat, tag: nat): nat {
    1 + (if tag < 31 then 0 else Digits(tag, 128)) + 1 + (if length < 0x80 then 0 else Digits(length, 256)) + length
  }

  function Digits(n: nat, base: nat): nat
    requires base == 128 || base == 256
  {
    if n == 0 then 0 else 1 + if base == 128 then Digits(n / 128, base) else Digits(n / 256, base)
  }

  lemma {:induction false} DigitsOfContinued(n: nat)
    ensures |Continued(n)| == Digits(n, 128)
    decreases n
  {
    if n == 0 {
    } else {
      DigitsOfContinued(n / 128);
    }
  }

  lemma {:induction false} DigitsOfBigEndian(n: nat)
    ensures |BigEndian(n)| == Digits(n, 256)
    decreases n
  {
    if n == 0 {
    } else {
      DigitsOfBigEndian(n / 256);
    }
  }

  /** The size announced for an object is the size of its header and contents. */
  lemma ObjectSizeAgrees(constructed: bool, length: Length, tag: nat, xclass: nat)
    requires xclass in {0, 0x40, 0x80, 0xc0}
    ensures ObjectSize(length, tag) == |PutObject(constructed, length, tag, xclass)| + length
  {
    DigitsOfContinued(tag / 128);
    DigitsOfBigEndian(length);
  }

  /** What `ASN1_get_object` reports: the low bit of its result is `indefinite`. */
  datatype Header = Header(constructed: bool, indefinite: bool, length: nat, tag: nat, xclass: nat, size: nat)

  /** Tag number and size of the identifier octets. */
  function ReadIdentifier(w: Bytes): (r: Option<(nat, nat)>)
    requires w != []
    ensures r.Some? ==> 0 < r.value.1 <= |w|
  {
    if w[0] % 32 < 31 then Some((w[0] % 32, 1))
    else
      match ReadBase128(w[1..], 0)
      case None => None
      case Some(r) => Some((r.0, r.1 + 1))
  }

  datatype LengthForm = Indefinite | Definite(length: nat, size: nat)

  function ReadLength(w: Bytes): (r: Option<LengthForm>)
    ensures r.Some? && r.value.Definite? ==> 0 < r.value.size <= |w|
    ensures r.Some? ==> w != []
  {
    if w == [] then None
    else if w[0] == 0x80 then Some(Indefinite)
    else if w[0] < 0x80 then Some(Definite(w[0], 1))
    else
      var n := w[0] - 0x80;
      if w[0] == 0xff || |w| < 1 + n then None
      else Some(Definite(FromBigEndian(w[1..1 + n]), 1 + n))
  }

  /** `ASN1_get_object` on the window `w`; None when bit 0x80 of its result reports an error. */
  function GetObject(w: Bytes): (r: Option<Header>)
    ensures r.Some? ==> 0 < r.value.size <= |w| && (r.value.indefinite || r.value.size + r.value.length <= |w|)
    ensures r.Some? && r.value.indefinite ==> r.value.constructed
  {
    if w == [] then None
    else
      match ReadIdentifier(w)
      case None => None
      case Some((tag, n)) =>
        var constructed := w[0] / 32 % 2 == 1;
        var xclass := w[0] / 64 * 64;
        match ReadLength(w[n..])
        case None => None
        case Some(Indefinite) =>
          if constructed then Some(Header(true, true, 0, tag, xclass, n + 1)) else None
        case Some(Definite(length, m)) =>
          if n + m + length <= |w| then Some(Header(constructed, false, length, tag, xclass, n + m)) else None
  }

  lemma ReadLengthRoundTrip(n: Length, w: Bytes)
    ensures ReadLength(LengthOctets(n) + w) == Some(Definite(n, |LengthOctets(n)|))
  {
    if n >= 0x80 {
      LengthIsShort(n);
      BigEndianRoundTrip(n);
      var be, all := BigEndian(n), LengthOctets(n) + w;
      assert all[1..1 + |be|] == be && all[0] == 0x80 + |be|;
      ReadLongLength(all, be, n);
    }
  }

  lemma ReadLongLength(w: Bytes, be: Bytes, n: nat)
    requires 0 < |be| < 0x7f && 1 + |be| <= |w| && w[0] == 0x80 + |be| && w[1..1 + |be|] == be
    requires FromBigEndian(be) == n
    ensures ReadLength(w) == Some(Definite(n, 1 + |be|))
  {
  }

  lemma ReadIdentifierRoundTrip(constructed: bool, tag: nat, xclass: nat, w: Bytes)
    requires xclass in {0, 0x40, 0x80, 0xc0}
    ensures ReadIdentifier(IdentifierOctets(constructed, tag, xclass) + w)
         == Some((tag, |IdentifierOctets(constructed, tag, xclass)|))
  {
    if tag >= 31 {
      ReadBase128RoundTrip(tag, w);
      var id := IdentifierOctets(constructed, tag, xclass);
      assert (id + w)[1..] == Base128(tag) + w;
    }
  }

  lemma LeadOctet(constructed: bool, tag: nat, xclass: nat)
    requires xclass in {0, 0x40, 0x80, 0xc0}
    ensures var lead := IdentifierOctets(constructed, tag, xclass)[0];
            && (lead / 32 % 2 == 1 <==> constructed)
            && lead / 64 * 64 == xclass
  {
  }

  /** A written header is read back, whatever follows its contents. */
  lemma HeaderRoundTrip(constructed: bool, length: Length, tag: nat, xclass: nat, w: Bytes)
    requires xclass in {0, 0x40, 0x80, 0xc0}
    requires length <= |w|
    ensures var h := PutObject(constructed, length, tag, xclass);
            GetObject(h + w) == Some(Header(constructed, false, length, tag, xclass, |h|))
  {
    var id, len := IdentifierOctets(constructed, tag, xclass), LengthOctets(length);
    var h := PutObject(constructed, length, tag, xclass);
    assert h + w == id + (len + w);
    ReadIdentifierRoundTrip(constructed, tag, xclass, len + w);
    var all := id + (len + w);
    assert all[|id|..] == len + w && all[0] == id[0];
    ReadLengthRoundTrip(length, w);
    LeadOctet(constructed, tag, xclass);
  }

  /** A header with the indefinite length, as `M_ASN1_I2D_INF_seq_start` writes it. */
  lemma IndefiniteHeader(tag: nat, xclass: nat, w: Bytes)
    requires xclass in {0, 0x40, 0x80, 0xc0} && tag < 31
    ensures GetObject([0x20 + xclass + tag, 0x80] + w) == Some(Header(true, true, 0, tag, xclass, 2))
  {
    var h := [0x20 + xclass + tag, 0x80] + w;
    assert h[1..][0] == 0x80;
  }

  // ----- the octets themselves -----

  /** The length octets: the short form below 128, else their count and the big-endian octets. */
  lemma LengthForms(n: Length)
    ensures n < 0x80 ==> LengthOctets(n) == [n]
    ensures 0x80 <= n < 0x100 ==> LengthOctets(n) == [0x81, n]
    ensures 0x100 <= n < 0x1_0000 ==> LengthOctets(n) == [0x82, n / 0x100, n % 0x100]
    ensures 0x1_0000 <= n < 0x100_0000 ==> LengthOctets(n) == [0x83, n / 0x1_0000, n / 0x100 % 0x100, n % 0x100]
    ensures 0x100_0000 <= n ==>
              LengthOctets(n) == [0x84, n / 0x100_0000, n / 0x1_0000 % 0x100, n / 0x100 % 0x100, n % 0x100]
  {
    LengthIsShort(n);
    var b, c, d := n / 256, n / 256 / 256, n / 256 / 256 / 256;
    assert b == n / 0x100 && c == n / 0x1_0000 && d == n / 0x100_0000 && d / 256 == 0;
    assert BigEndian(d) == if d == 0 then [] else [d % 256];
    assert BigEndian(c) == if c == 0 then [] else BigEndian(d) + [c % 256];
    assert BigEndian(b) == if b == 0 then [] else BigEndian(c) + [b % 256];
  }

  /** Reading lengths: both forms, the indefinite mark, the reserved octet 0xff and truncated octets. */
  lemma ReadLengthForms(w: Bytes)
    ensures ReadLength([]) == None
    ensures w != [] && w[0] < 0x80 ==> ReadLength(w) == Some(Definite(w[0], 1))
    ensures w != [] && w[0] == 0x80 ==> ReadLength(w) == Some(Indefinite)
    ensures w != [] && w[0] > 0x80 && (w[0] == 0xff || |w| < w[0] - 0x7f) ==> ReadLength(w) == None
    ensures |w| >= 2 && w[0] == 0x81 ==> ReadLength(w) == Some(Definite(w[1], 2))
    ensures |w| >= 3 && w[0] == 0x82 ==> ReadLength(w) == Some(Definite(0x100 * w[1] as int + w[2], 3))
  {
    if |w| >= 2 && w[0] == 0x81 {
      assert w[1..2] == [] + [w[1]];
      FromBigEndianNext([], w[1]);
    }
    if |w| >= 3 && w[0] == 0x82 {
      assert w[1..3] == [w[1]] + [w[2]] && [w[1]] == [] + [w[1]];
      FromBigEndianNext([], w[1]);
      FromBigEndianNext([w[1]], w[2]);
    }
  }

  lemma FromBigEndianNext(u: Bytes, b: Byte)
    ensures FromBigEndian([]) == 0
    ensures FromBigEndian(u + [b]) == FromBigEndian(u) * 0x100 + b
  {
    assert (u + [b])[..|u|] == u;
  }

  /** What `ASN1_get_object` reports for a tag number of the low form, and when it reports an error. */
  lemma LowTagHeader(w: Bytes)
    requires w != [] && w[0] % 32 < 31
    ensures var constructed := w[0] / 32 % 2 == 1;
            var tag, xclass := w[0] % 32, w[0] / 64 * 64;
            GetObject(w) ==
              match ReadLength(w[1..])
              case None => None
              case Some(Indefinite) => if constructed then Some(Header(true, true, 0, tag, xclass, 2)) else None
              case Some(Definite(length, m)) =>
                if 1 + m + length <= |w| then Some(Header(constructed, false, length, tag, xclass, 1 + m)) else None
  {
  }

  /** High tag numbers: no padding, bit 8 set in all octets but the last, seven bits in each. */
  lemma Base128Octets(n: nat)
    ensures Base128(n)[0] != 0x80 && Base128(n)[|Base128(n)| - 1] == n % 128
    ensures n >= 128 ==> Base128(n)[|Base128(n)| - 2] == 0x80 + n / 128 % 128
    ensures forall i :: 0 <= i < |Base128(n)| - 1 ==> Base128(n)[i] >= 0x80
  {
    ContinuedOctets(n / 128);
  }

  lemma {:induction false} ContinuedOctets(n: nat)
    ensures n > 0 ==> Continued(n) != [] && Continued(n)[0] != 0x80
    ensures forall i :: 0 <= i < |Continued(n)| ==> Continued(n)[i] >= 0x80
  {
    if n == 0 {
    } else {
      ContinuedOctets(n / 128);
    }
  }
}
