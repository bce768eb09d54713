/**
 The fields of a structure, as the macros of `asn1_mac.h` write and read them.

 An item codec (`i2d_X` and `d2i_X`) is a callee.  It is a value here, with the contract that the
 macro layer relies on.  `Write` and `Read` give the meaning of the put and get macros on byte
 sequences; the classes in the other modules are proved against them.
 */
module Asn1Fields {
  import opened Bits
  import opened Asn1Header

  /**
   An item type: its universal tag number, which values it can encode, `i2d` with a buffer, `i2d`
   with a null pointer (the length only), and `d2i` on a window of bytes.
   */
  datatype Codec<!V> = Codec(tag: nat, ok: V -> bool, enc: V -> Bytes, len: V -> nat, dec: Bytes -> Option<(V, nat)>)

  ghost predicate Encodes<V>(c: Codec<V>, v: V) {
    c.enc(v) != [] && c.len(v) == |c.enc(v)| && Identity(c.enc(v)[0]) == V_ASN1_UNIVERSAL + c.tag
  }

  ghost predicate RoundTrips<V>(c: Codec<V>, v: V, rest: Bytes) {
    c.dec(c.enc(v) + rest) == Some((v, |c.enc(v)|))
  }

  ghost predicate InWindow<V>(c: Codec<V>, w: Bytes) {
    c.dec(w).Some? ==> c.dec(w).value.1 <= |w|
  }

  /** `d2i` stays within the length it is given. */
  ghost predicate Bounded<V(!new)>(c: Codec<V>) {
    forall w: Bytes :: InWindow(c, w)
  }

  /** The contract of an item codec. */
  ghost predicate Good<V(!new)>(c: Codec<V>) {
    && 0 < c.tag < 31
    && Bounded(c)
    && (forall v: V :: c.ok(v) ==> Encodes(c, v))
    && (forall v: V, rest: Bytes :: c.ok(v) ==> RoundTrips(c, v, rest))
  }

  /** How a field is tagged. */
  datatype Field<!V> =
    | Plain(codec: Codec<V>)              // M_ASN1_D2I_get, M_ASN1_I2D_put
    | Opt(codec: Codec<V>)                // M_ASN1_D2I_get_opt
    | Imp(codec: Codec<V>, tag: nat)      // M_ASN1_D2I_get_IMP_opt, M_ASN1_I2D_put_IMP_opt
    | Exp(codec: Codec<V>, tag: nat)      // M_ASN1_D2I_get_EXP_opt, M_ASN1_I2D_put_EXP_opt

  // ----- writing -----

  predicate Writable<V>(f: Field<V>, v: Option<V>) {
    match v
    case None => !f.Plain?
    case Some(x) => f.codec.ok(x) && (f.Exp? ==> f.codec.len(x) < 0x8000_0000)
  }

  /** The tag byte of `M_ASN1_I2D_put_IMP_opt`, stored in an unsigned char */
  function ImplicitByte(tag: nat, q: Byte): Byte {
    Or(Or(V_ASN1_CONTEXT_SPECIFIC, tag), Constructed(q)) % 0x100
  }

  function Write<V>(f: Field<V>, v: Option<V>): Bytes
    requires Writable(f, v)
  {
    match v
    case None => []
    case Some(x) =>
      var item := f.codec.enc(x);
      match f
      case Plain(_) => item
      case Opt(_) => item
      case Imp(_, tag) => if item == [] then [] else item[0 := ImplicitByte(tag, item[0])]
      case Exp(_, tag) => PutObject(true, f.codec.len(x), tag, V_ASN1_CONTEXT_SPECIFIC) + item
  }

  /** The length pass: `M_ASN1_I2D_len`, `M_ASN1_I2D_len_IMP_opt`, `M_ASN1_I2D_len_EXP_opt` */
  function Len<V>(f: Field<V>, v: Option<V>): nat {
    match v
    case None => 0
    case Some(x) => if f.Exp? then ObjectSize(f.codec.len(x), f.tag) else f.codec.len(x)
  }

  /** The length pass announces what the put pass writes. */
  lemma LenAgrees<V(!new)>(f: Field<V>, v: Option<V>)
    requires Good(f.codec) && Writable(f, v)
    ensures Len(f, v) == |Write(f, v)|
  {
    if v.Some? {
      assert Encodes(f.codec, v.value);
      if f.Exp? {
        ObjectSizeAgrees(true, f.codec.len(v.value), f.tag, V_ASN1_CONTEXT_SPECIFIC);
      }
    }
  }

  // ----- reading -----

  /** What a get macro does with a field. */
  datatype Outcome<+V> = Absent | Got(value: V, size: nat) | Failed

  function Item<V>(r: Option<(V, nat)>): Outcome<V> {
    match r
    case None => Failed
    case Some((v, n)) => Got(v, n)
  }

  /** The tag byte of `M_ASN1_D2I_get_imp` */
  function UniversalByte(tag: nat, next: Byte): Byte {
    Or(Constructed(next), tag) % 0x100
  }

  /** The condition under which a get macro takes the next bytes for its field. */
  predicate Matches<V>(f: Field<V>, w: Bytes) {
    f.Plain? ||
    (w != [] &&
     match f
     case Opt(c) => Identity(w[0]) == Or(V_ASN1_UNIVERSAL, c.tag)
     case Imp(_, tag) => Identity(w[0]) == Or(V_ASN1_CONTEXT_SPECIFIC, tag)
     case Exp(_, tag) => w[0] == Or(Or(V_ASN1_CONSTRUCTED, V_ASN1_CONTEXT_SPECIFIC), tag))
  }

  /**
   `ASN1_const_check_infinite_end` (section 8.1.5 of X.690): whether the window starts with
   end-of-contents octets, with its convention that an exhausted window passes.
   */
  function EndsHere(w: Bytes): bool {
    w == [] || (|w| >= 2 && w[0] == 0 && w[1] == 0)
  }

  /** The octets that `ASN1_const_check_infinite_end` steps over. */
  function EndSize(w: Bytes): (n: nat)
    ensures n <= |w|
  {
    if EndsHere(w) && w != [] then 2 else 0
  }

  /** `M_ASN1_D2I_get_EXP_opt` once its byte test has passed */
  function ReadExplicit<V>(c: Codec<V>, w: Bytes): Outcome<V> {
    match GetObject(w)
    case None => Failed
    case Some(h) => ReadWrapped(c, h, w)
  }

  /** The macro after its header `h` has been read. */
  function ReadWrapped<V>(c: Codec<V>, h: Header, w: Bytes): Outcome<V>
    requires h.size <= |w| && (h.indefinite || h.size + h.length <= |w|)
  {
    if h.indefinite then ReadIndefinite(c, h.size, w) else Beyond(h.size, c.dec(w[h.size..h.size + h.length]))
  }

  /** What the codec found, `at` octets further back. */
  function Beyond<V>(at: nat, d: Option<(V, nat)>): Outcome<V> {
    match d
    case None => Failed
    case Some((v, n)) => Got(v, at + n)
  }

  /** Two octets are kept back for end-of-contents; a codec refuses a negative length. */
  function ReadIndefinite<V>(c: Codec<V>, start: nat, w: Bytes): Outcome<V>
    requires start <= |w|
  {
    if |w| - 2 < start then Failed
    else
      match c.dec(w[start..|w| - 2])
      case None => Failed
      case Some((v, n)) => EndExplicit(v, w, start + n)
  }

  /** The end-of-contents check of the indefinite form. */
  function EndExplicit<V>(v: V, w: Bytes, at: nat): Outcome<V> {
    if at > |w| || !EndsHere(w[at..]) then Failed else Got(v, at + EndSize(w[at..]))
  }

  function Read<V>(f: Field<V>, w: Bytes): Outcome<V> {
    if !Matches(f, w) then Absent
    else
      match f
      case Plain(c) => Item(c.dec(w))
      case Opt(c) => Item(c.dec(w))
      case Imp(c, _) => Item(c.dec(w[0 := UniversalByte(c.tag, w[0])]))
      case Exp(c, _) => ReadExplicit(c, w)
  }

  lemma ExplicitIsBounded<V(!new)>(c: Codec<V>, w: Bytes)
    requires Bounded(c)
    ensures ReadExplicit(c, w).Got? ==> ReadExplicit(c, w).size <= |w|
  {
    match GetObject(w)
    case None =>
    case Some(h) =>
      if !h.indefinite {
        assert InWindow(c, w[h.size..h.size + h.length]);
      }
  }

  /** No field reads past the window. */
  lemma ReadIsBounded<V(!new)>(f: Field<V>, w: Bytes)
    requires Bounded(f.codec)
    ensures Read(f, w).Got? ==> Read(f, w).size <= |w|
  {
    assert InWindow(f.codec, w);
    if f.Imp? && w != [] {
      assert InWindow(f.codec, w[0 := UniversalByte(f.codec.tag, w[0])]);
    }
    ExplicitIsBounded(f.codec, w);
  }

  // ----- the octets themselves -----

  /** The explicit read of a definite wrapper: the codec gets the contents and nothing else. */
  lemma DefiniteExplicit<V>(c: Codec<V>, tag: nat, w: Bytes, h: Header)
    requires Matches(Exp(c, tag), w) && GetObject(w) == Some(h) && !h.indefinite
    ensures Read(Exp(c, tag), w) ==
              match c.dec(w[h.size..h.size + h.length])
              case None => Failed
              case Some((v, n)) => Got(v, h.size + n)
  {
  }

  /** Of an indefinite one: it fails unless end-of-contents octets follow the item. */
  lemma IndefiniteExplicit<V(!new)>(c: Codec<V>, tag: nat, w: Bytes, h: Header)
    requires Bounded(c) && Matches(Exp(c, tag), w) && GetObject(w) == Some(h) && h.indefinite
    ensures |w| < h.size + 2 ==> Read(Exp(c, tag), w) == Failed
    ensures |w| >= h.size + 2 ==>
              Read(Exp(c, tag), w) ==
                match c.dec(w[h.size..|w| - 2])
                case None => Failed
                case Some((v, n)) =>
                  if h.size + n + 2 <= |w| && w[h.size + n] == 0 && w[h.size + n + 1] == 0
                  then Got(v, h.size + n + 2)
                  else Failed
  {
    assert Read(Exp(c, tag), w) == ReadIndefinite(c, h.size, w);
    if h.size + 2 <= |w| {
      assert InWindow(c, w[h.size..|w| - 2]);
    }
  }

  lemma BadHeader<V>(c: Codec<V>, tag: nat, w: Bytes)
    requires Matches(Exp(c, tag), w) && GetObject(w) == None
    ensures Read(Exp(c, tag), w) == Failed
  {
  }

  lemma ExplicitIsTried<V>(c: Codec<V>, w: Bytes)
    ensures ReadExplicit(c, w) != Absent
    ensures ReadExplicit(c, w).Got? ==> GetObject(w).Some?
  {
  }

  /** When it is absent; and a value read under an indefinite header ends with end-of-contents octets. */
  lemma ExplicitEnds<V(!new)>(c: Codec<V>, tag: nat, w: Bytes)
    requires Bounded(c)
    ensures var r := Read(Exp(c, tag), w);
            && (r == Absent <==> w == [] || w[0] != Or(Or(V_ASN1_CONSTRUCTED, V_ASN1_CONTEXT_SPECIFIC), tag))
            && (r.Got? ==> GetObject(w).Some?)
            && (r.Got? && GetObject(w).value.indefinite ==>
                  2 <= r.size <= |w| && w[r.size - 2] == 0 && w[r.size - 1] == 0)
  {
    if Matches(Exp(c, tag), w) {
      ExplicitIsTried(c, w);
      var h := GetObject(w);
      if h.Some? && h.value.indefinite {
        IndefiniteExplicit(c, tag, w, h.value);
      }
    }
  }

  /** The tag byte of the implicit writer, bit by bit: context class, the tag and the old constructed bit. */
  lemma ImplicitByteBits(tag: nat, q: Byte, k: nat)
    requires k < 8
    ensures Bit(ImplicitByte(tag, q), k) <==> k == 7 || Bit(tag, k) || (k == 5 && Bit(q, 5))
  {
    Pow2Values();
    BitLow8(Or(Or(V_ASN1_CONTEXT_SPECIFIC, tag), Constructed(q)), k);
    BitOr(Or(V_ASN1_CONTEXT_SPECIFIC, tag), Constructed(q), k);
    BitOr(V_ASN1_CONTEXT_SPECIFIC, tag, k);
    BitPow2(7, k);
    BitAnd(q, V_ASN1_CONSTRUCTED, k);
    BitPow2(5, k);
  }

  /** The byte the implicit reader patches in: the tag and the constructed bit found. */
  lemma UniversalByteBits(tag: nat, next: Byte, k: nat)
    requires k < 8
    ensures Bit(UniversalByte(tag, next), k) <==> Bit(tag, k) || (k == 5 && Bit(next, 5))
  {
    Pow2Values();
    BitLow8(Or(Constructed(next), tag), k);
    BitOr(Constructed(next), tag, k);
    BitAnd(next, V_ASN1_CONSTRUCTED, k);
    BitPow2(5, k);
  }

  lemma BitLow8(x: nat, k: nat)
    requires k < 8
    ensures Bit(x % 0x100, k) <==> Bit(x, k)
  {
    Pow2Values();
    ShrLowIsDivMod(x, 8);
    BitOfLow(x, k, 8);
  }

  // ----- one field, written and read -----

  lemma GoodItem<V(!new)>(c: Codec<V>, v: V, rest: Bytes)
    requires Good(c) && c.ok(v)
    ensures Encodes(c, v) && RoundTrips(c, v, rest)
  {
  }

  /** The byte that the implicit reader puts back is the one that the implicit writer replaced. */
  lemma ImplicitTagRoundTrip(tag: nat, universal: nat, first: Byte)
    requires 0 < universal < 31 && Identity(first) == universal
    requires tag < 0x100 && !Bit(tag, 5)
    ensures var b := ImplicitByte(tag, first);
            && Identity(b) == Or(V_ASN1_CONTEXT_SPECIFIC, tag)
            && Constructed(b) == Constructed(first)
            && UniversalByte(universal, b) == first
  {
    ByteParts(first);
    ContextByte(tag);
    var ctx, c := Or(V_ASN1_CONTEXT_SPECIFIC, tag), Constructed(first);
    ComposeByte(ctx, c);
    SmallByte(Or(ctx, c));
    LowTag(universal);
    ComposeByte(universal, c);
    SmallByte(Or(c, universal));
  }

  lemma SmallByte(x: nat)
    requires x < 0x100
    ensures x % 0x100 == x
  {
  }

  lemma ContextByte(tag: nat)
    requires tag < 0x100 && !Bit(tag, 5)
    ensures Or(V_ASN1_CONTEXT_SPECIFIC, tag) < 0x100 && !Bit(Or(V_ASN1_CONTEXT_SPECIFIC, tag), 5)
  {
    Pow2Values();
    OrBound(V_ASN1_CONTEXT_SPECIFIC, tag, 8);
    BitOr(V_ASN1_CONTEXT_SPECIFIC, tag, 5);
    BitPow2(7, 5);
  }

  /**
   Implicit tagging (section 8.14 of X.690): what `M_ASN1_I2D_put_IMP_opt` wrote,
   `M_ASN1_D2I_get_IMP_opt` reads as the same value, exactly for the tags that leave the constructed bit
   alone and fit a byte.
   */
  lemma ImplicitRoundTrip<V(!new)>(c: Codec<V>, tag: nat, v: V, rest: Bytes)
    requires Good(c) && c.ok(v)
    ensures Read(Imp(c, tag), Write(Imp(c, tag), Some(v)) + rest) == Got(v, |c.enc(v)|)
       <==> tag < 0x100 && !Bit(tag, 5)
  {
    GoodItem(c, v, rest);
    var item := c.enc(v);
    var w := item[0 := ImplicitByte(tag, item[0])] + rest;
    if tag < 0x100 && !Bit(tag, 5) {
      ImplicitTagRoundTrip(tag, c.tag, item[0]);
      assert w[0 := item[0]] == item + rest;
    } else {
      ImplicitTagUnread(tag, w[0]);
    }
  }

  /** Tag number 32 is bit 5: the reader, which masks that bit, does not recognise it. */
  lemma ImplicitTag32IsAbsent<V(!new)>(c: Codec<V>, v: V, rest: Bytes)
    requires Good(c) && c.ok(v)
    ensures Read(Imp(c, 32), Write(Imp(c, 32), Some(v)) + rest) == Absent
  {
    GoodItem(c, v, rest);
    Pow2Values();
    BitPow2(5, 5);
    ImplicitTagUnread(32, ImplicitByte(32, c.enc(v)[0]));
  }

  lemma ImplicitTagUnread(tag: nat, b: Byte)
    requires tag >= 0x100 || Bit(tag, 5)
    ensures Identity(b) != Or(V_ASN1_CONTEXT_SPECIFIC, tag)
  {
    ByteParts(b);
    OrAtLeast(V_ASN1_CONTEXT_SPECIFIC, tag);
    BitOr(V_ASN1_CONTEXT_SPECIFIC, tag, 5);
  }

  /** The identifier octet that `ASN1_put_object` writes for a constructed, context-specific tag. */
  function ExplicitLead(tag: nat): Byte {
    0xa0 + if tag < 31 then tag else 31
  }

  /** The tags that the byte test of `M_ASN1_D2I_get_EXP_opt` recognises in their own encoding. */
  predicate Recognised(tag: nat) {
    tag < 31 || tag in {31, 63, 159, 191}
  }

  /** It accepts the written byte for low tags and for four high ones. */
  lemma ExplicitLeadMatches(tag: nat)
    ensures ExplicitLead(tag) == Or(Or(V_ASN1_CONSTRUCTED, V_ASN1_CONTEXT_SPECIFIC), tag) <==> Recognised(tag)
  {
    if tag < 31 {
      ContextTag(tag);
    } else {
      BothFlags();
      HighTags(tag, Or(0xa0, tag));
    }
  }

  lemma BothFlags()
    ensures Or(V_ASN1_CONSTRUCTED, V_ASN1_CONTEXT_SPECIFIC) == 0xa0
  {
    OrStep(1, 4);
    OrStep(2, 8);
    OrStep(4, 0x10);
    OrStep(8, 0x20);
    OrStep(0x10, 0x40);
    OrStep(0x20, 0x80);
  }

  lemma HighTags(tag: nat, x: nat)
    requires tag >= 31 && x == Or(0xa0, tag)
    ensures x == 0xbf <==> tag in {31, 63, 159, 191}
  {
    Pow2Values();
    ShrLow(tag, 5);
    ShrLow(x, 5);
    OrShr(0xa0, tag, 5);
    OrLow(0xa0, tag, 5);
    FlagBits();
    HighBits(Shr(tag, 5));
    SplitTag(Shr(tag, 5), Low(tag, 5), Shr(x, 5), Low(x, 5), tag, x);
  }

  lemma FlagBits()
    ensures Shr(0xa0, 5) == 5 && Low(0xa0, 5) == 0
  {
  }

  lemma SplitTag(t: nat, l: nat, t': nat, l': nat, tag: nat, x: nat)
    requires l == l' < 0x20 && tag == t * 0x20 + l && x == t' * 0x20 + l' && tag >= 31
    requires t' == 5 <==> t in {0, 1, 4, 5}
    ensures x == 0xbf <==> tag in {31, 63, 159, 191}
  {
  }

  lemma HighBits(t: nat)
    ensures Or(5, t) == 5 <==> t in {0, 1, 4, 5}
  {
    OrAtLeast(5, t);
    OrStep(5, t);
    OrStep(2, t / 2);
    OrStep(1, t / 2 / 2);
  }

  /** Explicit tagging with a definite length reads back exactly for these tags. */
  lemma ExplicitRoundTrip<V(!new)>(c: Codec<V>, tag: nat, v: V, rest: Bytes)
    requires Good(c) && Writable(Exp(c, tag), Some(v))
    ensures Read(Exp(c, tag), Write(Exp(c, tag), Some(v)) + rest) == Got(v, |Write(Exp(c, tag), Some(v))|)
       <==> Recognised(tag)
  {
    GoodItem(c, v, []);
    ExplicitContents(c, tag, c.enc(v), rest);
    assert c.enc(v) + [] == c.enc(v);
  }

  /** The definite-length reader hands exactly the contents to the codec, and goes on where the codec stopped. */
  lemma ExplicitContents<V>(c: Codec<V>, tag: nat, contents: Bytes, rest: Bytes)
    requires |contents| < 0x8000_0000
    ensures Read(Exp(c, tag), PutObject(true, |contents|, tag, V_ASN1_CONTEXT_SPECIFIC) + contents + rest)
         == if Recognised(tag) then Beyond(|PutObject(true, |contents|, tag, V_ASN1_CONTEXT_SPECIFIC)|, c.dec(contents))
            else Absent
  {
    var h := PutObject(true, |contents|, tag, V_ASN1_CONTEXT_SPECIFIC);
    var w := h + contents + rest;
    assert w == h + (contents + rest);
    HeaderRoundTrip(true, |contents|, tag, V_ASN1_CONTEXT_SPECIFIC, contents + rest);
    ExplicitLeadMatches(tag);
    assert w[0] == h[0] == ExplicitLead(tag);
    assert w[|h|..|h| + |contents|] == contents;
  }

  /** Tag number 32 is written with lead byte 0xbf and looked for as 0xa0. */
  lemma ExplicitTag32IsAbsent<V>(c: Codec<V>, contents: Bytes, rest: Bytes)
    requires |contents| < 0x8000_0000
    ensures Read(Exp(c, 32), PutObject(true, |contents|, 32, V_ASN1_CONTEXT_SPECIFIC) + contents + rest) == Absent
  {
    ExplicitContents(c, 32, contents, rest);
  }

  /**
   `M_ASN1_D2I_get_EXP_opt` does not check that the codec used up a definite-length wrapper.  For any
   codec and contents, the read ends at the end of the element if and only if the tag is recognised
   and the codec takes all of the contents.
   */
  lemma ExplicitEndsWithElement<V>(c: Codec<V>, tag: nat, contents: Bytes, rest: Bytes)
    requires |contents| < 0x8000_0000
    ensures var element := PutObject(true, |contents|, tag, V_ASN1_CONTEXT_SPECIFIC) + contents;
            var r := Read(Exp(c, tag), element + rest);
            (r.Got? && r.size == |element|
             <==> Recognised(tag) && c.dec(contents).Some? && c.dec(contents).value.1 == |contents|)
  {
    ExplicitContents(c, tag, contents, rest);
  }

  /** An item with something after it in its wrapper is accepted, and the cursor stops inside the element. */
  lemma ExplicitLeavesExtra<V(!new)>(c: Codec<V>, tag: nat, v: V, extra: Bytes, rest: Bytes)
    requires Good(c) && c.ok(v) && Recognised(tag) && |c.enc(v) + extra| < 0x8000_0000
    ensures var contents := c.enc(v) + extra;
            var element := PutObject(true, |contents|, tag, V_ASN1_CONTEXT_SPECIFIC) + contents;
            Read(Exp(c, tag), element + rest) == Got(v, |element| - |extra|)
  {
    GoodItem(c, v, extra);
    ExplicitContents(c, tag, c.enc(v) + extra, rest);
  }

  /** An element written between `M_ASN1_I2D_INF_seq_start` and `M_ASN1_I2D_INF_seq_end` */
  function IndefiniteElement(tag: nat, xclass: nat, contents: Bytes): Bytes
    requires tag < 31 && xclass in {0, 0x40, 0x80, 0xc0}
  {
    [V_ASN1_CONSTRUCTED + xclass + tag, 0x80] + contents + [0, 0]
  }

  /** The indefinite form reads back as well, with header and end-of-contents octets accounted for. */
  lemma IndefiniteExplicitRoundTrip<V(!new)>(c: Codec<V>, tag: nat, v: V, rest: Bytes)
    requires Good(c) && c.ok(v) && tag < 31
    ensures var element := IndefiniteElement(tag, V_ASN1_CONTEXT_SPECIFIC, c.enc(v));
            Read(Exp(c, tag), element + rest) == Got(v, |element|)
  {
    var item, after := c.enc(v), [0, 0] + rest;
    GoodItem(c, v, after[..|after| - 2]);
    IndefiniteContents(c, v, tag, item, after);
    Regroup([0xa0 + tag, 0x80], item, [0, 0], rest);
  }

  lemma Regroup(head: Bytes, item: Bytes, tail: Bytes, rest: Bytes)
    ensures head + item + tail + rest == head + (item + (tail + rest))
  {
  }

  lemma IndefiniteContents<V>(c: Codec<V>, v: V, tag: nat, item: Bytes, after: Bytes)
    requires tag < 31 && |after| >= 2 && after[0] == 0 && after[1] == 0
    requires c.dec(item + after[..|after| - 2]) == Some((v, |item|))
    ensures Read(Exp(c, tag), [0xa0 + tag, 0x80] + (item + after)) == Got(v, 4 + |item|)
  {
    var w := [0xa0 + tag, 0x80] + (item + after);
    IndefiniteHeader(tag, V_ASN1_CONTEXT_SPECIFIC, item + after);
    ContextTag(tag);
    IndefiniteParts([0xa0 + tag, 0x80], item, after);
    IndefiniteItem(c, v, w, |item|, after);
    assert Matches(Exp(c, tag), w);
  }

  lemma IndefiniteItem<V>(c: Codec<V>, v: V, w: Bytes, size: nat, after: Bytes)
    requires 4 + size <= |w| && c.dec(w[2..|w| - 2]) == Some((v, size))
    requires w[2 + size..] == after && |after| >= 2 && after[0] == 0 && after[1] == 0
    ensures ReadIndefinite(c, 2, w) == Got(v, 4 + size)
  {
  }

  lemma IndefiniteParts(head: Bytes, item: Bytes, after: Bytes)
    requires |head| == 2 <= |after|
    ensures var w := head + (item + after);
            w[2..|w| - 2] == item + after[..|after| - 2] && w[2 + |item|..] == after
  {
  }
}
