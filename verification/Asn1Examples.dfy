/**
 Single messages for a one-octet INTEGER: what is stored, and malformed input that is refused.
 */
module Asn1Examples {
  import opened Bits
  import opened Asn1Header
  import opened Asn1Fields
  import opened Asn1Reader
  import opened Asn1Writer

  /** An INTEGER from 0 to 127 (section 8.3 of X.690). */
  function SmallInteger(): Codec<nat> {
    Codec(
      2,
      v => v < 0x80,
      v => if v < 0x80 then [2, 1, v] else [],
      v => 3,
      w => if |w| >= 3 && w[0] == 2 && w[1] == 1 && w[2] < 0x80 then Some((w[2], 3)) else None)
  }

  /** It meets the contract of an item codec. */
  lemma SmallIntegerIsGood()
    ensures Good(SmallInteger())
  {
    var c := SmallInteger();
    assert Identity(2) == 2 by {
      LowTag(2);
      ComposeByte(2, 0);
    }
    forall v: nat | c.ok(v) ensures Encodes(c, v) {
    }
    forall v: nat, rest: Bytes | c.ok(v) ensures RoundTrips(c, v, rest) {
    }
    forall w: Bytes ensures InWindow(c, w) {
    }
  }

  /** A SEQUENCE of the INTEGER 5 is 30 03 02 01 05, and one of no fields is 30 00. */
  lemma StoredOctets()
    ensures AllWritable([Plain(SmallInteger())], [Some(5)])
    ensures WriteSequence([Plain(SmallInteger())], [Some(5)]) == [0x30, 3, 2, 1, 5]
    ensures WriteSequence<nat>([], []) == [0x30, 0]
  {
    var f := Plain(SmallInteger());
    SmallIntegerIsGood();
    assert Write(f, Some(5)) == [2, 1, 5];
    assert WriteFields([f], [Some(5)]) == Write(f, Some(5)) + WriteFields<nat>([], []);
    SequenceOctets([f], [Some(5)]);
    SequenceOctets<nat>([], []);
    LengthForms(3);
    LengthForms(0);
  }

  /** A definite SEQUENCE with octets left after its only field, 30 06 02 01 05 02 01 07, is refused. */
  lemma LeftOverOctets()
    ensures ReadSequence([Plain(SmallInteger())], [0x30, 6, 2, 1, 5, 2, 1, 7]) == None
  {
    var f, contents, w := Plain(SmallInteger()), [2, 1, 5, 2, 1, 7], [0x30, 6, 2, 1, 5, 2, 1, 7];
    LengthForms(6);
    SequenceElement(contents, []);
    assert [0x30] + LengthOctets(6) + contents + [] == w;
    var h := Header(true, false, 6, 16, 0, 2);
    assert w[2..8] == contents;
    assert ReadFields([f][1..], contents[3..]) == Some(([], 0));
    PresentField([f], contents, 5, 3, [], 0);
    DefiniteOctets([f], w, h, ReadFields([f], contents));
  }

  /** An indefinite wrapper without end-of-contents octets, a0 80 02 01 05 02 01 07, is refused. */
  lemma NoEndOfContents()
    ensures Read(Exp(SmallInteger(), 0), [0xa0, 0x80, 2, 1, 5, 2, 1, 7]) == Failed
  {
    var c, inner, w := SmallInteger(), [2, 1, 5, 2, 1, 7], [0xa0, 0x80, 2, 1, 5, 2, 1, 7];
    SmallIntegerIsGood();
    IndefiniteHeader(0, V_ASN1_CONTEXT_SPECIFIC, inner);
    assert [0xa0, 0x80] + inner == w;
    ContextTag(0);
    assert w[2..6] == [2, 1, 5, 2];
    IndefiniteExplicit(c, 0, w, Header(true, true, 0, 0, V_ASN1_CONTEXT_SPECIFIC, 2));
  }

  /** An OCTET STRING where a plain INTEGER is due, 04 01 05, is refused. */
  lemma OtherTag()
    ensures Read(Plain(SmallInteger()), [4, 1, 5]) == Failed
  {
  }
}
