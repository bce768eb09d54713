/**
 The decoding cursor of `asn1_mac.h`: the fields of `ASN1_const_CTX` that the macros move, and the
 input buffer, which the implicit-tag macro temporarily rewrites.
 */
module Asn1Reader {
  import opened Bits
  import opened Memory
  import opened Asn1Header
  import opened Asn1Fields

  class Cursor {
    const buf: array<Byte>
    var p: nat
    var q: nat
    var slen: int
    var inf: int
    var eos: bool

    /** `M_ASN1_D2I_Init` and `M_ASN1_D2I_begin` on `length` bytes at `start` */
    constructor (input: array<Byte>, start: nat, length: nat)
      requires start + length <= input.Length
      ensures Valid() && buf == input && p == start && slen == length && inf == 0 && !eos
    {
      buf := input;
      p, q, slen, inf, eos := start, start, length, 0, false;
    }

    ghost predicate Valid()
      reads this
    {
      0 <= slen && p + slen <= buf.Length
    }

    /** The bytes the macros may still consume. */
    ghost function Window(): Bytes
      requires Valid()
      reads this, buf
    {
      buf[p..p + slen]
    }

    /** The cursor has consumed n octets, and `slen` has been charged with them. */
    twostate predicate Advanced(n: nat)
      requires old(Valid())
      reads this, buf
    {
      && Valid()
      && p == old(p) + n
      && p + slen == old(p + slen)
      && Window() == old(Window())[n..]
    }

    /** `c.slen-=(c.p-c.q)`, after n octets of the window w at c.q */
    method Charge(ghost w: Bytes, ghost n: nat)
      requires 0 <= slen && p == q + n && n <= slen && q + slen <= buf.Length && w == buf[q..q + slen]
      modifies this`slen
      ensures slen == old(slen) - n && Valid()
      ensures Window() == w[n..]
    {
      Slice(buf[..], q, q + slen, n, slen, p, q + slen);
      assert w[..slen] == w;
      slen := slen - (p - q);
    }

    /** What every get macro promises for field f: its outcome, and where the cursor is. */
    twostate predicate Took<V(!new)>(f: Field<V>, new r: Outcome<V>)
      requires old(Valid())
      reads this, buf
    {
      && r == Read(f, old(Window()))
      && buf[..] == old(buf[..])
      && (r.Absent? || q == old(p))
      && (r.Failed? || Advanced(if r.Got? then r.size else 0))
    }

    /** `M_ASN1_D2I_get` */
    method Get<V(!new)>(c: Codec<V>) returns (r: Outcome<V>)
      requires Valid() && Bounded(c)
      modifies this`p, this`q, this`slen
      ensures Took(Plain(c), r)
      ensures match c.dec(old(Window()))
              case None => r == Failed
              case Some((v, n)) => r == Got(v, n)
    {
      q := p;
      var w := buf[p..p + slen];
      var d := c.dec(w);
      if d.None? {
        return Failed;
      }
      assert InWindow(c, w);
      p := p + d.value.1;
      Charge(w, d.value.1);
      r := Got(d.value.0, d.value.1);
    }

    /** `M_ASN1_D2I_get_opt` */
    method GetOpt<V(!new)>(c: Codec<V>) returns (r: Outcome<V>)
      requires Valid() && Bounded(c)
      modifies this`p, this`q, this`slen
      ensures Took(Opt(c), r)
      ensures var w := old(Window());
              if w == [] || Identity(w[0]) != c.tag then r == Absent
              else match c.dec(w)
                   case None => r == Failed
                   case Some((v, n)) => r == Got(v, n)
    {
      assert Or(V_ASN1_UNIVERSAL, c.tag) == c.tag;
      if slen != 0 && Identity(buf[p]) == Or(V_ASN1_UNIVERSAL, c.tag) {
        r := Get(c);
      } else {
        r := Absent;
      }
    }

    /** `M_ASN1_D2I_get_IMP_opt` with `M_ASN1_D2I_get_imp`: the tag byte is patched for the call only */
    method GetImpOpt<V(!new)>(c: Codec<V>, tag: nat) returns (r: Outcome<V>)
      requires Valid() && Bounded(c)
      modifies this`p, this`q, this`slen, buf
      ensures Took(Imp(c, tag), r)
      ensures var w := old(Window());
              if w == [] || Identity(w[0]) != Or(V_ASN1_CONTEXT_SPECIFIC, tag) then r == Absent
              else match c.dec(w[0 := Or(Constructed(w[0]), c.tag) % 0x100])
                   case None => r == Failed
                   case Some((v, n)) => r == Got(v, n)
    {
      if !(slen != 0 && Identity(buf[p]) == Or(V_ASN1_CONTEXT_SPECIFIC, tag)) {
        return Absent;
      }
      ghost var input, window := buf[..], buf[p..p + slen];
      var tmp := buf[p];
      buf[p] := UniversalByte(c.tag, tmp);
      q := p;
      var w := buf[p..p + slen];
      assert w == window[0 := UniversalByte(c.tag, window[0])];
      var d := c.dec(w);
      if d.None? {
        buf[q] := tmp;
        assert buf[..] == input;
        return Failed;
      }
      assert InWindow(c, w);
      p := p + d.value.1;
      Charge(w, d.value.1);
      buf[q] := tmp;
      assert buf[..] == input;
      r := Got(d.value.0, d.value.1);
    }

    /** `M_ASN1_D2I_get_EXP_opt` */
    method GetExpOpt<V(!new)>(c: Codec<V>, tag: nat) returns (r: Outcome<V>)
      requires Valid() && Bounded(c)
      modifies this`p, this`q, this`slen
      ensures Took(Exp(c, tag), r)
      ensures var w := old(Window());
              && (r == Absent <==> w == [] || w[0] != Or(Or(V_ASN1_CONSTRUCTED, V_ASN1_CONTEXT_SPECIFIC), tag))
              && (r.Got? ==> GetObject(w).Some?)
              && (r.Got? && GetObject(w).value.indefinite ==>
                    2 <= r.size <= |w| && w[r.size - 2] == 0 && w[r.size - 1] == 0)
    {
      ExplicitEnds(c, tag, Window());
      if slen != 0 && buf[p] == Or(Or(V_ASN1_CONSTRUCTED, V_ASN1_CONTEXT_SPECIFIC), tag) {
        r := GetExplicit(c);
      } else {
        r := Absent;
      }
    }

    /** The block of the macro. */
    method GetExplicit<V(!new)>(c: Codec<V>) returns (r: Outcome<V>)
      requires Valid() && Bounded(c)
      modifies this`p, this`q, this`slen
      ensures r == ReadExplicit(c, old(Window())) && q == old(p)
      ensures r.Failed? || (r.Got? && Advanced(r.size))
    {
      q := p;
      var w := buf[p..p + slen];
      var h := GetObject(w);
      if h.None? {
        return Failed;
      }
      r := GetWrapped(c, h.value);
    }

    /** The rest of the macro, after `ASN1_get_object` has found the header h at c.p. */
    method GetWrapped<V(!new)>(c: Codec<V>, h: Header) returns (r: Outcome<V>)
      requires Valid() && q == p && Bounded(c)
      requires h.size <= slen && (h.indefinite || h.size + h.length <= slen)
      modifies this`p, this`slen
      ensures r == ReadWrapped(c, h, old(Window()))
      ensures r.Failed? || (r.Got? && Advanced(r.size))
    {
      if h.indefinite {
        r := GetIndefinite(c, h.size);
      } else {
        r := GetDefinite(c, h.size, h.length);
      }
    }

    /** When bit 0 of `inf` is clear */
    method GetDefinite<V(!new)>(c: Codec<V>, size: nat, tlen: nat) returns (r: Outcome<V>)
      requires Valid() && q == p && Bounded(c) && size + tlen <= slen
      modifies this`p, this`slen
      ensures r == Beyond(size, c.dec(old(Window())[size..size + tlen]))
      ensures r.Failed? || (r.Got? && Advanced(r.size))
    {
      ghost var w := Window();
      p := p + size;
      var d := GetContents(c, tlen, w, size, size + tlen);
      if d.None? {
        return Failed;
      }
      Charge(w, size + d.value.1);
      r := Got(d.value.0, p - q);
    }

    /** When it is set */
    method GetIndefinite<V(!new)>(c: Codec<V>, size: nat) returns (r: Outcome<V>)
      requires Valid() && q == p && Bounded(c) && size <= slen
      modifies this`p, this`slen
      ensures r == ReadIndefinite(c, size, old(Window()))
      ensures r.Failed? || (r.Got? && Advanced(r.size))
    {
      ghost var w := Window();
      p := p + size;
      var tlen := slen - (p - q) - 2;
      if tlen < 0 {
        return Failed;
      }
      var d := GetContents(c, tlen, w, size, |w| - 2);
      if d.None? {
        return Failed;
      }
      r := FinishIndefinite(d.value.0, w, size + d.value.1);
      if r.Got? {
        Charge(w, r.size);
      }
    }

    /** `func(&(r),&c.p,Tlen)`, on the octets `from` to `to` of the window w at c.q */
    method GetContents<V(!new)>(c: Codec<V>, tlen: nat, ghost w: Bytes, ghost from: nat, ghost to: nat)
      returns (d: Option<(V, nat)>)
      requires 0 <= slen && q + slen <= buf.Length && w == buf[q..q + slen]
      requires p == q + from && p + tlen == q + to && to <= slen && Bounded(c)
      modifies this`p
      ensures d == c.dec(w[from..to])
      ensures d.Some? ==> p == q + (from + d.value.1) && p <= q + slen
    {
      var contents := buf[p..p + tlen];
      Slice(buf[..], q, q + slen, from, to, p, p + tlen);
      d := c.dec(contents);
      assert InWindow(c, contents);
      if d.Some? {
        p := p + d.value.1;
      }
    }

    /** The end-of-contents check of `M_ASN1_D2I_get_EXP_opt`, `at` octets into the window */
    method FinishIndefinite<V>(v: V, ghost w: Bytes, ghost at: nat) returns (r: Outcome<V>)
      requires 0 <= slen && p == q + at && at <= slen && q + slen <= buf.Length && w == buf[q..q + slen]
      modifies this`p
      ensures r == EndExplicit(v, w, at)
      ensures r.Failed? || (r.Got? && p == q + r.size && p <= q + slen)
    {
      var tlen := slen - (p - q);
      assert buf[p..p + tlen] == w[at..] by {
        Slice(buf[..], q, q + slen, at, slen, p, p + tlen);
        assert w[..slen] == w;
      }
      var ended := ConstCheckInfiniteEnd(tlen);
      r := if ended then Got(v, p - q) else Failed;
    }

    /** `ASN1_const_check_infinite_end(&c.p, len)` */
    method ConstCheckInfiniteEnd(len: nat) returns (ended: bool)
      requires p + len <= buf.Length
      modifies this`p
      ensures ended == EndsHere(old(buf[p..p + len]))
      ensures p == old(p) + EndSize(old(buf[p..p + len]))
    {
      var w := buf[p..p + len];
      ended := EndsHere(w);
      p := p + EndSize(w);
    }

    method GetField<V(!new)>(f: Field<V>) returns (r: Outcome<V>)
      requires Valid() && Bounded(f.codec)
      modifies this`p, this`q, this`slen, buf
      ensures Took(f, r)
    {
      match f {
        case Plain(c) => r := Get(c);
        case Opt(c) => r := GetOpt(c);
        case Imp(c, tag) => r := GetImpOpt(c, tag);
        case Exp(c, tag) => r := GetExpOpt(c, tag);
      }
    }

    /** The next get macro of a run; None when it leaves through the error label. */
    method GetNext<V(!new)>(fs: seq<Field<V>>) returns (v: Option<Option<V>>)
      requires Valid() && fs != [] && Bounded(fs[0].codec)
      modifies this`p, this`q, this`slen, buf
      ensures buf[..] == old(buf[..])
      ensures v.None? ==> ReadFields(fs, old(Window())).None?
      ensures v.Some? ==> p >= old(p) && Advanced(p - old(p))
      ensures v.Some? ==> ReadFields(fs, old(Window())) == After([v.value], p - old(p), ReadFields(fs[1..], Window()))
    {
      var o := GetField(fs[0]);
      match o {
        case Failed => v := None;
        case Absent => v := Some(None);
        case Got(x, _) => v := Some(Some(x));
      }
    }

    /**
     A run of get macros, one for each field, as a `d2i` function body strings them together; a
     failure leaves through the error label.  Whatever happens, the input is as it was.
     */
    method GetFields<V(!new)>(fs: seq<Field<V>>) returns (r: Option<seq<Option<V>>>)
      requires Valid() && forall f <- fs :: Bounded(f.codec)
      modifies this`p, this`q, this`slen, buf
      ensures buf[..] == old(buf[..])
      ensures match ReadFields(fs, old(Window()))
              case None => r.None?
              case Some((vs, n)) => n <= old(slen) && r == Some(vs) && Advanced(n)
      decreases |fs|
    {
      if fs == [] {
        return Some([]);
      }
      ghost var window, start := Window(), p;
      var v := GetNext(fs);
      if v.None? {
        return None;
      }
      ghost var n, w := p - start, Window();
      r := GetFields(fs[1..]);
      if r.Some? {
        r := Some([v.value] + r.value);
        ghost var m := ReadFields(fs[1..], w).value.1;
        DropTwice(window, n, m, n + m);
      }
    }

    /** `M_ASN1_D2I_end_sequence` */
    method EndSequence() returns (done: bool)
      requires Valid()
      modifies this`p, this`eos
      ensures done == if inf % 2 == 0 then slen == 0 else EndsHere(old(Window()))
      ensures p == old(p) + if inf % 2 == 0 then 0 else EndSize(old(Window()))
      ensures eos == if inf % 2 == 0 then old(eos) else done
      ensures p + slen == old(p + slen) <==> inf % 2 == 0 || slen == 0 || !done
      ensures inf % 2 == 1 ==> (done <==> slen == 0 || (slen >= 2 && old(buf[p..p + slen])[..2] == [0, 0]))
      ensures inf % 2 == 1 ==> p == old(p) + if done && slen != 0 then 2 else 0
    {
      if inf % 2 == 0 {
        done := slen <= 0;
      } else {
        eos := ConstCheckInfiniteEnd(slen);
        done := eos;
      }
    }

    /** `M_ASN1_D2I_start_sequence`; `length` is what the caller of `d2i` passed */
    method StartSequence() returns (header: Option<Header>)
      requires Valid()
      modifies this`p, this`slen, this`inf, this`eos
      ensures header == ReadSequenceHeader(old(Window()))
      ensures header == match GetObject(old(Window()))
                        case None => None
                        case Some(h) => if h.tag == 16 && h.xclass == 0 then Some(h) else None
      ensures header.Some? ==> slen == if header.value.indefinite then old(slen) - header.value.size else header.value.length
      ensures header.Some? ==> var h := header.value;
                               && Valid() && p == old(p) + h.size
                               && Window() == SequenceContents(h, old(Window()))
                               && inf % 2 == (if h.indefinite then 1 else 0) && !eos
    {
      header := ReadSequenceHeader(buf[p..p + slen]);
      if header.Some? {
        Adopt(header.value);
      }
    }

    /** How `asn1_GetSequence` leaves the cursor after the header h */
    method Adopt(h: Header)
      requires Valid() && h.size <= slen && (h.indefinite || h.size + h.length <= slen)
      modifies this`p, this`slen, this`inf, this`eos
      ensures Valid() && p == old(p) + h.size
      ensures slen == if h.indefinite then old(slen) - h.size else h.length
      ensures Window() == SequenceContents(h, old(Window()))
      ensures inf % 2 == (if h.indefinite then 1 else 0) && !eos
    {
      ghost var w, start, length := Window(), p, slen;
      p := p + h.size;
      slen := if h.indefinite then slen - h.size else h.length;
      inf := V_ASN1_CONSTRUCTED + if h.indefinite then 1 else 0;
      eos := false;
      ghost var end := if h.indefinite then length else h.size + h.length;
      Slice(buf[..], start, start + length, h.size, end, p, p + slen);
      assert w[..length] == w;
    }

    /**
     `asn1_const_Finish`, a callee: a definite sequence must be used up; an indefinite one must end
     here, unless `M_ASN1_D2I_end_sequence` has already stepped over its end-of-contents octets.
     */
    method ConstFinish() returns (done: bool)
      requires 0 <= slen && (inf % 2 == 1 && !eos ==> Valid())
      modifies this`p
      ensures inf % 2 == 0 ==> done == (slen == 0) && p == old(p)
      ensures inf % 2 == 1 && eos ==> done && p == old(p)
      ensures inf % 2 == 1 && !eos ==> done == EndsHere(old(Window())) && p == old(p) + EndSize(old(Window()))
      ensures inf % 2 == 1 && !eos ==>
                (done <==> slen == 0 || (slen >= 2 && old(buf[p..p + slen])[..2] == [0, 0]))
    {
      if inf % 2 == 0 {
        done := slen == 0;
      } else if eos {
        done := true;
      } else {
        done := ConstCheckInfiniteEnd(slen);
      }
    }

    /** A loop that ran until `M_ASN1_D2I_end_sequence` and then finishes ends where finishing alone would. */
    method EndAndFinish() returns (done: bool)
      requires Valid() && !eos
      modifies this`p, this`eos
      ensures done == if inf % 2 == 0 then slen == 0 else EndsHere(old(Window()))
      ensures done ==> p == old(p) + if inf % 2 == 0 then 0 else EndSize(old(Window()))
    {
      done := EndSequence();
      if done {
        done := ConstFinish();
      }
    }

    /** A `d2i` function for a SEQUENCE of these fields. */
    method GetSequence<V(!new)>(fs: seq<Field<V>>) returns (r: Option<seq<Option<V>>>)
      requires Valid() && forall f <- fs :: Bounded(f.codec)
      modifies this, buf
      ensures buf[..] == old(buf[..])
      ensures match ReadSequence(fs, old(Window()))
              case None => r.None?
              case Some((vs, n)) => r == Some(vs) && p == old(p) + n
      ensures r.Some? ==> var w := old(Window());
                          && GetObject(w).Some? && p >= old(p)
                          && GetObject(w).value.tag == 16 && GetObject(w).value.xclass == 0
                          && EndsElement(GetObject(w).value, w, p - old(p))
    {
      ghost var w := Window();
      AcceptedEnds(fs, w);
      var h := StartSequence();
      if h.None? {
        return None;
      }
      r := GetBody(fs, h.value);
    }

    /** The fields of a sequence whose header h has been read, and its end. */
    method GetBody<V(!new)>(fs: seq<Field<V>>, h: Header) returns (r: Option<seq<Option<V>>>)
      requires Valid() && (forall f <- fs :: Bounded(f.codec)) && h.size <= p
      requires inf % 2 == (if h.indefinite then 1 else 0) && !eos
      modifies this, buf
      ensures buf[..] == old(buf[..])
      ensures match ReadBody(fs, h, old(Window()))
              case None => r.None?
              case Some((vs, n)) => r == Some(vs) && p == old(p) - h.size + n
    {
      r := GetFields(fs);
      if r.Some? {
        var done := ConstFinish();
        if !done {
          r := None;
        }
      }
    }
  }

  // ----- several fields -----

  /** The values found and the octets they took. */
  type Found<V> = Option<(seq<Option<V>>, nat)>

  function ReadFields<V>(fs: seq<Field<V>>, w: Bytes): (r: Found<V>)
    ensures r.Some? ==> |r.value.0| == |fs| && r.value.1 <= |w|
    decreases |fs|, 0
  {
    if fs == [] then Some(([], 0)) else GoOn(Read(fs[0], w), fs[1..], w)
  }

  /** The fields after one with the outcome o. */
  function GoOn<V>(o: Outcome<V>, fs: seq<Field<V>>, w: Bytes): (r: Found<V>)
    ensures r.Some? ==> |r.value.0| == |fs| + 1 && r.value.1 <= |w|
    decreases |fs|, 1
  {
    match o
    case Failed => None
    case Absent => After([None], 0, ReadFields(fs, w))
    case Got(v, n) => if n > |w| then None else After([Some(v)], n, ReadFields(fs, w[n..]))
  }

  function After<V>(vs: seq<Option<V>>, n: nat, rest: Found<V>): Found<V> {
    match rest
    case None => None
    case Some((us, m)) => Some((vs + us, n + m))
  }

  /** Field i of the message w was looked for at `at` and the next one at `next`. */
  ghost predicate FoundAt<V>(f: Field<V>, v: Option<V>, w: Bytes, at: nat, next: nat) {
    && at <= next <= |w|
    && match v
       case None => Read(f, w[at..]) == Absent && next == at
       case Some(x) => Read(f, w[at..]) == Got(x, next - at)
  }

  /** The fields were found one after the other, from position 0 to position n. */
  ghost predicate Parses<V>(fs: seq<Field<V>>, vs: seq<Option<V>>, w: Bytes, n: nat, at: seq<nat>) {
    && |vs| == |fs| && |at| == |fs| + 1 && at[0] == 0 && at[|fs|] == n <= |w|
    && forall i :: 0 <= i < |fs| ==> FoundAt(fs[i], vs[i], w, at[i], at[i + 1])
  }

  /**
   A run of get macros accepts exactly the messages in which every field is found, or an optional one
   is absent, where the field before it ended; one failure is a failure of the run.
   */
  lemma FieldsAreParsed<V>(fs: seq<Field<V>>, w: Bytes, vs: seq<Option<V>>, n: nat)
    ensures ReadFields(fs, w) == Some((vs, n)) <==> exists at :: Parses(fs, vs, w, n, at)
  {
    if ReadFields(fs, w) == Some((vs, n)) {
      var at := Positions(fs, w, vs, n);
    }
    if at :| Parses(fs, vs, w, n, at) {
      ParsedIsRead(fs, w, vs, n, at, ReadFields(fs, w));
    }
  }

  lemma {:induction false} Positions<V>(fs: seq<Field<V>>, w: Bytes, vs: seq<Option<V>>, n: nat) returns (at: seq<nat>)
    requires ReadFields(fs, w) == Some((vs, n))
    ensures Parses(fs, vs, w, n, at)
    decreases |fs|
  {
    if fs == [] {
      at := [0];
    } else {
      var k := FirstFound(fs, w, vs, n);
      var later := Positions(fs[1..], w[k..], vs[1..], n - k);
      FirstAndLater(fs, w, vs, n, k, later);
      at := [0] + Shifted(later, k);
    }
  }

  lemma FirstFound<V>(fs: seq<Field<V>>, w: Bytes, vs: seq<Option<V>>, n: nat) returns (k: nat)
    requires fs != [] && ReadFields(fs, w) == Some((vs, n))
    ensures k <= n && FoundAt(fs[0], vs[0], w, 0, k)
    ensures ReadFields(fs[1..], w[k..]) == Some((vs[1..], n - k))
  {
    var o := Read(fs[0], w);
    assert w[0..] == w;
    k := if o.Got? then o.size else 0;
    var r := ReadFields(fs[1..], w[k..]);
    assert ReadFields(fs, w) == After([vs[0]], k, r);
    assert vs[1..] == r.value.0;
  }

  lemma {:induction false} ParsedIsRead<V>(fs: seq<Field<V>>, w: Bytes, vs: seq<Option<V>>, n: nat, at: seq<nat>, r: Found<V>)
    requires Parses(fs, vs, w, n, at) && r == ReadFields(fs, w)
    ensures r == Some((vs, n))
    decreases |fs|
  {
    if fs == [] {
      assert vs == [];
    } else {
      var k := at[1];
      assert FoundAt(fs[0], vs[0], w, at[0], k);
      PositionsGrow(fs, w, vs, n, at);
      var positions, later := Unshifted(at[1..], k), ReadFields(fs[1..], w[k..]);
      assert at == [0] + Shifted(positions, k);
      FirstAndLater(fs, w, vs, n, k, positions);
      ParsedIsRead(fs[1..], w[k..], vs[1..], n - k, positions, later);
      ReadFirst(fs, w, vs[0], k, later, r);
      Joined(k, later, vs, n, r);
    }
  }

  lemma ReadFirst<V>(fs: seq<Field<V>>, w: Bytes, v: Option<V>, k: nat, later: Found<V>, r: Found<V>)
    requires fs != [] && k <= |w| && FoundAt(fs[0], v, w, 0, k)
    requires later == ReadFields(fs[1..], w[k..]) && r == ReadFields(fs, w)
    ensures r == After([v], k, later)
  {
    FoundFirst(fs[0], v, w, k);
    assert r == GoOn(Read(fs[0], w), fs[1..], w);
  }

  lemma Joined<V>(k: nat, later: Found<V>, vs: seq<Option<V>>, n: nat, r: Found<V>)
    requires vs != [] && k <= n && later == Some((vs[1..], (n - k) as nat)) && r == After([vs[0]], k, later)
    ensures r == Some((vs, n))
  {
    assert [vs[0]] + vs[1..] == vs;
  }

  lemma FoundFirst<V>(f: Field<V>, v: Option<V>, w: Bytes, k: nat)
    requires FoundAt(f, v, w, 0, k)
    ensures v.None? ==> Read(f, w) == Absent && k == 0 && w[k..] == w
    ensures v.Some? ==> Read(f, w) == Got(v.value, k)
  {
    assert w[0..] == w;
  }

  function Shifted(s: seq<nat>, k: nat): (r: seq<nat>)
    ensures |r| == |s| && forall i :: 0 <= i < |s| ==> r[i] == s[i] + k
  {
    seq(|s|, i requires 0 <= i < |s| => s[i] + k)
  }

  function Unshifted(s: seq<nat>, k: nat): (r: seq<nat>)
    requires forall i :: 0 <= i < |s| ==> k <= s[i]
    ensures |r| == |s| && forall i :: 0 <= i < |s| ==> r[i] + k == s[i]
  {
    seq(|s|, i requires 0 <= i < |s| => s[i] - k)
  }

  /** Positions in what is left after k octets, and in the whole. */
  lemma FoundLater<V>(f: Field<V>, v: Option<V>, w: Bytes, k: nat, at: nat, next: nat, at': nat, next': nat)
    requires k <= |w| && at' == k + at && next' == k + next
    ensures FoundAt(f, v, w[k..], at, next) <==> FoundAt(f, v, w, at', next')
  {
    if at' <= |w| {
      DropTwice(w, k, at, at');
    }
  }

  lemma FirstAndLater<V>(fs: seq<Field<V>>, w: Bytes, vs: seq<Option<V>>, n: nat, k: nat, later: seq<nat>)
    requires fs != [] && |vs| == |later| == |fs| && k <= n <= |w| && later[0] == 0
    requires FoundAt(fs[0], vs[0], w, 0, k)
    ensures Parses(fs[1..], vs[1..], w[k..], n - k, later) <==> Parses(fs, vs, w, n, [0] + Shifted(later, k))
  {
    var at := [0] + Shifted(later, k);
    forall i | 1 <= i < |fs|
      ensures FoundAt(fs[1..][i - 1], vs[1..][i - 1], w[k..], later[i - 1], later[i])
         <==> FoundAt(fs[i], vs[i], w, at[i], at[i + 1])
    {
      FoundLater(fs[i], vs[i], w, k, later[i - 1], later[i], at[i], at[i + 1]);
    }
    assert at[0] == 0 && at[1] == k;
    LaterFound(fs, w, vs, k, later, at);
  }

  lemma LaterFound<V>(fs: seq<Field<V>>, w: Bytes, vs: seq<Option<V>>, k: nat, later: seq<nat>, at: seq<nat>)
    requires fs != [] && |vs| == |later| == |fs| && |at| == |fs| + 1 && k <= |w|
    requires FoundAt(fs[0], vs[0], w, at[0], at[1])
    requires forall i :: 1 <= i < |fs| ==>
               (FoundAt(fs[1..][i - 1], vs[1..][i - 1], w[k..], later[i - 1], later[i])
                <==> FoundAt(fs[i], vs[i], w, at[i], at[i + 1]))
    ensures (forall i :: 0 <= i < |fs[1..]| ==> FoundAt(fs[1..][i], vs[1..][i], w[k..], later[i], later[i + 1]))
       <==> (forall i :: 0 <= i < |fs| ==> FoundAt(fs[i], vs[i], w, at[i], at[i + 1]))
  {
    if forall i :: 0 <= i < |fs| ==> FoundAt(fs[i], vs[i], w, at[i], at[i + 1]) {
      forall i | 0 <= i < |fs[1..]| ensures FoundAt(fs[1..][i], vs[1..][i], w[k..], later[i], later[i + 1]) {
        assert FoundAt(fs[i + 1], vs[i + 1], w, at[i + 1], at[i + 2]);
      }
    }
    if forall i :: 0 <= i < |fs[1..]| ==> FoundAt(fs[1..][i], vs[1..][i], w[k..], later[i], later[i + 1]) {
      forall i | 0 <= i < |fs| ensures FoundAt(fs[i], vs[i], w, at[i], at[i + 1]) {
        if i > 0 {
          assert FoundAt(fs[1..][i - 1], vs[1..][i - 1], w[k..], later[i - 1], later[i]);
        }
      }
    }
  }

  lemma PositionsGrow<V>(fs: seq<Field<V>>, w: Bytes, vs: seq<Option<V>>, n: nat, at: seq<nat>)
    requires fs != [] && Parses(fs, vs, w, n, at)
    ensures forall i :: 1 <= i <= |fs| ==> at[1] <= at[i]
  {
    var i := 1;
    while i < |fs|
      invariant 1 <= i <= |fs| && forall j :: 1 <= j <= i ==> at[1] <= at[j]
    {
      assert FoundAt(fs[i], vs[i], w, at[i], at[i + 1]);
      i := i + 1;
    }
  }

  lemma PresentField<V>(fs: seq<Field<V>>, w: Bytes, v: V, n: nat, us: seq<Option<V>>, m: nat)
    requires fs != [] && n <= |w| && Read(fs[0], w) == Got(v, n)
    requires ReadFields(fs[1..], w[n..]) == Some((us, m))
    ensures ReadFields(fs, w) == Some(([Some(v)] + us, n + m))
  {
    GoOnAfter(fs[1..], w, v, n, us, m);
  }

  lemma GoOnAfter<V>(fs: seq<Field<V>>, w: Bytes, v: V, n: nat, us: seq<Option<V>>, m: nat)
    requires n <= |w| && ReadFields(fs, w[n..]) == Some((us, m))
    ensures GoOn(Got(v, n), fs, w) == Some(([Some(v)] + us, n + m))
  {
  }

  lemma AbsentField<V>(fs: seq<Field<V>>, w: Bytes, us: seq<Option<V>>, m: nat)
    requires fs != [] && Read(fs[0], w) == Absent
    requires ReadFields(fs[1..], w) == Some((us, m))
    ensures ReadFields(fs, w) == Some(([None] + us, m))
  {
  }

  // ----- sequences -----

  /** The header `asn1_GetSequence` accepts */
  function ReadSequenceHeader(w: Bytes): (r: Option<Header>)
    ensures r.Some? ==> r == GetObject(w)
  {
    match GetObject(w)
    case None => None
    case Some(h) => if h.tag == V_ASN1_SEQUENCE && h.xclass == V_ASN1_UNIVERSAL then Some(h) else None
  }

  function SequenceContents(h: Header, w: Bytes): Bytes
    requires h.size <= |w| && (h.indefinite || h.size + h.length <= |w|)
  {
    if h.indefinite then w[h.size..] else w[h.size..h.size + h.length]
  }

  function ReadSequence<V>(fs: seq<Field<V>>, w: Bytes): Found<V> {
    match ReadSequenceHeader(w)
    case None => None
    case Some(h) => ReadBody(fs, h, SequenceContents(h, w))
  }

  /** What follows the header h: the fields, then the end of the sequence. */
  function ReadBody<V>(fs: seq<Field<V>>, h: Header, inner: Bytes): Found<V> {
    match ReadFields(fs, inner)
    case None => None
    case Some((vs, n)) =>
      if !h.indefinite then if n == |inner| then Some((vs, h.size + n)) else None
      else if EndsHere(inner[n..]) then Some((vs, h.size + n + EndSize(inner[n..])))
      else None
  }

  /** n octets of the window w are an element with the header h: all of it and no more. */
  predicate EndsElement(h: Header, w: Bytes, n: nat) {
    if !h.indefinite then n == h.size + h.length
    else n == |w| || (h.size + 2 <= n <= |w| && w[n - 2] == 0 && w[n - 1] == 0)
  }

  /** A sequence that is accepted has the tag of one and ends where its header says. */
  lemma AcceptedEnds<V>(fs: seq<Field<V>>, w: Bytes)
    ensures var r := ReadSequence(fs, w);
            r.Some? ==> && GetObject(w).Some? && GetObject(w).value.tag == 16 && GetObject(w).value.xclass == 0
                        && EndsElement(GetObject(w).value, w, r.value.1)
  {
    if ReadSequence(fs, w).Some? {
      var h := GetObject(w).value;
      if h.indefinite {
        IndefiniteOctets(fs, w, h, ReadFields(fs, w[h.size..]));
      } else {
        DefiniteOctets(fs, w, h, ReadFields(fs, w[h.size..h.size + h.length]));
      }
    }
  }

  /** Any other object is refused. */
  lemma OtherObject<V>(fs: seq<Field<V>>, w: Bytes)
    requires GetObject(w).None? || GetObject(w).value.tag != 16 || GetObject(w).value.xclass != 0
    ensures ReadSequence(fs, w) == None
  {
  }

  /** A definite sequence is accepted exactly when its fields take all of its contents. */
  lemma DefiniteOctets<V>(fs: seq<Field<V>>, w: Bytes, h: Header, r: Found<V>)
    requires GetObject(w) == Some(h) && h.tag == 16 && h.xclass == 0 && !h.indefinite
    requires r == ReadFields(fs, w[h.size..h.size + h.length])
    ensures ReadSequence(fs, w) ==
              match r
              case None => None
              case Some((vs, n)) => if n == h.length then Some((vs, h.size + n)) else None
  {
    SequenceBody(fs, w, h, w[h.size..h.size + h.length]);
  }

  /** An indefinite one exactly when after its fields the window is used up or two zero octets follow. */
  lemma IndefiniteOctets<V>(fs: seq<Field<V>>, w: Bytes, h: Header, r: Found<V>)
    requires GetObject(w) == Some(h) && h.tag == 16 && h.xclass == 0 && h.indefinite
    requires r == ReadFields(fs, w[h.size..])
    ensures ReadSequence(fs, w) ==
              match r
              case None => None
              case Some((vs, n)) =>
                if h.size + n == |w| then Some((vs, h.size + n))
                else if h.size + n + 2 <= |w| && w[h.size + n] == 0 && w[h.size + n + 1] == 0
                then Some((vs, h.size + n + 2))
                else None
  {
    var inner := w[h.size..];
    SequenceBody(fs, w, h, inner);
    if r.Some? {
      EndOctets(w, inner, h.size, r.value.1);
    }
  }

  lemma EndOctets(w: Bytes, inner: Bytes, k: nat, n: nat)
    requires k <= |w| && inner == w[k..] && n <= |inner|
    ensures EndsHere(inner[n..]) <==> k + n == |w| || (k + n + 2 <= |w| && w[k + n] == 0 && w[k + n + 1] == 0)
    ensures EndsHere(inner[n..]) ==> EndSize(inner[n..]) == if k + n == |w| then 0 else 2
  {
    DropTwice(w, k, n, k + n);
  }

  lemma SequenceBody<V>(fs: seq<Field<V>>, w: Bytes, h: Header, inner: Bytes)
    requires GetObject(w) == Some(h) && h.tag == V_ASN1_SEQUENCE && h.xclass == V_ASN1_UNIVERSAL
    requires inner == SequenceContents(h, w)
    ensures ReadSequence(fs, w) == ReadBody(fs, h, inner)
  {
  }

  lemma DefiniteForm<V>(fs: seq<Field<V>>, vs: seq<Option<V>>, w: Bytes, header: Header, contents: Bytes, size: nat)
    requires GetObject(w) == Some(header) && header.tag == V_ASN1_SEQUENCE && header.xclass == V_ASN1_UNIVERSAL
    requires SequenceContents(header, w) == contents && !header.indefinite
    requires ReadFields(fs, contents) == Some((vs, |contents|))
    requires size == header.size + |contents|
    ensures ReadSequence(fs, w) == Some((vs, size))
  {
    SequenceBody(fs, w, header, contents);
  }

  lemma DefiniteHeader(e: Bytes, contents: Bytes, rest: Bytes) returns (header: Header)
    requires |contents| < 0x8000_0000
    requires e == PutObject(true, |contents|, V_ASN1_SEQUENCE, V_ASN1_UNIVERSAL) + contents
    ensures GetObject(e + rest) == Some(header) && header.tag == V_ASN1_SEQUENCE && header.xclass == V_ASN1_UNIVERSAL
    ensures !header.indefinite && header.size + |contents| == |e|
    ensures SequenceContents(header, e + rest) == contents
  {
    var h := PutObject(true, |contents|, V_ASN1_SEQUENCE, V_ASN1_UNIVERSAL);
    assert e + rest == h + (contents + rest);
    HeaderRoundTrip(true, |contents|, V_ASN1_SEQUENCE, V_ASN1_UNIVERSAL, contents + rest);
    header := Header(true, false, |contents|, V_ASN1_SEQUENCE, V_ASN1_UNIVERSAL, |h|);
    assert (e + rest)[|h|..|h| + |contents|] == contents;
  }

  lemma IndefiniteSequenceHeader(inner: Bytes, w: Bytes) returns (header: Header)
    requires w == [0x30, 0x80] + inner
    ensures header == Header(true, true, 0, V_ASN1_SEQUENCE, V_ASN1_UNIVERSAL, 2)
    ensures GetObject(w) == Some(header) && SequenceContents(header, w) == inner
  {
    IndefiniteHeader(V_ASN1_SEQUENCE, V_ASN1_UNIVERSAL, inner);
    header := Header(true, true, 0, V_ASN1_SEQUENCE, V_ASN1_UNIVERSAL, 2);
  }
}
