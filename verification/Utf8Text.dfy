/** A byte string as the sequence of runes that ranging over it yields, and back: each byte at which
    no character begins is read as U+FFFD, and written as the three bytes of that. */
module Utf8Text {
  import opened Bytes
  import opened Utf8Repair

  type text = seq<rune>

  function Runes(s: bytes): (v: text)
    ensures Scalars(v)
  {
    if s == [] then []
    else
      var (r, size) := Decode(s);
      [r] + Runes(s[size..])
  }

  /** The number of bytes at which no character begins. */
  function StrayBytes(s: bytes): nat {
    if s == [] then 0
    else if Leading(s) == 0 then 1 + StrayBytes(s[1..])
    else StrayBytes(s[Leading(s)..])
  }

  lemma {:induction false} ValidHasNoStray(s: bytes)
    ensures Valid(s) <==> StrayBytes(s) == 0
    decreases |s|
  {
    if s != [] {
      ValidHasNoStray(s[if Leading(s) == 0 then 1 else Leading(s)..]);
    }
  }

  lemma {:induction false} EncodeAppend(v: text, w: text)
    requires Scalars(v) && Scalars(w)
    ensures Scalars(v + w) && EncodeAll(v + w) == EncodeAll(v) + EncodeAll(w)
  {
    if v == [] {
      assert v + w == w;
    } else {
      assert (v + w)[1..] == v[1..] + w;
      EncodeAppend(v[1..], w);
      Associate(Encode(v[0]), EncodeAll(v[1..]), EncodeAll(w));
    }
  }

  lemma EncodeFirst(r: rune, v: text)
    requires Scalar(r) && Scalars(v)
    ensures Scalars([r] + v) && EncodeAll([r] + v) == Encode(r) + EncodeAll(v)
  {
    assert ([r] + v)[1..] == v;
  }

  /** Whatever is written is read back. */
  lemma {:induction false} RunesOfEncoding(v: text)
    requires Scalars(v)
    ensures Runes(EncodeAll(v)) == v
  {
    if v != [] {
      EncodeDecodes(v[0]);
      CharLeads(Encode(v[0]), EncodeAll(v[1..]));
      RunesOfEncoding(v[1..]);
      assert v == [v[0]] + v[1..];
    }
  }

  lemma EncodeValue(s: bytes)
    requires s != [] && Leading(s) > 0
    ensures Decode(s).1 == Leading(s) && Encode(Decode(s).0) == s[..Leading(s)]
  {
    DecodeEncodes(s[..Leading(s)]);
  }

  /** Writing what was read is two bytes longer for each byte that began no character, and gives the
      string back iff there was none. */
  lemma {:induction false} EncodingOfRunes(s: bytes)
    ensures |EncodeAll(Runes(s))| == |s| + 2 * StrayBytes(s)
    ensures EncodeAll(Runes(s)) == s <==> Valid(s)
    decreases |s|
  {
    ValidHasNoStray(s);
    if s != [] {
      var (r, size) := Decode(s);
      EncodeFirst(r, Runes(s[size..]));
      EncodingOfRunes(s[size..]);
      ValidHasNoStray(s[size..]);
      assert s == s[..size] + s[size..];
      if Leading(s) > 0 {
        EncodeValue(s);
      }
    }
  }

  // ----- ASCII stands for itself

  predicate IsAscii(b: byte) { b as int < 0x80 }

  lemma AsciiLeads(b: byte, t: bytes)
    requires IsAscii(b)
    ensures Decode([b] + t) == (b as nat, 1) && ([b] + t)[1..] == t
  {
    assert ([b] + t)[..1] == [b];
  }

  /** No character extends over an ASCII byte behind its beginning. */
  lemma LeadingBeforeAscii(a: bytes, b: byte, t: bytes)
    requires a != [] && IsAscii(b)
    ensures Leading(a + ([b] + t)) == Leading(a)
  {
    var s := a + ([b] + t);
    var n := Leading(s);
    if n > |a| {
      assert s[..n][|a|] == b;
      TailOfChar(s[..n], |a|);
      assert false;
    }
    LeadingOfPrefix(a, [b] + t);
  }

  /** A string is read in two parts when the second begins with an ASCII byte. */
  lemma {:induction false} RunesBeforeAscii(a: bytes, b: byte, t: bytes)
    requires IsAscii(b)
    ensures Runes(a + ([b] + t)) == Runes(a) + ([b as nat] + Runes(t))
    decreases |a|
  {
    if a == [] {
      assert a + ([b] + t) == [b] + t;
      AsciiLeads(b, t);
    } else {
      var s := a + ([b] + t);
      var (r, size) := Decode(a);
      Front(a, [b] + t, size);
      LeadingBeforeAscii(a, b, t);
      assert Decode(s) == (r, size);
      RunesBeforeAscii(a[size..], b, t);
    }
  }

  /** Every other character is written without ASCII bytes. */
  lemma AsciiOnlyAlone(r: rune, b: byte)
    requires Scalar(r) && IsAscii(b)
    ensures b in Encode(r) <==> r == b as nat
  {
    EncodeDecodes(r);
    var w := Encode(r);
    if r >= 0x80 && b in w {
      var i :| 0 <= i < |w| && w[i] == b;
      if i > 0 {
        TailOfChar(w, i);
      }
      assert false;
    }
  }

  lemma {:induction false} AsciiInText(v: text, b: byte)
    requires Scalars(v) && IsAscii(b)
    ensures b in EncodeAll(v) <==> b as nat in v
  {
    if v != [] {
      AsciiOnlyAlone(v[0], b);
      AsciiInText(v[1..], b);
      assert v == [v[0]] + v[1..];
    }
  }

  /** An ASCII byte is in a string iff its rune is read from it. */
  lemma {:induction false} AsciiInRunes(s: bytes, b: byte)
    requires IsAscii(b)
    ensures b as nat in Runes(s) <==> b in s
    decreases |s|
  {
    if s != [] {
      var (r, size) := Decode(s);
      AsciiInRunes(s[size..], b);
      assert s == s[..size] + s[size..];
      if Leading(s) > 0 {
        EncodeValue(s);
        AsciiOnlyAlone(r, b);
      }
    }
  }
}
