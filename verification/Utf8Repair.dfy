/** The repair of terminal output before it is sent as text (ValidString in api/ws/stream.go),
    against the grammar of UTF-8 in RFC 3629, section 4. */
module Utf8Repair {
  import opened Bytes

  type rune = nat

  const RUNE_ERROR: rune := 0xFFFD

  predicate In(b: byte, lo: int, hi: int) { lo <= b as int <= hi }

  predicate Tail(b: byte) { In(b, 0x80, 0xBF) }

  /** UTF8-char, row by row. */
  predicate Char(w: bytes) {
    match |w|
    case 1 => In(w[0], 0x00, 0x7F)
    case 2 => In(w[0], 0xC2, 0xDF) && Tail(w[1])
    case 3 =>
      Tail(w[2]) &&
      (|| (w[0] == 0xE0 && In(w[1], 0xA0, 0xBF))
       || (In(w[0], 0xE1, 0xEC) && Tail(w[1]))
       || (w[0] == 0xED && In(w[1], 0x80, 0x9F))
       || (In(w[0], 0xEE, 0xEF) && Tail(w[1])))
    case 4 =>
      Tail(w[2]) && Tail(w[3]) &&
      (|| (w[0] == 0xF0 && In(w[1], 0x90, 0xBF))
       || (In(w[0], 0xF1, 0xF3) && Tail(w[1]))
       || (w[0] == 0xF4 && In(w[1], 0x80, 0x8F)))
    case _ => false
  }

  /** How long a character beginning with this byte is, or 0. */
  function Length(b: byte): nat {
    if b as int < 0x80 then 1
    else if In(b, 0xC2, 0xDF) then 2
    else if In(b, 0xE0, 0xEF) then 3
    else if In(b, 0xF0, 0xF4) then 4
    else 0
  }

  /** The length of the character s begins with, or 0 when it begins with none. */
  function Leading(s: bytes): (n: nat)
    requires s != []
    ensures n <= |s|
  {
    var n := Length(s[0]);
    if 0 < n <= |s| && Char(s[..n]) then n else 0
  }

  /** What the language decodes at the front of a string: a rune and its width, or U+FFFD and 1. */
  function Decode(s: bytes): (r: (rune, nat))
    requires s != []
    ensures 0 < r.1 <= |s| && Scalar(r.0)
  {
    var n := Leading(s);
    if n == 0 then (RUNE_ERROR, 1)
    else
      DecodeEncodes(s[..n]);
      (Value(s[..n]), n)
  }

  /** The rune a character stands for. */
  function Value(w: bytes): rune
    requires Char(w)
  {
    match |w|
    case 1 => w[0] as nat
    case 2 => (w[0] as nat - 0xC0) * 64 + (w[1] as nat - 0x80)
    case 3 => ((w[0] as nat - 0xE0) * 64 + (w[1] as nat - 0x80)) * 64 + (w[2] as nat - 0x80)
    case _ => (((w[0] as nat - 0xF0) * 64 + (w[1] as nat - 0x80)) * 64 + (w[2] as nat - 0x80)) * 64 + (w[3] as nat - 0x80)
  }

  /** Unicode scalar values: the code points other than the surrogates. */
  predicate Scalar(r: int) { 0 <= r < 0xD800 || 0xE000 <= r <= 0x10FFFF }

  function Encode(r: rune): (w: bytes)
    requires Scalar(r)
  {
    if r < 0x80 then [r as byte]
    else if r < 0x800 then [(0xC0 + r / 64) as byte, (0x80 + r % 64) as byte]
    else if r < 0x10000 then [(0xE0 + r / 4096) as byte, (0x80 + r / 64 % 64) as byte, (0x80 + r % 64) as byte]
    else [(0xF0 + r / 262144) as byte, (0x80 + r / 4096 % 64) as byte, (0x80 + r / 64 % 64) as byte, (0x80 + r % 64) as byte]
  }

  predicate Scalars(v: seq<rune>) {
    forall i :: 0 <= i < |v| ==> Scalar(v[i])
  }

  function EncodeAll(v: seq<rune>): bytes
    requires Scalars(v)
  {
    if v == [] then [] else Encode(v[0]) + EncodeAll(v[1..])
  }

  lemma Digit(q: nat, d: nat)
    requires d < 64
    ensures (q * 64 + d) / 64 == q && (q * 64 + d) % 64 == d
  {
  }

  lemma Shifted(r: nat)
    ensures r / 4096 == r / 64 / 64 && r / 262144 == r / 64 / 64 / 64
  {
  }

  lemma Undigit(r: nat)
    ensures r == r / 64 * 64 + r % 64
  {
  }

  /** The grammar's characters are exactly the encodings of scalar values. */
  lemma EncodeDecodes(r: rune)
    requires Scalar(r)
    ensures Char(Encode(r)) && Value(Encode(r)) == r
  {
    Shifted(r);
    var q := r / 64;
    var p := q / 64;
    Undigit(r);
    Undigit(q);
    Undigit(p);
    if 0x800 <= r < 0x10000 {
      EncodesToThree(r, q, p);
    } else if 0x10000 <= r {
      EncodesToFour(r, q, p);
    }
  }

  // ----- byte order

  /** Lexicographic order. */
  predicate Before(a: bytes, b: bytes) {
    b != [] && (a == [] || a[0] < b[0] || (a[0] == b[0] && Before(a[1..], b[1..])))
  }

  lemma BeforeIn(a: bytes, b: bytes, k: nat)
    requires k < |a| && k < |b| && a[..k] == b[..k] && a[k] < b[k]
    ensures Before(a, b)
  {
    if k > 0 {
      assert a[0] == a[..k][0] == b[..k][0] == b[0];
      assert a[1..][..k - 1] == a[..k][1..] && b[1..][..k - 1] == b[..k][1..];
      BeforeIn(a[1..], b[1..], k - 1);
    }
  }

  /** The order of code points is the order of their encodings, byte by byte. As the encodings are exactly
      the grammar's characters, this leaves one way to encode. */
  lemma OrderIsKept(r: rune, q: rune)
    requires Scalar(r) && Scalar(q) && r < q
    ensures Before(Encode(r), Encode(q))
  {
    Shifted(r);
    Shifted(q);
    var k := FirstDifference(r, q);
    BeforeIn(Encode(r), Encode(q), k);
  }

  lemma FirstDifference(r: rune, q: rune) returns (k: nat)
    requires Scalar(r) && Scalar(q) && r < q
    requires r / 4096 == r / 64 / 64 && r / 262144 == r / 64 / 64 / 64
    requires q / 4096 == q / 64 / 64 && q / 262144 == q / 64 / 64 / 64
    ensures k < |Encode(r)| && k < |Encode(q)| && Encode(r)[..k] == Encode(q)[..k] && Encode(r)[k] < Encode(q)[k]
  {
    if |Encode(r)| != |Encode(q)| {
      k := 0;
    } else if r < 0x80 {
      k := 0;
    } else if r < 0x800 {
      k := if r / 64 < q / 64 then 0 else 1;
    } else if r < 0x10000 {
      k := if r / 4096 < q / 4096 then 0 else if r / 64 < q / 64 then 1 else 2;
    } else {
      k := if r / 262144 < q / 262144 then 0 else if r / 4096 < q / 4096 then 1 else if r / 64 < q / 64 then 2 else 3;
    }
  }

  lemma EncodesToThree(r: rune, q: nat, p: nat)
    requires Scalar(r) && 0x800 <= r < 0x10000 && r == q * 64 + r % 64 && q == p * 64 + q % 64
    requires r / 4096 == p && r / 64 == q
    ensures Char(Encode(r)) && Value(Encode(r)) == r
  {
    var w := Encode(r);
    assert w[0] as nat == 0xE0 + p && w[1] as nat == 0x80 + q % 64 && w[2] as nat == 0x80 + r % 64;
  }

  lemma EncodesToFour(r: rune, q: nat, p: nat)
    requires Scalar(r) && 0x10000 <= r && r == q * 64 + r % 64 && q == p * 64 + q % 64 && p == p / 64 * 64 + p % 64
    requires r / 262144 == p / 64 && r / 4096 == p && r / 64 == q
    ensures Char(Encode(r)) && Value(Encode(r)) == r
  {
    var w := Encode(r);
    assert w[0] as nat == 0xF0 + p / 64 && w[1] as nat == 0x80 + p % 64 && w[2] as nat == 0x80 + q % 64 && w[3] as nat == 0x80 + r % 64;
  }

  lemma DecodeEncodes(w: bytes)
    requires Char(w)
    ensures Scalar(Value(w)) && Encode(Value(w)) == w
  {
    match |w|
    case 1 =>
    case 2 => Digit(w[0] as nat - 0xC0, w[1] as nat - 0x80);
    case 3 => DecodeEncodesThree(w);
    case _ => DecodeEncodesFour(w);
  }

  lemma DecodeEncodesThree(w: bytes)
    requires Char(w) && |w| == 3
    ensures Scalar(Value(w)) && Encode(Value(w)) == w
  {
    var a, b, c := w[0] as nat - 0xE0, w[1] as nat - 0x80, w[2] as nat - 0x80;
    var r := Value(w);
    Shifted(r);
    Digit(a, b);
    Digit(a * 64 + b, c);
    assert r / 4096 == a && r / 64 % 64 == b && r % 64 == c;
    assert 0x800 <= r < 0x10000;
    assert Encode(r) == [w[0], w[1], w[2]];
  }

  lemma DecodeEncodesFour(w: bytes)
    requires Char(w) && |w| == 4
    ensures Scalar(Value(w)) && Encode(Value(w)) == w
  {
    var a, b, c, d := w[0] as nat - 0xF0, w[1] as nat - 0x80, w[2] as nat - 0x80, w[3] as nat - 0x80;
    var r := Value(w);
    Shifted(r);
    Digit(a, b);
    Digit(a * 64 + b, c);
    Digit((a * 64 + b) * 64 + c, d);
    assert r / 262144 == a && r / 4096 % 64 == b && r / 64 % 64 == c && r % 64 == d;
    assert 0x10000 <= r <= 0x10FFFF;
    assert Encode(r) == [w[0], w[1], w[2], w[3]];
  }

  // ----- the specification

  /** s without every byte at which no character begins. */
  function Repair(s: bytes): bytes {
    if s == [] then []
    else if Leading(s) == 0 then Repair(s[1..])
    else s[..Leading(s)] + Repair(s[Leading(s)..])
  }

  /** s is a sequence of characters. */
  predicate Valid(s: bytes) {
    s == [] || (Leading(s) > 0 && Valid(s[Leading(s)..]))
  }

  lemma {:induction false} EncodeOneMore(v: seq<rune>, r: rune)
    requires Scalars(v) && Scalar(r)
    ensures EncodeAll(v + [r]) == EncodeAll(v) + Encode(r)
  {
    if v == [] {
      assert [] + [r] == [r] && [r][1..] == [];
      assert Encode(r) + [] == [] + Encode(r);
    } else {
      assert (v + [r])[1..] == v[1..] + [r];
      EncodeOneMore(v[1..], r);
      Associate(Encode(v[0]), EncodeAll(v[1..]), Encode(r));
    }
  }

  lemma Associate(a: bytes, b: bytes, c: bytes)
    ensures (a + b) + c == a + (b + c)
  {
  }

  // ----- the code

  /** What a loop that has come to i and kept v will come to. */
  ghost function Total(s: bytes, i: nat, v: seq<rune>): bytes
    requires i <= |s| && Scalars(v)
  {
    EncodeAll(v) + Repair(s[i..])
  }

  lemma SkipKeepsTotal(s: bytes, i: nat, v: seq<rune>)
    requires i < |s| && Scalars(v) && Leading(s[i..]) == 0
    ensures Total(s, i + 1, v) == Total(s, i, v)
  {
    assert s[i..][1..] == s[i + 1..];
  }

  lemma KeepKeepsTotal(s: bytes, i: nat, v: seq<rune>)
    requires i < |s| && Scalars(v) && Leading(s[i..]) > 0
    ensures var n := Leading(s[i..]);
            var r := Value(s[i..][..n]);
            Scalars(v + [r]) && Total(s, i + n, v + [r]) == Total(s, i, v)
  {
    var n := Leading(s[i..]);
    var w := s[i..][..n];
    assert s[i..][n..] == s[i + n..];
    DecodeEncodes(w);
    EncodeOneMore(v, Value(w));
    Associate(EncodeAll(v), w, Repair(s[i + n..]));
  }

  /** One turn of the loop over the runes: the rune at i is kept, unless it is the replacement rune
      for a single byte. */
  method KeepRuneAt(s: bytes, i: nat, v: seq<rune>) returns (next: nat, kept: seq<rune>)
    requires i < |s| && Scalars(v)
    ensures i < next <= |s| && Scalars(kept) && Total(s, next, kept) == Total(s, i, v)
  {
    var (r, size) := Decode(s[i..]);
    if Leading(s[i..]) == 0 {
      SkipKeepsTotal(s, i, v);
    } else {
      KeepKeepsTotal(s, i, v);
    }
    if r == RUNE_ERROR && size == 1 {
      return i + size, v;
    }
    return i + size, v + [r];
  }

  method CollectRunes(s: bytes) returns (v: seq<rune>)
    ensures Scalars(v) && Total(s, |s|, v) == Repair(s)
  {
    v := [];
    var i := 0;
    assert s[i..] == s;
    assert Total(s, i, v) == Repair(s);
    while i < |s|
      invariant 0 <= i <= |s|
      invariant Scalars(v) && Total(s, i, v) == Repair(s)
    {
      i, v := KeepRuneAt(s, i, v);
    }
  }

  method ValidString(s: bytes) returns (out: bytes)
    ensures out == Repair(s)
  {
    if Valid(s) {
      ValidIsRepaired(s);
      return s;
    }
    var v := CollectRunes(s);
    assert s[|s|..] == [];
    out := EncodeAll(v);
  }

  // ----- main results

  lemma {:induction false} ValidIsRepaired(s: bytes)
    ensures Valid(s) <==> Repair(s) == s
    ensures |Repair(s)| <= |s|
    decreases |s|
  {
    if s != [] {
      var n := Leading(s);
      if n == 0 {
        ValidIsRepaired(s[1..]);
      } else {
        ValidIsRepaired(s[n..]);
        assert s == s[..n] + s[n..];
        assert Repair(s)[n..] == Repair(s[n..]);
      }
    }
  }

  /** A character at the front is a matter of its own bytes only. */
  lemma CharLeads(w: bytes, t: bytes)
    requires Char(w)
    ensures Leading(w + t) == |w| && (w + t)[..|w|] == w && (w + t)[|w|..] == t
  {
    assert (w + t)[..|w|] == w;
    assert (w + t)[0] == w[0];
  }

  /** Every character is kept, U+FFFD among them, and repairing goes on behind it. */
  lemma KeepsCharacters(w: bytes, t: bytes)
    requires Char(w)
    ensures Repair(w + t) == w + Repair(t)
  {
    CharLeads(w, t);
  }

  lemma KeepsReplacementCharacter(t: bytes)
    ensures Encode(RUNE_ERROR) == [0xEF, 0xBF, 0xBD]
    ensures Repair([0xEF, 0xBF, 0xBD] + t) == [0xEF, 0xBF, 0xBD] + Repair(t)
  {
    KeepsCharacters([0xEF, 0xBF, 0xBD], t);
  }

  /** The output is always well formed. */
  lemma {:induction false} RepairIsValid(s: bytes)
    ensures Valid(Repair(s))
    decreases |s|
  {
    if s != [] {
      var n := Leading(s);
      if n == 0 {
        RepairIsValid(s[1..]);
      } else {
        RepairIsValid(s[n..]);
        CharLeads(s[..n], Repair(s[n..]));
      }
    }
  }

  lemma RepairIsIdempotent(s: bytes)
    ensures Repair(Repair(s)) == Repair(s)
  {
    RepairIsValid(s);
    ValidIsRepaired(Repair(s));
  }

  /** One way to read a string from left to right: characters, and bytes at which none begins. */
  datatype Piece = Good(w: bytes) | Bad(b: byte)

  predicate Reads(pieces: seq<Piece>, s: bytes) {
    if pieces == [] then s == []
    else match pieces[0]
         case Good(w) => Char(w) && w <= s && Reads(pieces[1..], s[|w|..])
         case Bad(b) => s != [] && s[0] == b && Leading(s) == 0 && Reads(pieces[1..], s[1..])
  }

  function Kept(pieces: seq<Piece>): bytes {
    if pieces == [] then []
    else match pieces[0]
         case Good(w) => w + Kept(pieces[1..])
         case Bad(_) => Kept(pieces[1..])
  }

  /** A string can be read in just one way, and the repair is what that reading keeps. */
  lemma {:induction false} RepairKeepsTheCharacters(pieces: seq<Piece>, s: bytes)
    requires Reads(pieces, s)
    ensures Repair(s) == Kept(pieces)
  {
    if pieces != [] {
      match pieces[0]
      case Good(w) =>
        assert s == w + s[|w|..];
        CharLeads(w, s[|w|..]);
        RepairKeepsTheCharacters(pieces[1..], s[|w|..]);
      case Bad(_) => RepairKeepsTheCharacters(pieces[1..], s[1..]);
    }
  }

  lemma {:induction false} EveryStringReads(s: bytes) returns (pieces: seq<Piece>)
    ensures Reads(pieces, s)
    decreases |s|
  {
    if s == [] {
      pieces := [];
    } else if Leading(s) == 0 {
      pieces := EveryStringReads(s[1..]);
      pieces := [Bad(s[0])] + pieces;
    } else {
      pieces := EveryStringReads(s[Leading(s)..]);
      pieces := [Good(s[..Leading(s)])] + pieces;
    }
  }

  // ----- a stream repaired read by read

  /** A character of a + b begins in a and ends in b. */
  predicate Straddles(a: bytes, b: bytes)
    decreases |a|
  {
    if a == [] then false
    else
      var n := Leading(a + b);
      if n > |a| then true
      else Straddles(a[(if n == 0 then 1 else n)..], b)
  }

  /** A byte in the middle of a character begins none. */
  lemma {:induction false} TailsVanish(y: bytes, b: bytes)
    requires forall i :: 0 <= i < |y| ==> Tail(y[i])
    ensures Repair(y + b) == Repair(b)
  {
    if y == [] {
      assert y + b == b;
    } else {
      assert (y + b)[1..] == y[1..] + b;
      TailsVanish(y[1..], b);
    }
  }

  lemma TailOfChar(w: bytes, i: nat)
    requires Char(w) && 0 < i < |w|
    ensures Tail(w[i])
  {
  }

  /** A proper prefix of a character is no character, and vanishes. */
  lemma PrefixVanishes(w: bytes, k: nat)
    requires Char(w) && 0 < k < |w|
    ensures Repair(w[..k]) == []
  {
    var x := w[..k];
    assert Leading(x) == 0;
    forall i | 0 <= i < |x[1..]| ensures Tail(x[1..][i]) {
      TailOfChar(w, i + 1);
    }
    TailsVanish(x[1..], []);
    assert x[1..] + [] == x[1..];
  }

  lemma LeadingOfPrefix(a: bytes, b: bytes)
    requires a != [] && Leading(a + b) <= |a|
    ensures Leading(a) == Leading(a + b)
  {
    var n := Length(a[0]);
    if n <= |a| {
      assert (a + b)[..n] == a[..n];
    }
  }

  lemma StraddlingCharIsLost(a: bytes, b: bytes)
    requires a != [] && Leading(a + b) > |a|
    ensures Repair(a) == []
    ensures Repair(a + b) == (a + b)[..Leading(a + b)] + Repair(b)
  {
    var s := a + b;
    var n := Leading(s);
    var w := s[..n];
    assert w[..|a|] == a;
    PrefixVanishes(w, |a|);
    var y := w[|a|..];
    forall i | 0 <= i < |y| ensures Tail(y[i]) {
      TailOfChar(w, |a| + i);
    }
    assert b == y + s[n..];
    TailsVanish(y, s[n..]);
  }

  /** Of all that a + b is repaired to, just the character w is lost: a ends with its first k bytes,
      and b begins with the others. */
  ghost predicate Loses(a: bytes, b: bytes, before: bytes, w: bytes, after: bytes, k: nat) {
    && Char(w) && 0 < k < |w| && k <= |a| && a[|a| - k..] == w[..k] && w[k..] <= b
    && Repair(a + b) == before + w + after && Repair(a) == before && Repair(b) == after
  }

  lemma LosesAtOnce(a: bytes, b: bytes)
    requires a != [] && Leading(a + b) > |a|
    ensures Loses(a, b, [], (a + b)[..Leading(a + b)], Repair(b), |a|)
  {
    var s, k := a + b, |a|;
    var w := s[..Leading(s)];
    assert a[|a| - k..] == w[..k];
    assert b[..|w| - k] == w[k..];
    assert [] + w == w;
    StraddlingCharIsLost(a, b);
  }

  lemma LosesBehind(a: bytes, b: bytes, step: nat, before: bytes, w: bytes, after: bytes, k: nat)
    requires a != [] && Leading(a + b) <= |a| && step == (if Leading(a) == 0 then 1 else Leading(a))
    requires Loses(a[step..], b, before, w, after, k)
    ensures Loses(a, b, a[..Leading(a)] + before, w, after, k)
  {
    HeadsAgree(a, b, step);
    Ends(a, step, k);
    Associate(a[..Leading(a)], before, w);
    Associate(a[..Leading(a)], before + w, after);
  }

  lemma Ends(a: bytes, step: nat, k: nat)
    requires step + k <= |a|
    ensures a[step..][|a[step..]| - k..] == a[|a| - k..]
  {
  }

  lemma RepairHead(s: bytes)
    requires s != []
    ensures Repair(s) == s[..Leading(s)] + Repair(s[if Leading(s) == 0 then 1 else Leading(s)..])
  {
  }

  /** A character that ends in the first read is kept, whatever follows. */
  lemma HeadsAgree(a: bytes, b: bytes, step: nat)
    requires a != [] && Leading(a + b) <= |a| && step == (if Leading(a) == 0 then 1 else Leading(a))
    ensures Repair(a) == a[..Leading(a)] + Repair(a[step..])
    ensures Repair(a + b) == a[..Leading(a)] + Repair(a[step..] + b)
  {
    Front(a, b, step);
    Front(a, b, Leading(a));
    LeadingOfPrefix(a, b);
    RepairHead(a + b);
    RepairHead(a);
  }

  lemma Front(a: bytes, b: bytes, n: nat)
    requires n <= |a|
    ensures (a + b)[..n] == a[..n] && (a + b)[n..] == a[n..] + b
  {
  }

  /** A stream that straddles loses one character and nothing else. */
  lemma {:induction false} OneCharacterIsLost(a: bytes, b: bytes) returns (before: bytes, w: bytes, after: bytes, k: nat)
    requires Straddles(a, b)
    ensures Loses(a, b, before, w, after, k)
    decreases |a|
  {
    var n := Leading(a + b);
    if n > |a| {
      LosesAtOnce(a, b);
      before, w, after, k := [], (a + b)[..n], Repair(b), |a|;
    } else {
      LeadingOfPrefix(a, b);
      var step := if n == 0 then 1 else n;
      before, w, after, k := OneCharacterIsLost(a[step..], b);
      LosesBehind(a, b, step, before, w, after, k);
      before := a[..n] + before;
    }
  }

  lemma {:induction false} NothingIsLost(a: bytes, b: bytes)
    requires !Straddles(a, b)
    ensures Repair(a + b) == Repair(a) + Repair(b)
    decreases |a|
  {
    if a == [] {
      assert a + b == b;
    } else {
      LeadingOfPrefix(a, b);
      var n := Leading(a);
      var step := if n == 0 then 1 else n;
      NothingIsLost(a[step..], b);
      HeadsAgree(a, b, step);
      Associate(a[..n], Repair(a[step..]), Repair(b));
    }
  }

  /** Repairing a stream in two reads equals repairing the whole iff no character straddles them. */
  lemma RepairOfReads(a: bytes, b: bytes)
    ensures Repair(a + b) == Repair(a) + Repair(b) <==> !Straddles(a, b)
    ensures |Repair(a + b)| >= |Repair(a) + Repair(b)|
  {
    if Straddles(a, b) {
      var before, w, after, k := OneCharacterIsLost(a, b);
      assert |Repair(a + b)| == |before| + |w| + |after|;
    } else {
      NothingIsLost(a, b);
    }
  }

  /** The shortest case: a character of two bytes, one in each read. */
  lemma TwoByteCharacterIsLost()
    ensures Repair([0xC3, 0xA9]) == [0xC3, 0xA9] && Repair([0xC3]) == [] && Repair([0xA9]) == []
  {
    var w: bytes := [0xC3, 0xA9];
    KeepsCharacters(w, []);
    assert w + [] == w && Repair([]) == [];
    assert Leading([0xC3]) == 0 && Leading([0xA9]) == 0;
    assert [0xC3][1..] == [] && [0xA9][1..] == [];
  }
}
