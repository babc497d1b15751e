/** Base64 without padding, as in sections 3.2 and 4 of RFC 4648 and the standard library's
    RawStdEncoding. */
module Base64 {
  import opened Bytes
  import opened Wrappers

  type digit = d: nat | d < 64

  function Symbol(d: digit): byte {
    if d < 26 then (65 + d) as byte          // A-Z
    else if d < 52 then (97 + (d - 26)) as byte   // a-z
    else if d < 62 then (48 + (d - 52)) as byte   // 0-9
    else if d == 62 then 43                  // +
    else 47                                  // /
  }

  function Digit(b: byte): Option<digit> {
    var c := b as nat;
    if 65 <= c <= 90 then Some(c - 65)
    else if 97 <= c <= 122 then Some(c - 97 + 26)
    else if 48 <= c <= 57 then Some(c - 48 + 52)
    else if c == 43 then Some(62)
    else if c == 47 then Some(63)
    else None
  }

  // The digits that three bytes are cut into, and the bytes that four digits are put together to.

  function First(a: byte): digit { a as int / 4 }

  function Second(a: byte, b: byte): digit { a as int % 4 * 16 + b as int / 16 }

  function Third(b: byte, c: byte): digit { b as int % 16 * 4 + c as int / 64 }

  function Fourth(c: byte): digit { c as int % 64 }

  function High(w: digit, x: digit): byte { (w as int * 4 + x as int / 16) as byte }

  function Middle(x: digit, y: digit): byte { (x as int % 16 * 16 + y as int / 4) as byte }

  function Low(y: digit, z: digit): byte { (y as int % 4 * 64 + z as int) as byte }

  /** Three bytes are four digits; one or two bytes at the end are two or three. */
  function EncodeDigits(s: bytes): seq<digit> {
    if s == [] then []
    else if |s| == 1 then [First(s[0]), Second(s[0], 0)]
    else if |s| == 2 then [First(s[0]), Second(s[0], s[1]), Third(s[1], 0)]
    else [First(s[0]), Second(s[0], s[1]), Third(s[1], s[2]), Fourth(s[2])] + EncodeDigits(s[3..])
  }

  /** The inverse; a single digit left over is an error, and its unused low bits are not looked at. */
  function DecodeDigits(d: seq<digit>): Option<bytes> {
    if d == [] then Some([])
    else if |d| == 1 then None
    else if |d| == 2 then Some([High(d[0], d[1])])
    else if |d| == 3 then Some([High(d[0], d[1]), Middle(d[1], d[2])])
    else
      match DecodeDigits(d[4..])
      case None => None
      case Some(rest) => Some([High(d[0], d[1]), Middle(d[1], d[2]), Low(d[2], d[3])] + rest)
  }

  function Symbols(d: seq<digit>): bytes {
    seq(|d|, i requires 0 <= i < |d| => Symbol(d[i]))
  }

  /** The digits of a text; line breaks are skipped, anything else outside the alphabet is an error. */
  function ReadDigits(s: bytes): Option<seq<digit>> {
    if s == [] then Some([])
    else
      match ReadDigits(s[1..])
      case None => None
      case Some(rest) =>
        if s[0] == 10 || s[0] == 13 then Some(rest)
        else match Digit(s[0])
             case None => None
             case Some(d) => Some([d] + rest)
  }

  function EncodeToString(s: bytes): bytes {
    Symbols(EncodeDigits(s))
  }

  function DecodeString(s: bytes): Option<bytes> {
    match ReadDigits(s)
    case None => None
    case Some(d) => DecodeDigits(d)
  }

  /** The bytes that were cut are the bytes put together. */
  lemma Regroup(a: byte, b: byte, c: byte)
    ensures High(First(a), Second(a, b)) == a
    ensures Middle(Second(a, b), Third(b, c)) == b
    ensures Low(Third(b, c), Fourth(c)) == c
  {
  }

  lemma {:induction false} DigitsRoundTrip(s: bytes)
    ensures DecodeDigits(EncodeDigits(s)) == Some(s)
  {
    if |s| == 1 {
      assert s == [s[0]];
      Regroup(s[0], 0, 0);
    } else if |s| == 2 {
      assert s == [s[0], s[1]];
      Regroup(s[0], s[1], 0);
    } else if s != [] {
      assert s == [s[0], s[1], s[2]] + s[3..];
      assert EncodeDigits(s)[4..] == EncodeDigits(s[3..]);
      DigitsRoundTrip(s[3..]);
      Regroup(s[0], s[1], s[2]);
    }
  }

  lemma SymbolRoundTrip(d: digit)
    ensures Digit(Symbol(d)) == Some(d) && Symbol(d) != 10 && Symbol(d) != 13
  {
  }

  lemma {:induction false} SymbolsRoundTrip(d: seq<digit>)
    ensures ReadDigits(Symbols(d)) == Some(d)
  {
    if d != [] {
      SymbolRoundTrip(d[0]);
      assert Symbols(d)[1..] == Symbols(d[1..]);
      SymbolsRoundTrip(d[1..]);
      assert d == [d[0]] + d[1..];
    }
  }

  /** Decoding undoes encoding. */
  lemma RoundTrip(s: bytes)
    ensures DecodeString(EncodeToString(s)) == Some(s)
  {
    SymbolsRoundTrip(EncodeDigits(s));
    DigitsRoundTrip(s);
  }

  // ----- that it is the standard encoding

  /** The alphabet of table 1 of RFC 4648: letters, digits, plus and slash, each run in its order. */
  lemma SymbolIsStandard(d: digit)
    ensures Symbol(0) as int == 'A' as int && Symbol(26) as int == 'a' as int && Symbol(52) as int == '0' as int
    ensures Symbol(62) as int == '+' as int && Symbol(63) as int == '/' as int
    ensures d + 1 !in {26, 52, 62, 63, 64} ==> Symbol(d + 1) as int == Symbol(d) as int + 1
  {
  }

  /** Digits are cut off from the most significant bit on. */
  lemma GroupIsBigEndian(a: byte, b: byte, c: byte)
    ensures ((First(a) * 64 + Second(a, b)) * 64 + Third(b, c)) * 64 + Fourth(c) == (a as int * 256 + b as int) * 256 + c as int
  {
  }

  /** Four symbols for three bytes, and none in place of bytes that are missing. */
  lemma {:induction false} EncodedLength(s: bytes)
    ensures |EncodeToString(s)| == |s| / 3 * 4 + (if |s| % 3 == 0 then 0 else |s| % 3 + 1)
  {
    if |s| >= 3 {
      EncodedLength(s[3..]);
    }
  }

  /** The bytes of the alphabet, and those that are skipped. */
  predicate Known(b: byte) {
    Digit(b).Some? || b == 10 || b == 13
  }

  lemma DigitOfSymbolOnly(b: byte)
    ensures Digit(b).Some? ==> Symbol(Digit(b).value) == b
  {
  }

  lemma {:induction false} NewlinesAreSkipped(a: bytes, newline: byte, b: bytes)
    requires newline == 10 || newline == 13
    ensures ReadDigits(a + ([newline] + b)) == ReadDigits(a + b)
  {
    if a == [] {
      assert a + ([newline] + b) == [newline] + b && ([newline] + b)[1..] == b && a + b == b;
    } else {
      assert (a + ([newline] + b))[1..] == a[1..] + ([newline] + b) && (a + b)[1..] == a[1..] + b;
      NewlinesAreSkipped(a[1..], newline, b);
    }
  }

  lemma {:induction false} ReadFails(s: bytes)
    ensures ReadDigits(s).None? <==> exists i :: 0 <= i < |s| && !Known(s[i])
  {
    if s != [] {
      ReadFails(s[1..]);
      assert forall i :: 1 <= i < |s| ==> s[i] == s[1..][i - 1];
    }
  }

  lemma {:induction false} DecodeDigitsFails(d: seq<digit>)
    ensures DecodeDigits(d).None? <==> |d| % 4 == 1
  {
    if |d| >= 4 {
      assert |d[4..]| == |d| - 4 && (|d| - 4) % 4 == |d| % 4;
      DecodeDigitsFails(d[4..]);
    } else {
      assert |d| % 4 == |d|;
    }
  }

  /** Decoding fails iff there is a foreign byte, or one symbol is left over. */
  lemma DecodeFails(s: bytes)
    ensures DecodeString(s).None? <==>
              (exists i :: 0 <= i < |s| && !Known(s[i])) || (ReadDigits(s).Some? && |ReadDigits(s).value| % 4 == 1)
  {
    ReadFails(s);
    if ReadDigits(s).Some? {
      DecodeDigitsFails(ReadDigits(s).value);
    }
  }
}
