/** The edge key: its printer (api/chisel/key.go) and its two parsers (pkg/edge/utils.go). */
module EdgeKey {
  import opened Bytes
  import opened Wrappers
  import Base64

  const BAR: byte := 124
  const COLON: byte := 58
  const PLUS: byte := 43
  const MINUS: byte := 45
  const ZERO: byte := 48

  const INT64_MIN := -0x8000_0000_0000_0000
  const INT64_MAX := 0x7FFF_FFFF_FFFF_FFFF

  type int64 = i: int | INT64_MIN <= i <= INT64_MAX

  // ----- lists of fields

  function Join(parts: seq<bytes>): bytes {
    if parts == [] then []
    else if |parts| == 1 then parts[0]
    else parts[0] + [BAR] + Join(parts[1..])
  }

  function Split(s: bytes): (parts: seq<bytes>)
    ensures parts != []
  {
    if s == [] then [[]]
    else
      var rest := Split(s[1..]);
      if s[0] == BAR then [[]] + rest
      else [[s[0]] + rest[0]] + rest[1..]
  }

  /** Splitting a field and a bar in front of a text. */
  lemma {:induction false} SplitField(part: bytes, rest: bytes)
    requires BAR !in part
    ensures Split(part + [BAR] + rest) == [part] + Split(rest)
  {
    var s := part + [BAR] + rest;
    if part == [] {
      assert s[1..] == rest;
    } else {
      assert s[1..] == part[1..] + [BAR] + rest;
      SplitField(part[1..], rest);
      assert [part[0]] + part[1..] == part;
    }
  }

  lemma {:induction false} SplitAlone(part: bytes)
    requires BAR !in part
    ensures Split(part) == [part]
  {
    if part != [] {
      SplitAlone(part[1..]);
      assert [part[0]] + part[1..] == part;
    }
  }

  /** The number of fields is one more than the number of bars. */
  lemma {:induction false} SplitCounts(s: bytes)
    ensures |Split(s)| == multiset(s)[BAR] + 1
  {
    if s != [] {
      assert s == [s[0]] + s[1..];
      SplitCounts(s[1..]);
    }
  }

  lemma {:induction false} JoinCounts(parts: seq<bytes>)
    requires parts != []
    ensures multiset(Join(parts))[BAR] == |parts| - 1 + Bars(parts)
  {
    if |parts| > 1 {
      JoinCounts(parts[1..]);
    } else {
      assert parts[1..] == [];
    }
  }

  function Bars(parts: seq<bytes>): nat {
    if parts == [] then 0 else multiset(parts[0])[BAR] + Bars(parts[1..])
  }

  lemma {:induction false} NoBars(parts: seq<bytes>)
    ensures Bars(parts) == 0 <==> forall i :: 0 <= i < |parts| ==> BAR !in parts[i]
  {
    if parts != [] {
      NoBars(parts[1..]);
      assert multiset(parts[0])[BAR] == 0 <==> BAR !in parts[0];
      assert forall i :: 1 <= i < |parts| ==> parts[i] == parts[1..][i - 1];
    }
  }

  lemma {:induction false} SplitUndoesJoin(parts: seq<bytes>)
    requires parts != [] && forall i :: 0 <= i < |parts| ==> BAR !in parts[i]
    ensures Split(Join(parts)) == parts
  {
    if |parts| == 1 {
      SplitAlone(parts[0]);
    } else {
      var rest := parts[1..];
      assert parts == [parts[0]] + rest;
      assert forall i :: 0 <= i < |rest| ==> rest[i] == parts[i + 1];
      SplitUndoesJoin(rest);
      SplitField(parts[0], Join(rest));
    }
  }

  /** Splitting undoes joining iff no field contains the separator. */
  lemma SplitJoin(parts: seq<bytes>)
    requires parts != []
    ensures |Split(Join(parts))| == |parts| <==> forall i :: 0 <= i < |parts| ==> BAR !in parts[i]
    ensures |Split(Join(parts))| == |parts| ==> Split(Join(parts)) == parts
  {
    SplitCounts(Join(parts));
    JoinCounts(parts);
    NoBars(parts);
    if forall i :: 0 <= i < |parts| ==> BAR !in parts[i] {
      SplitUndoesJoin(parts);
    }
  }

  // ----- decimal numbers

  function Digits(n: nat): bytes {
    var last := (ZERO as int + n % 10) as byte;
    if n < 10 then [last] else Digits(n / 10) + [last]
  }

  function Itoa(i: int): bytes {
    if i < 0 then [MINUS] + Digits(-i) else Digits(i)
  }

  predicate IsDigit(b: byte) { ZERO <= b <= ZERO + 9 }

  /** The value of a non-empty run of digits. */
  function Number(s: bytes): Option<nat> {
    if s == [] || !IsDigit(s[|s| - 1]) then None
    else
      var d := (s[|s| - 1] - ZERO) as nat;
      if |s| == 1 then Some(d)
      else match Number(s[..|s| - 1])
           case None => None
           case Some(n) => Some(10 * n + d)
  }

  /** An optional sign, then digits, for a value of 64 bits. */
  function Atoi(s: bytes): Option<int64> {
    var signed := s != [] && (s[0] == PLUS || s[0] == MINUS);
    match Number(if signed then s[1..] else s)
    case None => None
    case Some(n) =>
      var i: int := if signed && s[0] == MINUS then -(n as int) else n as int;
      if INT64_MIN <= i <= INT64_MAX then Some(i) else None
  }

  lemma {:induction false} NumberOfDigits(n: nat)
    ensures Number(Digits(n)) == Some(n) && IsDigit(Digits(n)[0])
    ensures forall i :: 0 <= i < |Digits(n)| ==> IsDigit(Digits(n)[i])
  {
    if n >= 10 {
      NumberOfDigits(n / 10);
      var s := Digits(n);
      assert s[..|s| - 1] == Digits(n / 10);
    }
  }

  lemma AtoiUndoesItoa(i: int64)
    ensures Atoi(Itoa(i)) == Some(i) && BAR !in Itoa(i)
  {
    var n: nat := if i < 0 then -(i as int) else i as int;
    NumberOfDigits(n);
    if i < 0 {
      assert Itoa(i)[1..] == Digits(n);
    }
  }

  lemma {:induction false} NoLeadingZero(n: nat)
    requires n > 0
    ensures IsDigit(Digits(n)[0]) && Digits(n)[0] != ZERO
  {
    if n >= 10 {
      NoLeadingZero(n / 10);
    }
  }

  /** The decimal form is the shortest one: a minus sign for negative numbers only, then digits of which
      the first is zero only for zero, and then is the only one. */
  lemma DecimalForm(i: int64)
    ensures Itoa(i) != [] && (Itoa(i)[0] == MINUS <==> i < 0)
    ensures var digits := if i < 0 then Itoa(i)[1..] else Itoa(i);
            && digits != [] && (forall k :: 0 <= k < |digits| ==> IsDigit(digits[k]))
            && (digits[0] == ZERO ==> i == 0 && digits == [ZERO])
  {
    var n: nat := if i < 0 then -(i as int) else i as int;
    NumberOfDigits(n);
    if n > 0 {
      NoLeadingZero(n);
    }
    if i < 0 {
      assert Itoa(i)[1..] == Digits(n);
    }
  }

  // ----- the key

  function GenerateEdgeKey(url: bytes, host: bytes, port: bytes, fingerprint: bytes, id: int64): bytes {
    Base64.EncodeToString(Join([url, host + [COLON] + port, fingerprint, Itoa(id)]))
  }

  datatype Parsed<+T> = Value(value: T) | NotBase64 | InvalidFormat | NotANumber

  function GetPortainerURL(edgeKey: bytes): Parsed<bytes> {
    match Base64.DecodeString(edgeKey)
    case None => NotBase64
    case Some(decoded) =>
      var keyInfo := Split(decoded);
      if |keyInfo| != 4 then InvalidFormat
      else if Atoi(keyInfo[3]).None? then InvalidFormat
      else Value(keyInfo[0])
  }

  function GetEndpointID(edgeKey: bytes): Parsed<int64> {
    match Base64.DecodeString(edgeKey)
    case None => NotBase64
    case Some(decoded) =>
      var keyInfo := Split(decoded);
      if |keyInfo| != 4 then InvalidFormat
      else match Atoi(keyInfo[3])
           case None => NotANumber
           case Some(i) => Value(i)
  }

  // ----- main results

  /** On a generated key the parsers return exactly the URL and the identifier, or both reject it,
      which they do iff some field contains the separator. */
  lemma ParsersUndoPrinter(url: bytes, host: bytes, port: bytes, fingerprint: bytes, id: int64)
    ensures var key := GenerateEdgeKey(url, host, port, fingerprint, id);
            if BAR in url || BAR in host || BAR in port || BAR in fingerprint
            then GetPortainerURL(key) == InvalidFormat && GetEndpointID(key) == InvalidFormat
            else GetPortainerURL(key) == Value(url) && GetEndpointID(key) == Value(id)
  {
    var address := host + [COLON] + port;
    var parts := [url, address, fingerprint, Itoa(id)];
    Base64.RoundTrip(Join(parts));
    AtoiUndoesItoa(id);
    SplitJoin(parts);
    assert BAR in address <==> BAR in host || BAR in port;
    assert parts[0] == url && parts[1] == address && parts[2] == fingerprint && parts[3] == Itoa(id);
  }

  /** The two parsers accept the same keys, generated or not. */
  lemma ParsersAgree(key: bytes)
    ensures GetPortainerURL(key).Value? <==> GetEndpointID(key).Value?
    ensures GetPortainerURL(key).NotBase64? <==> GetEndpointID(key).NotBase64?
  {
  }

  /** Keys generated from fields without the separator determine the fields the parsers read. */
  lemma KeysAreDistinct(url: bytes, url': bytes, host: bytes, host': bytes, port: bytes, port': bytes,
                        fingerprint: bytes, fingerprint': bytes, id: int64, id': int64)
    requires BAR !in url && BAR !in host && BAR !in port && BAR !in fingerprint
    requires GenerateEdgeKey(url, host, port, fingerprint, id) == GenerateEdgeKey(url', host', port', fingerprint', id')
    ensures url == url' && id == id'
  {
    ParsersUndoPrinter(url, host, port, fingerprint, id);
    ParsersUndoPrinter(url', host', port', fingerprint', id');
  }

  // ----- the text of a key, and every key that is read

  /** A key is the encoding of its fields in their order: the URL, the tunnel server's host and port,
      its fingerprint, and the identifier. */
  lemma KeyText(url: bytes, host: bytes, port: bytes, fingerprint: bytes, id: int64)
    ensures Base64.DecodeString(GenerateEdgeKey(url, host, port, fingerprint, id))
            == Some(url + [124] + (host + [58] + port + [124] + (fingerprint + [124] + Itoa(id))))
  {
    var parts := [url, host + [COLON] + port, fingerprint, Itoa(id)];
    Base64.RoundTrip(Join(parts));
    JoinFour(parts);
  }

  lemma JoinFour(parts: seq<bytes>)
    requires |parts| == 4
    ensures Join(parts) == parts[0] + [BAR] + (parts[1] + [BAR] + (parts[2] + [BAR] + parts[3]))
  {
    assert Join(parts[3..]) == parts[3];
    assert parts[2..][1..] == parts[3..];
    assert Join(parts[2..]) == parts[2] + [BAR] + Join(parts[3..]);
    assert parts[1..][1..] == parts[2..];
    assert Join(parts[1..]) == parts[1] + [BAR] + Join(parts[2..]);
  }

  /** Joining undoes splitting, and no field has the separator. */
  lemma {:induction false} JoinUndoesSplit(s: bytes)
    ensures Join(Split(s)) == s
    ensures forall i :: 0 <= i < |Split(s)| ==> BAR !in Split(s)[i]
  {
    if s != [] {
      var rest := Split(s[1..]);
      JoinUndoesSplit(s[1..]);
      if s[0] == BAR {
        assert Split(s)[1..] == rest;
        assert [] + [BAR] + Join(rest) == [BAR] + s[1..];
      } else {
        assert Split(s)[1..] == rest[1..];
        if |rest| > 1 {
          assert [s[0]] + rest[0] + [BAR] + Join(rest[1..]) == [s[0]] + (rest[0] + [BAR] + Join(rest[1..]));
        }
      }
    }
  }

  /** A decimal number: digits, and its value by place. */
  lemma {:induction false} NumberOfDigitsOnly(s: bytes)
    ensures Number(s).Some? <==> s != [] && forall i :: 0 <= i < |s| ==> IsDigit(s[i])
  {
    if |s| > 1 {
      NumberOfDigitsOnly(s[..|s| - 1]);
    }
  }

  lemma NumberByPlace(s: bytes, b: byte)
    requires Number(s).Some? && IsDigit(b)
    ensures Number(s + [b]) == Some(10 * Number(s).value + (b as int - 48)) && Number([b]) == Some(b as int - 48)
  {
    assert (s + [b])[..|s|] == s;
  }

  /** What is accepted as an integer: an optional sign, then digits and nothing else, for a value of 64
      bits, which the sign is applied to. */
  lemma IntegersAccepted(s: bytes)
    ensures var signed := s != [] && (s[0] as int == '+' as int || s[0] as int == '-' as int);
            var digits := if signed then s[1..] else s;
            var negative := s != [] && s[0] as int == '-' as int;
            && (Atoi(s).Some? <==>
                  && digits != [] && (forall i :: 0 <= i < |digits| ==> '0' as int <= digits[i] as int <= '9' as int)
                  && Number(digits).Some?
                  && Number(digits).value <= if negative then 0x8000_0000_0000_0000 else 0x7FFF_FFFF_FFFF_FFFF)
            && (Atoi(s).Some? ==>
                  Atoi(s).value as int == if negative then -(Number(digits).value as int) else Number(digits).value as int)
  {
    NumberOfDigitsOnly(if s != [] && (s[0] == PLUS || s[0] == MINUS) then s[1..] else s);
  }

  function FourFields(a: bytes, b: bytes, c: bytes, d: bytes): bytes {
    a + [BAR] + (b + [BAR] + (c + [BAR] + d))
  }

  /** Every key, generated or not: the parsers accept it iff it decodes to four fields of which the last
      is an integer, and then return the first and that integer. They differ in the error they give when
      it is not one. */
  lemma KeysAccepted(key: bytes, a: bytes, b: bytes, c: bytes, d: bytes)
    requires BAR !in a && BAR !in b && BAR !in c && BAR !in d
    requires Base64.DecodeString(key) == Some(FourFields(a, b, c, d))
    ensures GetPortainerURL(key) == if Atoi(d).Some? then Value(a) else InvalidFormat
    ensures GetEndpointID(key) == if Atoi(d).Some? then Value(Atoi(d).value) else NotANumber
  {
    var parts := [a, b, c, d];
    JoinFour(parts);
    SplitUndoesJoin(parts);
  }

  lemma FourPartsAreFields(s: bytes)
    requires |Split(s)| == 4
    ensures exists a: bytes, b: bytes, c: bytes, d: bytes ::
              BAR !in a && BAR !in b && BAR !in c && BAR !in d && s == FourFields(a, b, c, d)
  {
    var parts := Split(s);
    JoinUndoesSplit(s);
    JoinFour(parts);
    assert s == FourFields(parts[0], parts[1], parts[2], parts[3]);
  }

  lemma OtherKeysAreRejected(key: bytes)
    requires forall a: bytes, b: bytes, c: bytes, d: bytes :: BAR !in a && BAR !in b && BAR !in c && BAR !in d
               ==> Base64.DecodeString(key) != Some(FourFields(a, b, c, d))
    ensures GetPortainerURL(key) == if Base64.DecodeString(key).None? then NotBase64 else InvalidFormat
    ensures GetEndpointID(key) == if Base64.DecodeString(key).None? then NotBase64 else InvalidFormat
  {
    match Base64.DecodeString(key)
    case None =>
    case Some(decoded) =>
      assert |Split(decoded)| == 4 ==> exists a: bytes, b: bytes, c: bytes, d: bytes ::
          BAR !in a && BAR !in b && BAR !in c && BAR !in d && decoded == FourFields(a, b, c, d) by {
        if |Split(decoded)| == 4 { FourPartsAreFields(decoded); }
      }
  }
}
