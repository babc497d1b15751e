/** What splitting an exec command (api/ws/command.go) means for the bytes of the command: they are
    conserved iff the command is well-formed text. */
module ExecBytes {
  import opened Bytes
  import opened ExecCommand
  import opened Utf8Repair
  import opened Utf8Text

  const QUOTE_BYTE: byte := 39
  const SPACE_BYTE: byte := 32

  // ----- conservation

  /** The bytes of a command without its quotes and without its unquoted spaces. */
  function ContentBytes(rest: bytes, inQuote: bool): bytes {
    if rest == [] then []
    else if rest[0] == QUOTE_BYTE then ContentBytes(rest[1..], !inQuote)
    else if rest[0] == SPACE_BYTE && !inQuote then ContentBytes(rest[1..], inQuote)
    else [rest[0]] + ContentBytes(rest[1..], inQuote)
  }

  /** Bytes beyond ASCII are neither quotes nor spaces. */
  lemma {:induction false} ContentKeeps(w: bytes, t: bytes, inQuote: bool)
    requires forall i :: 0 <= i < |w| ==> !IsAscii(w[i])
    ensures ContentBytes(w + t, inQuote) == w + ContentBytes(t, inQuote)
  {
    if w == [] {
      assert w + t == t && w + ContentBytes(t, inQuote) == ContentBytes(t, inQuote);
    } else {
      assert (w + t)[1..] == w[1..] + t;
      ContentKeeps(w[1..], t, inQuote);
      assert [w[0]] + (w[1..] + ContentBytes(t, inQuote)) == w + ContentBytes(t, inQuote);
    }
  }

  lemma {:induction false} ContentIsScalar(v: text, inQuote: bool)
    requires Scalars(v)
    ensures Scalars(Content(v, inQuote))
  {
    if v != [] {
      if v[0] == QUOTE {
        ContentIsScalar(v[1..], !inQuote);
      } else {
        ContentIsScalar(v[1..], inQuote);
      }
    }
  }

  /** The text that is left of a command, written. */
  ghost function ContentWritten(s: bytes, inQuote: bool): bytes {
    ContentIsScalar(Runes(s), inQuote);
    EncodeAll(Content(Runes(s), inQuote))
  }

  /** What a first rune that is not ASCII contributes. */
  lemma BeyondAscii(s: bytes, inQuote: bool)
    requires s != [] && !IsAscii(s[0])
    ensures var (r, size) := Decode(s); ContentWritten(s, inQuote) == Encode(r) + ContentWritten(s[size..], inQuote)
  {
    var (r, size) := Decode(s);
    if Leading(s) > 0 {
      EncodeValue(s);
      assert r >= 0x80;
    }
    var rest := Runes(s[size..]);
    assert Runes(s)[1..] == rest;
    ContentIsScalar(rest, inQuote);
    EncodeFirst(r, Content(rest, inQuote));
  }

  lemma AsciiFirst(s: bytes, inQuote: bool)
    requires s != [] && IsAscii(s[0])
    ensures ContentWritten(s, inQuote)
            == if s[0] == QUOTE_BYTE then ContentWritten(s[1..], !inQuote)
               else if s[0] == SPACE_BYTE && !inQuote then ContentWritten(s[1..], inQuote)
               else [s[0]] + ContentWritten(s[1..], inQuote)
  {
    var rest := Runes(s[1..]);
    assert s == [s[0]] + s[1..];
    AsciiLeads(s[0], s[1..]);
    assert Runes(s)[1..] == rest;
    ContentIsScalar(rest, inQuote);
    EncodeFirst(s[0] as nat, Content(rest, inQuote));
  }

  lemma BytesOfChar(s: bytes)
    requires s != [] && !IsAscii(s[0])
    ensures forall i :: 0 <= i < Leading(s) ==> !IsAscii(s[i])
  {
    forall i | 0 <= i < Leading(s) ensures !IsAscii(s[i]) {
      if i > 0 {
        TailOfChar(s[..Leading(s)], i);
      }
    }
  }

  /** The written text is the content of the bytes, but for each byte that began no character. */
  lemma {:induction false} ContentWrittenIs(s: bytes, inQuote: bool)
    ensures |ContentWritten(s, inQuote)| == |ContentBytes(s, inQuote)| + 2 * StrayBytes(s)
    ensures StrayBytes(s) == 0 ==> ContentWritten(s, inQuote) == ContentBytes(s, inQuote)
    decreases |s|
  {
    if s == [] {
    } else if IsAscii(s[0]) {
      assert s == [s[0]] + s[1..];
      AsciiLeads(s[0], s[1..]);
      AsciiFirst(s, inQuote);
      ContentWrittenIs(s[1..], if s[0] == QUOTE_BYTE then !inQuote else inQuote);
    } else {
      var (r, size) := Decode(s);
      assert s == s[..size] + s[size..];
      BeyondAscii(s, inQuote);
      BytesOfChar(s);
      ContentKeeps(s[..size], s[size..], inQuote);
      ContentWrittenIs(s[size..], inQuote);
      if Leading(s) > 0 {
        EncodeValue(s);
      }
    }
  }

  lemma EncodedRest(parts: seq<text>)
    requires AllScalars(parts) && parts != []
    ensures AllScalars(parts[1..]) && Encoded(parts)[0] == EncodeAll(parts[0]) && Encoded(parts)[1..] == Encoded(parts[1..])
  {
    forall i | 0 <= i < |parts[1..]| ensures parts[1..][i] == parts[i + 1] && Scalars(parts[1..][i]) {
    }
    var all, rest := Encoded(parts)[1..], Encoded(parts[1..]);
    forall i | 0 <= i < |rest| ensures all[i] == rest[i] {
    }
  }

  lemma {:induction false} ConcatEncoded(parts: seq<text>)
    requires AllScalars(parts)
    ensures Scalars(Concat(parts)) && Concat(Encoded(parts)) == EncodeAll(Concat(parts))
  {
    if parts != [] {
      ConcatEncoded(parts[1..]);
      EncodedRest(parts);
      EncodeAppend(parts[0], Concat(parts[1..]));
    }
  }

  /** The tokens together are the bytes of the command without its quotes and unquoted spaces iff the
      command is well formed; each byte that begins no character makes them two bytes longer. */
  lemma TokensConserveBytes(command: bytes)
    ensures Concat(Tokens(command)) == ContentBytes(command, false) <==> Valid(command)
    ensures |Concat(Tokens(command))| == |ContentBytes(command, false)| + 2 * StrayBytes(command)
  {
    ScanKeepsScalars(Runes(command), [], false, false);
    ConcatEncoded(Split(Runes(command)));
    SplitConserves(Runes(command));
    ContentWrittenIs(command, false);
    ValidHasNoStray(command);
  }

  // ----- quoting and joining

  function JoinBytes(args: seq<bytes>): bytes {
    if args == [] then []
    else [QUOTE_BYTE] + (args[0] + ([QUOTE_BYTE] + if |args| == 1 then [] else [SPACE_BYTE] + JoinBytes(args[1..])))
  }

  function AllRunes(args: seq<bytes>): seq<text> {
    seq(|args|, i requires 0 <= i < |args| => Runes(args[i]))
  }

  /** A joined command is read as the join of what its arguments are read as. */
  lemma {:induction false} RunesOfJoin(args: seq<bytes>)
    ensures Runes(JoinBytes(args)) == Join(AllRunes(args))
  {
    if args != [] {
      var rest := if |args| == 1 then [] else [SPACE_BYTE] + JoinBytes(args[1..]);
      RunesBeforeAscii([], QUOTE_BYTE, args[0] + ([QUOTE_BYTE] + rest));
      RunesBeforeAscii(args[0], QUOTE_BYTE, rest);
      assert [] + JoinBytes(args) == JoinBytes(args);
      if |args| > 1 {
        RunesOfJoin(args[1..]);
        RunesBeforeAscii([], SPACE_BYTE, JoinBytes(args[1..]));
        assert [] + rest == rest;
        assert AllRunes(args)[1..] == AllRunes(args[1..]);
      }
      JoinStep(AllRunes(args), Runes(rest));
    }
  }

  lemma JoinStep(args: seq<text>, rest: text)
    requires args != [] && rest == if |args| == 1 then [] else [SPACE] + Join(args[1..])
    ensures Join(args) == [QUOTE] + (args[0] + ([QUOTE] + rest))
  {
  }

  /** Splitting a command that quotes and joins its arguments gives them back, each as it is read and
      written again. */
  lemma TokensOfJoin(args: seq<bytes>)
    requires forall i :: 0 <= i < |args| ==> QUOTE_BYTE !in args[i]
    ensures Tokens(JoinBytes(args)) == Encoded(AllRunes(args))
  {
    forall i | 0 <= i < |args| ensures QUOTE !in AllRunes(args)[i] {
      AsciiInRunes(args[i], QUOTE_BYTE);
    }
    RunesOfJoin(args);
    JoinThenSplit(AllRunes(args));
  }

  /** So quoting and joining are undone by splitting iff every argument is well formed. */
  lemma JoinThenTokens(args: seq<bytes>)
    requires forall i :: 0 <= i < |args| ==> QUOTE_BYTE !in args[i]
    ensures Tokens(JoinBytes(args)) == args <==> forall i :: 0 <= i < |args| ==> Valid(args[i])
  {
    TokensOfJoin(args);
    forall i | 0 <= i < |args| ensures Encoded(AllRunes(args))[i] == args[i] <==> Valid(args[i]) {
      EncodingOfRunes(args[i]);
    }
    if forall i :: 0 <= i < |args| ==> Valid(args[i]) {
      assert Encoded(AllRunes(args)) == args;
    }
  }

  /** Every command, well formed or not, means the same as its tokens quoted and joined. */
  lemma TokensNormalize(command: bytes)
    ensures Tokens(JoinBytes(Tokens(command))) == Tokens(command)
  {
    var parts := Split(Runes(command));
    ScanKeepsScalars(Runes(command), [], false, false);
    ScanHasNoQuotes(Runes(command), [], false, false);
    forall i | 0 <= i < |parts| ensures QUOTE_BYTE !in Encoded(parts)[i] && Runes(Encoded(parts)[i]) == parts[i] {
      AsciiInText(parts[i], QUOTE_BYTE);
      RunesOfEncoding(parts[i]);
    }
    TokensOfJoin(Encoded(parts));
    assert AllRunes(Encoded(parts)) == parts;
  }

  /** The shortest command that is not conserved: one byte that begins no character. */
  lemma StrayByteGrows()
    ensures Tokens([0xFF]) == [[0xEF, 0xBF, 0xBD]]
  {
    var s: bytes := [0xFF];
    assert Leading(s) == 0 && s[1..] == [];
    assert Runes(s) == [RUNE_ERROR] + Runes([]) == [RUNE_ERROR];
    ScanNext(RUNE_ERROR, [], [], false, false);
    assert [RUNE_ERROR] + [] == [RUNE_ERROR] && [] + [RUNE_ERROR] == [RUNE_ERROR];
    assert Split([RUNE_ERROR]) == [[RUNE_ERROR]];
    EncodeFirst(RUNE_ERROR, []);
    KeepsReplacementCharacter([]);
    var token: bytes := [0xEF, 0xBF, 0xBD];
    assert EncodeAll([RUNE_ERROR]) == token + [] == token;
    assert Encoded([[RUNE_ERROR]]) == [token];
  }
}
