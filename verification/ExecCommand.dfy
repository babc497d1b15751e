/** Splitting an exec command into its arguments (api/ws/command.go), with the single quotes of
    IEEE Std 1003.1, Shell Command Language, section 2.2.2. A command is ranged over rune by rune. */
module ExecCommand {
  import opened Bytes
  import opened Utf8Repair
  import opened Utf8Text

  const QUOTE: rune := 39
  const SPACE: rune := 32

  /** What is left to emit from a given point of the loop. */
  function Scan(rest: text, current: text, inQuote: bool, started: bool): seq<text> {
    if rest == [] then
      if started then [current] else []
    else if rest[0] == QUOTE then
      Scan(rest[1..], current, !inQuote, true)
    else if rest[0] == SPACE && !inQuote then
      if started then [current] + Scan(rest[1..], [], inQuote, false) else Scan(rest[1..], current, inQuote, started)
    else
      Scan(rest[1..], current + [rest[0]], inQuote, true)
  }

  function Split(command: text): seq<text> {
    Scan(command, [], false, false)
  }

  ghost predicate AllScalars(parts: seq<text>) {
    forall i :: 0 <= i < |parts| ==> Scalars(parts[i])
  }

  ghost function Encoded(parts: seq<text>): seq<bytes>
    requires AllScalars(parts)
  {
    seq(|parts|, i requires 0 <= i < |parts| => EncodeAll(parts[i]))
  }

  lemma {:induction false} ScanKeepsScalars(rest: text, current: text, inQuote: bool, started: bool)
    requires Scalars(rest) && Scalars(current)
    ensures AllScalars(Scan(rest, current, inQuote, started))
  {
    if rest != [] {
      if rest[0] == QUOTE {
        ScanKeepsScalars(rest[1..], current, !inQuote, true);
      } else if rest[0] == SPACE && !inQuote {
        ScanKeepsScalars(rest[1..], if started then [] else current, inQuote, false);
      } else {
        ScanKeepsScalars(rest[1..], current + [rest[0]], inQuote, true);
      }
    }
  }

  /** The tokens of a command, in bytes. */
  ghost function Tokens(command: bytes): seq<bytes> {
    ScanKeepsScalars(Runes(command), [], false, false);
    Encoded(Split(Runes(command)))
  }

  // ----- the code

  /** The tokens so far, the one being built, and what is still to come. */
  ghost predicate SoFar(command: bytes, i: nat, args: seq<bytes>, current: bytes, inQuote: bool, started: bool,
                        done: seq<text>, building: text)
  {
    && i <= |command| && AllScalars(done) && Scalars(building)
    && args == Encoded(done) && current == EncodeAll(building)
    && Split(Runes(command)) == done + Scan(Runes(command[i..]), building, inQuote, started)
  }

  lemma ScanNext(r: rune, rest: text, current: text, inQuote: bool, started: bool)
    ensures Scan([r] + rest, current, inQuote, started)
            == if r == QUOTE then Scan(rest, current, !inQuote, true)
               else if r == SPACE && !inQuote then
                 if started then [current] + Scan(rest, [], inQuote, false) else Scan(rest, current, inQuote, started)
               else Scan(rest, current + [r], inQuote, true)
  {
    assert ([r] + rest)[1..] == rest;
  }

  lemma EndOfToken(done: seq<text>, building: text, args: seq<bytes>, later: seq<text>)
    requires AllScalars(done) && Scalars(building) && args == Encoded(done)
    ensures AllScalars(done + [building]) && args + [EncodeAll(building)] == Encoded(done + [building])
    ensures done + ([building] + later) == (done + [building]) + later
  {
  }

  method NextRune(s: bytes, i: nat) returns (r: rune, size: nat)
    requires i < |s|
    ensures 0 < size <= |s| - i && Scalar(r)
    ensures Runes(s[i..]) == [r] + Runes(s[i + size..])
  {
    var d := Decode(s[i..]);
    assert s[i..][d.1..] == s[i + d.1..];
    r, size := d.0, d.1;
  }

  /** One turn of the loop. */
  method Turn(command: bytes, i: nat, args: seq<bytes>, current: bytes, inQuote: bool, started: bool,
              ghost done: seq<text>, ghost building: text)
    returns (next: nat, args': seq<bytes>, current': bytes, inQuote': bool, started': bool,
             ghost done': seq<text>, ghost building': text)
    requires i < |command| && SoFar(command, i, args, current, inQuote, started, done, building)
    ensures i < next && SoFar(command, next, args', current', inQuote', started', done', building')
  {
    var r, size := NextRune(command, i);
    ghost var rest := Runes(command[i + size..]);
    ScanNext(r, rest, building, inQuote, started);
    next, args', current', inQuote', started' := i + size, args, current, inQuote, started;
    done', building' := done, building;
    if r == QUOTE {
      inQuote' := !inQuote;
      started' := true;
    } else if r == SPACE && !inQuote {
      if started {
        EndOfToken(done, building, args, Scan(rest, [], inQuote, false));
        args', done' := args + [current], done + [building];
        current', building' := [], [];
        started' := false;
      }
    } else {
      EncodeOneMore(building, r);
      current', building' := current + Encode(r), building + [r];
      started' := true;
    }
  }

  method SplitExecCommand(command: bytes) returns (args: seq<bytes>)
    ensures args == Tokens(command)
  {
    args := [];
    var current: bytes := [];
    var inQuote, started := false, false;
    ghost var done: seq<text>, building: text := [], [];
    var i := 0;
    assert command[i..] == command;
    while i < |command|
      invariant SoFar(command, i, args, current, inQuote, started, done, building)
    {
      i, args, current, inQuote, started, done, building := Turn(command, i, args, current, inQuote, started, done, building);
    }
    assert command[i..] == [];
    if started {
      EndOfToken(done, building, args, []);
      args := args + [current];
    }
  }

  // ----- writing an argument list as a command

  /** A stretch of an argument, and whether it is written in quotes. */
  datatype Piece = Piece(chars: text, quoted: bool)

  /** An argument, written as pieces without a space between them, and the number of spaces before it. */
  datatype Word = Word(gap: nat, pieces: seq<Piece>)

  function Spaces(n: nat): text { seq(n, _ => SPACE) }

  function Written(pieces: seq<Piece>): text {
    if pieces == [] then []
    else (if pieces[0].quoted then [QUOTE] + pieces[0].chars + [QUOTE] else pieces[0].chars) + Written(pieces[1..])
  }

  function Arg(pieces: seq<Piece>): text {
    if pieces == [] then [] else pieces[0].chars + Arg(pieces[1..])
  }

  function Command(words: seq<Word>, trailing: nat): text {
    if words == [] then Spaces(trailing)
    else Spaces(words[0].gap) + (Written(words[0].pieces) + Command(words[1..], trailing))
  }

  /** No piece has a quote, and one that is written bare is not empty and has no space. */
  predicate PiecesWritable(pieces: seq<Piece>) {
    forall i :: 0 <= i < |pieces| ==>
      QUOTE !in pieces[i].chars && (pieces[i].quoted || (pieces[i].chars != [] && SPACE !in pieces[i].chars))
  }

  /** No word is without pieces, and words are kept apart. */
  predicate Writable(words: seq<Word>) {
    && (forall i :: 0 <= i < |words| ==> words[i].pieces != [] && PiecesWritable(words[i].pieces))
    && (forall i :: 0 < i < |words| ==> words[i].gap > 0)
  }

  function Args(words: seq<Word>): seq<text> {
    seq(|words|, i requires 0 <= i < |words| => Arg(words[i].pieces))
  }

  lemma {:induction false} ScanSpaces(n: nat, rest: text)
    ensures Scan(Spaces(n) + rest, [], false, false) == Scan(rest, [], false, false)
  {
    if n == 0 {
      assert Spaces(0) + rest == rest;
    } else {
      assert (Spaces(n) + rest)[1..] == Spaces(n - 1) + rest;
      ScanSpaces(n - 1, rest);
    }
  }

  /** Characters that are neither a quote nor an unquoted space are collected. */
  lemma {:induction false} ScanPlain(arg: text, rest: text, current: text, inQuote: bool, started: bool)
    requires QUOTE !in arg && (inQuote || SPACE !in arg)
    ensures Scan(arg + rest, current, inQuote, started) == Scan(rest, current + arg, inQuote, started || arg != [])
  {
    if arg == [] {
      assert arg + rest == rest && current + arg == current;
    } else {
      assert arg[0] != QUOTE && (inQuote || arg[0] != SPACE);
      assert (arg + rest)[1..] == arg[1..] + rest;
      assert forall i :: 0 <= i < |arg[1..]| ==> arg[1..][i] == arg[i + 1];
      ScanPlain(arg[1..], rest, current + [arg[0]], inQuote, true);
      assert current + arg == current + [arg[0]] + arg[1..];
    }
  }

  lemma ScanPiece(p: Piece, rest: text, current: text, started: bool)
    requires QUOTE !in p.chars && (p.quoted || (p.chars != [] && SPACE !in p.chars))
    ensures Scan((if p.quoted then [QUOTE] + p.chars + [QUOTE] else p.chars) + rest, current, false, started)
            == Scan(rest, current + p.chars, false, true)
  {
    if p.quoted {
      var written := [QUOTE] + p.chars + [QUOTE] + rest;
      assert written[1..] == p.chars + ([QUOTE] + rest);
      ScanPlain(p.chars, [QUOTE] + rest, current, true, true);
      assert ([QUOTE] + rest)[1..] == rest;
    } else {
      ScanPlain(p.chars, rest, current, false, started);
    }
  }

  /** The pieces of a word are put together. */
  lemma {:induction false} ScanPieces(pieces: seq<Piece>, rest: text, current: text, started: bool)
    requires PiecesWritable(pieces)
    ensures Scan(Written(pieces) + rest, current, false, started) == Scan(rest, current + Arg(pieces), false, started || pieces != [])
  {
    if pieces == [] {
      assert Written(pieces) + rest == rest && current + Arg(pieces) == current;
    } else {
      var p, later := pieces[0], pieces[1..];
      var first := if p.quoted then [QUOTE] + p.chars + [QUOTE] else p.chars;
      assert Written(pieces) + rest == first + (Written(later) + rest);
      ScanPiece(p, Written(later) + rest, current, started);
      ScanPieces(later, rest, current + p.chars, true);
      assert current + p.chars + Arg(later) == current + Arg(pieces);
    }
  }

  /** Every way of writing an argument list splits into that list. */
  lemma {:induction false} SplitCommand(words: seq<Word>, trailing: nat)
    requires Writable(words)
    ensures Split(Command(words, trailing)) == Args(words)
  {
    if words == [] {
      ScanSpaces(trailing, []);
      assert Spaces(trailing) + [] == Spaces(trailing);
    } else {
      var w, rest := words[0], Command(words[1..], trailing);
      ScanSpaces(w.gap, Written(w.pieces) + rest);
      ScanPieces(w.pieces, rest, [], false);
      assert [] + Arg(w.pieces) == Arg(w.pieces);
      SplitCommand(words[1..], trailing);
      AfterWord(words[1..], trailing, Arg(w.pieces));
      assert Args(words) == [Arg(w.pieces)] + Args(words[1..]);
    }
  }

  /** A word ends where the next one's gap begins, or with the command. */
  lemma AfterWord(words: seq<Word>, trailing: nat, arg: text)
    requires words == [] || words[0].gap > 0
    ensures Scan(Command(words, trailing), arg, false, true) == [arg] + Split(Command(words, trailing))
  {
    var rest := Command(words, trailing);
    if rest != [] {
      assert rest[0] == SPACE;
    }
  }

  // ----- reading any command so

  lemma CountNext(rest: text)
    requires rest != []
    ensures multiset(rest)[QUOTE] == (if rest[0] == QUOTE then 1 else 0) + multiset(rest[1..])[QUOTE]
  {
    assert rest == [rest[0]] + rest[1..];
  }

  /** What can follow a word: the end, or a gap. */
  ghost predicate Follow(words: seq<Word>) {
    Writable(words) && (words != [] ==> words[0].gap > 0)
  }

  lemma FirstWord(pieces: seq<Piece>, words: seq<Word>, trailing: nat)
    requires pieces != [] && PiecesWritable(pieces) && Follow(words)
    ensures Writable([Word(0, pieces)] + words)
    ensures Command([Word(0, pieces)] + words, trailing) == Written(pieces) + Command(words, trailing)
  {
    var all := [Word(0, pieces)] + words;
    assert all[1..] == words && Spaces(0) == [];
    assert Spaces(0) + (Written(pieces) + Command(words, trailing)) == Written(pieces) + Command(words, trailing);
  }

  lemma OneMorePiece(p: Piece, pieces: seq<Piece>)
    requires PiecesWritable(pieces) && QUOTE !in p.chars && (p.quoted || (p.chars != [] && SPACE !in p.chars))
    ensures PiecesWritable([p] + pieces)
    ensures Written([p] + pieces) == (if p.quoted then [QUOTE] + p.chars + [QUOTE] else p.chars) + Written(pieces)
  {
    assert ([p] + pieces)[1..] == pieces;
  }

  lemma OneMoreSpace(words: seq<Word>, trailing: nat) returns (words': seq<Word>, trailing': nat)
    requires Writable(words)
    ensures Follow(words') && Command(words', trailing') == [SPACE] + Command(words, trailing)
  {
    if words == [] {
      words', trailing' := [], trailing + 1;
      assert Spaces(trailing + 1) == [SPACE] + Spaces(trailing);
    } else {
      var w := words[0];
      words', trailing' := [Word(w.gap + 1, w.pieces)] + words[1..], trailing;
      assert words'[1..] == words[1..];
      assert Spaces(w.gap + 1) == [SPACE] + Spaces(w.gap);
      assert [SPACE] + Spaces(w.gap) + (Written(w.pieces) + Command(words[1..], trailing))
          == [SPACE] + (Spaces(w.gap) + (Written(w.pieces) + Command(words[1..], trailing)));
    }
  }

  /** Outside quotes: the rest of a word, if any, and words. */
  ghost predicate Outside(rest: text, pieces: seq<Piece>, words: seq<Word>, trailing: nat) {
    PiecesWritable(pieces) && Follow(words) && rest == Written(pieces) + Command(words, trailing)
  }

  /** Inside quotes: characters up to the closing one, then as outside. */
  ghost predicate Inside(rest: text, chars: text, pieces: seq<Piece>, words: seq<Word>, trailing: nat) {
    QUOTE !in chars && |chars| < |rest| && rest[..|chars|] == chars && rest[|chars|] == QUOTE
    && Outside(rest[|chars| + 1..], pieces, words, trailing)
  }

  lemma AllWords(rest: text, pieces: seq<Piece>, words: seq<Word>, trailing: nat) returns (words': seq<Word>)
    requires Outside(rest, pieces, words, trailing)
    ensures Writable(words') && rest == Command(words', trailing)
  {
    if pieces != [] {
      FirstWord(pieces, words, trailing);
      words' := [Word(0, pieces)] + words;
    } else {
      words' := words;
      assert Written([]) + Command(words, trailing) == Command(words, trailing);
    }
  }

  lemma SpaceBefore(rest: text, pieces: seq<Piece>, words: seq<Word>, trailing: nat)
    returns (words': seq<Word>, trailing': nat)
    requires Outside(rest, pieces, words, trailing)
    ensures Outside([SPACE] + rest, [], words', trailing')
  {
    words' := AllWords(rest, pieces, words, trailing);
    words', trailing' := OneMoreSpace(words', trailing);
    assert Written([]) + Command(words', trailing') == Command(words', trailing');
  }

  lemma PieceBefore(p: Piece, rest: text, pieces: seq<Piece>, words: seq<Word>, trailing: nat)
    requires Outside(rest, pieces, words, trailing)
    requires QUOTE !in p.chars && (p.quoted || (p.chars != [] && SPACE !in p.chars))
    ensures Outside((if p.quoted then [QUOTE] + p.chars + [QUOTE] else p.chars) + rest, [p] + pieces, words, trailing)
  {
    OneMorePiece(p, pieces);
    var first := if p.quoted then [QUOTE] + p.chars + [QUOTE] else p.chars;
    assert first + (Written(pieces) + Command(words, trailing)) == first + Written(pieces) + Command(words, trailing);
  }

  lemma {:induction false} ReadOutside(rest: text) returns (pieces: seq<Piece>, words: seq<Word>, trailing: nat)
    requires multiset(rest)[QUOTE] % 2 == 0
    ensures Outside(rest, pieces, words, trailing)
    decreases |rest|
  {
    if rest == [] {
      pieces, words, trailing := [], [], 0;
      assert Written([]) + Command([], 0) == [];
    } else {
      CountNext(rest);
      if rest[0] == QUOTE {
        var chars;
        chars, pieces, words, trailing := ReadInside(rest[1..]);
        var later := rest[1..][|chars| + 1..];
        PieceBefore(Piece(chars, true), later, pieces, words, trailing);
        assert rest == [QUOTE] + chars + [QUOTE] + later;
        pieces := [Piece(chars, true)] + pieces;
      } else {
        assert rest == [rest[0]] + rest[1..];
        pieces, words, trailing := ReadOutside(rest[1..]);
        if rest[0] == SPACE {
          words, trailing := SpaceBefore(rest[1..], pieces, words, trailing);
          pieces := [];
        } else {
          PieceBefore(Piece([rest[0]], false), rest[1..], pieces, words, trailing);
          pieces := [Piece([rest[0]], false)] + pieces;
        }
      }
    }
  }

  lemma {:induction false} ReadInside(rest: text)
    returns (chars: text, pieces: seq<Piece>, words: seq<Word>, trailing: nat)
    requires multiset(rest)[QUOTE] % 2 == 1
    ensures Inside(rest, chars, pieces, words, trailing)
    decreases |rest|
  {
    assert rest != [];
    CountNext(rest);
    if rest[0] == QUOTE {
      chars := [];
      pieces, words, trailing := ReadOutside(rest[1..]);
    } else {
      var later;
      later, pieces, words, trailing := ReadInside(rest[1..]);
      chars := [rest[0]] + later;
      assert rest[|chars| + 1..] == rest[1..][|later| + 1..];
      assert rest[..|chars|] == [rest[0]] + rest[1..][..|later|];
    }
  }

  /** Every command whose quotes are paired is an argument list written so, and splits into it. */
  lemma PairedQuotesSplit(command: text)
    requires multiset(command)[QUOTE] % 2 == 0
    ensures exists words: seq<Word>, trailing: nat ::
              Writable(words) && command == Command(words, trailing) && Split(command) == Args(words)
  {
    var pieces, words, trailing := ReadOutside(command);
    words := AllWords(command, pieces, words, trailing);
    SplitCommand(words, trailing);
    assert command == Command(words, trailing);
  }

  lemma {:induction false} ScanToTheQuote(rest: text, current: text, inQuote: bool, started: bool)
    requires inQuote ==> started
    requires multiset(rest)[QUOTE] % 2 == if inQuote then 0 else 1
    ensures Scan(rest + [QUOTE], current, inQuote, started) == Scan(rest, current, inQuote, started)
  {
    if rest != [] {
      assert (rest + [QUOTE])[0] == rest[0] && (rest + [QUOTE])[1..] == rest[1..] + [QUOTE];
      CountNext(rest);
      if rest[0] == QUOTE {
        ScanToTheQuote(rest[1..], current, !inQuote, true);
      } else if rest[0] == SPACE && !inQuote {
        ScanToTheQuote(rest[1..], if started then [] else current, inQuote, false);
      } else {
        ScanToTheQuote(rest[1..], current + [rest[0]], inQuote, true);
      }
    } else {
      assert ([] + [QUOTE])[1..] == [];
    }
  }

  /** A quote that is not closed is closed by the end of the command. */
  lemma OpenQuoteIsClosed(command: text)
    requires multiset(command)[QUOTE] % 2 == 1
    ensures Split(command) == Split(command + [QUOTE])
  {
    ScanToTheQuote(command, [], false, false);
  }

  // ----- main results

  function Join(args: seq<text>): text {
    if args == [] then []
    else if |args| == 1 then [QUOTE] + args[0] + [QUOTE]
    else [QUOTE] + args[0] + [QUOTE] + [SPACE] + Join(args[1..])
  }

  /** Quoting every argument and joining with single spaces is undone by splitting. */
  lemma JoinThenSplit(args: seq<text>)
    requires forall i :: 0 <= i < |args| ==> QUOTE !in args[i]
    ensures Split(Join(args)) == args
  {
    var words := QuotedWords(args, 0);
    JoinIsCommand(args, 0);
    SplitCommand(words, 0);
    forall i | 0 <= i < |args| ensures Arg(words[i].pieces) == args[i] {
      QuotedPiece(args[i]);
    }
    assert Args(words) == args;
    assert Spaces(0) + Join(args) == Join(args);
  }

  function QuotedWords(args: seq<text>, gap: nat): seq<Word> {
    seq(|args|, i requires 0 <= i < |args| => Word(if i == 0 then gap else 1, [Piece(args[i], true)]))
  }

  lemma QuotedPiece(arg: text)
    ensures Arg([Piece(arg, true)]) == arg && Written([Piece(arg, true)]) == [QUOTE] + arg + [QUOTE]
  {
    assert [Piece(arg, true)][1..] == [] && Arg([]) == [] && Written([]) == [];
    assert arg + [] == arg;
  }

  lemma {:induction false} JoinIsCommand(args: seq<text>, gap: nat)
    ensures Command(QuotedWords(args, gap), 0) == if args == [] then [] else Spaces(gap) + Join(args)
  {
    if args != [] {
      var words, tail := QuotedWords(args, gap), args[1..];
      assert words[1..] == QuotedWords(tail, 1);
      JoinIsCommand(tail, 1);
      QuotedPiece(args[0]);
      if tail != [] {
        assert Spaces(1) == [SPACE];
        assert Written(words[0].pieces) + ([SPACE] + Join(tail)) == Join(args);
      } else {
        assert Written(words[0].pieces) + [] == Join(args);
      }
    }
  }

  /** The command without its quotes and without its unquoted spaces. */
  function Content(rest: text, inQuote: bool): text {
    if rest == [] then []
    else if rest[0] == QUOTE then Content(rest[1..], !inQuote)
    else if rest[0] == SPACE && !inQuote then Content(rest[1..], inQuote)
    else [rest[0]] + Content(rest[1..], inQuote)
  }

  function Concat<T>(args: seq<seq<T>>): seq<T> {
    if args == [] then [] else args[0] + Concat(args[1..])
  }

  lemma {:induction false} ScanConserves(rest: text, current: text, inQuote: bool, started: bool)
    requires !started ==> current == []
    ensures Concat(Scan(rest, current, inQuote, started)) == current + Content(rest, inQuote)
  {
    if rest == [] {
      assert Concat([current]) == current + Concat([]);
    } else if rest[0] == QUOTE {
      ScanConserves(rest[1..], current, !inQuote, true);
    } else if rest[0] == SPACE && !inQuote {
      ScanConserves(rest[1..], [], inQuote, false);
      if started {
        var later := Scan(rest[1..], [], inQuote, false);
        assert ([current] + later)[1..] == later;
        assert [] + Content(rest[1..], inQuote) == Content(rest[1..], inQuote);
      }
    } else {
      ScanConserves(rest[1..], current + [rest[0]], inQuote, true);
      assert current + [rest[0]] + Content(rest[1..], inQuote) == current + ([rest[0]] + Content(rest[1..], inQuote));
    }
  }

  /** No character is lost, added or reordered. */
  lemma SplitConserves(command: text)
    ensures Concat(Split(command)) == Content(command, false)
  {
    ScanConserves(command, [], false, false);
    assert [] + Content(command, false) == Content(command, false);
  }

  lemma {:induction false} ScanHasNoQuotes(rest: text, current: text, inQuote: bool, started: bool)
    requires QUOTE !in current
    ensures forall i :: 0 <= i < |Scan(rest, current, inQuote, started)| ==> QUOTE !in Scan(rest, current, inQuote, started)[i]
  {
    if rest != [] {
      if rest[0] == QUOTE {
        ScanHasNoQuotes(rest[1..], current, !inQuote, true);
      } else if rest[0] == SPACE && !inQuote {
        ScanHasNoQuotes(rest[1..], if started then [] else current, inQuote, false);
      } else {
        ScanHasNoQuotes(rest[1..], current + [rest[0]], inQuote, true);
      }
    }
  }

  /** Every command, well quoted or not, means the same as its arguments quoted and joined. */
  lemma SplitNormalizes(command: text)
    ensures Split(Join(Split(command))) == Split(command)
  {
    ScanHasNoQuotes(command, [], false, false);
    JoinThenSplit(Split(command));
  }
}
