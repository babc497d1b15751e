/** Where everything is in an encrypted archive of api/crypto/aes.go, and how a file is told from its
    header: the format that readers of old archives rely on, in numbers and letters. */
module ArchiveLayout {
  import opened Archive
  import opened Bytes
  import opened Nonce
  import opened Wrappers

  // ----- the blocks

  lemma Times(j: nat, n: nat)
    requires j > 0
    ensures j * n == (j - 1) * n + n
  {
  }

  /** j times n, step by step. */
  ghost function Offset(j: nat, n: nat): nat {
    if j == 0 then 0 else n + Offset(j - 1, n)
  }

  lemma {:induction false} OffsetIsProduct(j: nat, n: nat)
    ensures Offset(j, n) == j * n
  {
    if j > 0 {
      OffsetIsProduct(j - 1, n);
      Times(j, n);
    }
  }

  /** The block of p that begins at a place: as many bytes as there are, at most a full block. */
  ghost function Block(p: bytes, size: nat, at: nat): bytes
    requires at < |p|
  {
    p[at..][..Min(size, |p| - at)]
  }

  ghost predicate Shape(seal: (bytes, bytes, bytes) -> bytes, overhead: nat) {
    forall k, n, p :: |seal(k, n, p)| == |p| + overhead
  }

  lemma FirstSealed(seal: (bytes, bytes, bytes) -> bytes, overhead: nat, key: bytes, nonces: nat -> bytes, i: nat, p: bytes, size: nat)
    requires Shape(seal, overhead) && size > 0 && p != []
    ensures var m := Min(size, |p|);
            var first := seal(key, nonces(i), p[..m]);
            && |first| == m + overhead
            && SealChosen(seal, key, nonces, i, p, size) == first + SealChosen(seal, key, nonces, i + 1, p[m..], size)
  {
  }

  /** x is in c at a place. */
  ghost predicate Found(c: bytes, at: nat, x: bytes) {
    at + |x| <= |c| && c[at..at + |x|] == x
  }

  lemma FoundFirst(x: bytes, rest: bytes)
    ensures Found(x + rest, 0, x)
  {
  }

  lemma FoundBehind(first: bytes, rest: bytes, at: nat, x: bytes)
    requires Found(rest, at, x)
    ensures Found(first + rest, |first| + at, x)
  {
    assert (first + rest)[|first| + at..|first| + at + |x|] == rest[at..at + |x|];
  }

  lemma FoundInBody(file: bytes, head: nat, at: nat, x: bytes)
    requires head <= |file| && Found(file[head..], at, x)
    ensures Found(file, head + at, x)
  {
    assert file == file[..head] + file[head..];
    FoundBehind(file[..head], file[head..], at, x);
  }

  lemma BlockOfRest(p: bytes, size: nat, at: nat)
    requires size + at < |p|
    ensures Block(p, size, size + at) == Block(p[size..], size, at)
  {
    assert p[size + at..] == p[size..][at..];
  }

  /** Block j is sealed under the nonce of its place, behind j whole sealed blocks. */
  lemma {:induction false} SealedBlock(seal: (bytes, bytes, bytes) -> bytes, overhead: nat, key: bytes, nonces: nat -> bytes, i: nat,
                                       p: bytes, size: nat, j: nat)
    requires Shape(seal, overhead) && size > 0 && Offset(j, size) < |p|
    ensures Found(SealChosen(seal, key, nonces, i, p, size), Offset(j, size + overhead),
                  seal(key, nonces(i + j), Block(p, size, Offset(j, size))))
    decreases j
  {
    FirstSealed(seal, overhead, key, nonces, i, p, size);
    if j == 0 {
      assert p[0..] == p;
      FoundFirst(seal(key, nonces(i), p[..Min(size, |p|)]), SealChosen(seal, key, nonces, i + 1, p[Min(size, |p|)..], size));
    } else {
      SealedBlock(seal, overhead, key, nonces, i + 1, p[size..], size, j - 1);
      SealedBehind(seal, overhead, key, nonces, i, p, size, Offset(j - 1, size + overhead), Offset(j - 1, size), i + j);
    }
  }

  lemma SealedBehind(seal: (bytes, bytes, bytes) -> bytes, overhead: nat, key: bytes, nonces: nat -> bytes, i: nat,
                     p: bytes, size: nat, at: nat, before: nat, place: nat)
    requires Shape(seal, overhead) && 0 < size && size + before < |p|
    requires Found(SealChosen(seal, key, nonces, i + 1, p[size..], size), at, seal(key, nonces(place), Block(p[size..], size, before)))
    ensures Found(SealChosen(seal, key, nonces, i, p, size), size + overhead + at, seal(key, nonces(place), Block(p, size, size + before)))
  {
    BlockOfRest(p, size, before);
    FirstSealed(seal, overhead, key, nonces, i, p, size);
    FoundBehind(seal(key, nonces(i), p[..size]), SealChosen(seal, key, nonces, i + 1, p[size..], size), at,
                seal(key, nonces(place), Block(p[size..], size, before)));
  }

  lemma SealedBlockAt(seal: (bytes, bytes, bytes) -> bytes, overhead: nat, key: bytes, nonces: nat -> bytes, p: bytes, size: nat, j: nat)
    requires Shape(seal, overhead) && size > 0 && j * size < |p|
    ensures Found(SealChosen(seal, key, nonces, 0, p, size), j * (size + overhead), seal(key, nonces(j), Block(p, size, j * size)))
  {
    OffsetIsProduct(j, size);
    OffsetIsProduct(j, size + overhead);
    SealedBlock(seal, overhead, key, nonces, 0, p, size, j);
  }

  /** Nothing is written but the blocks. */
  lemma {:induction false} SealedLength(seal: (bytes, bytes, bytes) -> bytes, overhead: nat, key: bytes, nonces: nat -> bytes, i: nat,
                                        p: bytes, size: nat)
    requires Shape(seal, overhead) && size > 0
    ensures |SealChosen(seal, key, nonces, i, p, size)| == |p| + Blocks(|p|, size) * overhead
    decreases |p|
  {
    if p != [] {
      var m := Min(size, |p|);
      SealedLength(seal, overhead, key, nonces, i + 1, p[m..], size);
      Times(Blocks(|p|, size), overhead);
    }
  }

  /** The number of blocks: the quotient, rounded up. */
  lemma {:induction false} BlocksRoundUp(n: nat, size: nat)
    requires size > 0
    ensures (Blocks(n, size) - 1) * size < n || n == 0
    ensures n <= Blocks(n, size) * size
  {
    if n > 0 {
      BlocksRoundUp(n - Min(size, n), size);
      Times(Blocks(n, size), size);
      if Blocks(n, size) > 1 {
        Times(Blocks(n, size) - 1, size);
      }
    }
  }

  // ----- the file

  /** A GCM archive: ten bytes of header, sixteen of salt, the random byte and eleven zeros of the first
      nonce, then the sealed blocks. */
  lemma GcmHead(g: Gcm, passphrase: bytes, salt: bytes, random: byte, p: bytes)
    requires g.Lawful() && |salt| == 16 && GcmFile(g, passphrase, salt, random, p).Some?
    ensures var file, nonce := GcmFile(g, passphrase, salt, random, p).value, Initial(12, random);
            && |file| == 38 + |p| + Blocks(|p|, 1048576) * g.overhead
            && file[..10] == Ascii("AES256-GCM") && file[10..26] == salt
            && file[26] == random && (forall i :: 27 <= i < 38 ==> file[i] == 0)
            && file[38..] == SealChosen(g.seal, g.derive(passphrase, salt), Successive(nonce), 0, p, 1048576)
  {
    var nonce, key := Initial(12, random), g.derive(passphrase, salt);
    var body := SealBlocks(g, key, nonce, p, 1048576).value;
    BlockNonces(g, key, nonce, 0, p, 1048576);
    SealedLength(g.seal, g.overhead, key, Successive(nonce), 0, p, 1048576);
    HeadOf(Ascii("AES256-GCM"), salt, nonce, body);
  }

  lemma HeadOf(header: bytes, salt: bytes, nonce: bytes, body: bytes)
    requires |header| == 10 && |salt| == 16 && |nonce| == 12
    ensures var file := header + salt + nonce + body;
            && |file| == 38 + |body| && file[..10] == header && file[10..26] == salt && file[38..] == body
            && forall i :: 0 <= i < 12 ==> file[26 + i] == nonce[i]
  {
  }

  /** Block j of a GCM archive: a mebibyte of the plaintext, or what is left of it, sealed under the key
      and the first nonce plus j. */
  lemma GcmBlockAt(g: Gcm, passphrase: bytes, salt: bytes, random: byte, p: bytes, j: nat) returns (nonce: bytes)
    requires g.Lawful() && |salt| == 16 && GcmFile(g, passphrase, salt, random, p).Some? && j * 1048576 < |p|
    ensures |nonce| == 12 && BigEndian(nonce) == random as nat * Pow256(11) + j
    ensures Found(GcmFile(g, passphrase, salt, random, p).value, 38 + j * (1048576 + g.overhead),
                  g.seal(g.derive(passphrase, salt), nonce, Block(p, 1048576, j * 1048576)))
  {
    var first, key := Initial(12, random), g.derive(passphrase, salt);
    GcmHead(g, passphrase, salt, random, p);
    SealedBlockAt(g.seal, g.overhead, key, Successive(first), p, 1048576, j);
    NonceOfBlock(g, key, random, p, j);
    nonce := Successive(first)(j);
    FoundInBody(GcmFile(g, passphrase, salt, random, p).value, 38, j * (1048576 + g.overhead),
                g.seal(key, nonce, Block(p, 1048576, j * 1048576)));
  }

  lemma NonceOfBlock(g: Gcm, key: bytes, random: byte, p: bytes, j: nat)
    requires SealBlocks(g, key, Initial(12, random), p, 1048576).Some? && j * 1048576 < |p|
    ensures |Successive(Initial(12, random))(j)| == 12
    ensures BigEndian(Successive(Initial(12, random))(j)) == random as nat * Pow256(11) + j
  {
    var first := Initial(12, random);
    SealingNeedsRoom(g, key, first, p, 1048576);
    BlocksRoundUp(|p|, 1048576);
    assert j < Blocks(|p|, 1048576);
    AdvanceAdds(first, j);
    ZerosAfter(random, 11);
    assert first == [random] + seq(11, _ => 0);
  }

  /** A FIPS archive: fifteen bytes of header, thirty-two of salt, then the sealed blocks. */
  lemma FipsHead(f: FipsGcm, passphrase: bytes, salt: bytes, chosen: nat -> bytes, p: bytes)
    requires f.Lawful() && |salt| == 32
    ensures var file := FipsFile(f, passphrase, salt, chosen, p);
            && |file| == 47 + |p| + Blocks(|p|, 16777216) * f.overhead
            && file[..15] == Ascii("FIPS-AES256-GCM") && file[15..47] == salt
            && file[47..] == SealChosen(f.seal, f.derive(passphrase, salt), chosen, 0, p, 16777216)
  {
    var body := FipsBody(f, f.derive(passphrase, salt), chosen, p);
    SealedLength(f.seal, f.overhead, f.derive(passphrase, salt), chosen, 0, p, 16777216);
    Slices(Ascii("FIPS-AES256-GCM"), salt, body);
  }

  /** Block j of a FIPS archive: sixteen mebibytes of the plaintext, or what is left of it. */
  lemma FipsBlockAt(f: FipsGcm, passphrase: bytes, salt: bytes, chosen: nat -> bytes, p: bytes, j: nat)
    requires f.Lawful() && |salt| == 32 && j * 16777216 < |p|
    ensures Found(FipsFile(f, passphrase, salt, chosen, p), 47 + j * (16777216 + f.overhead),
                  f.seal(f.derive(passphrase, salt), chosen(j), Block(p, 16777216, j * 16777216)))
  {
    FipsHead(f, passphrase, salt, chosen, p);
    SealedBlockAt(f.seal, f.overhead, f.derive(passphrase, salt), chosen, p, 16777216, j);
    FoundInBody(FipsFile(f, passphrase, salt, chosen, p), 47, j * (16777216 + f.overhead),
                f.seal(f.derive(passphrase, salt), chosen(j), Block(p, 16777216, j * 16777216)));
  }

  // ----- what is accepted

  /** Each block of a body, of which i have been read already, opens in its place. */
  ghost predicate AllOpen(opens: (nat, bytes) -> bool, i: nat, c: bytes, size: nat)
    requires size > 0
  {
    forall j: nat :: Offset(j, size) < |c| ==> opens(i + j, Block(c, size, Offset(j, size)))
  }

  lemma AllOpenSplits(opens: (nat, bytes) -> bool, i: nat, c: bytes, size: nat)
    requires size > 0 && c != []
    ensures AllOpen(opens, i, c, size)
            <==> opens(i, c[..Min(size, |c|)]) && AllOpen(opens, i + 1, c[Min(size, |c|)..], size)
  {
    var m := Min(size, |c|);
    var rest := c[m..];
    assert Block(c, size, Offset(0, size)) == c[..m];
    forall j: nat | Offset(j, size) < |rest|
      ensures Offset(j + 1, size) < |c| && Block(c, size, Offset(j + 1, size)) == Block(rest, size, Offset(j, size))
    {
      BlockOfRest(c, size, Offset(j, size));
    }
    if AllOpen(opens, i, c, size) {
      forall j: nat | Offset(j, size) < |rest| ensures opens(i + 1 + j, Block(rest, size, Offset(j, size))) {
        assert opens(i + (j + 1), Block(c, size, Offset(j + 1, size)));
      }
      assert opens(i + 0, Block(c, size, Offset(0, size)));
    }
    if opens(i, c[..m]) && AllOpen(opens, i + 1, rest, size) {
      forall j: nat | Offset(j, size) < |c| ensures opens(i + j, Block(c, size, Offset(j, size))) {
        if j > 0 {
          assert Offset(j, size) == size + Offset(j - 1, size);
          assert opens(i + 1 + (j - 1), Block(rest, size, Offset(j - 1, size)));
        }
      }
    }
  }

  /** A block opens under the nonce of its place, and there is a nonce for the next. */
  ghost function Opens(g: Gcm, key: bytes, nonce: bytes): (nat, bytes) -> bool {
    (k: nat, c: bytes) => Advance(nonce, k).Some? && Advance(nonce, k + 1).Some? && g.open(key, Advance(nonce, k).value, c).Some?
  }

  /** A GCM body is decrypted iff every one of its blocks does so. */
  lemma {:induction false} DecryptedIffAllOpen(g: Gcm, key: bytes, nonce: bytes, i: nat, c: bytes, size: nat)
    requires size > 0 && Advance(nonce, i).Some?
    ensures OpenBlocks(g, key, Advance(nonce, i).value, c, size).Some?
            <==> AllOpen(Opens(g, key, nonce), i, c, size + g.overhead)
    decreases |c|
  {
    if c != [] {
      AllOpenSplits(Opens(g, key, nonce), i, c, size + g.overhead);
      FirstOpens(g, key, nonce, i, c, size);
      if Advance(nonce, i + 1).Some? {
        DecryptedIffAllOpen(g, key, nonce, i + 1, c[Min(size + g.overhead, |c|)..], size);
      }
    }
  }

  lemma FirstOpens(g: Gcm, key: bytes, nonce: bytes, i: nat, c: bytes, size: nat)
    requires size > 0 && c != [] && Advance(nonce, i).Some?
    ensures OpenBlocks(g, key, Advance(nonce, i).value, c, size).Some?
            <==> Opens(g, key, nonce)(i, c[..Min(size + g.overhead, |c|)])
                 && OpenBlocks(g, key, Advance(nonce, i + 1).value, c[Min(size + g.overhead, |c|)..], size).Some?
  {
    assert Advance(nonce, i + 1) == Next(Advance(nonce, i).value);
  }

  /** A FIPS body is decrypted iff every one of its blocks opens, in whatever place. */
  lemma {:induction false} FipsDecryptedIffAllOpen(f: FipsGcm, key: bytes, i: nat, c: bytes, size: nat)
    requires size > 0
    ensures OpenFips(f, key, c, size).Some? <==> AllOpen((_: nat, b: bytes) => f.open(key, b).Some?, i, c, size + f.overhead)
    decreases |c|
  {
    if c != [] {
      AllOpenSplits((_: nat, b: bytes) => f.open(key, b).Some?, i, c, size + f.overhead);
      FipsDecryptedIffAllOpen(f, key, i + 1, c[Min(size + f.overhead, |c|)..], size);
    }
  }

  ghost predicate Multiple(n: nat, size: nat) {
    exists k: nat :: n == k * size
  }

  /** A GCM archive is decrypted iff it has the three parts of the head, does not break off in a block, and
      every block opens under the key and the nonce that the head gives. */
  lemma GcmAccepted(g: Gcm, passphrase: bytes, file: bytes, broken: bool)
    ensures OpenGcmFile(g, passphrase, file, broken).Some?
            <==> && |file| >= 38 && file[..10] == Ascii("AES256-GCM")
                 && (broken ==> Multiple(|file| - 38, 1048576 + g.overhead))
                 && AllOpen(Opens(g, g.derive(passphrase, file[10..26]), file[26..38]), 0, file[38..], 1048576 + g.overhead)
  {
    WholeBlocksAreMultiples(if |file| >= 38 then |file| - 38 else 0, 1048576 + g.overhead);
    if |file| >= 38 {
      DecryptedIffAllOpen(g, g.derive(passphrase, file[10..26]), file[26..38], 0, file[38..], 1048576);
    }
  }

  /** The same of a FIPS archive. */
  lemma FipsAccepted(f: FipsGcm, passphrase: bytes, file: bytes, broken: bool)
    ensures OpenFipsFile(f, passphrase, file, broken).Some?
            <==> && |file| >= 47 && file[..15] == Ascii("FIPS-AES256-GCM")
                 && (broken ==> Multiple(|file| - 47, 16777216 + f.overhead))
                 && AllOpen((_: nat, b: bytes) => f.open(f.derive(passphrase, file[15..47]), b).Some?, 0, file[47..], 16777216 + f.overhead)
  {
    WholeBlocksAreMultiples(if |file| >= 47 then |file| - 47 else 0, 16777216 + f.overhead);
    if |file| >= 47 {
      FipsDecryptedIffAllOpen(f, f.derive(passphrase, file[15..47]), 0, file[47..], 16777216);
    }
  }

  // ----- the dispatch

  /** Fifteen bytes are needed to tell a file. Then it is read in the mode its header names if that is
      the current one, refused if it is the other, and taken for a legacy file without a header. */
  lemma Dispatch(g: Gcm, f: FipsGcm, passphrase: bytes, file: bytes, broken: bool, fipsMode: bool)
    ensures var r := OpenFile(g, f, passphrase, file, broken, fipsMode);
            var (gcm, fips) := (Ascii("AES256-GCM") <= file, Ascii("FIPS-AES256-GCM") <= file);
            && (r.TooShort? <==> |file| < 15)
            && (r.Legacy? <==> |file| >= 15 && !gcm && !fips)
            && (r.FipsNotEnabled? <==> fips && !fipsMode)
            && (r.NotFips? <==> |file| >= 15 && gcm && fipsMode)
            && (r.Plain? || r.Corrupt? <==> (fips && fipsMode) || (|file| >= 15 && gcm && !fipsMode))
  {
    HeadersDiffer(file);
  }

  /** A header is recognized iff it is the current mode's; of a file that is not too short, iff it is
      neither refused nor taken for a legacy file. */
  lemma HeaderIsOfTheMode(g: Gcm, f: FipsGcm, passphrase: bytes, file: bytes, broken: bool, fipsMode: bool)
    ensures HasEncryptedHeader(file, fipsMode)
            <==> if fipsMode then |file| >= 15 && file[..15] == Ascii("FIPS-AES256-GCM") else |file| >= 10 && file[..10] == Ascii("AES256-GCM")
    ensures |file| >= 15 ==>
              (HasEncryptedHeader(file, fipsMode)
               <==> OpenFile(g, f, passphrase, file, broken, fipsMode).Plain? || OpenFile(g, f, passphrase, file, broken, fipsMode).Corrupt?)
  {
    HeadersDiffer(file);
  }

  /** Numbers are big-endian. */
  lemma {:induction false} MostSignificantFirst(b: byte, s: bytes)
    ensures BigEndian([b] + s) == b as nat * Pow256(|s|) + BigEndian(s)
    decreases |s|
  {
    if s == [] {
      assert [b] + s == [b] && [b][..0] == [];
    } else {
      var last := |s| - 1;
      assert ([b] + s)[..|s|] == [b] + s[..last] && ([b] + s)[|s|] == s[last];
      MostSignificantFirst(b, s[..last]);
      Shifted(b as nat, Pow256(last), BigEndian(s[..last]));
    }
  }

  lemma Shifted(b: nat, p: nat, rest: nat)
    ensures 256 * (b * p + rest) == b * (256 * p) + 256 * rest
  {
    MulAssoc(b, p);
  }
}
