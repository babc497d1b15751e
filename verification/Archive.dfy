/** The chunked encrypted archives of api/crypto/aes.go: framing, the two block ciphers' round
    trips, and the dispatch on the file header. The ciphers and key derivations are parameters. */
module Archive {
  import opened Bytes
  import opened Wrappers
  import opened Nonce

  /** AES-GCM with a caller's nonce, and argon2: only what their documentation promises of them. */
  datatype Gcm = Gcm(
    derive: (bytes, bytes) -> bytes,
    seal: (bytes, bytes, bytes) -> bytes,
    open: (bytes, bytes, bytes) -> Option<bytes>,
    overhead: nat)
  {
    ghost predicate Lawful() {
      && (forall k, n, p :: open(k, n, seal(k, n, p)) == Some(p))
      && (forall k, n, p :: |seal(k, n, p)| == |p| + overhead)
    }

    /** What is sealed under one nonce of this size does not open under another. */
    ghost predicate Binds(nonceSize: nat) {
      forall k, n, m, p :: |n| == |m| == nonceSize && n != m ==> open(k, n, seal(k, m, p)).None?
    }
  }

  /** AES-GCM that chooses a nonce for each block and puts it in front, and pbkdf2. */
  datatype FipsGcm = FipsGcm(
    derive: (bytes, bytes) -> bytes,
    seal: (bytes, bytes, bytes) -> bytes,
    open: (bytes, bytes) -> Option<bytes>,
    overhead: nat)
  {
    ghost predicate Lawful() {
      && (forall k, n, p :: open(k, seal(k, n, p)) == Some(p))
      && (forall k, n, p :: |seal(k, n, p)| == |p| + overhead)
    }
  }

  const GCM_HEADER: bytes := Ascii("AES256-GCM")
  const GCM_BLOCK_SIZE: nat := 1024 * 1024
  const GCM_SALT_LENGTH: nat := 16
  const GCM_NONCE_SIZE: nat := 12
  const FIPS_HEADER: bytes := Ascii("FIPS-AES256-GCM")
  const FIPS_BLOCK_SIZE: nat := 16 * 1024 * 1024
  const FIPS_SALT_LENGTH: nat := 32

  datatype ReadError = NoError | EOF | UnexpectedEOF | Failure

  /** A stream that delivers `rest` and then ends, or fails when `broken`. */
  class Reader {
    var rest: bytes
    const broken: bool

    constructor (data: bytes, broken: bool)
      ensures rest == data && this.broken == broken
    {
      rest := data;
      this.broken := broken;
    }

    /** io.ReadFull. */
    method ReadFull(buf: array<byte>) returns (n: nat, err: ReadError)
      modifies this, buf
      ensures n == Min(buf.Length, |old(rest)|)
      ensures buf[..n] == old(rest)[..n] && rest == old(rest)[n..]
      ensures err == if n == buf.Length then NoError
                     else if broken then Failure
                     else if n == 0 then EOF
                     else UnexpectedEOF
    {
      n := Min(buf.Length, |rest|);
      forall i | 0 <= i < n {
        buf[i] := rest[i];
      }
      rest := rest[n..];
      err := if n == buf.Length then NoError
      else if broken then Failure
      else if n == 0 then EOF
      else UnexpectedEOF;
    }
  }

  function Min(a: nat, b: nat): nat { if a <= b then a else b }

  function Prepend(a: bytes, b: Option<bytes>): (r: Option<bytes>)
    ensures a == [] ==> r == b
  {
    match b
    case None => None
    case Some(c) =>
      assert [] + c == c;
      Some(a + c)
  }

  lemma PrependTwice(a: bytes, b: bytes, c: Option<bytes>)
    ensures Prepend(a, Prepend(b, c)) == Prepend(a + b, c)
  {
    if c.Some? {
      assert a + (b + c.value) == (a + b) + c.value;
    }
  }

  // ----- what the block loops compute

  /** The blocks of p, sealed under successive nonces; nothing when a nonce overflows. */
  ghost function SealBlocks(g: Gcm, key: bytes, nonce: bytes, p: bytes, size: nat): Option<bytes>
    requires size > 0
    decreases |p|
  {
    if p == [] then Some([])
    else
      var m := Min(size, |p|);
      match Next(nonce)
      case None => None
      case Some(nonce') => Prepend(g.seal(key, nonce, p[..m]), SealBlocks(g, key, nonce', p[m..], size))
  }

  ghost function OpenBlocks(g: Gcm, key: bytes, nonce: bytes, c: bytes, size: nat): Option<bytes>
    requires size > 0
    decreases |c|
  {
    if c == [] then Some([])
    else
      var m := Min(size + g.overhead, |c|);
      match (g.open(key, nonce, c[..m]), Next(nonce))
      case (Some(p), Some(nonce')) => Prepend(p, OpenBlocks(g, key, nonce', c[m..], size))
      case _ => None
  }

  /** The blocks of p, the first of which is block i of the file, each sealed under the nonce
      `chosen` for it. */
  ghost function SealChosen(seal: (bytes, bytes, bytes) -> bytes, key: bytes, chosen: nat -> bytes, i: nat, p: bytes, size: nat): bytes
    requires size > 0
    decreases |p|
  {
    if p == [] then []
    else
      var m := Min(size, |p|);
      seal(key, chosen(i), p[..m]) + SealChosen(seal, key, chosen, i + 1, p[m..], size)
  }

  ghost function OpenFips(g: FipsGcm, key: bytes, c: bytes, size: nat): Option<bytes>
    requires size > 0
    decreases |c|
  {
    if c == [] then Some([])
    else
      var m := Min(size + g.overhead, |c|);
      match g.open(key, c[..m])
      case None => None
      case Some(p) => Prepend(p, OpenFips(g, key, c[m..], size))
  }

  // ----- the block loops

  /** The loop of aesEncryptGCM. A stream that breaks off between two blocks is taken for one that
      ends there. */
  method EncryptBlocks(g: Gcm, key: bytes, nonce: Counter, input: Reader, size: nat) returns (ok: bool, output: bytes)
    requires size > 0
    modifies input, nonce.val
    ensures var sealed := SealBlocks(g, key, old(nonce.val[..]), old(input.rest), size);
            if BreaksOff(input.broken, |old(input.rest)|, size) then !ok
            else ok == sealed.Some? && (ok ==> output == sealed.value)
  {
    output := [];
    var buf := new byte[size];
    ghost var all := SealBlocks(g, key, nonce.val[..], input.rest, size);
    while true
      invariant fresh(buf) && buf.Length == size
      invariant all == Prepend(output, SealBlocks(g, key, nonce.val[..], input.rest, size))
      invariant input.broken ==> WholeBlocks(|input.rest|, size) == WholeBlocks(|old(input.rest)|, size)
      decreases |input.rest|
    {
      ghost var done := output;
      var n, err := input.ReadFull(buf);
      if n == 0 {
        break;
      }
      if err == Failure {
        return false, output;
      }
      var block := g.seal(key, nonce.val[..], buf[..n]);
      output := output + block;
      var incremented := nonce.Increment();
      if !incremented {
        return false, output;
      }
      PrependTwice(done, block, SealBlocks(g, key, nonce.val[..], input.rest, size));
    }
    ok := true;
  }

  /** The shortest input that breaks off unnoticed: one whole block. */
  method BreakUnnoticed(g: Gcm, key: bytes) returns (ok: bool, output: bytes)
    ensures ok && output == g.seal(key, [0, 0], [7])
  {
    var nonce := new Counter(2);
    var input := new Reader([7], true);
    ghost var first: bytes, second: bytes := [0, 0], [0, 1];
    assert nonce.val[..] == first && first[..1] + [first[1] + 1] == second;
    assert Next(first) == Some(second);
    assert SealBlocks(g, key, second, [], 1) == Some([]) && [7][..1] == [7] && [7][1..] == [];
    assert WholeBlocks(1, 1);
    ok, output := EncryptBlocks(g, key, nonce, input, 1);
  }

  /** n bytes are whole blocks. */
  ghost predicate WholeBlocks(n: nat, size: nat)
    requires size > 0
  {
    n == 0 || (n >= size && WholeBlocks(n - size, size))
  }

  /** A stream of n bytes fails where a loop over blocks notices it. */
  ghost predicate BreaksOff(broken: bool, n: nat, size: nat)
    requires size > 0
  {
    broken && !WholeBlocks(n, size)
  }

  lemma {:induction false} WholeBlocksAreMultiples(n: nat, size: nat)
    requires size > 0
    ensures WholeBlocks(n, size) <==> exists k: nat :: n == k * size
  {
    if n >= size {
      WholeBlocksAreMultiples(n - size, size);
      if k: nat :| n == k * size {
        assert k >= 1;
        assert n - size == (k - 1) * size;
      }
      if k: nat :| n - size == k * size {
        assert n == (k + 1) * size;
      }
    } else if n > 0 {
      forall k: nat ensures n != k * size {
        if k > 0 {
          MulAtLeast(k, size);
        }
      }
    } else {
      assert n == 0 * size;
    }
  }

  lemma OpenedOne(g: Gcm, key: bytes, nonce: bytes, c: bytes, size: nat, done: bytes)
    requires size > 0 && c != []
    requires g.open(key, nonce, c[..Min(size + g.overhead, |c|)]).Some? && Next(nonce).Some?
    ensures var m := Min(size + g.overhead, |c|);
            Prepend(done, OpenBlocks(g, key, nonce, c, size))
            == Prepend(done + g.open(key, nonce, c[..m]).value, OpenBlocks(g, key, Next(nonce).value, c[m..], size))
  {
    var m := Min(size + g.overhead, |c|);
    PrependTwice(done, g.open(key, nonce, c[..m]).value, OpenBlocks(g, key, Next(nonce).value, c[m..], size));
  }

  /** The loop of aesDecryptGCM, to which the same applies between two sealed blocks. */
  method DecryptBlocks(g: Gcm, key: bytes, nonce: Counter, input: Reader, size: nat) returns (ok: bool, output: bytes)
    requires size > 0
    modifies input, nonce.val
    ensures var answer := OpenBlocks(g, key, old(nonce.val[..]), old(input.rest), size);
            if BreaksOff(input.broken, |old(input.rest)|, size + g.overhead) then !ok
            else ok == answer.Some? && (ok ==> output == answer.value)
  {
    output := [];
    ghost var all := OpenBlocks(g, key, nonce.val[..], input.rest, size);
    while true
      invariant all == Prepend(output, OpenBlocks(g, key, nonce.val[..], input.rest, size))
      invariant input.broken ==> WholeBlocks(|input.rest|, size + g.overhead) == WholeBlocks(|old(input.rest)|, size + g.overhead)
      decreases |input.rest|
    {
      ghost var done, c, now := output, input.rest, nonce.val[..];
      var block := new byte[size + g.overhead];
      var n, err := input.ReadFull(block);
      if n == 0 {
        break;
      }
      if err == Failure {
        return false, output;
      }
      var plain := g.open(key, nonce.val[..], block[..n]);
      if plain.None? {
        return false, output;
      }
      output := output + plain.value;
      var incremented := nonce.Increment();
      if !incremented {
        return false, output;
      }
      OpenedOne(g, key, now, c, size, done);
    }
    ok := true;
  }

  /** The loop of aesEncryptGCMFIPS; `chosen` are the nonces the cipher will choose. */
  method EncryptFipsBlocks(g: FipsGcm, key: bytes, chosen: nat -> bytes, input: Reader, size: nat) returns (ok: bool, output: bytes)
    requires size > 0
    modifies input
    ensures ok <==> !BreaksOff(input.broken, |old(input.rest)|, size)
    ensures ok ==> output == SealChosen(g.seal, key, chosen, 0, old(input.rest), size)
  {
    output := [];
    var buf := new byte[size];
    var i := 0;
    ghost var all := SealChosen(g.seal, key, chosen, 0, input.rest, size);
    while true
      invariant fresh(buf) && buf.Length == size
      invariant all == output + SealChosen(g.seal, key, chosen, i, input.rest, size)
      invariant input.broken ==> WholeBlocks(|input.rest|, size) == WholeBlocks(|old(input.rest)|, size)
      decreases |input.rest|
    {
      ghost var done := output;
      var n, err := input.ReadFull(buf);
      if n == 0 {
        break;
      }
      if err == Failure {
        return false, output;
      }
      var block := g.seal(key, chosen(i), buf[..n]);
      output := output + block;
      i := i + 1;
      PrependTwice(done, block, Some(SealChosen(g.seal, key, chosen, i, input.rest, size)));
    }
    ok := true;
  }

  /** The loop of aesDecryptGCMFIPS. */
  method DecryptFipsBlocks(g: FipsGcm, key: bytes, input: Reader, size: nat) returns (ok: bool, output: bytes)
    requires size > 0
    modifies input
    ensures var answer := OpenFips(g, key, old(input.rest), size);
            if BreaksOff(input.broken, |old(input.rest)|, size + g.overhead) then !ok
            else ok == answer.Some? && (ok ==> output == answer.value)
  {
    output := [];
    ghost var all := OpenFips(g, key, input.rest, size);
    while true
      invariant all == Prepend(output, OpenFips(g, key, input.rest, size))
      invariant input.broken ==> WholeBlocks(|input.rest|, size + g.overhead) == WholeBlocks(|old(input.rest)|, size + g.overhead)
      decreases |input.rest|
    {
      ghost var done := output;
      var block := new byte[size + g.overhead];
      var n, err := input.ReadFull(block);
      if n == 0 {
        break;
      }
      if err == Failure {
        return false, output;
      }
      var plain := g.open(key, block[..n]);
      if plain.None? {
        return false, output;
      }
      output := output + plain.value;
      PrependTwice(done, plain.value, OpenFips(g, key, input.rest, size));
    }
    ok := true;
  }

  // ----- whole files

  /** aesEncryptGCM, given the random salt and the random byte of its nonce. */
  method EncryptGcm(g: Gcm, input: Reader, passphrase: bytes, salt: bytes, random: byte) returns (ok: bool, output: bytes)
    requires |salt| == GCM_SALT_LENGTH
    modifies input
    ensures var file := GcmFile(g, passphrase, salt, random, old(input.rest));
            if BreaksOff(input.broken, |old(input.rest)|, GCM_BLOCK_SIZE) then !ok
            else ok == file.Some? && (ok ==> output == file.value)
  {
    var key := g.derive(passphrase, salt);
    var nonce := Counter.NewRandom(GCM_NONCE_SIZE, random);
    output := GCM_HEADER + salt + nonce.val[..];
    ghost var head := output;
    var blocks;
    ok, blocks := EncryptBlocks(g, key, nonce, input, GCM_BLOCK_SIZE);
    output := output + blocks;
  }

  /** The file a passphrase, salt and random byte make of p. */
  ghost function GcmFile(g: Gcm, passphrase: bytes, salt: bytes, random: byte, p: bytes): Option<bytes> {
    var nonce := Initial(GCM_NONCE_SIZE, random);
    Prepend(GCM_HEADER + salt + nonce, SealBlocks(g, g.derive(passphrase, salt), nonce, p, GCM_BLOCK_SIZE))
  }

  /** aesDecryptGCM; it reads its header again, behind the one the dispatch has looked at. */
  method DecryptGcm(g: Gcm, input: Reader, passphrase: bytes) returns (plain: Option<bytes>)
    modifies input
    ensures plain == OpenGcmFile(g, passphrase, old(input.rest), input.broken)
  {
    ghost var file, h, s := input.rest, |GCM_HEADER|, |GCM_HEADER| + GCM_SALT_LENGTH;
    ghost var b := s + GCM_NONCE_SIZE;
    var header := new byte[|GCM_HEADER|];
    var n, err := input.ReadFull(header);
    if err != NoError || header[..] != GCM_HEADER {
      return None;
    }
    var salt := new byte[GCM_SALT_LENGTH];
    n, err := input.ReadFull(salt);
    if err != NoError {
      return None;
    }
    assert salt[..] == salt[..n] && file[h..][..n] == file[h..s];
    assert salt[..] == file[h..s] && input.rest == file[s..];
    var key := g.derive(passphrase, salt[..]);
    var nonce := new Counter(GCM_NONCE_SIZE);
    n, err := input.ReadFull(nonce.val);
    if err != NoError {
      return None;
    }
    assert nonce.val[..] == nonce.val[..n] && file[s..][..n] == file[s..b];
    assert nonce.val[..] == file[s..b] && input.rest == file[b..];
    var ok, output := DecryptBlocks(g, key, nonce, input, GCM_BLOCK_SIZE);
    plain := if ok then Some(output) else None;
  }

  /** What a stream that delivers `file`, and then ends or fails, is decrypted to. */
  ghost function OpenGcmFile(g: Gcm, passphrase: bytes, file: bytes, broken: bool): Option<bytes> {
    var h, s := |GCM_HEADER|, |GCM_HEADER| + GCM_SALT_LENGTH;
    var b := s + GCM_NONCE_SIZE;
    if |file| < b || file[..h] != GCM_HEADER then None
    else OpenGcmBody(g, g.derive(passphrase, file[h..s]), file[s..b], file[b..], broken)
  }

  ghost function OpenGcmBody(g: Gcm, key: bytes, nonce: bytes, body: bytes, broken: bool): Option<bytes> {
    if BreaksOff(broken, |body|, GCM_BLOCK_SIZE + g.overhead) then None
    else OpenBlocks(g, key, nonce, body, GCM_BLOCK_SIZE)
  }

  /** aesEncryptGCMFIPS. */
  method EncryptFips(g: FipsGcm, input: Reader, passphrase: bytes, salt: bytes, chosen: nat -> bytes) returns (ok: bool, output: bytes)
    requires |salt| == FIPS_SALT_LENGTH
    modifies input
    ensures ok <==> !BreaksOff(input.broken, |old(input.rest)|, FIPS_BLOCK_SIZE)
    ensures ok ==> output == FipsFile(g, passphrase, salt, chosen, old(input.rest))
  {
    var key := g.derive(passphrase, salt);
    output := FIPS_HEADER + salt;
    var blocks;
    ok, blocks := EncryptFipsBlocks(g, key, chosen, input, FIPS_BLOCK_SIZE);
    output := output + blocks;
  }

  ghost function FipsFile(g: FipsGcm, passphrase: bytes, salt: bytes, chosen: nat -> bytes, p: bytes): bytes {
    FIPS_HEADER + salt + FipsBody(g, g.derive(passphrase, salt), chosen, p)
  }

  ghost function FipsBody(g: FipsGcm, key: bytes, chosen: nat -> bytes, p: bytes): bytes {
    SealChosen(g.seal, key, chosen, 0, p, FIPS_BLOCK_SIZE)
  }

  /** aesDecryptGCMFIPS. */
  method DecryptFips(g: FipsGcm, input: Reader, passphrase: bytes) returns (plain: Option<bytes>)
    modifies input
    ensures plain == OpenFipsFile(g, passphrase, old(input.rest), input.broken)
  {
    ghost var file, h, s := input.rest, |FIPS_HEADER|, |FIPS_HEADER| + FIPS_SALT_LENGTH;
    var header := new byte[|FIPS_HEADER|];
    var n, err := input.ReadFull(header);
    if err != NoError || header[..] != FIPS_HEADER {
      return None;
    }
    var salt := new byte[FIPS_SALT_LENGTH];
    n, err := input.ReadFull(salt);
    if err != NoError {
      return None;
    }
    assert salt[..] == salt[..n] && file[h..][..n] == file[h..s];
    assert salt[..] == file[h..s] && input.rest == file[s..];
    var key := g.derive(passphrase, salt[..]);
    var ok, output := DecryptFipsBlocks(g, key, input, FIPS_BLOCK_SIZE);
    plain := if ok then Some(output) else None;
  }

  ghost function OpenFipsFile(g: FipsGcm, passphrase: bytes, file: bytes, broken: bool): Option<bytes> {
    var h, s := |FIPS_HEADER|, |FIPS_HEADER| + FIPS_SALT_LENGTH;
    if |file| < s || file[..h] != FIPS_HEADER then None
    else OpenFipsBody(g, g.derive(passphrase, file[h..s]), file[s..], broken)
  }

  ghost function OpenFipsBody(g: FipsGcm, key: bytes, body: bytes, broken: bool): Option<bytes> {
    if BreaksOff(broken, |body|, FIPS_BLOCK_SIZE + g.overhead) then None
    else OpenFips(g, key, body, FIPS_BLOCK_SIZE)
  }

  /** What decrypting a file comes to. `Legacy` hands the file to the headerless routine. */
  datatype Answer = Plain(content: bytes) | Legacy | TooShort | FipsNotEnabled | NotFips | Corrupt

  /** aesDecrypt. */
  method Decrypt(g: Gcm, f: FipsGcm, input: Reader, passphrase: bytes, fipsMode: bool) returns (r: Answer)
    modifies input
    ensures r == OpenFile(g, f, passphrase, old(input.rest), input.broken, fipsMode)
  {
    if |input.rest| < |FIPS_HEADER| {
      return TooShort;
    }
    var header := input.rest[..|FIPS_HEADER|];
    if FIPS_HEADER <= header {
      if !fipsMode {
        return FipsNotEnabled;
      }
      var plain := DecryptFips(f, input, passphrase);
      return if plain.Some? then Plain(plain.value) else Corrupt;
    }
    if GCM_HEADER <= header {
      if fipsMode {
        return NotFips;
      }
      var plain := DecryptGcm(g, input, passphrase);
      return if plain.Some? then Plain(plain.value) else Corrupt;
    }
    return Legacy;
  }

  ghost function OpenFile(g: Gcm, f: FipsGcm, passphrase: bytes, file: bytes, broken: bool, fipsMode: bool): Answer {
    if |file| < |FIPS_HEADER| then TooShort
    else if FIPS_HEADER <= file then
      if !fipsMode then FipsNotEnabled else OrCorrupt(OpenFipsFile(f, passphrase, file, broken))
    else if GCM_HEADER <= file then
      if fipsMode then NotFips else OrCorrupt(OpenGcmFile(g, passphrase, file, broken))
    else Legacy
  }

  function OrCorrupt(plain: Option<bytes>): Answer {
    match plain
    case None => Corrupt
    case Some(p) => Plain(p)
  }

  function HasEncryptedHeader(data: bytes, fipsMode: bool): bool {
    if fipsMode then FIPS_HEADER <= data else GCM_HEADER <= data
  }

  // ----- main results

  /** Opening undoes sealing, whatever the length. */
  lemma {:induction false} BlocksRoundTrip(g: Gcm, key: bytes, nonce: bytes, p: bytes, size: nat)
    requires size > 0 && g.Lawful()
    ensures var c := SealBlocks(g, key, nonce, p, size);
            c.Some? ==> OpenBlocks(g, key, nonce, c.value, size) == Some(p)
    decreases |p|
  {
    if p != [] && SealBlocks(g, key, nonce, p, size).Some? {
      var m, c := Min(size, |p|), SealBlocks(g, key, nonce, p, size).value;
      var nonce' := Next(nonce).value;
      var block, rest := g.seal(key, nonce, p[..m]), SealBlocks(g, key, nonce', p[m..], size).value;
      BlocksRoundTrip(g, key, nonce', p[m..], size);
      assert c == block + rest && |block| == m + g.overhead;
      assert m < size ==> rest == [];
      assert Min(size + g.overhead, |c|) == |block|;
      assert c[..|block|] == block && c[|block|..] == rest;
      assert p[..m] + p[m..] == p;
    }
  }

  lemma {:induction false} FipsBlocksRoundTrip(g: FipsGcm, key: bytes, chosen: nat -> bytes, i: nat, p: bytes, size: nat)
    requires size > 0 && g.Lawful()
    ensures OpenFips(g, key, SealChosen(g.seal, key, chosen, i, p, size), size) == Some(p)
    decreases |p|
  {
    if p != [] {
      var m, c := Min(size, |p|), SealChosen(g.seal, key, chosen, i, p, size);
      var block, rest := g.seal(key, chosen(i), p[..m]), SealChosen(g.seal, key, chosen, i + 1, p[m..], size);
      FipsBlocksRoundTrip(g, key, chosen, i + 1, p[m..], size);
      assert c == block + rest && |block| == m + g.overhead;
      assert m < size ==> rest == [];
      assert Min(size + g.overhead, |c|) == |block|;
      assert c[..|block|] == block && c[|block|..] == rest;
      assert p[..m] + p[m..] == p;
    }
  }

  /** The number of blocks p is cut into. */
  ghost function Blocks(n: nat, size: nat): nat
    requires size > 0
  {
    if n == 0 then 0 else 1 + Blocks(n - Min(size, n), size)
  }

  /** Sealing fails exactly when there are more blocks than increments left. */
  lemma {:induction false} SealingNeedsRoom(g: Gcm, key: bytes, nonce: bytes, p: bytes, size: nat)
    requires size > 0
    ensures SealBlocks(g, key, nonce, p, size).Some? <==> BigEndian(nonce) + Blocks(|p|, size) < Pow256(|nonce|)
    decreases |p|
  {
    Successor(nonce);
    if p != [] && Next(nonce).Some? {
      SealingNeedsRoom(g, key, Next(nonce).value, p[Min(size, |p|)..], size);
    }
  }

  /** Every plaintext of fewer than 256^11 blocks can be encrypted, and decrypting gives it back; in
      FIPS mode the same file is refused. */
  lemma GcmRoundTrip(g: Gcm, f: FipsGcm, passphrase: bytes, salt: bytes, random: byte, p: bytes)
    requires g.Lawful() && |salt| == GCM_SALT_LENGTH
    requires Blocks(|p|, GCM_BLOCK_SIZE) < Pow256(GCM_NONCE_SIZE - 1)
    ensures GcmFile(g, passphrase, salt, random, p).Some?
    ensures var file := GcmFile(g, passphrase, salt, random, p).value;
            && OpenFile(g, f, passphrase, file, false, false) == Plain(p)
            && OpenFile(g, f, passphrase, file, false, true) == NotFips
            && HasEncryptedHeader(file, false) && !HasEncryptedHeader(file, true)
  {
    GcmFileOpens(g, passphrase, salt, random, p);
    HeadersDiffer(GcmFile(g, passphrase, salt, random, p).value);
  }

  lemma EnoughNonces(g: Gcm, key: bytes, random: byte, p: bytes, size: nat)
    requires size > 0 && Blocks(|p|, size) < Pow256(GCM_NONCE_SIZE - 1)
    ensures SealBlocks(g, key, Initial(GCM_NONCE_SIZE, random), p, size).Some?
  {
    var nonce, k := Initial(GCM_NONCE_SIZE, random), Blocks(|p|, size);
    RoomFromRandom(GCM_NONCE_SIZE, random, k);
    AdvanceAdds(nonce, k);
    SealingNeedsRoom(g, key, nonce, p, size);
  }

  lemma GcmFileOpens(g: Gcm, passphrase: bytes, salt: bytes, random: byte, p: bytes)
    requires g.Lawful() && |salt| == GCM_SALT_LENGTH
    requires Blocks(|p|, GCM_BLOCK_SIZE) < Pow256(GCM_NONCE_SIZE - 1)
    ensures GcmFile(g, passphrase, salt, random, p).Some?
    ensures var file := GcmFile(g, passphrase, salt, random, p).value;
            GCM_HEADER <= file && |file| >= |FIPS_HEADER| && OpenGcmFile(g, passphrase, file, false) == Some(p)
  {
    var nonce, key := Initial(GCM_NONCE_SIZE, random), g.derive(passphrase, salt);
    EnoughNonces(g, key, random, p, GCM_BLOCK_SIZE);
    BlocksRoundTrip(g, key, nonce, p, GCM_BLOCK_SIZE);
    GcmLayout(g, passphrase, salt, nonce, SealBlocks(g, key, nonce, p, GCM_BLOCK_SIZE).value, false);
  }

  lemma GcmLayout(g: Gcm, passphrase: bytes, salt: bytes, nonce: bytes, body: bytes, broken: bool)
    requires |salt| == GCM_SALT_LENGTH && |nonce| == GCM_NONCE_SIZE
    ensures var file := GCM_HEADER + salt + nonce + body;
            && GCM_HEADER <= file && |file| >= |FIPS_HEADER|
            && OpenGcmFile(g, passphrase, file, broken) == OpenGcmBody(g, g.derive(passphrase, salt), nonce, body, broken)
  {
    var file := GCM_HEADER + salt + nonce + body;
    var h, s := |GCM_HEADER|, |GCM_HEADER| + GCM_SALT_LENGTH;
    var b := s + GCM_NONCE_SIZE;
    assert file[..h] == GCM_HEADER;
    assert file[h..s] == salt;
    assert file[s..b] == nonce;
    assert file[b..] == body;
  }

  lemma Slices(a: bytes, b: bytes, c: bytes)
    ensures var s := a + b + c;
            && s[..|a|] == a && s[|a|..|a| + |b|] == b && s[|a| + |b|..] == c && a <= s && |s| - (|a| + |b|) == |c|
  {
  }

  lemma FipsLayout(f: FipsGcm, passphrase: bytes, salt: bytes, body: bytes, broken: bool)
    requires |salt| == FIPS_SALT_LENGTH
    ensures var file := FIPS_HEADER + salt + body;
            && FIPS_HEADER <= file
            && OpenFipsFile(f, passphrase, file, broken) == OpenFipsBody(f, f.derive(passphrase, salt), body, broken)
  {
    Slices(FIPS_HEADER, salt, body);
  }

  lemma FipsRoundTrip(g: Gcm, f: FipsGcm, passphrase: bytes, salt: bytes, chosen: nat -> bytes, p: bytes)
    requires f.Lawful() && |salt| == FIPS_SALT_LENGTH
    ensures var file := FipsFile(f, passphrase, salt, chosen, p);
            && OpenFile(g, f, passphrase, file, false, true) == Plain(p)
            && OpenFile(g, f, passphrase, file, false, false) == FipsNotEnabled
            && HasEncryptedHeader(file, true) && !HasEncryptedHeader(file, false)
  {
    var key := f.derive(passphrase, salt);
    FipsBlocksRoundTrip(f, key, chosen, 0, p, FIPS_BLOCK_SIZE);
    FipsLayout(f, passphrase, salt, FipsBody(f, key, chosen, p), false);
    HeadersDiffer(FipsFile(f, passphrase, salt, chosen, p));
  }

  /** No file carries both headers. */
  lemma HeadersDiffer(file: bytes)
    ensures !(GCM_HEADER <= file && FIPS_HEADER <= file)
  {
    if file != [] {
      assert GCM_HEADER[0] as int == 'A' as int && FIPS_HEADER[0] as int == 'F' as int;
    }
  }

  /** The i-th nonce of a run that starts at this one. */
  ghost function Successive(nonce: bytes): nat -> bytes {
    (i: nat) => match Advance(nonce, i) case Some(n) => n case None => []
  }

  /** Block i of an encrypted file is sealed under the start nonce advanced i times. */
  lemma {:induction false} BlockNonces(g: Gcm, key: bytes, nonce: bytes, i: nat, p: bytes, size: nat)
    requires size > 0 && Advance(nonce, i).Some?
    requires SealBlocks(g, key, Advance(nonce, i).value, p, size).Some?
    ensures SealBlocks(g, key, Advance(nonce, i).value, p, size).value
            == SealChosen(g.seal, key, Successive(nonce), i, p, size)
    decreases |p|
  {
    if p != [] {
      BlockNonces(g, key, nonce, i + 1, p[Min(size, |p|)..], size);
    }
  }

  /** No two blocks of an encrypted file are sealed under the same nonce. */
  lemma DistinctNonces(g: Gcm, key: bytes, nonce: bytes, p: bytes, size: nat, i: nat, j: nat)
    requires size > 0 && SealBlocks(g, key, nonce, p, size).Some?
    requires i < j < Blocks(|p|, size)
    ensures Successive(nonce)(i) != Successive(nonce)(j)
  {
    SealingNeedsRoom(g, key, nonce, p, size);
    AdvanceAdds(nonce, i);
    AdvanceAdds(nonce, j);
    NoncesNeverRepeat(nonce, i, j);
  }
}
