/** Encrypted archives that are not whole, or whose blocks are not in their order: what the two modes
    of api/crypto/aes.go make of them. */
module ArchiveFragments {
  import opened Archive
  import opened Bytes
  import opened Nonce
  import opened Wrappers

  // ----- cut after whole blocks

  /** The blocks of a beginning that is cut into whole blocks are sealed as those of the whole. */
  lemma {:induction false} SealBeginning(g: Gcm, key: bytes, nonce: bytes, p: bytes, q: bytes, size: nat)
    requires size > 0 && g.Lawful() && WholeBlocks(|p|, size) && SealBlocks(g, key, nonce, p + q, size).Some?
    ensures var c := SealBlocks(g, key, nonce, p, size);
            && c.Some? && c.value <= SealBlocks(g, key, nonce, p + q, size).value
            && WholeBlocks(|c.value|, size + g.overhead)
    decreases |p|
  {
    if p != [] {
      assert (p + q)[..size] == p[..size] && (p + q)[size..] == p[size..] + q;
      SealBeginning(g, key, Next(nonce).value, p[size..], q, size);
    }
  }

  lemma {:induction false} SealChosenBeginning(g: FipsGcm, key: bytes, chosen: nat -> bytes, i: nat, p: bytes, q: bytes, size: nat)
    requires size > 0 && g.Lawful() && WholeBlocks(|p|, size)
    ensures var c := SealChosen(g.seal, key, chosen, i, p, size);
            && c <= SealChosen(g.seal, key, chosen, i, p + q, size)
            && WholeBlocks(|c|, size + g.overhead)
    decreases |p|
  {
    if p != [] {
      assert (p + q)[..size] == p[..size] && (p + q)[size..] == p[size..] + q;
      SealChosenBeginning(g, key, chosen, i + 1, p[size..], q, size);
    }
  }

  /** A file that is cut after whole blocks, or breaks off there, is decrypted to what they hold. */
  lemma GcmCutAtBlock(g: Gcm, f: FipsGcm, passphrase: bytes, salt: bytes, random: byte, p: bytes, q: bytes, broken: bool)
    requires g.Lawful() && |salt| == GCM_SALT_LENGTH && WholeBlocks(|p|, GCM_BLOCK_SIZE)
    requires GcmFile(g, passphrase, salt, random, p + q).Some?
    ensures var cut := GcmFile(g, passphrase, salt, random, p);
            && cut.Some? && cut.value <= GcmFile(g, passphrase, salt, random, p + q).value
            && OpenFile(g, f, passphrase, cut.value, broken, false) == Plain(p)
  {
    var nonce, key := Initial(GCM_NONCE_SIZE, random), g.derive(passphrase, salt);
    SealBeginning(g, key, nonce, p, q, GCM_BLOCK_SIZE);
    GcmBodyOpens(g, key, nonce, p, broken);
    GcmLayout(g, passphrase, salt, nonce, SealBlocks(g, key, nonce, p, GCM_BLOCK_SIZE).value, broken);
    HeadersDiffer(GcmFile(g, passphrase, salt, random, p).value);
  }

  lemma GcmBodyOpens(g: Gcm, key: bytes, nonce: bytes, p: bytes, broken: bool)
    requires g.Lawful() && SealBlocks(g, key, nonce, p, GCM_BLOCK_SIZE).Some?
    requires WholeBlocks(|SealBlocks(g, key, nonce, p, GCM_BLOCK_SIZE).value|, GCM_BLOCK_SIZE + g.overhead)
    ensures OpenGcmBody(g, key, nonce, SealBlocks(g, key, nonce, p, GCM_BLOCK_SIZE).value, broken) == Some(p)
  {
    BlocksRoundTrip(g, key, nonce, p, GCM_BLOCK_SIZE);
  }

  lemma FipsCutAtBlock(g: Gcm, f: FipsGcm, passphrase: bytes, salt: bytes, chosen: nat -> bytes, p: bytes, q: bytes, broken: bool)
    requires f.Lawful() && |salt| == FIPS_SALT_LENGTH && WholeBlocks(|p|, FIPS_BLOCK_SIZE)
    ensures var cut := FipsFile(f, passphrase, salt, chosen, p);
            && cut <= FipsFile(f, passphrase, salt, chosen, p + q)
            && OpenFile(g, f, passphrase, cut, broken, true) == Plain(p)
  {
    var key := f.derive(passphrase, salt);
    FipsBodyBeginning(f, key, chosen, p, q);
    FipsBodyOpens(f, key, chosen, p, broken);
    FipsCut(g, f, passphrase, salt, FipsBody(f, key, chosen, p), FipsBody(f, key, chosen, p + q), p, broken);
  }

  lemma FipsBodyBeginning(f: FipsGcm, key: bytes, chosen: nat -> bytes, p: bytes, q: bytes)
    requires f.Lawful() && WholeBlocks(|p|, FIPS_BLOCK_SIZE)
    ensures FipsBody(f, key, chosen, p) <= FipsBody(f, key, chosen, p + q)
    ensures WholeBlocks(|FipsBody(f, key, chosen, p)|, FIPS_BLOCK_SIZE + f.overhead)
  {
    SealChosenBeginning(f, key, chosen, 0, p, q, FIPS_BLOCK_SIZE);
  }

  lemma FipsBodyOpens(f: FipsGcm, key: bytes, chosen: nat -> bytes, p: bytes, broken: bool)
    requires f.Lawful() && WholeBlocks(|FipsBody(f, key, chosen, p)|, FIPS_BLOCK_SIZE + f.overhead)
    ensures OpenFipsBody(f, key, FipsBody(f, key, chosen, p), broken) == Some(p)
  {
    FipsBlocksRoundTrip(f, key, chosen, 0, p, FIPS_BLOCK_SIZE);
  }

  lemma FipsCut(g: Gcm, f: FipsGcm, passphrase: bytes, salt: bytes, cut: bytes, whole: bytes, p: bytes, broken: bool)
    requires |salt| == FIPS_SALT_LENGTH && cut <= whole && OpenFipsBody(f, f.derive(passphrase, salt), cut, broken) == Some(p)
    ensures FIPS_HEADER + salt + cut <= FIPS_HEADER + salt + whole
    ensures OpenFile(g, f, passphrase, FIPS_HEADER + salt + cut, broken, true) == Plain(p)
  {
    PrefixBehind(FIPS_HEADER + salt, cut, whole);
    FipsLayout(f, passphrase, salt, cut, broken);
  }

  lemma PrefixBehind(head: bytes, a: bytes, b: bytes)
    requires a <= b
    ensures head + a <= head + b
  {
  }

  // ----- rearranged

  ghost function Concat(parts: seq<bytes>): bytes {
    if parts == [] then [] else parts[0] + Concat(parts[1..])
  }

  /** Full blocks, and a choice of them: which ones, and in which order. */
  ghost predicate Chosen(blocks: seq<bytes>, order: seq<nat>, size: nat) {
    && size > 0
    && (forall i :: 0 <= i < |blocks| ==> |blocks[i]| == size)
    && (forall i :: 0 <= i < |order| ==> order[i] < |blocks|)
  }

  /** The chosen blocks, and the same as they are sealed at their own places. */
  ghost function Pick(blocks: seq<bytes>, order: seq<nat>, size: nat): seq<bytes>
    requires Chosen(blocks, order, size)
  {
    seq(|order|, i requires 0 <= i < |order| => blocks[order[i]])
  }

  ghost function PickSealed(seal: (bytes, bytes, bytes) -> bytes, key: bytes, nonces: nat -> bytes,
                            blocks: seq<bytes>, order: seq<nat>, size: nat): seq<bytes>
    requires Chosen(blocks, order, size)
  {
    seq(|order|, i requires 0 <= i < |order| => seal(key, nonces(order[i]), blocks[order[i]]))
  }

  lemma PickRest(seal: (bytes, bytes, bytes) -> bytes, key: bytes, nonces: nat -> bytes, blocks: seq<bytes>, order: seq<nat>, size: nat)
    requires Chosen(blocks, order, size) && order != []
    ensures Concat(Pick(blocks, order, size)) == blocks[order[0]] + Concat(Pick(blocks, order[1..], size))
    ensures Concat(PickSealed(seal, key, nonces, blocks, order, size))
            == seal(key, nonces(order[0]), blocks[order[0]]) + Concat(PickSealed(seal, key, nonces, blocks, order[1..], size))
  {
    assert Pick(blocks, order, size)[1..] == Pick(blocks, order[1..], size);
    assert PickSealed(seal, key, nonces, blocks, order, size)[1..] == PickSealed(seal, key, nonces, blocks, order[1..], size);
  }

  /** In FIPS mode the places of the blocks are not part of what is sealed: full blocks that are
      rearranged in any way, some left out or repeated, open to the plaintext rearranged alike. */
  lemma {:induction false} FipsOpensInAnyOrder(g: FipsGcm, key: bytes, chosen: nat -> bytes, blocks: seq<bytes>, order: seq<nat>, size: nat)
    requires g.Lawful() && Chosen(blocks, order, size)
    ensures OpenFips(g, key, Concat(PickSealed(g.seal, key, chosen, blocks, order, size)), size)
            == Some(Concat(Pick(blocks, order, size)))
    decreases |order|
  {
    if order != [] {
      PickRest(g.seal, key, chosen, blocks, order, size);
      FipsOpensInAnyOrder(g, key, chosen, blocks, order[1..], size);
      var block := g.seal(key, chosen(order[0]), blocks[order[0]]);
      var c, rest := Concat(PickSealed(g.seal, key, chosen, blocks, order, size)), Concat(PickSealed(g.seal, key, chosen, blocks, order[1..], size));
      assert c[..size + g.overhead] == block && c[size + g.overhead..] == rest;
    }
  }

  /** The places from `at` on, in their order. */
  ghost predicate InOrder(order: seq<nat>, at: nat)
    decreases |order|
  {
    order == [] || (order[0] == at && InOrder(order[1..], at + 1))
  }

  lemma {:induction false} InOrderPlaces(order: seq<nat>, at: nat)
    ensures InOrder(order, at) <==> forall i :: 0 <= i < |order| ==> order[i] == at + i
    decreases |order|
  {
    if order != [] {
      InOrderPlaces(order[1..], at + 1);
      assert forall i :: 1 <= i < |order| ==> order[i] == order[1..][i - 1];
    }
  }

  /** In GCM mode the counter binds each block to its place: rearranged blocks open iff they are the
      first ones in their order. */
  lemma GcmOpensInOrder(g: Gcm, key: bytes, nonce: bytes, blocks: seq<bytes>, order: seq<nat>, size: nat)
    requires g.Lawful() && g.Binds(|nonce|) && Chosen(blocks, order, size) && Advance(nonce, |blocks|).Some?
    ensures OpenBlocks(g, key, nonce, Concat(PickSealed(g.seal, key, Successive(nonce), blocks, order, size)), size).Some?
            <==> forall i :: 0 <= i < |order| ==> order[i] == i
  {
    SuccessiveCounts(nonce, |blocks|);
    OpensInOrderFrom(g, key, Successive(nonce), blocks, order, size, 0);
    InOrderPlaces(order, 0);
  }

  /** The first n of these nonces are of one size and different, and each is followed by the next. */
  ghost predicate Counts(nonces: nat -> bytes, n: nat) {
    && (forall i: nat :: i < n ==> Next(nonces(i)) == Some(nonces(i + 1)))
    && (forall i: nat, j: nat :: i <= n && j <= n ==> |nonces(i)| == |nonces(j)| && (nonces(i) == nonces(j) ==> i == j))
  }

  lemma SuccessiveCounts(nonce: bytes, n: nat)
    requires Advance(nonce, n).Some?
    ensures Counts(Successive(nonce), n) && Successive(nonce)(0) == nonce
  {
    var nonces := Successive(nonce);
    forall i: nat | i <= n ensures Advance(nonce, i) == Some(nonces(i)) && |nonces(i)| == |nonce| {
      Reaches(nonce, i, n);
    }
    forall i: nat | i < n ensures Next(nonces(i)) == Some(nonces(i + 1)) {
      Reaches(nonce, i + 1, n);
    }
    forall i: nat, j: nat | i <= n && j <= n && i != j ensures nonces(i) != nonces(j) {
      Reaches(nonce, i, n);
      Reaches(nonce, j, n);
      NoncesNeverRepeat(nonce, i, j);
    }
  }

  lemma {:induction false} OpensInOrderFrom(g: Gcm, key: bytes, nonces: nat -> bytes, blocks: seq<bytes>, order: seq<nat>, size: nat, at: nat)
    requires g.Lawful() && g.Binds(|nonces(0)|) && Chosen(blocks, order, size) && Counts(nonces, |blocks|) && at <= |blocks|
    ensures OpenBlocks(g, key, nonces(at), Concat(PickSealed(g.seal, key, nonces, blocks, order, size)), size).Some?
            <==> InOrder(order, at)
    decreases |order|
  {
    if order != [] {
      var own, rest := order[0], Concat(PickSealed(g.seal, key, nonces, blocks, order[1..], size));
      PickRest(g.seal, key, nonces, blocks, order, size);
      BlockOpens(g, key, nonces(at), nonces(own), blocks[own], rest, size);
      if own == at {
        OpensInOrderFrom(g, key, nonces, blocks, order[1..], size, at + 1);
      }
    }
  }

  lemma Reaches(nonce: bytes, at: nat, n: nat)
    requires Advance(nonce, n).Some? && at <= n
    ensures Advance(nonce, at).Some? && |Advance(nonce, at).value| == |nonce|
  {
    AdvanceAdds(nonce, n);
    AdvanceAdds(nonce, at);
  }

  /** A full block that was sealed under `own`, and others behind it, opened at `now`. */
  lemma BlockOpens(g: Gcm, key: bytes, now: bytes, own: bytes, block: bytes, rest: bytes, size: nat)
    requires g.Lawful() && g.Binds(|now|) && |own| == |now| && |block| == size > 0
    ensures OpenBlocks(g, key, now, g.seal(key, own, block) + rest, size).Some?
            <==> own == now && Next(now).Some? && OpenBlocks(g, key, Next(now).value, rest, size).Some?
  {
    var sealed := g.seal(key, own, block);
    assert (sealed + rest)[..size + g.overhead] == sealed && (sealed + rest)[size + g.overhead..] == rest;
  }

  /** All places from `at` on. */
  ghost function Places(at: nat, n: nat): (order: seq<nat>)
    ensures forall i :: 0 <= i < |order| ==> order[i] < n
    decreases n - at
  {
    if at >= n then [] else [at] + Places(at + 1, n)
  }

  /** What is written for full blocks, in both modes, is the blocks sealed at their own places. */
  lemma {:induction false} FileIsPicked(seal: (bytes, bytes, bytes) -> bytes, key: bytes, nonces: nat -> bytes, blocks: seq<bytes>, size: nat, at: nat)
    requires Chosen(blocks, [], size) && at <= |blocks|
    ensures Concat(Pick(blocks, Places(at, |blocks|), size)) == Concat(blocks[at..])
    ensures SealChosen(seal, key, nonces, at, Concat(blocks[at..]), size)
            == Concat(PickSealed(seal, key, nonces, blocks, Places(at, |blocks|), size))
    decreases |blocks| - at
  {
    if at < |blocks| {
      var order, rest := Places(at, |blocks|), Concat(blocks[at + 1..]);
      assert order[1..] == Places(at + 1, |blocks|);
      PickRest(seal, key, nonces, blocks, order, size);
      FileIsPicked(seal, key, nonces, blocks, size, at + 1);
      assert blocks[at..][1..] == blocks[at + 1..];
      assert (blocks[at] + rest)[..size] == blocks[at] && (blocks[at] + rest)[size..] == rest;
    }
  }
}
