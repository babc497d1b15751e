/** The counter nonce of api/crypto: an array of bytes read as one big-endian number, as the
    deterministic construction of NIST SP 800-38D, section 8.2.1, asks for. */
module Nonce {
  import opened Bytes
  import opened Wrappers

  function BigEndian(s: bytes): nat {
    if s == [] then 0 else 256 * BigEndian(s[..|s| - 1]) + s[|s| - 1] as nat
  }

  function Pow256(n: nat): nat {
    if n == 0 then 1 else 256 * Pow256(n - 1)
  }

  predicate AllBytes(s: bytes, b: byte) {
    forall i :: 0 <= i < |s| ==> s[i] == b
  }

  class Counter {
    var val: array<byte>

    constructor (size: nat)
      ensures fresh(val) && val.Length == size && AllBytes(val[..], 0)
    {
      val := new byte[size](_ => 0);
    }

    /** NewRandomNonce, given the random byte; nothing when the size leaves no room for a counter. */
    static method NewRandom(size: int, random: byte) returns (n: Counter?)
      ensures n == null <==> size <= 1
      ensures n != null ==> fresh(n) && fresh(n.val) && n.val[..] == Initial(size, random)
      ensures n != null ==> n.val.Length == size && n.val[0] == random && forall i :: 1 <= i < size ==> n.val[i] == 0
    {
      var randomBytes := 1;
      if size <= randomBytes {
        return null;
      }
      n := new Counter(size);
      n.val[0] := random;
      assert n.val[..] == Initial(size, random);
    }

    /** Adds one in place; fails exactly on the largest value, which it wraps to zero. */
    method Increment() returns (ok: bool)
      modifies val
      ensures ok <==> !AllBytes(old(val[..]), 255)
      ensures ok ==> BigEndian(val[..]) == BigEndian(old(val[..])) + 1
      ensures ok ==> Next(old(val[..])) == Some(val[..])
      ensures !ok ==> AllBytes(val[..], 0) && Next(old(val[..])) == None
    {
      ghost var was := val[..];
      var i := val.Length;
      while i > 0
        invariant 0 <= i <= val.Length
        invariant forall j :: 0 <= j < i ==> val[j] == was[j]
        invariant forall j :: i <= j < val.Length ==> was[j] == 255 && val[j] == 0
      {
        i := i - 1;
        val[i] := if val[i] == 255 then 0 else val[i] + 1;
        if val[i] != 0 {
          Carried(was, val[..], i);
          Successor(was);
          return true;
        }
      }
      NextOverflows(was);
      ok := false;
    }
  }

  /** What NewRandomNonce makes: the random byte, then zeros. */
  function Initial(size: nat, random: byte): (s: bytes)
    requires size > 1
    ensures |s| == size
  {
    [random] + seq(size - 1, _ => 0)
  }

  /** The value after one increment, if there is one. */
  function Next(s: bytes): (r: Option<bytes>)
    ensures r.Some? ==> |r.value| == |s|
  {
    if s == [] then None
    else
      var last := |s| - 1;
      if s[last] < 255 then Some(s[..last] + [s[last] + 1])
      else match Next(s[..last])
           case None => None
           case Some(t) => Some(t + [0])
  }

  lemma {:induction false} Successor(s: bytes)
    ensures Next(s).Some? ==> BigEndian(Next(s).value) == BigEndian(s) + 1
    ensures Next(s).None? <==> AllBytes(s, 255)
    ensures Next(s).None? <==> BigEndian(s) == Pow256(|s|) - 1
    ensures BigEndian(s) < Pow256(|s|)
  {
    if s != [] {
      var last := |s| - 1;
      Successor(s[..last]);
      assert AllBytes(s, 255) <==> AllBytes(s[..last], 255) && s[last] == 255;
      if s[last] < 255 {
        assert (s[..last] + [s[last] + 1])[..last] == s[..last];
      } else if Next(s[..last]).Some? {
        assert (Next(s[..last]).value + [0])[..last] == Next(s[..last]).value;
      }
    }
  }

  /** Where the carry stops. */
  lemma {:induction false} Carried(was: bytes, now: bytes, i: nat)
    requires i < |was| == |now| && was[i] < 255 && now[i] == was[i] + 1
    requires forall j :: 0 <= j < i ==> now[j] == was[j]
    requires forall j :: i < j < |was| ==> was[j] == 255 && now[j] == 0
    ensures Next(was) == Some(now)
  {
    var last := |was| - 1;
    if i == last {
      assert now == was[..last] + [was[last] + 1];
    } else {
      Carried(was[..last], now[..last], i);
      assert now == now[..last] + [0];
    }
  }

  lemma NextOverflows(s: bytes)
    requires AllBytes(s, 255)
    ensures Next(s) == None
  {
    Successor(s);
  }

  /** The value after k increments. */
  function Advance(s: bytes, k: nat): Option<bytes> {
    if k == 0 then Some(s)
    else match Advance(s, k - 1)
         case None => None
         case Some(t) => Next(t)
  }

  // ----- main results

  /** k increments succeed iff the number does not leave its width, and add k. */
  lemma {:induction false} AdvanceAdds(s: bytes, k: nat)
    ensures Advance(s, k).Some? <==> BigEndian(s) + k < Pow256(|s|)
    ensures Advance(s, k).Some? ==> |Advance(s, k).value| == |s| && BigEndian(Advance(s, k).value) == BigEndian(s) + k
  {
    Successor(s);
    if k > 0 {
      AdvanceAdds(s, k - 1);
      if Advance(s, k - 1).Some? {
        Successor(Advance(s, k - 1).value);
      }
    }
  }

  /** Values met at different points of one run are different. */
  lemma NoncesNeverRepeat(s: bytes, j: nat, k: nat)
    requires j != k && Advance(s, j).Some? && Advance(s, k).Some?
    ensures Advance(s, j).value != Advance(s, k).value
  {
    AdvanceAdds(s, j);
    AdvanceAdds(s, k);
  }

  lemma {:induction false} ZerosAfter(random: byte, k: nat)
    ensures BigEndian([random] + seq(k, _ => 0)) == random as nat * Pow256(k)
  {
    var s := [random] + seq(k, _ => 0);
    if k == 0 {
      assert s[..0] == [];
      assert BigEndian(s[..0]) == 0;
    } else {
      assert s[..k] == [random] + seq(k - 1, _ => 0);
      ZerosAfter(random, k - 1);
      MulAssoc(random as nat, Pow256(k - 1));
    }
  }

  lemma MulAssoc(a: nat, b: nat)
    ensures 256 * (a * b) == a * (256 * b)
  {
  }

  /** From any nonce NewRandomNonce can make, the first 256^(size - 1) - 1 increments succeed; the
      next one fails exactly when the random byte was the largest. */
  lemma RoomFromRandom(size: nat, random: byte, k: nat)
    requires size > 1 && k <= Pow256(size - 1)
    ensures k < Pow256(size - 1) ==> Advance(Initial(size, random), k).Some?
    ensures k == Pow256(size - 1) ==> (Advance(Initial(size, random), k).None? <==> random == 255)
  {
    var s, p, r := Initial(size, random), Pow256(size - 1), random as nat;
    ZerosAfter(random, size - 1);
    AdvanceAdds(s, k);
    assert BigEndian(s) == r * p && Pow256(|s|) == 256 * p;
    Scaled(r, p);
  }

  lemma Scaled(r: nat, p: nat)
    requires r < 256
    ensures r * p + p <= 256 * p
    ensures p > 0 ==> (r * p + p == 256 * p <==> r == 255)
  {
    if r < 255 {
      assert r * p + p == (r + 1) * p;
      assert (255 - r) * p >= 0;
      assert p > 0 ==> (255 - r) * p >= p by { MulAtLeast(255 - r, p); }
    }
  }

  lemma MulAtLeast(a: nat, p: nat)
    requires a >= 1
    ensures a * p >= p
  {
  }
}
