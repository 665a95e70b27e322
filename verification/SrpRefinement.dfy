/** The server's functions compute what the documents describe. */
module SrpRefinement {
  import opened Arithmetic
  import opened Bytes
  import opened ModularPower
  import opened InterleavedHash
  import opened SrpGroup
  import opened SrpStandard

  // ---------- numbers ----------

  lemma {:induction false} WeightIs(i: nat)
    ensures Weight(i) == Power256(i)
  {
    if i > 0 {
      WeightIs(i - 1);
    }
  }

  lemma {:induction false} LastByte(bs: bytes, last: byte)
    ensures LeValue(bs + [last]) == LeValue(bs) + last * Power256(|bs|)
  {
    if bs == [] {
      assert LeValue([last]) == last + 256 * LeValue([last][1..]);
    } else {
      assert (bs + [last])[1..] == bs[1..] + [last];
      LastByte(bs[1..], last);
      var p := Power256(|bs| - 1);
      assert 256 * (last * p) == last * (256 * p);
    }
  }

  lemma {:induction false} NumberIs(bs: bytes)
    ensures Number(bs) == LeValue(bs)
  {
    if bs != [] {
      var front, last := bs[..|bs| - 1], bs[|bs| - 1];
      NumberIs(front);
      LastByte(front, last);
      WeightIs(|front|);
      assert front + [last] == bs;
    }
  }

  lemma {:induction false} LeBytesAt(n: nat, len: nat, k: nat)
    requires k < len
    ensures LeBytes(n, len)[k] == n / Power256(k) % 256
  {
    if k > 0 {
      LeBytesAt(n / 256, len - 1, k - 1);
      DivideTwice(n, 256, Power256(k - 1));
    }
  }

  lemma DivideTwice(n: nat, p: nat, q: nat)
    requires p > 0 && q > 0
    ensures n / p / q == n / (p * q)
  {
    var m := n / p;
    assert n == p * m + n % p && m == q * (m / q) + m % q;
    assert p * (q * (m / q)) == (p * q) * (m / q);
    var r := p * (m % q) + n % p;
    assert m % q <= q - 1;
    assert p * (m % q) <= p * (q - 1) by { MulMono(p, m % q, q - 1); }
    assert p * (q - 1) == p * q - p;
    assert n == (p * q) * (m / q) + r && r < p * q;
    ModUnique(n, p * q, m / q, r);
  }

  lemma MulMono(p: nat, a: nat, b: nat)
    requires a <= b
    ensures p * a <= p * b
  {
  }

  lemma ThirtyTwoIs(n: nat)
    ensures ThirtyTwo(n) == LeBytes(n, 32)
  {
    forall k | 0 <= k < 32 ensures ThirtyTwo(n)[k] == LeBytes(n, 32)[k] {
      LeBytesAt(n, 32, k);
      WeightIs(k);
    }
  }

  // ---------- powers ----------

  lemma {:induction false} RaiseIs(b: int, e: nat, n: nat)
    requires n > 0
    ensures Raise(b, e, n) == ModExp(b, e, n)
    decreases e
  {
    hide Cong;
    if e > 0 {
      var k := e / 2;
      RaiseIs(b * b % n, k, n);
      ModCong(b * b, n);
      CongPow(b * b % n, b * b, k, n);
      CongModEqual(Pow(b * b % n, k), Pow(b * b, k), n);
      assert Pow(b, 2) == b * b by { assert Pow(b, 2) == b * Pow(b, 1) && Pow(b, 1) == b * Pow(b, 0); }
      PowMul(b, 2, k);
      if e % 2 == 1 {
        assert e == 2 * k + 1;
        ModCong(Pow(b, 2 * k), n);
        CongScale(Pow(b, 2 * k) % n, Pow(b, 2 * k), b, n);
        CongModEqual(b * (Pow(b, 2 * k) % n), b * Pow(b, 2 * k), n);
      }
    }
  }

  lemma ModulusIs()
    ensures Modulus() == MODULUS && Generator() == 7 && LeValue(N) == MODULUS && LeValue(G) == 7
  {
    ModulusValue();
    assert G[1..] == [];
  }

  lemma ServerPublicIs(b: nat, v: nat)
    ensures ServerPublic(b, v) == PublicB(Generator(), b, v, Modulus())
  {
    ModulusIs();
    RaiseIs(7, b, MODULUS);
  }

  lemma ServerPremasterIs(A: nat, v: nat, u: nat, b: nat)
    ensures ServerPremaster(A, v, u, b) == ServerSecret(A, v, u, b, Modulus())
  {
    ModulusIs();
    RaiseIs(v, u, MODULUS);
    RaiseIs(A * Raise(v, u, MODULUS), b, MODULUS);
  }

  lemma SubtractReduced(B: int, p: int, q: int, e: nat, n: nat)
    requires n > 0 && Cong(p, q, n)
    ensures Pow(B - 3 * p, e) % n == Pow(B - 3 * q, e) % n
  {
    hide Cong, Pow;
    CongScale(p, q, -3, n);
    CongRefl(B, n);
    CongAdd(B, B, -3 * p, -3 * q, n);
    assert B + -3 * p == B - 3 * p && B + -3 * q == B - 3 * q;
    CongPow(B - 3 * p, B - 3 * q, e, n);
    CongModEqual(Pow(B - 3 * p, e), Pow(B - 3 * q, e), n);
  }

  /** The client may reduce g^x before it subtracts. */
  lemma ClientPremasterIs(g: nat, n: nat, B: nat, x: nat, a: nat, u: nat)
    requires n > 0
    ensures ClientPremaster(g, n, B, x, a, u) == ClientSecret(g, B, x, a, u, n)
  {
    hide Cong, Pow, Raise;
    RaiseIs(g, x, n);
    var p, e := Raise(g, x, n), a + u * x;
    RaiseIs(B - 3 * p, e, n);
    ModCong(Pow(g, x), n);
    SubtractReduced(B, p, Pow(g, x), e, n);
  }

  // ---------- the key ----------

  lemma {:induction false} FirstNonZeroIs(S: bytes, i: nat)
    requires i <= |S| && forall k :: 0 <= k < i ==> S[k] == 0
    ensures var z := FirstNonZero(S, i);
            (forall k :: 0 <= k < z ==> S[k] == 0) && (z < |S| ==> S[z] != 0)
    decreases |S| - i
  {
    if i < |S| && S[i] == 0 {
      FirstNonZeroIs(S, i + 1);
    }
  }

  /** The key in terms of positions of the secret is the key that strips, splits and interleaves. */
  lemma KeyOfIs(h: Hash, S: bytes)
    requires |S| == 32
    ensures KeyOf(h, S) == StandardKey(h, S)
  {
    hide StandardKey, Interleave, Evens, Odds, EveryOther, FirstNonZero;
    FirstNonZeroIs(S, 0);
    var z := FirstNonZero(S, 0);
    SkipIsStandard(h, S, z);
    var q := (z + z % 2) / 2;
    var from := if z % 2 == 0 then z else z + 1;
    HalvesFrom(S, q);
    assert from == 2 * q && (32 - from) / 2 == 16 - q;
    InterleavedAt(h(EveryOther(S, from, 16 - q)), h(EveryOther(S, from + 1, 16 - q)));
  }

  lemma HalvesFrom(S: bytes, q: nat)
    requires |S| == 32 && q <= 16
    ensures |Evens(S)| == |Odds(S)| == 16
    ensures Evens(S)[q..] == EveryOther(S, 2 * q, 16 - q)
    ensures Odds(S)[q..] == EveryOther(S, 2 * q + 1, 16 - q)
  {
  }

  lemma InterleavedAt(a: Digest, b: Digest)
    ensures Interleave(a, b) == seq(40, i requires 0 <= i < 40 => if i % 2 == 0 then a[i / 2] else b[i / 2])
  {
  }
}
