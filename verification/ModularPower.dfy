/** Integer powers modulo N, as far as the SRP-6 agreement needs them. */
module ModularPower {
  import opened Arithmetic

  function Pow(b: int, e: nat): int {
    if e == 0 then 1 else b * Pow(b, e - 1)
  }

  /** What BN_mod_exp computes. */
  function ModExp(b: int, e: nat, n: nat): (r: nat)
    requires n > 0
    ensures r < n
  {
    Pow(b, e) % n
  }

  lemma {:induction false} PowAdd(b: int, d: nat, e: nat)
    ensures Pow(b, d + e) == Pow(b, d) * Pow(b, e)
  {
    if d == 0 {
    } else {
      PowAdd(b, d - 1, e);
      assert Pow(b, d + e) == b * Pow(b, d - 1 + e) == b * (Pow(b, d - 1) * Pow(b, e));
    }
  }

  lemma {:induction false} PowMul(b: int, d: nat, e: nat)
    ensures Pow(Pow(b, d), e) == Pow(b, d * e)
  {
    if e == 0 {
      assert d * e == 0;
    } else {
      PowMul(b, d, e - 1);
      PowAdd(b, d, d * (e - 1));
      assert d * e == d + d * (e - 1);
    }
  }

  /** a and b differ by a multiple of n. */
  ghost predicate Cong(a: int, b: int, n: nat) {
    exists k: int :: Multiple(a, b, k, n)
  }

  ghost predicate Multiple(a: int, b: int, k: int, n: nat) {
    a - b == k * n
  }

  lemma CongRefl(a: int, n: nat)
    ensures Cong(a, a, n)
  {
    assert Multiple(a, a, 0, n);
  }

  lemma CongSym(a: int, b: int, n: nat)
    requires Cong(a, b, n)
    ensures Cong(b, a, n)
  {
    var k :| Multiple(a, b, k, n);
    assert Multiple(b, a, -k, n);
  }

  lemma CongTrans(a: int, b: int, c: int, n: nat)
    requires Cong(a, b, n) && Cong(b, c, n)
    ensures Cong(a, c, n)
  {
    var k :| Multiple(a, b, k, n);
    var l :| Multiple(b, c, l, n);
    assert (k + l) * n == k * n + l * n;
    assert Multiple(a, c, k + l, n);
  }

  lemma CongAdd(a: int, b: int, c: int, d: int, n: nat)
    requires Cong(a, b, n) && Cong(c, d, n)
    ensures Cong(a + c, b + d, n)
  {
    var k :| Multiple(a, b, k, n);
    var l :| Multiple(c, d, l, n);
    assert (k + l) * n == k * n + l * n;
    assert Multiple(a + c, b + d, k + l, n);
  }

  lemma CongMul(a: int, b: int, c: int, d: int, n: nat)
    requires Cong(a, b, n) && Cong(c, d, n)
    ensures Cong(a * c, b * d, n)
  {
    var k :| Multiple(a, b, k, n);
    var l :| Multiple(c, d, l, n);
    calc {
      a * c - b * d;
      (a - b) * c + b * (c - d);
      (k * n) * c + b * (l * n);
      (k * c) * n + (b * l) * n;
      (k * c + b * l) * n;
    }
    assert Multiple(a * c, b * d, k * c + b * l, n);
  }

  lemma {:induction false} CongPow(a: int, b: int, e: nat, n: nat)
    requires Cong(a, b, n)
    ensures Cong(Pow(a, e), Pow(b, e), n)
  {
    if e == 0 {
      CongRefl(1, n);
    } else {
      CongPow(a, b, e - 1, n);
      CongMul(a, b, Pow(a, e - 1), Pow(b, e - 1), n);
    }
  }

  lemma ModCong(a: int, n: nat)
    requires n > 0
    ensures Cong(a % n, a, n)
  {
    assert Multiple(a % n, a, -(a / n), n);
  }

  lemma CongModEqual(a: int, b: int, n: nat)
    requires n > 0 && Cong(a, b, n)
    ensures a % n == b % n
  {
    var k :| Multiple(a, b, k, n);
    var d := a / n - b / n - k;
    assert n * d == b % n - a % n;
    MultipleGrows(n, d);
  }

  lemma CongScale(a: int, b: int, c: int, n: nat)
    requires Cong(a, b, n)
    ensures Cong(c * a, c * b, n)
  {
    CongRefl(c, n);
    CongMul(c, c, a, b, n);
  }

  // ---------- the agreement ----------

  /** The server's verifier and public key, and the two premaster secrets of section 2.6 of
      RFC 5054 with k = 3. */
  function Verifier(g: int, x: nat, n: nat): (r: nat)
    requires n > 0
    ensures r < n
  {
    ModExp(g, x, n)
  }

  function PublicB(g: int, b: nat, v: nat, n: nat): (r: nat)
    requires n > 0
    ensures r < n
  {
    (ModExp(g, b, n) + v * 3) % n
  }

  function PublicA(g: int, a: nat, n: nat): (r: nat)
    requires n > 0
    ensures r < n
  {
    ModExp(g, a, n)
  }

  function ServerSecret(pubA: nat, v: nat, u: nat, b: nat, n: nat): nat
    requires n > 0
  {
    ModExp(pubA * ModExp(v, u, n), b, n)
  }

  function ClientSecret(g: int, pubB: nat, x: nat, a: nat, u: nat, n: nat): nat
    requires n > 0
  {
    ModExp(pubB - 3 * Pow(g, x), a + u * x, n)
  }

  /** The server raises a number congruent to g^(a+ux) to the power b. */
  lemma ServerSide(g: int, n: nat, a: nat, b: nat, x: nat, u: nat)
    requires n > 0
    ensures Cong(ServerSecret(PublicA(g, a, n), Verifier(g, x, n), u, b, n), Pow(g, (a + u * x) * b), n)
  {
    var v, pubA := Verifier(g, x, n), PublicA(g, a, n);
    ModCong(Pow(g, x), n);
    CongPow(v, Pow(g, x), u, n);
    PowMul(g, x, u);
    ModCong(Pow(v, u), n);
    CongTrans(ModExp(v, u, n), Pow(v, u), Pow(g, x * u), n);
    ModCong(Pow(g, a), n);
    CongMul(pubA, Pow(g, a), ModExp(v, u, n), Pow(g, x * u), n);
    PowAdd(g, a, x * u);
    assert x * u == u * x;
    var base := pubA * ModExp(v, u, n);
    CongPow(base, Pow(g, a + u * x), b, n);
    PowMul(g, a + u * x, b);
    ModCong(Pow(base, b), n);
    CongTrans(ModExp(base, b, n), Pow(base, b), Pow(g, (a + u * x) * b), n);
  }

  /** The client raises a number congruent to g^b to the power a + ux. */
  lemma ClientSide(g: int, n: nat, a: nat, b: nat, x: nat, u: nat)
    requires n > 0
    ensures Cong(ClientSecret(g, PublicB(g, b, Verifier(g, x, n), n), x, a, u, n), Pow(g, (a + u * x) * b), n)
  {
    var v := Verifier(g, x, n);
    var pubB := PublicB(g, b, v, n);
    ModCong(ModExp(g, b, n) + v * 3, n);
    ModCong(Pow(g, b), n);
    ModCong(Pow(g, x), n);
    CongScale(v, Pow(g, x), 3, n);
    CongAdd(ModExp(g, b, n), Pow(g, b), 3 * v, 3 * Pow(g, x), n);
    CongTrans(pubB, ModExp(g, b, n) + v * 3, Pow(g, b) + 3 * Pow(g, x), n);
    CongRefl(-3 * Pow(g, x), n);
    CongAdd(pubB, Pow(g, b) + 3 * Pow(g, x), -3 * Pow(g, x), -3 * Pow(g, x), n);
    var base := pubB - 3 * Pow(g, x);
    assert Cong(base, Pow(g, b), n);
    var e := a + u * x;
    CongPow(base, Pow(g, b), e, n);
    PowMul(g, b, e);
    assert b * e == e * b;
    ModCong(Pow(base, e), n);
    CongTrans(ModExp(base, e, n), Pow(base, e), Pow(g, e * b), n);
  }

  /** Both sides compute the same secret, for every group, generator, exponents and password. */
  lemma SecretsAgree(g: int, n: nat, a: nat, b: nat, x: nat, u: nat)
    requires n > 0
    ensures var v := Verifier(g, x, n);
            ServerSecret(PublicA(g, a, n), v, u, b, n) == ClientSecret(g, PublicB(g, b, v, n), x, a, u, n)
  {
    var v := Verifier(g, x, n);
    hide Cong, ModExp;
    var server := ServerSecret(PublicA(g, a, n), v, u, b, n);
    var client := ClientSecret(g, PublicB(g, b, v, n), x, a, u, n);
    ServerSide(g, n, a, b, x, u);
    ClientSide(g, n, a, b, x, u);
    CongSym(client, Pow(g, (a + u * x) * b), n);
    CongTrans(server, Pow(g, (a + u * x) * b), client, n);
    CongModEqual(server, client, n);
    ModUnique(server, n, 0, server);
    ModUnique(client, n, 0, client);
  }
}
