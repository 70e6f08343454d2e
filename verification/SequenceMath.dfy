/** 16-bit sequence comparison with wrap-around (section 3.2 of RFC 1982, which
    leaves the half-range distance undefined; here it is decided). */
module SequenceMath {

  const U16: nat := 65536

  type Seq16 = n: nat | n < U16

  predicate SeqGreater(s1: Seq16, s2: Seq16) {
    (s1 > s2 && s1 - s2 <= 32768) || (s1 < s2 && s2 - s1 > 32768)
  }

  predicate SeqLess(s1: Seq16, s2: Seq16) {
    SeqGreater(s2, s1)
  }

  /** The 16-bit difference reinterpreted as a signed 16-bit number. */
  function SeqDiff(s1: Seq16, s2: Seq16): int {
    var d := (s1 - s2) % U16;
    if d < 32768 then d else d - U16
  }

  /** The sequence number message n travels under. */
  function Wrap(n: int): Seq16 {
    n % U16
  }

  /** Any two different sequences are ordered one way, and only one way, the
      half-range distance included. */
  lemma SeqGreaterIsTotal(s1: Seq16, s2: Seq16)
    ensures s1 != s2 ==> (SeqGreater(s1, s2) <==> !SeqLess(s1, s2))
    ensures s1 == s2 ==> !SeqGreater(s1, s2) && !SeqLess(s1, s2)
    ensures SeqGreater(s1, s2) <==> SeqDiff(s1, s2) > 0 || (SeqDiff(s1, s2) == -32768 && s1 > s2)
  {
    assert (s1 - s2) % U16 == if s1 >= s2 then s1 - s2 else s1 - s2 + U16;
  }

  lemma WrapOffset(n: int, m: int)
    ensures (Wrap(n) - Wrap(m)) % U16 == (n - m) % U16
  {
    var q, r := n / U16, m / U16;
    assert n == U16 * q + Wrap(n) && m == U16 * r + Wrap(m);
    assert n - m == U16 * (q - r) + (Wrap(n) - Wrap(m));
  }

  /** Within half the range the 16-bit comparison is the comparison of the unbounded numbers. */
  lemma SeqOrderRefinesNumbers(n: int, m: int)
    requires -32768 <= n - m < 32768
    ensures SeqDiff(Wrap(n), Wrap(m)) == n - m
    ensures n - m != -32768 ==> (SeqGreater(Wrap(n), Wrap(m)) <==> n > m)
  {
    WrapOffset(n, m);
    SeqGreaterIsTotal(Wrap(n), Wrap(m));
  }

  /** Numbers less than 65536 apart share a sequence only when they are equal. */
  lemma WrapInjective(n: int, m: int)
    requires -65536 < n - m < 65536 && Wrap(n) == Wrap(m)
    ensures n == m
  {
    WrapOffset(n, m);
  }
}
