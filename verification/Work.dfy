/** The work a header's bits stand for. */
module Work {
  import opened Words
  import opened Arithmetic
  import opened Compact

  /** 256-bit work of a target, with the complement, quotient and increment of the code;
      every operation wraps at 2^256. */
  function TargetProof(target: uint256): (r: uint256) {
    var divisor := (target + 1) % TWO_256;
    if divisor == 0 then 0 else ((TWO_256 - 1 - target) / divisor + 1) % TWO_256
  }

  function Proof(bits: uint32): (r: uint256) {
    match FromCompact(bits)
    case Overflow => 0
    case Big(target) => BigIsWord(bits); TargetProof(target)
  }

  lemma BigIsWord(bits: uint32)
    ensures 0 <= Target(bits) < TWO_256
  {
    if FromCompact(bits).Big? && !IsNegated(bits) { ExpansionExact(bits); }
  }

  /** The expression equals floor(2^256 / (target + 1)) with no wrap for every target from
      1 to 2^256 - 2; target zero wraps to no work and the largest target is guarded. */
  lemma TargetProofExact(target: uint256)
    ensures 1 <= target <= TWO_256 - 2
       <==> TargetProof(target) == TWO_256 / (target + 1)
    ensures target == 0 || target == TWO_256 - 1 ==> TargetProof(target) == 0
  {
    if 1 <= target <= TWO_256 - 2 {
      var d := target + 1;
      var q := (TWO_256 - d) / d;
      assert TWO_256 - d == d * q + (TWO_256 - d) % d;
      assert d * (q + 1) == d * q + d;
      DivUnique(TWO_256, d, q + 1);
      MulMono(2, d, q + 1, q + 1);
      assert 2 * (q + 1) <= TWO_256;
    }
  }

  /** No compact number expands to the guarded all-ones target: what is shifted in is a
      multiple of 256. */
  lemma TargetBelowCeiling(bits: uint32)
    ensures Target(bits) < TWO_256 - 1
  {
    if FromCompact(bits).Big? && !IsNegated(bits) {
      ExpansionExact(bits);
      var m, e := Mantissa(bits), Exponent(bits);
      if e <= 3 {
        DivAtMost(m, Pow(256, 3 - e));
      } else {
        MulAssoc(m, 256, Pow(256, e - 4));
        assert Target(bits) == 256 * (m * Pow(256, e - 4));
      }
    }
  }

  /** Work from bits: exact whenever the bits expand to a positive target, zero otherwise. */
  lemma ProofExact(bits: uint32)
    ensures Proof(bits) == if Target(bits) == 0 then 0 else TWO_256 / (Target(bits) + 1)
  {
    BigIsWord(bits);
    TargetBelowCeiling(bits);
    if FromCompact(bits).Big? { TargetProofExact(Target(bits)); }
  }

  /** A larger positive target never stands for more work. */
  lemma LargerTargetLessWork(easy: uint32, hard: uint32)
    requires 0 < Target(hard) <= Target(easy)
    ensures Proof(easy) <= Proof(hard)
  {
    ProofExact(easy);
    ProofExact(hard);
    DivAntitone(TWO_256, Target(hard) + 1, Target(easy) + 1);
  }

  lemma DivAntitone(x: nat, d: nat, e: nat)
    requires 0 < d <= e
    ensures x / e <= x / d
  {
    assert x == d * (x / d) + x % d;
    assert x == e * (x / e) + x % e;
    if x / e > x / d {
      MulMono(d, e, x / d + 1, x / e);
    }
  }
}
