/** The whitelist of signing algorithms a device may be created with. */
module Algorithms {
  import opened Types

  const ECC: GoString := Ascii("ECC")
  const RSA: GoString := Ascii("RSA")

  /** The one switch over algorithm names: `ECC` and `RSA` are accepted,
      every other string falls to the default case. */
  function IsAllowedSigningAlgorithm(algorithm: GoString): (allowed: bool)
    ensures allowed <==> algorithm in {ECC, RSA}
  {
    if algorithm == ECC then true
    else if algorithm == RSA then true
    else false
  }

  /** Both constants pass the check, and they are two different names. */
  lemma KnownAlgorithms()
    ensures IsAllowedSigningAlgorithm(ECC) && IsAllowedSigningAlgorithm(RSA)
    ensures ECC != RSA
  {
    assert ECC[0] != RSA[0];
  }

  /** Names outside the whitelist are refused: the test value `Unknown`, and
      the lower-case spelling of a valid name (the comparison is exact). */
  lemma UnknownRefused()
    ensures !IsAllowedSigningAlgorithm(Ascii("Unknown"))
    ensures !IsAllowedSigningAlgorithm(Ascii("ecc"))
  {
    assert |Ascii("Unknown")| != |ECC|;
    assert Ascii("ecc")[0] != ECC[0] && Ascii("ecc")[0] != RSA[0];
  }
}
