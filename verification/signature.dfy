/**
 * Normalisation of an Ethereum ECDSA signature written as a `0x`-prefixed hex
 * string laid out as r (64 digits), s (64 digits), v (2 digits).  Some signers
 * report the recovery byte v as 0/1, others as 27/28 (the form of Appendix F
 * of the Ethereum Yellow Paper); the helper rewrites the low form into the
 * high one so that both spellings of one signature become the same string.
 */
module Signature {
  import Hex

  /** Characters before v: `0x`, then 32 bytes of r and 32 bytes of s in hex. */
  const PrefixLength: nat := 130
  /** Characters of a complete signature: the prefix and the two digits of v. */
  const SignatureLength: nat := 132
  /** Offset added to a low-form recovery byte. */
  const RecoveryOffset: nat := 27

  /** The input the helper can read: the two characters of v exist and are hex digits. */
  predicate WellFormed(sig: seq<char>) {
    |sig| >= SignatureLength && Hex.IsHexString(sig[PrefixLength..SignatureLength])
  }

  /** The recovery byte v, read from characters 130 and 131. */
  function RecoveryByte(sig: seq<char>): (v: nat)
    requires WellFormed(sig)
    ensures v < 256
  {
    Hex.ParseHex(sig[PrefixLength..SignatureLength])
  }

  /** v in the high range: a value below 27 is raised by 27, any other is kept. */
  function NormalizeRecovery(v: nat): (w: nat)
    ensures w >= RecoveryOffset
    ensures v < RecoveryOffset ==> w == v + RecoveryOffset
    ensures v >= RecoveryOffset ==> w == v
  {
    if v < RecoveryOffset then v + RecoveryOffset else v
  }

  /**
   * The prefix is copied, v is normalised and written back with
   * `toString(16)`; whatever followed the 132nd character is dropped.
   */
  function FixSignature(sig: seq<char>): (fixed: seq<char>)
    requires WellFormed(sig)
    ensures |fixed| == SignatureLength
    ensures fixed[..PrefixLength] == sig[..PrefixLength]
    ensures Hex.IsLowerHexString(fixed[PrefixLength..])
    ensures WellFormed(fixed)
    ensures RecoveryByte(fixed) == NormalizeRecovery(RecoveryByte(sig))
  {
    var w := NormalizeRecovery(RecoveryByte(sig));
    Hex.ToHexOfByte(w);
    Hex.ParseToHex(w);
    var fixed := sig[..PrefixLength] + Hex.ToHex(w);
    assert fixed[PrefixLength..SignatureLength] == Hex.ToHex(w);
    fixed
  }

  /** The low encodings 0 and 1 become `1b` (27) and `1c` (28). */
  lemma LowRecoveryRaised(sig: seq<char>)
    requires WellFormed(sig)
    requires RecoveryByte(sig) < RecoveryOffset
    ensures RecoveryByte(FixSignature(sig)) == RecoveryByte(sig) + RecoveryOffset
    ensures RecoveryByte(sig) == 0 ==> FixSignature(sig) == sig[..PrefixLength] + "1b"
    ensures RecoveryByte(sig) == 1 ==> FixSignature(sig) == sig[..PrefixLength] + "1c"
  {
    Hex.ToHexOfByte(RecoveryByte(sig) + RecoveryOffset);
  }

  /**
   * A recovery byte already in the high range keeps its value; when it was
   * written in lower case the signature comes back as its first 132 characters.
   */
  lemma HighRecoveryKept(sig: seq<char>)
    requires WellFormed(sig)
    requires RecoveryByte(sig) >= RecoveryOffset
    ensures RecoveryByte(FixSignature(sig)) == RecoveryByte(sig)
    ensures Hex.IsLowerHexString(sig[PrefixLength..SignatureLength]) ==>
              FixSignature(sig) == sig[..SignatureLength]
  {
    var v := sig[PrefixLength..SignatureLength];
    if Hex.IsLowerHexString(v) {
      Hex.ParsePair(v);
      assert v[0] != '0';
      Hex.ToHexOfParsedPair(v);
      assert sig[..SignatureLength] == sig[..PrefixLength] + v;
    }
  }

  /** Normalising twice is normalising once: the output is already canonical. */
  lemma FixSignatureIdempotent(sig: seq<char>)
    requires WellFormed(sig)
    ensures FixSignature(FixSignature(sig)) == FixSignature(sig)
  {
    var fixed := FixSignature(sig);
    HighRecoveryKept(fixed);
    assert fixed[..SignatureLength] == fixed;
  }

  /**
   * Two well-formed signatures normalise to the same string exactly when they
   * share r and s and their recovery bytes denote the same high-range value,
   * so v = 0 and v = 27 (or 1 and 28) with the same r and s cannot be told apart
   * after normalisation.
   */
  lemma SameAfterFix(a: seq<char>, b: seq<char>)
    requires WellFormed(a) && WellFormed(b)
    ensures FixSignature(a) == FixSignature(b) <==>
              a[..PrefixLength] == b[..PrefixLength] &&
              NormalizeRecovery(RecoveryByte(a)) == NormalizeRecovery(RecoveryByte(b))
  {
    if FixSignature(a) == FixSignature(b) {
      assert FixSignature(a)[..PrefixLength] == FixSignature(b)[..PrefixLength];
    }
  }

  /** Corollary: the low and the high spelling of the same v agree after normalisation. */
  lemma LowAndHighAgree(a: seq<char>, b: seq<char>)
    requires WellFormed(a) && WellFormed(b)
    requires a[..PrefixLength] == b[..PrefixLength]
    requires RecoveryByte(a) < RecoveryOffset
    requires RecoveryByte(b) == RecoveryByte(a) + RecoveryOffset
    ensures FixSignature(a) == FixSignature(b)
  {
    SameAfterFix(a, b);
  }
}
