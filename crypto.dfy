/**
 * The cryptographic collaborators of the pipeline. Real hashing, PEM/X.509 key decoding and
 * RSA/ECDSA verification are library calls; the model takes them as function values so that
 * every property below holds whatever those primitives compute.
 */
module Crypto {
  import opened Wrappers
  import opened Bytes

  /** The hash functions the pipeline can instantiate (SHA-1, SHA-256, SHA-384, SHA-512). */
  datatype HashAlg = Sha1 | Sha256 | Sha384 | Sha512

  /** Digest length in bytes (sha1.Size, sha256.Size, sha512.Size384, sha512.Size). */
  function DigestSize(h: HashAlg): nat
  {
    match h
    case Sha1 => 20
    case Sha256 => 32
    case Sha384 => 48
    case Sha512 => 64
  }

  /** An uninterpreted hash: whatever it computes, its output has the algorithm's digest size. */
  type HashFn = f: (HashAlg, seq<Byte>) -> seq<Byte> | forall h, m :: |f(h, m)| == DigestSize(h)
    witness (h: HashAlg, m: seq<Byte>) => seq(DigestSize(h), _ => 0)

  /** What x509.ParsePKIXPublicKey can hand back, as far as the pipeline distinguishes it. */
  datatype KeyKind = RsaKey | EcdsaKey | OtherKey

  datatype PublicKey = PublicKey(kind: KeyKind, encoded: seq<Byte>)

  /**
   * The foreign functions: PEM decoding followed by PKIX parsing (None on any failure),
   * the hash, RSA PKCS#1 v1.5 verification and ECDSA ASN.1 verification over a digest.
   */
  datatype Primitives = Primitives(
    parsePublicKey: seq<Byte> -> Option<PublicKey>,
    hash: HashFn,
    rsaVerifyPkcs1v15: (PublicKey, seq<Byte>, seq<Byte>) -> bool,
    ecdsaVerifyAsn1: (PublicKey, seq<Byte>, seq<Byte>) -> bool)

  /**
   * A hash.Hash: an algorithm and everything written to it so far. `Sum` digests the whole
   * stream, as hash.Hash.Sum(nil) does.
   */
  class Hasher {
    const alg: HashAlg
    const hash: HashFn
    var written: seq<Byte>

    constructor (alg: HashAlg, hash: HashFn)
      ensures this.alg == alg && this.hash == hash && written == []
    {
      this.alg := alg;
      this.hash := hash;
      written := [];
    }

    function Size(): nat
    {
      DigestSize(alg)
    }

    method Write(p: seq<Byte>)
      modifies this
      ensures written == old(written) + p
    {
      written := written + p;
    }

    function Sum(): (s: seq<Byte>)
      reads this
      ensures |s| == Size()
    {
      hash(alg, written)
    }
  }

  /**
   * subtle.ConstantTimeCompare: 1 when the slices have equal length and contents, else 0.
   * Only the value is modelled, not the timing.
   */
  function ConstantTimeCompare(x: seq<Byte>, y: seq<Byte>): (r: int)
    ensures r == 1 || r == 0
    ensures r == 1 <==> x == y
  {
    if |x| == |y| && forall i | 0 <= i < |x| :: x[i] == y[i] then 1 else 0
  }
}
