/** Signatures as the code uses them: an opaque signer and an opaque check. */
module Signing {
  import opened ByteCodec

  /** Public key, message, signature. */
  type Verifier = (Bytes, Bytes, Bytes) -> bool

  datatype Signer = Signer(pub: Key, sign: Bytes -> Signature)

  /** What the holder of the private key makes, the check accepts. */
  ghost predicate Honours(verify: Verifier, signer: Signer) {
    forall m: Bytes :: verify(signer.pub, m, signer.sign(m))
  }
}
