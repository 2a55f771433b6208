/** The HMAC signer (src/Signers/Hmac.php) and the signature record it produces. */
module Signers {
  import opened Primitives

  /** The array a signer returns and checks: the payload and its base64 tag, under the keys
      'serializable' and 'hash' and no others. */
  datatype Signature = Signature(serializable: string, hash: string)

  /** A signer over an immutable secret. */
  datatype Hmac = Hmac(secret: string) {

    /** base64(HMAC-SHA256(secret, payload)). */
    function Tag(lib: Library, payload: string): (tag: string)
    {
      lib.base64Encode(lib.hmacSha256(payload, secret))
    }

    /** sign(): the payload is carried unchanged, next to its tag under this secret. */
    function Sign(lib: Library, payload: string): (s: Signature)
      ensures s.serializable == payload
      ensures s.hash == Tag(lib, payload)
    {
      Signature(payload, Tag(lib, payload))
    }

    /** verify(): recompute the tag of the carried payload and compare it with the carried tag
        (hash_equals, here plain equality). A record is accepted exactly when it is the record
        sign() makes of its own payload. */
    predicate Verify(lib: Library, s: Signature)
      ensures Verify(lib, s) <==> s == Sign(lib, s.serializable)
    {
      s.hash == Tag(lib, s.serializable)
    }
  }

  /** verify(sign(p)) holds for every payload, the empty one included. */
  lemma VerifySign(h: Hmac, lib: Library, p: string)
    ensures h.Verify(lib, h.Sign(lib, p))
  {
  }

  /** A signed record whose payload was replaced is still accepted only if the new payload happens
      to have the same tag as the old one, that is, on a collision of the tag function. */
  lemma TamperedPayloadNeedsCollision(h: Hmac, lib: Library, p: string, q: string)
    ensures h.Verify(lib, Signature(q, h.Sign(lib, p).hash)) <==> h.Tag(lib, q) == h.Tag(lib, p)
  {
  }

  /** Two signers built from the same secret sign alike and accept the same records. */
  lemma SameSecretSameBehaviour(h1: Hmac, h2: Hmac, lib: Library)
    requires h1.secret == h2.secret
    ensures forall p :: h1.Sign(lib, p) == h2.Sign(lib, p)
    ensures forall s :: h1.Verify(lib, s) <==> h2.Verify(lib, s)
  {
  }
}
