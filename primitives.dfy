/** The collaborators the core calls but does not define: closures themselves, the HMAC and base64
    library functions, and the Native serializer, which is not part of this model. */
module Primitives {
  import opened Wrappers

  /** A closure, seen only as an opaque handle: the model never looks inside or calls one. */
  datatype Closure = Closure(id: nat)

  /** The library functions, as uninterpreted total functions over PHP byte strings. */
  datatype Library = Library(
    /** hash_hmac('sha256', data, key, true): the raw 32-byte tag of RFC 2104 over SHA-256. */
    hmacSha256: (string, string) -> string,
    /** base64_encode, as in section 4 of RFC 4648. */
    base64Encode: string -> string,
    /** serialize(new Native(closure)). */
    serializeNative: Closure -> string,
    /** unserialize(payload)->getClosure(); None when the payload does not unserialise to an
        object that has a closure. */
    unserializeClosure: string -> Option<Closure>)

  /** The one thing assumed of the Native serializer: unserialising what it serialised gives back
      the same closure. */
  ghost predicate Sound(lib: Library)
  {
    forall c: Closure :: lib.unserializeClosure(lib.serializeNative(c)) == Some(c)
  }
}
