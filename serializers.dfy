/** The serializer variants (src/Serializers/Signed.php, and the Native variant it wraps) and the
    process-wide signer they consult. */
module Serializers {
  import opened Wrappers
  import opened Primitives
  import opened Signers

  /** The static Signed::$signer, passed around explicitly: the signer every Signed capture and
      restore consults, or None when no secret key is set. */
  class SignerConfig {
    var signer: Option<Hmac>

    /** A process starts with no signer configured. (The source declares the static without a
        default; see ShippedSignerRead.) */
    constructor ()
      ensures signer == None
    {
      signer := None;
    }
  }

  /** Signed::__serialize as a value: raise MissingSecretKey without a signer, else sign the
      serialisation of a Native variant wrapping the same closure. */
  function Capture(signer: Option<Hmac>, lib: Library, c: Closure): (r: Result<Signature>)
    ensures r.Failure? <==> signer.None?
    ensures r.Failure? ==> r.error == MissingSecretKey
    ensures r.Success? ==> r.value.serializable == lib.serializeNative(c)
    ensures r.Success? ==> signer.value.Verify(lib, r.value)
  {
    match signer
    case None => Failure(MissingSecretKey)
    case Some(h) =>
      VerifySign(h, lib, lib.serializeNative(c));
      Success(h.Sign(lib, lib.serializeNative(c)))
  }

  /** Signed::__unserialize as a value: with a signer, a record that does not verify raises
      InvalidSignature; without one nothing is checked. Then the payload is unserialised and its
      closure adopted. */
  function Restore(signer: Option<Hmac>, lib: Library, s: Signature): (r: Result<Closure>)
    ensures r == Failure(InvalidSignature) <==> signer.Some? && !signer.value.Verify(lib, s)
    ensures r.Success? <==>
              (signer.None? || signer.value.Verify(lib, s)) && lib.unserializeClosure(s.serializable).Some?
    ensures r.Success? ==> lib.unserializeClosure(s.serializable) == Some(r.value)
    ensures r.Failure? ==> r.error == InvalidSignature || r.error == MalformedPayload
  {
    if signer.Some? && !signer.value.Verify(lib, s) then
      Failure(InvalidSignature)
    else
      match lib.unserializeClosure(s.serializable)
      case None => Failure(MalformedPayload)
      case Some(c) => Success(c)
  }

  /** The Signed variant: a closure that is signed on capture and verified on restore. */
  class Signed {
    var closure: Closure

    constructor (c: Closure)
      ensures closure == c
    {
      closure := c;
    }

    /** __serialize: changes nothing and yields what Capture describes. */
    method Serialize(config: SignerConfig, lib: Library) returns (r: Result<Signature>)
      ensures r == Capture(config.signer, lib, closure)
    {
      if config.signer.None? {
        return Failure(MissingSecretKey);
      }
      var payload := lib.serializeNative(closure);
      r := Success(config.signer.value.Sign(lib, payload));
    }

    /** __unserialize: on success the held closure is the restored one; on any failure it is
        left as it was. */
    method Unserialize(config: SignerConfig, lib: Library, signature: Signature) returns (o: Outcome)
      modifies this
      ensures var r := Restore(config.signer, lib, signature);
              o == (if r.Success? then Pass else Fail(r.error)) &&
              closure == (if r.Success? then r.value else old(closure))
    {
      if config.signer.Some? && !config.signer.value.Verify(lib, signature) {
        return Fail(InvalidSignature);
      }
      var payload := lib.unserializeClosure(signature.serializable);
      if payload.None? {
        return Fail(MalformedPayload);
      }
      closure := payload.value;
      o := Pass;
    }
  }

  /** The variant an envelope holds: the unseen Native serializer, kept as the closure it wraps, or a
      Signed object. */
  datatype Serializable = Native(closure: Closure) | SignedRef(obj: Signed) {

    function Objects(): (objs: set<object>)
    {
      if SignedRef? then {obj} else {}
    }

    /** getClosure() of the held variant: the closure a Native variant wraps, or the one a Signed
        object currently holds. */
    function GetClosure(): (c: Closure)
      reads Objects()
      ensures Native? ==> c == closure
      ensures SignedRef? ==> c == obj.closure
    {
      match this
      case Native(c) => c
      case SignedRef(s) => s.closure
    }
  }

  /** What PHP's serializer writes for a held variant when the envelope around it is serialised:
      the Native variant's own serialisation, or the record Signed::__serialize returns. */
  datatype PersistedVariant = NativeData(payload: string) | SignedData(signature: Signature)

  /** A variant as PHP's unserialize rebuilds it: its kind and the closure it then holds. */
  datatype Revived = Revived(signed: bool, closure: Closure)

  /** Serialising the held variant, of the given kind and closure, under the signer configured at
      that moment: a Native variant always serialises, a Signed one raises MissingSecretKey
      without a signer. */
  function PersistVariant(signer: Option<Hmac>, lib: Library, signed: bool, c: Closure)
    : (r: Result<PersistedVariant>)
    ensures r.Failure? <==> signed && signer.None?
    ensures r.Failure? ==> r.error == MissingSecretKey
    ensures r.Success? ==> r.value.SignedData? == signed
    ensures r.Success? && !signed ==> r.value.payload == lib.serializeNative(c)
    ensures r.Success? && signed ==> Capture(signer, lib, c) == Success(r.value.signature)
  {
    if !signed then Success(NativeData(lib.serializeNative(c)))
    else match Capture(signer, lib, c)
      case Failure(e) => Failure(e)
      case Success(sig) => Success(SignedData(sig))
  }

  /** Rebuilding a variant under the signer configured at that moment: a Native payload that
      unserialises yields its closure; a Signed record goes through Restore (Signed::__unserialize). */
  function ReviveVariant(signer: Option<Hmac>, lib: Library, p: PersistedVariant): (r: Result<Revived>)
    ensures p.SignedData? ==> r == match Restore(signer, lib, p.signature)
                                   case Success(c) => Success(Revived(true, c))
                                   case Failure(e) => Failure(e)
    ensures p.NativeData? && r.Success? ==> lib.unserializeClosure(p.payload) == Some(r.value.closure)
    ensures r.Success? ==> r.value.signed == p.SignedData?
    ensures p.NativeData? ==> (r.Failure? <==> lib.unserializeClosure(p.payload).None?)
  {
    match p
    case NativeData(payload) =>
      (match lib.unserializeClosure(payload)
       case None => Failure(MalformedPayload)
       case Some(c) => Success(Revived(false, c)))
    case SignedData(sig) =>
      (match Restore(signer, lib, sig)
       case Failure(e) => Failure(e)
       case Success(c) => Success(Revived(true, c)))
  }

  /** Any variant persisted and rebuilt under one signer configuration, with a sound Native
      serializer, comes back with the same kind and closure, provided it could be persisted. */
  lemma {:induction false} VariantRoundTrip(signer: Option<Hmac>, lib: Library, signed: bool, c: Closure)
    requires Sound(lib)
    requires !signed || signer.Some?
    ensures PersistVariant(signer, lib, signed, c).Success?
    ensures ReviveVariant(signer, lib, PersistVariant(signer, lib, signed, c).value) == Success(Revived(signed, c))
  {
    if signed {
      SignedRoundTrip(signer.value, lib, c);
    }
  }

  /** With the same signer at capture and restore and a sound Native serializer, restoring a
      capture gives back the captured closure. */
  lemma SignedRoundTrip(h: Hmac, lib: Library, c: Closure)
    requires Sound(lib)
    ensures Capture(Some(h), lib, c).Success?
    ensures Restore(Some(h), lib, Capture(Some(h), lib, c).value) == Success(c)
  {
  }

  /** With no signer configured, restore trusts any record: whatever tag it carries, it succeeds
      whenever the payload unserialises. */
  lemma NoSignerAcceptsAnyTag(lib: Library, payload: string, tag: string, c: Closure)
    requires lib.unserializeClosure(payload) == Some(c)
    ensures Restore(None, lib, Signature(payload, tag)) == Success(c)
  {
  }

  /** A signer-less restore of a record signed under some secret, even one whose payload was
      swapped for another Native serialisation, adopts the swapped-in closure. */
  lemma UnsignedRestoreAdoptsForgery(h: Hmac, lib: Library, c: Closure, forged: Closure)
    requires Sound(lib)
    ensures Restore(None, lib, Signature(lib.serializeNative(forged), Capture(Some(h), lib, c).value.hash))
            == Success(forged)
  {
  }

  /** The static as the source declares it: a typed property with no default starts out
      uninitialised, and reading it then raises an Error instead of yielding null. */
  datatype StaticSigner = Uninitialized | Assigned(signer: Option<Hmac>)

  /** Reading Signed::$signer as written. */
  function ShippedSignerRead(slot: StaticSigner): (r: Result<Option<Hmac>>)
    ensures r.Failure? <==> slot.Uninitialized?
    ensures r.Failure? ==> r.error == UninitializedSigner
    ensures r.Success? ==> r.value == slot.signer
  {
    match slot
    case Uninitialized => Failure(UninitializedSigner)
    case Assigned(s) => Success(s)
  }

  /** As written, the first read in a process that never called setSecretKey raises an Error where
      the evident intent (a null default, SignerConfig's constructor) is to see "no signer". */
  lemma ShippedFreshProcessRaises()
    ensures ShippedSignerRead(Uninitialized) == Failure(UninitializedSigner)
    ensures ShippedSignerRead(Assigned(None)) == Success(None)
  {
  }
}
