/** The envelopes callers hold (src/SerializableClosure.php, src/UnsignedSerializableClosure.php):
    each wraps one serializer variant, and only that variant is persisted. */
module Envelope {
  import opened Wrappers
  import opened Primitives
  import opened Signers
  import opened Serializers

  /** The array an envelope persists: ['serializable' => held variant]. */
  datatype EnvelopeData = EnvelopeData(serializable: Serializable)

  /** PHP truthiness of a string: only "" and "0" are false. */
  predicate Truthy(s: string)
  {
    s != "" && s != "0"
  }

  /** The signer setSecretKey installs for a given argument. */
  function SignerFor(secret: Option<string>): (r: Option<Hmac>)
    ensures r.Some? <==> secret.Some? && Truthy(secret.value)
    ensures r.Some? ==> r.value.secret == secret.value
  {
    if secret.Some? && Truthy(secret.value) then Some(Hmac(secret.value)) else None
  }

  /** null, "" and "0" all clear the signer; any other string, "00" and " " included, sets one. */
  lemma FalsySecretsClear()
    ensures SignerFor(None) == None && SignerFor(Some("")) == None && SignerFor(Some("0")) == None
    ensures SignerFor(Some("00")) == Some(Hmac("00")) && SignerFor(Some(" ")) == Some(Hmac(" "))
  {
  }

  /** The restore policy of SerializableClosure: while a signer is configured only a Signed variant
      is admitted. */
  predicate Admits(signer: Option<Hmac>, signed: bool)
  {
    signer.None? || signed
  }

  /** unserialize() of a persisted SerializableClosure: PHP first rebuilds the nested variant (for a
      Signed one, Signed::__unserialize), then hands it to the envelope's __unserialize, which applies
      the restore policy. */
  function Revive(signer: Option<Hmac>, lib: Library, p: PersistedVariant): (r: Result<Revived>)
    ensures r.Success? <==> ReviveVariant(signer, lib, p).Success? && Admits(signer, p.SignedData?)
    ensures r.Success? ==> r == ReviveVariant(signer, lib, p)
    ensures ReviveVariant(signer, lib, p).Success? && !Admits(signer, p.SignedData?) ==>
              r == Failure(InvalidSignature)
    ensures ReviveVariant(signer, lib, p).Failure? ==> r == ReviveVariant(signer, lib, p)
  {
    match ReviveVariant(signer, lib, p)
    case Failure(e) => Failure(e)
    case Success(v) => if Admits(signer, v.signed) then Success(v) else Failure(InvalidSignature)
  }

  /** Built, serialised and restored under one signer configuration, an envelope comes back with the
      variant kind chosen at construction and the same closure. */
  lemma EnvelopeRoundTripSameSigner(signer: Option<Hmac>, lib: Library, c: Closure)
    requires Sound(lib)
    ensures PersistVariant(signer, lib, signer.Some?, c).Success?
    ensures Revive(signer, lib, PersistVariant(signer, lib, signer.Some?, c).value)
            == Success(Revived(signer.Some?, c))
  {
    VariantRoundTrip(signer, lib, signer.Some?, c);
  }

  /** An envelope signed under one secret and restored under another whose tag for the payload
      differs is refused with InvalidSignature, raised by the nested Signed variant. */
  lemma EnvelopeSecretChangedRejected(h1: Hmac, h2: Hmac, lib: Library, c: Closure)
    requires h1.Tag(lib, lib.serializeNative(c)) != h2.Tag(lib, lib.serializeNative(c))
    ensures PersistVariant(Some(h1), lib, true, c).Success?
    ensures Revive(Some(h2), lib, PersistVariant(Some(h1), lib, true, c).value) == Failure(InvalidSignature)
  {
  }

  /** Any Signed record that the configured signer does not verify, however it was altered, is
      refused with InvalidSignature, raised by the nested Signed variant before the envelope's own
      check runs. */
  lemma EnvelopeTamperedRejected(h: Hmac, lib: Library, s: Signature)
    requires !h.Verify(lib, s)
    ensures Revive(Some(h), lib, SignedData(s)) == Failure(InvalidSignature)
  {
  }

  /** Downgrade rejection: while a signer is configured, no Native payload is ever accepted, whatever
      it holds; the one built from a closure by an unsigned envelope fails with InvalidSignature. */
  lemma DowngradeRejected(h: Hmac, lib: Library, payload: string, c: Closure)
    requires Sound(lib)
    ensures Revive(Some(h), lib, NativeData(payload)).Failure?
    ensures Revive(Some(h), lib, PersistVariant(None, lib, false, c).value) == Failure(InvalidSignature)
  {
  }

  /** UnsignedSerializableClosure restores with no policy: its Native variant, persisted under any
      configuration, comes back under any other. */
  lemma UnsignedEnvelopeRoundTrip(atCapture: Option<Hmac>, atRestore: Option<Hmac>, lib: Library, c: Closure)
    requires Sound(lib)
    ensures PersistVariant(atCapture, lib, false, c).Success?
    ensures ReviveVariant(atRestore, lib, PersistVariant(atCapture, lib, false, c).value)
            == Success(Revived(false, c))
  {
  }

  /** The envelope of SerializableClosure: Signed when a signer is configured, Native otherwise. */
  class SerializableClosure {
    var serializable: Serializable

    /** The variant is chosen from the signer configured at construction time. */
    constructor (config: SignerConfig, c: Closure)
      ensures serializable.SignedRef? <==> config.signer.Some?
      ensures serializable.SignedRef? ==> fresh(serializable.obj)
      ensures serializable.GetClosure() == c
    {
      if config.signer.Some? {
        var s := new Signed(c);
        serializable := SignedRef(s);
      } else {
        serializable := Native(c);
      }
    }

    /** getClosure(): forwarded to the held variant. */
    function GetClosure(): (c: Closure)
      reads this, serializable.Objects()
      ensures c == serializable.GetClosure()
    {
      serializable.GetClosure()
    }

    /** serialize($envelope) as PHP runs it: __serialize hands over the held variant, whose own
        capture then runs under the signer configured now. Changes nothing. */
    method Persist(config: SignerConfig, lib: Library) returns (r: Result<PersistedVariant>)
      ensures r == PersistVariant(config.signer, lib, serializable.SignedRef?, GetClosure())
    {
      match serializable
      case Native(c) =>
        r := Success(NativeData(lib.serializeNative(c)));
      case SignedRef(s) =>
        var sig := s.Serialize(config, lib);
        r := if sig.Success? then Success(SignedData(sig.value)) else Failure(sig.error);
    }

    /** unsigned(): an envelope that always holds a Native variant, whatever is configured. */
    static method Unsigned(c: Closure) returns (u: UnsignedSerializableClosure)
      ensures fresh(u)
      ensures u.serializable == Native(c)
    {
      u := new UnsignedSerializableClosure(c);
    }

    /** setSecretKey(): a truthy secret installs an HMAC signer over it; null, "" and "0" clear
        the signer. */
    static method SetSecretKey(config: SignerConfig, secret: Option<string>)
      modifies config
      ensures config.signer == SignerFor(secret)
    {
      if secret.Some? && Truthy(secret.value) {
        config.signer := Some(Hmac(secret.value));
      } else {
        config.signer := None;
      }
    }

    /** __serialize(): exactly the held variant, under 'serializable'. */
    method Serialize() returns (d: EnvelopeData)
      ensures d.serializable == serializable
    {
      d := EnvelopeData(serializable);
    }

    /** __unserialize(): refuses a variant the configured signer does not admit, leaving the held
        variant as it was; otherwise adopts the incoming variant as it is. */
    method Unserialize(config: SignerConfig, data: EnvelopeData) returns (o: Outcome)
      modifies this
      ensures o.Pass? <==> Admits(config.signer, data.serializable.SignedRef?)
      ensures o.Fail? ==> o.error == InvalidSignature && serializable == old(serializable)
      ensures o.Pass? ==> serializable == data.serializable
    {
      if config.signer.Some? && !data.serializable.SignedRef? {
        return Fail(InvalidSignature);
      }
      serializable := data.serializable;
      o := Pass;
    }
  }

  /** The envelope of UnsignedSerializableClosure: always Native, restored without any check. */
  class UnsignedSerializableClosure {
    var serializable: Serializable

    constructor (c: Closure)
      ensures serializable == Native(c)
    {
      serializable := Native(c);
    }

    /** getClosure(): forwarded to the held variant. */
    function GetClosure(): (c: Closure)
      reads this, serializable.Objects()
      ensures c == serializable.GetClosure()
    {
      serializable.GetClosure()
    }

    /** __serialize(): exactly the held variant, under 'serializable'. */
    method Serialize() returns (d: EnvelopeData)
      ensures d.serializable == serializable
    {
      d := EnvelopeData(serializable);
    }

    /** __unserialize(): adopts whatever variant arrives, with no signer or kind check. */
    method Unserialize(data: EnvelopeData)
      modifies this
      ensures serializable == data.serializable
    {
      serializable := data.serializable;
    }
  }

  /** The constructor's variant choice as written: it reads Signed::$signer, which raises while the
      static is still uninitialised; once assigned, Signed is chosen iff a signer is set. */
  function ShippedConstructSigned(slot: StaticSigner): (r: Result<bool>)
    ensures r.Failure? <==> slot.Uninitialized?
    ensures r.Failure? ==> r.error == UninitializedSigner
    ensures r.Success? ==> r.value == slot.signer.Some?
  {
    match ShippedSignerRead(slot)
    case Failure(e) => Failure(e)
    case Success(signer) => Success(signer.Some?)
  }

  /** Constructing an envelope in a process that never called setSecretKey: as written the
      constructor raises; with the intended null default it holds a Native variant of the closure. */
  method FreshProcessConstruction(c: Closure) returns (shipped: Result<bool>, intended: SerializableClosure)
    ensures shipped == Failure(UninitializedSigner)
    ensures intended.serializable == Native(c)
  {
    shipped := ShippedConstructSigned(Uninitialized);
    var config := new SignerConfig();
    intended := new SerializableClosure(config, c);
  }

  /** The whole life of an envelope under three signer configurations: the one at construction,
      the one when serialize() runs, and the one when unserialize() runs. */
  method EnvelopeRoundTrip(atBuild: SignerConfig, atSerialize: SignerConfig, atRestore: SignerConfig,
                           lib: Library, c: Closure)
    returns (r: Result<Revived>)
    requires Sound(lib)
    ensures atBuild.signer.Some? && atSerialize.signer.None? ==> r == Failure(MissingSecretKey)
    ensures atBuild.signer.None? && atRestore.signer.Some? ==> r == Failure(InvalidSignature)
    ensures atBuild.signer == atSerialize.signer == atRestore.signer ==>
              r == Success(Revived(atBuild.signer.Some?, c))
    ensures atBuild.signer.Some? && atSerialize.signer.Some? && atRestore.signer.Some? &&
            atSerialize.signer.value.Tag(lib, lib.serializeNative(c)) !=
            atRestore.signer.value.Tag(lib, lib.serializeNative(c)) ==>
              r == Failure(InvalidSignature)
  {
    var e := new SerializableClosure(atBuild, c);
    var w := e.Persist(atSerialize, lib);
    if w.Failure? {
      return Failure(w.error);
    }
    r := Revive(atRestore.signer, lib, w.value);
    if atBuild.signer == atSerialize.signer == atRestore.signer {
      EnvelopeRoundTripSameSigner(atBuild.signer, lib, c);
    }
  }
}
