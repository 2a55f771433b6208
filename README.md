# serializable-closure: envelope, signing protocol and virtual-source stream

A Dafny model of the core of omegacms/serializable-closure, a PHP package that lets a closure be
serialised, stored and restored, optionally protected by an HMAC signature. The model covers:

- **the envelopes** `SerializableClosure` and `UnsignedSerializableClosure` (module `Envelope`):
  which serializer variant is held (Signed when a signer is configured at construction, Native
  otherwise), `setSecretKey` with PHP truthiness, the persisted form `{serializable: variant}`, and
  the downgrade check on restore (a non-Signed variant is refused while a signer is configured),
  and the whole round trip PHP runs: serialising an envelope also runs the held variant's own
  capture under the signer configured at that moment, and unserialising it first rebuilds the
  variant (for a Signed one, verifying its record) before the envelope's policy applies;
- **the Signed serializer** (module `Serializers`): capture raises MissingSecretKey without a
  signer and otherwise signs `serialize(new Native(closure))`; restore raises InvalidSignature when
  a configured signer does not verify the record, skips the check entirely when none is configured,
  and then adopts the closure of the unserialised payload;
- **the HMAC signer** (module `Signers`): `sign` pairs a payload with
  base64(HMAC-SHA256(secret, payload)) and `verify` recomputes and compares that tag;
- **the virtual-source stream** `ClosureStream` (module `Stream`): `stream_open` synthesises
  `<?php\nreturn <code>;` from the path, and `read`, `eof`, `seek`, `tell`, `set_option` and the
  stat size work on an in-memory cursor.

The process-wide static `Signed::$signer` is an explicit `SignerConfig` object passed to every
operation that reads it. Closures are opaque handles (`Closure(id)`). HMAC-SHA256 (RFC 2104 over
FIPS 180-4), base64 (section 4 of RFC 4648) and the Native serializer's `serialize`/`unserialize`
are uninterpreted total functions, the fields of a `Library` value; the only thing assumed of them
is `Sound(lib)`: unserialising a Native serialisation gives back the same closure. Every round-trip
lemma states that assumption as a `requires`. PHP strings are modelled as `string`, one character
per byte.

Behaviour of the code worth knowing:

- tampering is detected only while a signer is configured: with none, any record is restored
  unchecked (`Serializers.NoSignerAcceptsAnyTag`, `Serializers.UnsignedRestoreAdoptsForgery`);
- the stream's stat is the stat of the package's own PHP file with the size fields overwritten,
  and only that size is modelled;
- seeks outside `[0, length)` fail for the intended `length`, but as shipped `length` is never
  set (see Findings).

## Model

| member | source | states |
|---|---|---|
| `Stream.Substr` | src/Support/ClosureStream.php:102 | substr with a non-negative start and count yields the characters from start on, at most count of them, and nothing when start is at or past the end |
| `Stream.SourceForLength` | src/Support/ClosureStream.php:86-92 | the synthesised content is 14 + max(0, \|path\| - 29) characters long |
| `Stream.SourceForUrl` | src/Support/ClosureStream.php:88 | opening `omega-serializable-closure://<code>` yields `<?php\nreturn <code>;`, and the first 29 characters of the path are dropped unchecked, whatever they are |
| `Stream.ClosureStream.constructor` | src/Support/ClosureStream.php:68-75 | a fresh wrapper has its pointer at 0 |
| `Stream.ClosureStream.Open` | src/Support/ClosureStream.php:86-92 | stream_open always succeeds, sets the content from the path, sets the length to the content's length (intended), and leaves the pointer alone |
| `Stream.ClosureStream.Read` | src/Support/ClosureStream.php:100-107 | stream_read returns the next count characters (fewer at the end, none past it), advances the pointer by exactly count even past the end, and never changes the content |
| `Stream.ReadsConcatenate` | src/Support/ClosureStream.php:100-107 | two consecutive reads return what one read of their combined size returns |
| `Stream.DrainYieldsRest` | src/Support/ClosureStream.php:100-117 | reading with any positive chunk size until eof yields exactly the content from the start position on |
| `Stream.ClosureStream.Eof` | src/Support/ClosureStream.php:114-117 | stream_eof is true iff the pointer is at or past the length, iff nothing is left to read; it changes nothing |
| `Stream.ClosureStream.SetOption` | src/Support/ClosureStream.php:127-130 | stream_set_option always returns false and changes nothing |
| `Stream.ClosureStream.Stat` | src/Support/ClosureStream.php:137-144 | the reported size is the content's length |
| `Stream.ClosureStream.Seek` | src/Support/ClosureStream.php:169-192 | the target is offset (SEEK_SET), pointer + offset (SEEK_CUR), length + offset (SEEK_END) or the pointer (any other whence); seek succeeds and moves there iff the target is in [0, length), otherwise it fails with the pointer as before; the content never changes and the pointer stays non-negative |
| `Stream.ClosureStream.Tell` | src/Support/ClosureStream.php:199-202 | stream_tell returns the pointer, which is never negative, and changes nothing |
| `Stream.ShippedStreamIsAlwaysAtEof` | src/Support/ClosureStream.php:89-191 | as written (length left null), eof is true at every position and every seek fails without moving the pointer |
| `Stream.ShippedStreamCounterexample` | src/Support/ClosureStream.php:86-117 | after opening `omega-serializable-closure://1` (15 characters, pointer 0) eof should be false and seek(0, SEEK_SET) should succeed, but as written eof is true and the seek fails |
| `Signers.Hmac.Sign` | src/Signers/Hmac.php:64-70 | sign carries the payload unchanged, and its hash is base64(HMAC-SHA256(secret, payload)), a function of the secret and the payload only |
| `Signers.Hmac.Verify` | src/Signers/Hmac.php:78-83 | verify accepts a record exactly when it is the record sign makes of its own payload under this secret |
| `Signers.VerifySign` | src/Signers/Hmac.php:64-83 | verify(sign(p)) holds for every payload, the empty one included |
| `Signers.TamperedPayloadNeedsCollision` | src/Signers/Hmac.php:78-83 | a signed record whose payload was replaced verifies iff the new payload's tag equals the old one's |
| `Signers.SameSecretSameBehaviour` | src/Signers/Hmac.php:53-56 | two signers built from the same secret produce identical signatures and accept the same records |
| `Serializers.SignerConfig.constructor` | src/Serializers/Signed.php:53 | a process starts with no signer configured (the intended default of the static) |
| `Serializers.Capture` | src/Serializers/Signed.php:98-107 | capture fails with MissingSecretKey iff no signer is configured; otherwise its payload is the Native serialisation of the same closure and its record verifies under the configured signer |
| `Serializers.Restore` | src/Serializers/Signed.php:116-126 | restore fails with InvalidSignature iff a signer is configured and does not verify the record; it succeeds iff that check passes (or is skipped) and the payload unserialises, and then yields the payload's closure; its only other failure is MalformedPayload |
| `Serializers.Signed.constructor` | src/Serializers/Signed.php:68-71 | the Signed variant holds the given closure |
| `Serializers.Signed.Serialize` | src/Serializers/Signed.php:98-107 | __serialize changes nothing and yields the Capture of the held closure under the configured signer |
| `Serializers.Signed.Unserialize` | src/Serializers/Signed.php:116-126 | __unserialize reports the Restore outcome; the held closure becomes the restored one on success and is unchanged on every failure |
| `Serializers.Serializable.GetClosure` | src/Serializers/Signed.php:88-91 | getClosure of a variant is the closure a Native variant wraps or the one a Signed object currently holds |
| `Serializers.PersistVariant` | src/Serializers/Signed.php:98-107 | serialising a held variant: a Native one always yields its Native serialisation; a Signed one raises MissingSecretKey iff no signer is configured at that moment, and otherwise yields its Capture record |
| `Serializers.ReviveVariant` | src/Serializers/Signed.php:116-126 | rebuilding a persisted variant: a Signed record goes through Restore under the signer configured at that moment; a Native payload fails iff it does not unserialise; the kind is kept |
| `Serializers.VariantRoundTrip` | src/Serializers/Signed.php:98-126 | any variant that can be persisted under a signer configuration comes back under the same configuration with the same kind and closure, given a sound Native serializer |
| `Serializers.SignedRoundTrip` | src/Serializers/Signed.php:104-125 | with the same signer at capture and restore and a sound Native serializer, restoring a capture yields the captured closure |
| `Serializers.NoSignerAcceptsAnyTag` | src/Serializers/Signed.php:118-125 | with no signer configured, restore succeeds for any tag whenever the payload unserialises |
| `Serializers.UnsignedRestoreAdoptsForgery` | src/Serializers/Signed.php:118-125 | with no signer configured, a signed record whose payload was swapped for another closure's serialisation restores that other closure |
| `Serializers.ShippedSignerRead` | src/Serializers/Signed.php:53 | as declared, reading the static raises an Error until it is first assigned, and yields the assigned signer afterwards |
| `Serializers.ShippedFreshProcessRaises` | src/Serializers/Signed.php:53 | in a process that never called setSecretKey the first read raises, whereas an explicitly cleared static reads as no signer |
| `Envelope.SignerFor` | src/SerializableClosure.php:102-107 | setSecretKey installs a signer iff the secret is non-null and PHP-truthy, and that signer's secret is the given one |
| `Envelope.FalsySecretsClear` | src/SerializableClosure.php:102-107 | null, "" and "0" clear the signer, while "00" and " " set one |
| `Envelope.SerializableClosure.SetSecretKey` | src/SerializableClosure.php:102-107 | setSecretKey replaces the configured signer with the one SignerFor gives |
| `Envelope.SerializableClosure.GetClosure` | src/SerializableClosure.php:81-84 | getClosure forwards to the held variant and changes nothing |
| `Envelope.SerializableClosure.Persist` | src/SerializableClosure.php:136-141 | serialising the envelope persists the held variant through that variant's own capture under the signer configured at that moment, changing nothing |
| `Envelope.Revive` | src/SerializableClosure.php:150-157 | unserialising a persisted envelope succeeds iff the nested variant rebuilds and the configured signer admits its kind; a rebuilt Native variant under a configured signer raises InvalidSignature, and a failed nested rebuild raises the nested variant's own error |
| `Envelope.EnvelopeRoundTripSameSigner` | src/SerializableClosure.php:59-157 | built, serialised and restored under one signer configuration, an envelope comes back with the kind chosen at construction and the same closure |
| `Envelope.EnvelopeSecretChangedRejected` | src/Serializers/Signed.php:118-120 | an envelope signed under one secret and restored under another whose tag differs fails with InvalidSignature |
| `Envelope.UnsignedEnvelopeRoundTrip` | src/UnsignedSerializableClosure.php:86-102 | the unsigned envelope's Native variant, persisted under any signer configuration, comes back with the same closure under any other |
| `Envelope.UnsignedSerializableClosure.GetClosure` | src/UnsignedSerializableClosure.php:76-79 | getClosure forwards to the held variant and changes nothing |
| `Envelope.SerializableClosure.constructor` | src/SerializableClosure.php:59-64 | the envelope holds a (fresh) Signed variant iff a signer is configured, Native otherwise, and its getClosure is the given closure |
| `Envelope.SerializableClosure.Unsigned` | src/SerializableClosure.php:91-94 | unsigned() yields a fresh unsigned envelope holding a Native variant of the closure whatever the configuration |
| `Envelope.SerializableClosure.Serialize` | src/SerializableClosure.php:136-141 | __serialize persists exactly the held variant and changes nothing |
| `Envelope.SerializableClosure.Unserialize` | src/SerializableClosure.php:150-157 | __unserialize succeeds iff no signer is configured or the incoming variant is Signed; on failure it raises InvalidSignature and keeps the held variant, on success it adopts the incoming variant as it is |
| `Envelope.EnvelopeTamperedRejected` | src/Serializers/Signed.php:118-119 | any Signed record the configured signer does not verify is refused with InvalidSignature, raised by the nested variant |
| `Envelope.ShippedConstructSigned` | src/SerializableClosure.php:59-64 | as written, the constructor's choice raises while the static is uninitialised, and once assigned picks Signed iff a signer is set |
| `Envelope.FreshProcessConstruction` | src/SerializableClosure.php:59-64 | constructing an envelope before any setSecretKey raises as written, and holds a Native variant of the closure with the intended null default |
| `Envelope.DowngradeRejected` | src/SerializableClosure.php:150-157 | while a signer is configured no Native payload is ever accepted, and the one an envelope built without a signer persists fails with InvalidSignature |
| `Envelope.EnvelopeRoundTrip` | src/SerializableClosure.php:59-157 | an envelope built with a signer and serialised without one raises MissingSecretKey; one built without a signer and restored with one raises InvalidSignature; one whose restore-time secret gives a different tag than the serialise-time one raises InvalidSignature; under one configuration throughout it comes back with the same kind and closure |
| `Envelope.UnsignedSerializableClosure.constructor` | src/UnsignedSerializableClosure.php:56-59 | the unsigned envelope always holds a Native variant of the closure |
| `Envelope.UnsignedSerializableClosure.Serialize` | src/UnsignedSerializableClosure.php:86-91 | __serialize persists exactly the held variant and changes nothing |
| `Envelope.UnsignedSerializableClosure.Unserialize` | src/UnsignedSerializableClosure.php:99-102 | __unserialize adopts any incoming variant with no check and never fails, so handing it the envelope's own __serialize result leaves the held variant identical |

## Findings

| source | as written | input that shows it | evidently intended | confidence | as-written member | corrected member |
|---|---|---|---|---|---|---|
| src/Support/ClosureStream.php:89 | `stream_open` stores the length in a misspelt dynamic property `lenght`, so the declared `length` stays null; PHP compares `pointer >= null` as booleans, which always holds; `stream_stat` (line 141) therefore reports a null size | open `omega-serializable-closure://1`, then `stream_eof()` at pointer 0 returns true and `stream_seek(0, SEEK_SET)` returns false | `length` is the content's length, so eof and seek work over `[0, length)` | high; not executed | `Stream.ShippedStreamCounterexample` | `Stream.ClosureStream.Open` |
| src/Serializers/Signed.php:53 | `Signed::$signer` is a typed static property with no default, so it starts uninitialised and reading it raises an Error | construct a `SerializableClosure` in a process that never called `setSecretKey` | the static starts as null, meaning "no signer" | medium; not executed | `Envelope.FreshProcessConstruction` | `Serializers.SignerConfig.constructor` |

## Left out

- The Native serializer (not part of this model): reflection on closure bodies, captured-variable
  capture, the self-reference placeholder and the serialization-scope counters. It appears only as
  the uninterpreted `serializeNative`/`unserializeClosure` pair assumed to round-trip.
- src/Support/ClosureScope.php and src/Support/SelfReference.php: data holders whose behaviour
  lives in the Native serializer.
- The internals of HMAC-SHA256 and base64: uninterpreted. Tamper resistance beyond "a forged record
  needs a tag collision" rests on cryptographic assumptions and is not proved.
- The constant-time comparison of `hash_equals`: a timing property; modelled as equality.
- `__invoke` of both envelopes and of Signed: calling a closure is runtime execution; the model
  only states which closure the call is forwarded to (getClosure).
- `transformUseVariablesUsing` / `resolveUseVariablesUsing`: they set statics of the Native
  serializer only.
- `ClosureStream::register`: a one-time registration with PHP's stream layer, a foreign call.
- `url_stat`: PHP calls it on a fresh wrapper instance that was never opened, so it reports a null
  size (line 157) whatever `stream_open` assigns; not modelled.
- `stream_stat`: the stat of the package's own file is filesystem I/O; only the size
  it reports is modelled (`Stat`).
- Stream.ClosureStream.Read: requires a non-negative count; PHP's stream layer always passes a
  positive chunk size, and a negative count (which substr would treat as "drop from the end") is
  not modelled.
- PHP's 64-bit integer overflow of the stream pointer: integers are unbounded here.
- Malformed persisted arrays (a missing key, a value of the wrong type) raise PHP warnings or
  TypeErrors; the record types here always carry both keys. A payload that does not unserialise
  to an object with a closure is modelled as the `MalformedPayload` error.
- Unserialising an envelope yields the rebuilt variant's kind and closure (`Revived`) rather than
  fresh PHP objects; the Native variant's persisted form is its serialisation as a whole,
  `serialize(new Native(closure))`, since Native's own format is not part of this model.
- The exceptions' default messages: only the error kinds are modelled.
- The envelope holds the Native variant as the closure it wraps rather than as an object: Native
  is not part of this model, and nothing in the core mutates a Native variant once built.
- Concurrency around the process-wide signer: the model is single-threaded, with the
  configuration passed explicitly.
