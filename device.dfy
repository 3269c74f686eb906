/** The signature service: creates devices and signs data with them, each
    signature committing to the previous one of the same device. */
module Domain {
  import opened Types
  import opened Encoding
  import opened Chain
  import opened Algorithms
  import opened Persistence

  /** The outcome of `crypto.GenerateNewPair`; only the private key is kept. */
  datatype KeyPair = KeyPair(publicPem: Bytes, privatePem: Bytes)

  /** Key generation for an algorithm name; it may fail. */
  type KeyGenerator = GoString -> Result<KeyPair>

  /** `crypto.NewSigner(algorithm, pem)` followed by `Sign(payload)`: either
      step may fail, and its error is passed on unchanged. */
  type Signer = (GoString, Bytes, Bytes) -> Result<Bytes>

  /** What a successful signing step hands back. */
  datatype Signed = Signed(signature: Bytes, signedData: Bytes)

  /** The record `Create` builds for a request, a fresh ID and a private key. */
  function NewDevice(request: NewSignatureDevice, id: GoString, privatePem: Bytes): (d: SignatureDevice)
    ensures d.ID == id && d.PkPem == privatePem
    ensures d.Algorithm == request.Algorithm && d.Label == request.Label
    ensures d.Counter == 0 && d.PreviousSignatures == map[]
    ensures Chained(d) && Anchor(d) == id
  {
    var d := SignatureDevice(id, request.Algorithm, request.Label, 0, privatePem, map[]);
    FreshIsChained(d);
    d
  }

  /** Every device of a store satisfies the chain invariant. */
  ghost predicate StoreChained(store: map<GoString, SignatureDevice>)
  {
    forall id :: id in store ==> Chained(store[id])
  }

  /** Advancing one device below the counter limit keeps the whole store
      chained. */
  lemma AdvanceKeepsStoreChained(store: map<GoString, SignatureDevice>, id: GoString, signature: Bytes)
    requires StoreChained(store) && id in store && store[id].Counter < MaxUint32
    ensures StoreChained(store[id := Advance(store[id], signature)])
  {
    AdvanceKeepsChain(store[id], signature);
  }

  class DeviceService {
    const db: InMemoryDatabase
    /** The payload under construction; empty between calls. */
    var builder: Bytes

    ghost predicate Valid()
      reads this, db
    {
      db.Valid() && builder == []
    }

    /** Every stored device satisfies the chain invariant. */
    ghost predicate AllChained()
      reads db
    {
      StoreChained(db.db)
    }

    constructor (store: InMemoryDatabase)
      ensures db == store && builder == []
    {
      db := store;
      builder := [];
    }

    method Get(id: GoString) returns (r: Result<SignatureDevice>)
      ensures r.Success? <==> id in db.db
      ensures r.Success? ==> r.value == db.db[id]
      ensures r.Success? && db.Valid() ==> r.value.ID == id
      ensures r.Failure? ==> r.error == ErrDeviceNotFound
    {
      r := db.GetSignatureDevice(id);
    }

    /** Checks the algorithm, draws an ID (`newId`, the outcome of
        `uuid.NewRandom`) and a key pair, and stores a fresh record.  Each
        failure is reported with its own message; only the algorithm and the
        store errors keep their cause for `errors.Is`. */
    method Create(request: NewSignatureDevice, newId: Result<GoString>, generatePair: KeyGenerator)
      returns (r: Result<SignatureDevice>)
      modifies db
      ensures !IsAllowedSigningAlgorithm(request.Algorithm) ==>
        && r == Failure(Wrapped([], ErrUnknownSigningAlgorithm, Ascii(": ") + request.Algorithm))
        && db.db == old(db.db)
      ensures IsAllowedSigningAlgorithm(request.Algorithm) && newId.Failure? ==>
        && r == Failure(Opaque(Ascii("failed to generate device id: ") + Message(newId.error)))
        && db.db == old(db.db)
      ensures IsAllowedSigningAlgorithm(request.Algorithm) && newId.Success? && generatePair(request.Algorithm).Failure? ==>
        && r == Failure(Opaque(Ascii("failed to generate signer: ") + Message(generatePair(request.Algorithm).error)))
        && db.db == old(db.db)
      ensures IsAllowedSigningAlgorithm(request.Algorithm) && newId.Success? && generatePair(request.Algorithm).Success? ==>
        var device := NewDevice(request, newId.value, generatePair(request.Algorithm).value.privatePem);
        if newId.value in old(db.db) then
          && r == Failure(Wrapped(Ascii("failed to save device into the db: "), ErrDeviceAlreadyExists, []))
          && db.db == old(db.db)
        else
          && r == Success(device)
          && db.db == old(db.db)[device.ID := device]
      ensures (r.Failure? && Is(r.error, ErrUnknownSigningAlgorithm)) <==> !IsAllowedSigningAlgorithm(request.Algorithm)
      ensures (r.Failure? && Is(r.error, ErrDeviceAlreadyExists)) <==>
        && IsAllowedSigningAlgorithm(request.Algorithm) && newId.Success?
        && generatePair(request.Algorithm).Success? && newId.value in old(db.db)
      ensures old(db.Valid()) ==> db.Valid()
      ensures old(AllChained()) ==> AllChained()
    {
      if !IsAllowedSigningAlgorithm(request.Algorithm) {
        return Failure(Wrapped([], ErrUnknownSigningAlgorithm, Ascii(": ") + request.Algorithm));
      }
      if newId.Failure? {
        return Failure(Opaque(Ascii("failed to generate device id: ") + Message(newId.error)));
      }
      var pair := generatePair(request.Algorithm);
      if pair.Failure? {
        return Failure(Opaque(Ascii("failed to generate signer: ") + Message(pair.error)));
      }
      var device := NewDevice(request, newId.value, pair.value.privatePem);
      var err := db.CreateSignatureDevice(device);
      if err.Some? {
        return Failure(Wrapped(Ascii("failed to save device into the db: "), err.value, []));
      }
      return Success(device);
    }

    /** Signs `data` with device `deviceID`: the payload is the counter in
        decimal, '_', the data, '_' and the base64 of the anchor; after a
        successful signature the record is advanced and written back.  The
        builder is empty again when the call returns, on every path. */
    method SignUsingDevice(deviceID: GoString, data: Bytes, sign: Signer) returns (r: Result<Signed>)
      requires Valid()
      modifies this, db
      ensures Valid()
      ensures deviceID !in old(db.db) ==>
        && r == Failure(Wrapped(Ascii("failed to get device: "), ErrDeviceNotFound, []))
        && Is(r.error, ErrDeviceNotFound)
        && db.db == old(db.db)
      ensures deviceID in old(db.db) ==>
        var d := old(db.db)[deviceID];
        var payload := Payload(d.Counter, data, Anchor(d));
        match sign(d.Algorithm, d.PkPem, payload)
        case Failure(e) => r == Failure(e) && db.db == old(db.db)
        case Success(signature) =>
          && r == Success(Signed(signature, payload))
          && db.db == old(db.db)[deviceID := Advance(d, signature)]
      ensures old(AllChained()) && (deviceID in old(db.db) ==> old(db.db)[deviceID].Counter < MaxUint32) ==>
        AllChained()
    {
      var got := Get(deviceID);
      if got.Failure? {
        return Failure(Wrapped(Ascii("failed to get device: "), got.error, []));
      }
      var device := got.value;
      assert device.ID == deviceID;
      var digits := Decimal(device.Counter);
      builder := builder + digits;
      builder := builder + [Separator];
      builder := builder + data;
      builder := builder + [Separator];
      assert builder == digits + [Separator] + data + [Separator];
      var prev: Bytes;
      if device.Counter == 0 {
        prev := device.ID;
      } else if device.Counter - 1 in device.PreviousSignatures {
        prev := device.PreviousSignatures[device.Counter - 1];
      } else {
        prev := [];
      }
      assert prev == Anchor(device);
      builder := builder + Base64Encode(prev);
      var toBeSigned := builder;
      assert toBeSigned == Payload(device.Counter, data, Anchor(device));
      var signed := sign(device.Algorithm, device.PkPem, toBeSigned);
      if signed.Failure? {
        builder := [];
        return Failure(signed.error);
      }
      var signature := signed.value;
      var updated := Advance(device, signature);
      var err := db.UpdateSignatureDevice(updated);
      if err.Some? {
        // The record was read from the store in this same call, so the
        // store's not-found error cannot occur here.
        assert false;
      }
      builder := [];
      if StoreChained(old(db.db)) && device.Counter < MaxUint32 {
        AdvanceKeepsStoreChained(old(db.db), deviceID, signature);
      }
      return Success(Signed(signature, toBeSigned));
    }

    /** All stored devices, once each, in no particular order. */
    method GetAll() returns (devices: seq<SignatureDevice>)
      ensures exists ids :: Enumerates(devices, db.db, ids)
      ensures |devices| == |db.db|
      ensures forall d :: d in devices <==> d in db.db.Values
    {
      devices := db.GetAllSignatureDevices();
    }

    /** The signatures of device `deviceID`, in no particular order.  For a
        chained device there is one per signing step so far. */
    method GetDeviceSignatures(deviceID: GoString) returns (r: Result<seq<Bytes>>)
      ensures deviceID !in db.db ==> r == Failure(ErrDeviceNotFound)
      ensures deviceID in db.db ==> r.Success?
      ensures deviceID in db.db ==> exists counters :: Enumerates(r.value, db.db[deviceID].PreviousSignatures, counters)
      ensures deviceID in db.db ==> forall s :: s in r.value <==> s in db.db[deviceID].PreviousSignatures.Values
      ensures deviceID in db.db ==> |r.value| == |db.db[deviceID].PreviousSignatures|
      ensures deviceID in db.db && Chained(db.db[deviceID]) ==> |r.value| == db.db[deviceID].Counter
    {
      r := db.GetDeviceSignatures(deviceID);
      if deviceID in db.db && Chained(db.db[deviceID]) {
        ChainedSize(db.db[deviceID]);
      }
    }
  }
}
