# Signature device service — a Dafny model

This project models the core of a signing service. Clients create
*signature devices*. A device has an ID, a signing algorithm (`ECC` or
`RSA`), a label and a private key. Clients then sign data with a device.
Each signature is computed over a payload that commits to the previous
signature of the same device, so a device's signatures form a chain:

    <counter in decimal> "_" <data> "_" <base64 of the anchor>

The anchor is the device ID for the first signature. After that it is the
signature the device made in the previous step. After each signature, the
device stores it under the counter value the step started from, and the
counter goes up by one.

The model has six modules:

- `Types` (types.dfy) holds bytes, Go strings as byte sequences and the
  `uint32` counter with its wrap-around. It also holds the error values and
  `errors.Is`, and the device record.
- `Algorithms` (signing_algorithm.dfy) is the whitelist of signing
  algorithms.
- `Encoding` (encoding.dfy) renders a counter in decimal
  (`strconv.Itoa`) and encodes bytes as standard padded base64 (section 4 of
  RFC 4648). Each comes with an inverse and a round-trip proof.
- `Chain` (chain.dfy) is the signature chain as pure functions: the anchor,
  the payload, and one signing step (`Advance`). It also holds the chain
  invariant: the history has exactly the keys `0 .. Counter-1`. The
  invariant is proved to be kept by every step while the counter is below
  the largest `uint32`, and to break when the counter wraps. A payload is
  proved to determine its counter, data and anchor (`SplitPayload` is the
  model's own reader of a payload, the partner of `Payload`). The module
  also evaluates the payload the unit tests expect for a new device.
- `Persistence` (inmemory.dfy) is the in-memory store: a class over a
  `map` from ID to record. Its methods are create-if-absent, get,
  update-if-present and two listings. The listings fill a pre-sized array
  in a loop, as the Go code does.
- `Domain` (device.dfy) is the `DeviceService` class. Its fields are the
  store and the payload `builder`. `SignUsingDevice` appends to the builder
  step by step and empties it again on every path. It is proved to sign
  exactly `Payload(Counter, data, Anchor(device))` and to write back exactly
  `Advance(device, signature)`. It keeps every stored device chained as
  long as the counter of the device it signs with is below the largest
  `uint32`.

The model follows the code in these details:

- Two store errors are wrapped rather than returned unchanged: the lookup
  error of `SignUsingDevice` (domain/device.go:65-67) and the create error
  of `Create` (domain/device.go:57-58). Each gets a context message added
  with `%w`, so the result is a new error whose cause `errors.Is` still
  finds (`Wrapped` in the model). The error of the write-back
  `UpdateSignatureDevice` (domain/device.go:98-99) would be returned as it
  is, but the model proves that path unreachable (see "Pointer aliasing"
  under "## Left out").
- `Create` reports ID-generation and key-generation failures with `%v`. The
  model's `Opaque` error therefore keeps only their text, not a cause that
  `errors.Is` could find.
- A missing history entry for `Counter-1` is read as the empty byte string,
  because a Go map lookup of a missing key yields a nil slice
  (`Chain.Anchor`).
- `Counter++` on a `uint32` wraps to 0. The chain invariant therefore holds
  only while the counter is below 2^32-1 (`Chain.AdvanceAtMaxBreaksChain`).

## Model

| member | source | states |
|---|---|---|
| Types.Inc32 | signing-service-challenge-go/domain/device.go:96 | `Counter++` on a `uint32`: one more below the maximum, 0 at the maximum |
| Algorithms.IsAllowedSigningAlgorithm | signing-service-challenge-go/types/signing_algorithm.go:10-17 | an algorithm name is accepted exactly when it is one of `ECC`, `RSA` |
| Algorithms.KnownAlgorithms | signing-service-challenge-go/types/signing_algorithm.go:5-13 | both constants are accepted and they are different names |
| Algorithms.UnknownRefused | signing-service-challenge-go/types/signing_algorithm.go:14-15 | `Unknown` and the lower-case `ecc` are refused |
| Encoding.Decimal | signing-service-challenge-go/domain/device.go:72 | the decimal text of the counter is non-empty, all digits, and has a leading zero only for 0 |
| Encoding.ParseDecimal | signing-service-challenge-go/domain/device.go:72 | accepts exactly non-empty digit strings without a leading zero (the form `Decimal` produces) |
| Encoding.DigitsOfDecimal | signing-service-challenge-go/domain/device.go:72 | the digits of `Decimal(n)` have the value n |
| Encoding.DecimalRoundTrip | signing-service-challenge-go/domain/device.go:72 | reading back the decimal text of n gives n |
| Encoding.DecimalOfDigits | signing-service-challenge-go/domain/device.go:72 | a canonical digit string is the decimal text of its value |
| Encoding.ParseDecimalRoundTrip | signing-service-challenge-go/domain/device.go:72 | whatever `ParseDecimal` accepts is re-rendered unchanged, so the decimal text is unique |
| Encoding.Base64Encode | signing-service-challenge-go/domain/device.go:83 | the encoding has 4 characters per started group of 3 bytes |
| Encoding.SextetRoundTrip | signing-service-challenge-go/domain/device.go:83 | each 6-bit value maps to an alphabet character that maps back to it |
| Encoding.Base64Alphabet | signing-service-challenge-go/domain/device.go:83 | every character of the encoding is in the base64 alphabet or is '=' |
| Encoding.QuadDecodes | signing-service-challenge-go/domain/device.go:83 | a full group of four characters decodes to its three bytes |
| Encoding.PaddedQuadDecodes | signing-service-challenge-go/domain/device.go:83 | a final padded group decodes to its one or two bytes |
| Encoding.Base64RoundTrip | signing-service-challenge-go/domain/device.go:83 | decoding the encoding of any byte string gives it back |
| Encoding.Base64Concat | signing-service-challenge-go/domain/device.go:83 | the encoding is streaming: a prefix of whole 3-byte groups encodes to a prefix of the output, whatever follows it |
| Chain.Anchor | signing-service-challenge-go/domain/device.go:77-82 | the anchor is the ID at counter 0, otherwise the history entry for `Counter-1`, and the empty byte string (Go's nil slice) when that entry is missing; on a chained device the entry is always there |
| Chain.Payload | signing-service-challenge-go/domain/device.go:72-84 | the payload has the length of its three parts plus two, with '_' right after the counter and right before the encoded anchor; `Chain.PayloadRoundTrip` recovers the parts |
| Chain.Advance | signing-service-challenge-go/domain/device.go:95-96 | the counter is incremented with `uint32` wrap-around; the history gains exactly the key of the old counter, holding the new signature; every other entry and the ID, algorithm, label and key stay as they were |
| Chain.ChainedSize | signing-service-challenge-go/types/signature_device.go:8-10 | under the chain invariant the counter equals the number of stored signatures |
| Chain.FreshIsChained | signing-service-challenge-go/domain/device.go:48-55 | a record with counter 0 and empty history is chained and anchors to its ID |
| Chain.ChainedAnchor | signing-service-challenge-go/domain/device.go:77-82 | on a chained device past step 0 the anchor is the stored signature of the previous step |
| Chain.AdvanceKeepsChain | signing-service-challenge-go/domain/device.go:95-96 | a step stores the signature at the old counter, adds one to the counter, keeps every earlier entry and the other fields, keeps the chain, and makes the new signature the next anchor |
| Chain.AdvanceAtMaxBreaksChain | signing-service-challenge-go/domain/device.go:96 | at the largest counter the increment wraps to 0, the chain invariant breaks and the next anchor is the ID again |
| Chain.ReplayFromFresh | signing-service-challenge-go/domain/device.go:95-96 | after n steps the counter is n and history entry i is the i-th signature |
| Chain.ChainLink | signing-service-challenge-go/domain/device.go:77-96 | after n steps from a fresh device, n signatures are stored and the next anchor is the ID (n = 0) or the last signature |
| Chain.SeparatorFree | signing-service-challenge-go/domain/device.go:72-83 | neither the decimal counter nor the base64 anchor contains '_' |
| Chain.OuterSeparators | signing-service-challenge-go/domain/device.go:72-83 | in a payload the first '_' ends the counter and the last '_' starts the anchor, whatever the data holds |
| Chain.PayloadRoundTrip | signing-service-challenge-go/domain/device.go:72-84 | splitting a payload gives back its counter, data and anchor |
| Chain.ValidIdBase64 | signing-service-challenge-go/domain/device_test.go:140-147 | base64 of `valid-id` is `dmFsaWQtaWQ=` |
| Chain.FirstPayloadExample | signing-service-challenge-go/domain/device_test.go:140-147 | the first payload of device `valid-id` over `test data` is `0_test data_dmFsaWQtaWQ=` |
| Persistence.EnumerationContents | signing-service-challenge-go/persistence/inmemory.go:59-66 | a listing of a map has one element per entry, and lists a value exactly when the map holds it |
| Persistence.CollectValues | signing-service-challenge-go/persistence/inmemory.go:59-64 | the `range` loop fills the slice with every value of the map once, in some order of its keys |
| Persistence.InMemoryDatabase.constructor | signing-service-challenge-go/persistence/inmemory.go:8-13 | a new store is empty |
| Persistence.InMemoryDatabase.GetSignatureDevice | signing-service-challenge-go/persistence/inmemory.go:21-29 | the stored record exactly when the ID is present, otherwise `ErrDeviceNotFound` |
| Persistence.InMemoryDatabase.CreateSignatureDevice | signing-service-challenge-go/persistence/inmemory.go:31-41 | a taken ID gives `ErrDeviceAlreadyExists` and leaves the map unchanged; a free ID adds exactly that entry; every record stays filed under its own ID |
| Persistence.InMemoryDatabase.UpdateSignatureDevice | signing-service-challenge-go/persistence/inmemory.go:43-51 | an absent ID gives `ErrDeviceNotFound` and inserts nothing; a present ID has only its entry replaced; the key set never changes |
| Persistence.InMemoryDatabase.GetAllSignatureDevices | signing-service-challenge-go/persistence/inmemory.go:53-67 | one element per stored device, in some order of the IDs: as many devices as stored, each stored record listed, nothing else |
| Persistence.InMemoryDatabase.GetDeviceSignatures | signing-service-challenge-go/persistence/inmemory.go:68-86 | `ErrDeviceNotFound` for an unknown ID; otherwise one element per history entry, listing exactly the stored signatures (empty for an empty history) |
| Domain.NewDevice | signing-service-challenge-go/domain/device.go:48-55 | the new record has the fresh ID, the requested algorithm and label, the private key, counter 0 and an empty history, and is chained |
| Domain.AdvanceKeepsStoreChained | signing-service-challenge-go/domain/device.go:95-100 | writing back one advanced device keeps every device of the store chained |
| Domain.DeviceService.constructor | signing-service-challenge-go/domain/device.go:14-19 | the service uses the given store and starts with an empty builder |
| Domain.DeviceService.Get | signing-service-challenge-go/domain/device.go:27-29 | the stored record for the ID, or `ErrDeviceNotFound` |
| Domain.DeviceService.Create | signing-service-challenge-go/domain/device.go:32-62 | an unknown algorithm fails first, with `ErrUnknownSigningAlgorithm` as its cause; then ID and key failures with their messages; then a taken ID fails with the store's error as cause; only success stores and returns the fresh record; no failure changes the store |
| Domain.DeviceService.SignUsingDevice | signing-service-challenge-go/domain/device.go:64-103 | an unknown device fails with `ErrDeviceNotFound` as cause; otherwise exactly `Payload(Counter, data, Anchor)` is signed; a signer error is returned unchanged with the store untouched; success returns the signature and that payload and writes back exactly `Advance(device, signature)`; the builder is empty afterwards; the store stays chained below the counter limit |
| Domain.DeviceService.GetAll | signing-service-challenge-go/domain/device.go:105-107 | the store's listing: one element per stored device, in some order of the IDs, and nothing else |
| Domain.DeviceService.GetDeviceSignatures | signing-service-challenge-go/domain/device.go:109-111 | the store's listing of the device's history: one element per history entry, in some order of the counters, as many as its counter when it is chained; `ErrDeviceNotFound` for an unknown ID |

## Left out

- HTTP and JSON: the `api` package and `main.go` are routing, JSON encoding, status codes and process startup. They are not part of this model.
- Cryptography: `crypto/signer.go` is not part of this model. `NewSigner` followed by `Sign` is a function parameter `Signer` of `SignUsingDevice`. It maps algorithm, private key and payload to a signature or an error. Key generation is a parameter `KeyGenerator` of `Create`. Signature verification is not modelled.
- ID generation: the outcome of `uuid.NewRandom` is a parameter of `Create`. It holds either an ID string or an error.
- The `Database` interface (domain/database.go) is not modelled as an interface, because the model has no traits. `DeviceService` holds the in-memory store directly. The mock store of the unit tests can return any error from `CreateSignatureDevice`, but the in-memory store returns only `ErrDeviceAlreadyExists`.
- Locking: the store's mutex and the unprotected shared `builder` concern concurrent calls. Each method is modelled as one sequential, atomic step.
- Pointer aliasing: the Go store hands out the same `*SignatureDevice` it holds, so the in-place update of counter and history is visible through the store before `UpdateSignatureDevice` runs. The model copies records by value, and the change becomes visible at the write-back. The write-back's not-found error is proved unreachable, because the record was read in the same call.
- Order of listings: Go's map iteration order is unspecified. The listings promise only some order of the keys (`Persistence.Enumerates`), not a particular one.
- Chain.FirstPayloadExample: only the first expected payload of the unit tests (`0_test data_dmFsaWQtaWQ=`) is evaluated. The second one, `1_test data_cHJldmlvdXMtc2lnbmF0dXJl`, is not, because evaluating the base64 of the 18-byte literal `previous-signature` needs more than the verifier's resource limit. The rule it exercises, that the anchor at counter 1 is history entry 0, is `Chain.ChainedAnchor`.
- Encoding.Decimal: assumes Go's `int` is 64 bits wide, as on amd64 and arm64. There `int(Counter)` keeps every `uint32` value, so the payload starts with the counter's unsigned decimal text. On a 32-bit platform such as 386 or arm, a counter of 2^31 or more converts to a negative `int`, and the payload would start with text such as `-2147483648`. The model does not capture that.
- Error text: `fmt.Errorf` formatting is modelled as concatenating the prefix, the cause's text and the suffix. The text of foreign errors (key generation, signer) is taken as given.
