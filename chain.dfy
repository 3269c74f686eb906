/** The signature chain of one device, as pure functions: which value the
    next signature commits to (the anchor), the exact bytes that are signed
    (the payload), the record after a successful signing step, and the
    invariant that ties the counter to the history.  The service in
    `Domain` is proved to compute exactly these. */
module Chain {
  import opened Types
  import opened Encoding

  const Separator: byte := 95  // '_'

  /** The value the next signature commits to: the device's own ID for the
      first signature, the previous signature afterwards.  A missing history
      entry reads as the empty byte string, as a Go map lookup of a missing
      key yields a nil slice. */
  function Anchor(d: SignatureDevice): (a: Bytes)
    ensures d.Counter == 0 ==> a == d.ID
    ensures d.Counter > 0 && d.Counter - 1 in d.PreviousSignatures ==> a == d.PreviousSignatures[d.Counter - 1]
    ensures d.Counter > 0 && d.Counter - 1 !in d.PreviousSignatures ==> a == []
    ensures Chained(d) && d.Counter > 0 ==> d.Counter - 1 in d.PreviousSignatures
  {
    if d.Counter == 0 then d.ID
    else if d.Counter - 1 in d.PreviousSignatures then d.PreviousSignatures[d.Counter - 1]
    else []
  }

  /** The signed payload: counter in decimal, '_', the client data, '_', the
      anchor in base64. */
  function Payload(counter: uint32, data: Bytes, anchor: Bytes): (p: Bytes)
    ensures |p| == |Decimal(counter)| + 1 + |data| + 1 + |Base64Encode(anchor)|
    ensures p[|Decimal(counter)|] == Separator
    ensures p[|Decimal(counter)| + 1 + |data|] == Separator
  {
    Decimal(counter) + [Separator] + data + [Separator] + Base64Encode(anchor)
  }

  /** The record after a successful signing step: the signature is stored
      under the counter value the step started from, and the counter goes
      up by one (wrapping around as a Go `uint32` does). */
  function Advance(d: SignatureDevice, signature: Bytes): (d': SignatureDevice)
    ensures d'.Counter == Inc32(d.Counter)
    ensures d'.PreviousSignatures.Keys == d.PreviousSignatures.Keys + {d.Counter}
    ensures d'.PreviousSignatures[d.Counter] == signature
    ensures forall k :: k in d.PreviousSignatures && k != d.Counter ==> d'.PreviousSignatures[k] == d.PreviousSignatures[k]
    ensures d'.ID == d.ID && d'.Algorithm == d.Algorithm && d'.Label == d.Label && d'.PkPem == d.PkPem
  {
    d.(PreviousSignatures := d.PreviousSignatures[d.Counter := signature],
       Counter := Inc32(d.Counter))
  }

  /** The chain invariant: the history holds exactly the keys 0 .. Counter-1. */
  ghost predicate Chained(d: SignatureDevice)
  {
    forall k: uint32 :: k in d.PreviousSignatures <==> k < d.Counter
  }

  /** The counter values below n. */
  ghost function Below(n: uint32): (s: set<uint32>)
    ensures forall k: uint32 :: k in s <==> k < n
    ensures |s| == n
  {
    if n == 0 then {} else Below(n - 1) + {n - 1}
  }

  /** Under the chain invariant the counter is the size of the history. */
  lemma ChainedSize(d: SignatureDevice)
    requires Chained(d)
    ensures |d.PreviousSignatures| == d.Counter
  {
    assert d.PreviousSignatures.Keys == Below(d.Counter);
  }

  /** A freshly created device (counter 0, empty history) is chained. */
  lemma FreshIsChained(d: SignatureDevice)
    requires d.Counter == 0 && d.PreviousSignatures == map[]
    ensures Chained(d) && Anchor(d) == d.ID
  {
  }

  /** On a chained device with a non-zero counter the anchor is the
      signature of the previous step; the missing-key case cannot occur. */
  lemma ChainedAnchor(d: SignatureDevice)
    requires Chained(d) && d.Counter > 0
    ensures d.Counter - 1 in d.PreviousSignatures
    ensures Anchor(d) == d.PreviousSignatures[d.Counter - 1]
  {
    var k: uint32 := d.Counter - 1;
    assert k in d.PreviousSignatures;
  }

  /** A signing step keeps the chain: the new signature is at the old
      counter, the counter grows by one, every earlier entry is kept and the
      size of the history still equals the counter.  This holds as long as
      the counter has not reached the largest `uint32`. */
  lemma AdvanceKeepsChain(d: SignatureDevice, signature: Bytes)
    requires Chained(d) && d.Counter < MaxUint32
    ensures var d' := Advance(d, signature);
      && Chained(d')
      && d'.Counter == d.Counter + 1
      && d'.PreviousSignatures[d.Counter] == signature
      && (forall k :: k in d.PreviousSignatures ==> k in d'.PreviousSignatures && d'.PreviousSignatures[k] == d.PreviousSignatures[k])
      && |d'.PreviousSignatures| == d'.Counter
      && Anchor(d') == signature
      && (d'.ID, d'.Algorithm, d'.Label, d'.PkPem) == (d.ID, d.Algorithm, d.Label, d.PkPem)
  {
    var d' := Advance(d, signature);
    assert Chained(d');
    ChainedSize(d');
  }

  /** At the largest `uint32` the increment wraps to 0: the history then has
      2^32 entries while the counter reads 0, so the chain invariant is
      broken and the next signature would commit to the device ID again and
      overwrite entry 0. */
  lemma AdvanceAtMaxBreaksChain(d: SignatureDevice, signature: Bytes)
    requires Chained(d) && d.Counter == MaxUint32
    ensures var d' := Advance(d, signature);
      && d'.Counter == 0
      && |d'.PreviousSignatures| == MaxUint32 + 1
      && !Chained(d')
      && Anchor(d') == d.ID
  {
    var d' := Advance(d, signature);
    ChainedSize(d);
    assert 0 in d'.PreviousSignatures;
  }

  /** The record after signing once per entry of `signatures`, in order. */
  function Replay(d: SignatureDevice, signatures: seq<Bytes>): (d': SignatureDevice)
    decreases |signatures|
  {
    if signatures == [] then d
    else Replay(Advance(d, signatures[0]), signatures[1..])
  }

  /** One replayed step extends the recorded history by its signature. */
  lemma ReplayStep(d: SignatureDevice, done: seq<Bytes>, signature: Bytes)
    requires |done| < MaxUint32
    requires d.Counter == |done| && Chained(d)
    requires forall i: uint32 :: i < |done| ==> d.PreviousSignatures[i] == done[i]
    ensures var next := Advance(d, signature);
      && next.Counter == |done| + 1
      && Chained(next)
      && forall i: uint32 :: i < |done| + 1 ==> next.PreviousSignatures[i] == (done + [signature])[i]
  {
    AdvanceKeepsChain(d, signature);
  }

  /** Replaying n < 2^32 steps on a fresh device gives counter n and the
      history that maps each step i to the i-th signature. */
  lemma {:induction false} ReplayFromFresh(d: SignatureDevice, done: seq<Bytes>, todo: seq<Bytes>)
    requires |done| + |todo| <= MaxUint32
    requires d.Counter == |done| && Chained(d)
    requires forall i: uint32 :: i < |done| ==> d.PreviousSignatures[i] == done[i]
    ensures var d' := Replay(d, todo);
      && d'.Counter == |done| + |todo|
      && Chained(d')
      && forall i: uint32 :: i < |done| + |todo| ==> d'.PreviousSignatures[i] == (done + todo)[i]
    decreases |todo|
  {
    if todo != [] {
      ReplayStep(d, done, todo[0]);
      var next := Advance(d, todo[0]);
      assert todo == [todo[0]] + todo[1..];
      assert done + todo == (done + [todo[0]]) + todo[1..];
      ReplayFromFresh(next, done + [todo[0]], todo[1..]);
    }
  }

  /** The chain link: after n steps from a fresh device, the anchor of step
      n is the device's ID when n = 0 and the signature of step n-1
      otherwise. */
  lemma ChainLink(d: SignatureDevice, signatures: seq<Bytes>)
    requires d.Counter == 0 && d.PreviousSignatures == map[]
    requires |signatures| <= MaxUint32
    ensures var d' := Replay(d, signatures);
      && d'.Counter == |signatures|
      && |d'.PreviousSignatures| == |signatures|
      && Anchor(d') == (if signatures == [] then d.ID else signatures[|signatures| - 1])
  {
    FreshIsChained(d);
    ReplayFromFresh(d, [], signatures);
    var d' := Replay(d, signatures);
    ChainedSize(d');
    if signatures != [] {
      ChainedAnchor(d');
      var k: uint32 := |signatures| - 1;
      assert d'.PreviousSignatures[k] == ([] + signatures)[k];
    }
  }

  // ---------------------------------------------------------------------
  // Reading a payload back
  // ---------------------------------------------------------------------

  /** The three parts a payload is made of. */
  datatype PayloadParts = PayloadParts(counter: nat, data: Bytes, anchor: Bytes)

  /** Position of the first `x` in `s`, or |s| when there is none. */
  function IndexOf(s: Bytes, x: byte): (r: nat)
    ensures r <= |s|
    ensures forall i :: 0 <= i < r ==> s[i] != x
    ensures r < |s| ==> s[r] == x
  {
    if |s| == 0 || s[0] == x then 0 else 1 + IndexOf(s[1..], x)
  }

  /** Position of the last `x` in `s`, or |s| when there is none. */
  function LastIndexOf(s: Bytes, x: byte): (r: nat)
    ensures r <= |s|
    ensures r < |s| ==> s[r] == x && forall i :: r < i < |s| ==> s[i] != x
    ensures r == |s| ==> forall i :: 0 <= i < |s| ==> s[i] != x
  {
    if |s| == 0 then 0
    else if s[|s| - 1] == x then |s| - 1
    else if LastIndexOf(s[..|s| - 1], x) == |s| - 1 then |s|
    else LastIndexOf(s[..|s| - 1], x)
  }

  /** What a verifier of the chain does with a payload: the counter is the
      text before the first '_', the anchor the base64 text after the last
      '_', the client data everything in between. */
  function SplitPayload(p: Bytes): (r: Option<PayloadParts>)
  {
    var first := IndexOf(p, Separator);
    var last := LastIndexOf(p, Separator);
    if first >= last || last == |p| then None
    else
      match (ParseDecimal(p[..first]), Base64Decode(p[last + 1..]))
      case (Some(counter), Some(anchor)) => Some(PayloadParts(counter, p[first + 1..last], anchor))
      case _ => None
  }

  lemma SeparatorFree(counter: nat, anchor: Bytes)
    ensures Separator !in Decimal(counter)
    ensures Separator !in Base64Encode(anchor)
  {
    var dec, enc := Decimal(counter), Base64Encode(anchor);
    forall i | 0 <= i < |dec| ensures dec[i] != Separator {
      assert IsDigit(dec[i]);
    }
    Base64Alphabet(anchor);
    forall i | 0 <= i < |enc| ensures enc[i] != Separator {
      assert IsBase64Char(enc[i]);
    }
  }

  /** In `dec _ data _ enc` with no '_' in `dec` or `enc`, the first '_' ends
      `dec` and the last one starts `enc`, whatever `data` holds. */
  lemma OuterSeparators(dec: Bytes, data: Bytes, enc: Bytes)
    requires Separator !in dec && Separator !in enc
    ensures var p := dec + [Separator] + data + [Separator] + enc;
      && IndexOf(p, Separator) == |dec|
      && LastIndexOf(p, Separator) == |dec| + 1 + |data|
      && p[..|dec|] == dec
      && p[|dec| + 1..|dec| + 1 + |data|] == data
      && p[|dec| + 1 + |data| + 1..] == enc
  {
    var p := dec + [Separator] + data + [Separator] + enc;
    var first, last := |dec|, |dec| + 1 + |data|;
    assert p[first] == Separator && p[last] == Separator;
    forall i | 0 <= i < first ensures p[i] != Separator {
      assert p[i] == dec[i];
    }
    forall i | last < i < |p| ensures p[i] != Separator {
      assert p[i] == enc[i - last - 1];
    }
    assert p[..first] == dec;
    assert p[last + 1..] == enc;
    assert p[first + 1..last] == data;
  }

  /** `SplitPayload` finds the three parts once the two separators and the
      two encodings have been located. */
  lemma SplitAt(p: Bytes, first: nat, last: nat, counter: nat, data: Bytes, anchor: Bytes)
    requires IndexOf(p, Separator) == first && LastIndexOf(p, Separator) == last
    requires first < last < |p|
    requires ParseDecimal(p[..first]) == Some(counter)
    requires Base64Decode(p[last + 1..]) == Some(anchor)
    requires p[first + 1..last] == data
    ensures SplitPayload(p) == Some(PayloadParts(counter, data, anchor))
  {
  }

  /** A payload determines counter, data and anchor: splitting it gives the
      three back, even when the data contains '_' itself.  So the payload
      returned to the caller is enough to re-derive the chain link. */
  lemma PayloadRoundTrip(counter: uint32, data: Bytes, anchor: Bytes)
    ensures SplitPayload(Payload(counter, data, anchor)) == Some(PayloadParts(counter, data, anchor))
  {
    var dec, enc := Decimal(counter), Base64Encode(anchor);
    var p := Payload(counter, data, anchor);
    SeparatorFree(counter, anchor);
    OuterSeparators(dec, data, enc);
    DecimalRoundTrip(counter);
    Base64RoundTrip(anchor);
    SplitAt(p, |dec|, |dec| + 1 + |data|, counter, data, anchor);
  }

  // ---------------------------------------------------------------------
  // The first payload of the service's unit tests
  // ---------------------------------------------------------------------

  // The test values, byte by byte.
  const TestData: Bytes := [116, 101, 115, 116, 32, 100, 97, 116, 97]  // "test data"
  const ValidId: Bytes := [118, 97, 108, 105, 100, 45, 105, 100]  // "valid-id"

  lemma ValidIdBase64(s: Bytes)
    requires s == ValidId
    ensures Base64Encode(s) == [100, 109, 70, 115, 97, 87, 81, 116, 97, 87, 81, 61]  // "dmFsaWQtaWQ="
  {
  }

  /** The first signature of device "valid-id" over "test data". */
  lemma FirstPayloadExample(data: Bytes, id: Bytes)
    requires data == TestData && id == ValidId
    ensures Payload(0, data, id) == [48, 95, 116, 101, 115, 116, 32, 100, 97, 116, 97, 95, 100, 109, 70, 115, 97, 87, 81, 116, 97, 87, 81, 61]
      // "0_test data_dmFsaWQtaWQ="
  {
    ValidIdBase64(id);
    assert Decimal(0) == [48];
  }
}
