/** The in-memory device store: a map from device ID to record, with
    create-if-absent, get, update-if-present and two listings. */
module Persistence {
  import opened Types

  /** `vals` lists the values of `m` once per key, in the order of `keys`,
      and `keys` is some ordering of all the keys of `m`.  Go's `range` over a
      map visits every entry exactly once in an unspecified order, so this is
      all a caller may rely on. */
  ghost predicate Enumerates<K, V>(vals: seq<V>, m: map<K, V>, keys: seq<K>)
  {
    && |keys| == |vals|
    && (forall i, j :: 0 <= i < j < |keys| ==> keys[i] != keys[j])
    && (forall i :: 0 <= i < |keys| ==> keys[i] in m && vals[i] == m[keys[i]])
    && (forall k :: k in m ==> k in keys)
  }

  /** An enumeration has one element per map entry, and an element is listed
      exactly when it is one of the map's values. */
  lemma EnumerationContents<K, V>(vals: seq<V>, m: map<K, V>, keys: seq<K>)
    requires Enumerates(vals, m, keys)
    ensures |vals| == |m|
    ensures forall v :: v in vals <==> v in m.Values
  {
    DistinctSize(keys, m.Keys);
    forall v | v in m.Values
      ensures v in vals
    {
      var k :| k in m && m[k] == v;
      var i :| 0 <= i < |keys| && keys[i] == k;
      assert vals[i] == v;
    }
  }

  /** A sequence without repetitions that lists exactly the elements of `s`
      has `|s|` elements. */
  lemma {:induction false} DistinctSize<K>(keys: seq<K>, s: set<K>)
    requires forall i, j :: 0 <= i < j < |keys| ==> keys[i] != keys[j]
    requires forall k :: k in s <==> k in keys
    ensures |keys| == |s|
    decreases |keys|
  {
    if keys != [] {
      var last := keys[|keys| - 1];
      var init := keys[..|keys| - 1];
      assert forall k :: k in s - {last} <==> k in init by {
        forall k
          ensures k in s - {last} <==> k in init
        {
          if k in keys && k != last {
            var i :| 0 <= i < |keys| && keys[i] == k;
            assert i < |keys| - 1;
            assert init[i] == k;
          }
        }
      }
      DistinctSize(init, s - {last});
    }
  }

  /** The `for _, v := range m { out[idx] = v; idx++ }` loop over a slice made
      with length `len(m)`. */
  method CollectValues<K, V(0)>(m: map<K, V>) returns (vals: seq<V>)
    ensures exists keys :: Enumerates(vals, m, keys)
  {
    var out := new V[|m|];
    var rest := m.Keys;
    var idx := 0;
    ghost var keys: seq<K> := [];
    while rest != {}
      invariant idx == |keys| && idx + |rest| == |m|
      invariant forall k :: k in m ==> (k in rest <==> k !in keys)
      invariant rest <= m.Keys
      invariant forall i, j :: 0 <= i < j < |keys| ==> keys[i] != keys[j]
      invariant forall i :: 0 <= i < |keys| ==> keys[i] in m && out[i] == m[keys[i]]
      decreases rest
    {
      var k :| k in rest;
      out[idx] := m[k];
      keys := keys + [k];
      rest := rest - {k};
      idx := idx + 1;
    }
    vals := out[..];
    assert Enumerates(vals, m, keys);
  }

  class InMemoryDatabase {
    var db: map<GoString, SignatureDevice>

    /** Every record is filed under its own ID. */
    ghost predicate Valid()
      reads this
    {
      forall id :: id in db ==> db[id].ID == id
    }

    constructor ()
      ensures db == map[] && Valid()
    {
      db := map[];
    }

    /** The stored record for `id`, or `ErrDeviceNotFound`. */
    method GetSignatureDevice(id: GoString) returns (r: Result<SignatureDevice>)
      ensures r.Success? <==> id in db
      ensures r.Success? ==> r.value == db[id]
      ensures r.Success? && Valid() ==> r.value.ID == id
      ensures r.Failure? ==> r.error == ErrDeviceNotFound
    {
      if id in db {
        r := Success(db[id]);
      } else {
        r := Failure(ErrDeviceNotFound);
      }
    }

    /** Files `device` under its ID unless that ID is taken; an existing record
        is never overwritten.  `None` is Go's nil error. */
    method CreateSignatureDevice(device: SignatureDevice) returns (err: Option<Error>)
      modifies this
      ensures device.ID in old(db) ==> err == Some(ErrDeviceAlreadyExists) && db == old(db)
      ensures device.ID !in old(db) ==> err == None && db == old(db)[device.ID := device]
      ensures old(Valid()) ==> Valid()
    {
      if device.ID in db {
        return Some(ErrDeviceAlreadyExists);
      }
      db := db[device.ID := device];
      return None;
    }

    /** Replaces the record filed under the ID of `updated`; an absent ID is an
        error, not an insertion. */
    method UpdateSignatureDevice(updated: SignatureDevice) returns (err: Option<Error>)
      modifies this
      ensures updated.ID !in old(db) ==> err == Some(ErrDeviceNotFound) && db == old(db)
      ensures updated.ID in old(db) ==> err == None && db == old(db)[updated.ID := updated]
      ensures db.Keys == old(db).Keys
      ensures old(Valid()) ==> Valid()
    {
      if updated.ID !in db {
        return Some(ErrDeviceNotFound);
      }
      db := db[updated.ID := updated];
      return None;
    }

    /** Every stored record once, in no particular order. */
    method GetAllSignatureDevices() returns (devices: seq<SignatureDevice>)
      ensures exists ids :: Enumerates(devices, db, ids)
      ensures |devices| == |db|
      ensures forall d :: d in devices <==> d in db.Values
    {
      if |db| == 0 {
        devices := [];
        assert Enumerates(devices, db, []);
        return;
      }
      devices := CollectValues(db);
      ghost var ids :| Enumerates(devices, db, ids);
      EnumerationContents(devices, db, ids);
    }

    /** The signatures in the history of device `id`, in no particular order;
        an empty sequence when it has none, `ErrDeviceNotFound` when there is
        no such device. */
    method GetDeviceSignatures(id: GoString) returns (r: Result<seq<Bytes>>)
      ensures id !in db ==> r == Failure(ErrDeviceNotFound)
      ensures id in db ==> r.Success? && exists counters :: Enumerates(r.value, db[id].PreviousSignatures, counters)
      ensures id in db ==> |r.value| == |db[id].PreviousSignatures|
      ensures id in db ==> forall s :: s in r.value <==> s in db[id].PreviousSignatures.Values
    {
      if id !in db {
        return Failure(ErrDeviceNotFound);
      }
      var history := db[id].PreviousSignatures;
      if |history| == 0 {
        assert Enumerates([], history, []);
        return Success([]);
      }
      var signatures := CollectValues(history);
      ghost var counters :| Enumerates(signatures, history, counters);
      EnumerationContents(signatures, history, counters);
      return Success(signatures);
    }
  }
}
