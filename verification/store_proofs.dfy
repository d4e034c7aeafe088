/**
 Properties of the store action: which requests it refuses and with which
 error, in which order the rules are applied, and that an accepted request
 keeps the allocation invariant.
 */
module StoreProofs {
  import opened Wrappers
  import opened Rooms
  import opened Inventory
  import opened Habitaciones
  import DestroyProofs

  /** Validation accepts exactly the encodings of allocations at existing hotels. */
  lemma ValidateStoreComplete(a: Allocation, hotels: Hotels)
    requires a.hotelId in hotels
    ensures ValidateStore(AsRequest(a), hotels) == Success(a)
  {
    ParseNameRoundTrip(a.tipo, a.acomodacion);
  }

  /** A request that fails field validation is refused before any rule is looked at. */
  lemma StoreChecksFieldsFirst(l: Ledger, hotels: Hotels, req: Body)
    requires ValidateStore(req, hotels).Failure?
    ensures Store(l, hotels, req) == Failure(ValidationFailed)
  {
  }

  /** A taken triple is refused as a duplicate, whatever its compatibility or quantity. */
  lemma StoreRejectsDuplicate(l: Ledger, hotels: Hotels, a: Allocation)
    requires a.hotelId in hotels
    requires HasSlot(l.rows, SlotOfAllocation(a))
    ensures Store(l, hotels, AsRequest(a)) == Failure(Duplicate)
  {
    ValidateStoreComplete(a, hotels);
  }

  /** A free triple with an inadmissible pair is refused as incompatible, whatever its quantity. */
  lemma StoreRejectsIncompatible(l: Ledger, hotels: Hotels, a: Allocation)
    requires a.hotelId in hotels
    requires !HasSlot(l.rows, SlotOfAllocation(a))
    requires !IsCompatible(a.tipo, a.acomodacion)
    ensures Store(l, hotels, AsRequest(a)) == Failure(Incompatible)
  {
    ValidateStoreComplete(a, hotels);
  }

  /**
   A free, compatible triple is refused for capacity exactly when the hotel's
   current total plus the requested quantity is above its capacity; reaching
   the capacity exactly is accepted.
   */
  lemma StoreCapacityIff(l: Ledger, hotels: Hotels, a: Allocation)
    requires a.hotelId in hotels
    requires !HasSlot(l.rows, SlotOfAllocation(a))
    requires IsCompatible(a.tipo, a.acomodacion)
    ensures Store(l, hotels, AsRequest(a)) == Failure(CapacityExceeded)
            <==> Total(l.rows, a.hotelId) + a.cantidad > hotels[a.hotelId]
    ensures Store(l, hotels, AsRequest(a)).Success?
            <==> Total(l.rows, a.hotelId) + a.cantidad <= hotels[a.hotelId]
  {
    ValidateStoreComplete(a, hotels);
  }

  /** Whether the three allocation rules admit `a` on top of `rows`. */
  ghost predicate Admissible(rows: seq<Habitacion>, hotels: Hotels, a: Allocation)
    requires a.hotelId in hotels
  {
    && !HasSlot(rows, SlotOfAllocation(a))
    && IsCompatible(a.tipo, a.acomodacion)
    && Total(rows, a.hotelId) + a.cantidad <= hotels[a.hotelId]
  }

  /** An allocation that all three rules admit is stored as one new last row under the next key. */
  lemma StoreAdmitted(l: Ledger, hotels: Hotels, a: Allocation)
    requires a.hotelId in hotels
    requires Admissible(l.rows, hotels, a)
    ensures Store(l, hotels, AsRequest(a))
            == Success(Ledger(l.rows + [Habitacion(l.nextId, a.hotelId, a.tipo, a.acomodacion, a.cantidad)], l.nextId + 1))
  {
    ValidateStoreComplete(a, hotels);
  }

  /**
   A request is stored exactly when it is the encoding of an allocation at an
   existing hotel that all three rules admit, and then the new row carries
   that allocation under the next primary key.
   */
  lemma StoreSucceedsIff(l: Ledger, hotels: Hotels, req: Body)
    ensures Store(l, hotels, req).Success?
            <==> exists a: Allocation :: a.hotelId in hotels && req == AsRequest(a) && Admissible(l.rows, hotels, a)
    ensures Store(l, hotels, req).Success? ==>
            var a := ValidateStore(req, hotels).value;
            Store(l, hotels, req).value.rows == l.rows + [Habitacion(l.nextId, a.hotelId, a.tipo, a.acomodacion, a.cantidad)]
  {
    var r := Store(l, hotels, req);
    if r.Success? {
      var a := ValidateStore(req, hotels).value;
      assert a.hotelId in hotels && req == AsRequest(a) && Admissible(l.rows, hotels, a);
      assert r.value.rows == r.value.rows[..|l.rows|] + [r.value.rows[|l.rows|]];
    } else if a: Allocation :| a.hotelId in hotels && req == AsRequest(a) && Admissible(l.rows, hotels, a) {
      StoreCapacityIff(l, hotels, a);
      assert false;
    }
  }

  /** Appending a row whose key no row carries keeps the keys distinct. */
  lemma DistinctAppend<K>(s: seq<Habitacion>, e: Habitacion, key: Habitacion -> K)
    requires DistinctBy(s, key)
    requires forall k :: 0 <= k < |s| ==> key(s[k]) != key(e)
    ensures DistinctBy(s + [e], key)
  {
    var s' := s + [e];
    forall i, j | 0 <= i < j < |s'|
      ensures key(s'[i]) != key(s'[j])
    {
      assert s'[i] == s[i];
      if j < |s| {
        assert s'[j] == s[j];
      }
    }
  }

  /**
   Appending under the next key a row of an existing hotel, whose triple is
   free, whose pair is compatible and whose hotel still fits, keeps the
   invariant.
   */
  lemma AppendPreservesValid(l: Ledger, hotels: Hotels, e: Habitacion)
    requires Valid(l, hotels)
    requires e.id == l.nextId && e.hotelId in hotels
    requires !HasSlot(l.rows, SlotOf(e)) && IsCompatible(e.tipo, e.acomodacion)
    requires Total(l.rows + [e], e.hotelId) <= hotels[e.hotelId]
    ensures Valid(Ledger(l.rows + [e], l.nextId + 1), hotels)
  {
    var s' := l.rows + [e];
    assert SchemaValid(Ledger(s', l.nextId + 1), hotels) by {
      assert forall k :: 0 <= k < |l.rows| ==> IdOf(l.rows[k]) != IdOf(e);
      DistinctAppend(l.rows, e, IdOf);
      assert forall k :: 0 <= k < |s'| ==> s'[k].id < l.nextId + 1 && s'[k].hotelId in hotels by {
        assert forall k :: 0 <= k < |l.rows| ==> s'[k] == l.rows[k];
      }
    }
    assert DistinctBy(s', SlotOf) by {
      assert forall k :: 0 <= k < |l.rows| ==> SlotOf(l.rows[k]) != SlotOf(e);
      DistinctAppend(l.rows, e, SlotOf);
    }
    assert AllCompatible(s') by {
      assert forall k :: 0 <= k < |l.rows| ==> s'[k] == l.rows[k];
    }
    assert WithinCapacity(s', hotels) by {
      forall h | h in hotels
        ensures Total(s', h) <= hotels[h]
      {
        TotalAppend(l.rows, e, h);
      }
    }
  }

  /** An accepted store keeps the allocation invariant: the rules checked are the rules kept. */
  lemma StorePreservesValid(l: Ledger, hotels: Hotels, req: Body)
    requires Valid(l, hotels)
    requires Store(l, hotels, req).Success?
    ensures Valid(Store(l, hotels, req).value, hotels)
  {
    var l' := Store(l, hotels, req).value;
    var e := l'.rows[|l.rows|];
    assert l' == Ledger(l.rows + [e], l.nextId + 1) by {
      assert l'.rows == l'.rows[..|l.rows|] + [e];
    }
    AppendPreservesValid(l, hotels, e);
  }

  /**
   An accepted store keeps what the schema enforces, keys unique and below
   the counter and every hotel reference valid, even on a table whose
   allocation rules an update or destroy has already broken.
   */
  lemma StoreKeepsSchema(l: Ledger, hotels: Hotels, req: Body)
    requires SchemaValid(l, hotels)
    requires Store(l, hotels, req).Success?
    ensures SchemaValid(Store(l, hotels, req).value, hotels)
  {
    var l' := Store(l, hotels, req).value;
    var e := l'.rows[|l.rows|];
    assert l'.rows == l.rows + [e] by {
      assert l'.rows == l'.rows[..|l.rows|] + [e];
    }
    DistinctAppend(l.rows, e, IdOf);
  }

  /** Show, asked for the key a store just handed out, returns the stored row. */
  lemma ShowAfterStore(l: Ledger, hotels: Hotels, req: Body)
    requires SchemaValid(l, hotels)
    requires Store(l, hotels, req).Success?
    ensures Show(Store(l, hotels, req).value, l.nextId) == Success(Store(l, hotels, req).value.rows[|l.rows|])
  {
    var s' := Store(l, hotels, req).value.rows;
    assert s'[|l.rows|].id == l.nextId;
    assert forall k :: 0 <= k < |l.rows| ==> s'[k] == l.rows[k];
  }

  /** Destroying the row a store just added gives the old table back; only the key counter has moved on. */
  lemma DestroyUndoesStore(l: Ledger, hotels: Hotels, req: Body)
    requires SchemaValid(l, hotels)
    requires Store(l, hotels, req).Success?
    ensures Destroy(Store(l, hotels, req).value, l.nextId) == Success(Ledger(l.rows, l.nextId + 1))
  {
    var l' := Store(l, hotels, req).value;
    var e := l'.rows[|l.rows|];
    assert l' == Ledger(l.rows + [e], l.nextId + 1) by {
      assert l'.rows == l'.rows[..|l.rows|] + [e];
    }
    DestroyProofs.DestroyLast(l.rows, e, l.nextId + 1);
  }
}
