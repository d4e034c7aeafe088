/**
 Properties of the update action. It keeps what the schema enforces, but it
 re-checks none of the allocation rules: the invariant survives an update
 exactly when the rewritten row would have passed the rules on its own.
 */
module UpdateProofs {
  import opened Wrappers
  import opened Rooms
  import opened Inventory
  import opened Habitaciones

  /** Field validation accepts exactly the encodings of a set of changes. */
  lemma ValidateChangesComplete(c: Changes)
    ensures ValidateChanges(AsUpdateRequest(c)) == Success(c)
  {
    if c.tipo.Some? { ParseNameRoundTrip(c.tipo.value, Sencilla); }
    if c.acomodacion.Some? { ParseNameRoundTrip(Estandar, c.acomodacion.value); }
  }

  /**
   An update of an existing row by a valid body that names no hotel, or an
   existing one, writes the body's changes over that row.
   */
  lemma UpdateApplies(l: Ledger, hotels: Hotels, id: int, c: Changes, i: nat)
    requires FindIndex(l.rows, id) == Some(i)
    requires c.hotelId.Some? ==> c.hotelId.value in hotels
    ensures Update(l, hotels, id, AsUpdateRequest(c)) == Success(Ledger(l.rows[i := Overlay(l.rows[i], c)], l.nextId))
  {
    ValidateChangesComplete(c);
  }

  /** An update of an existing row by a valid body that moves it to a missing hotel is refused by the foreign key. */
  lemma UpdateRefusesUnknownHotel(l: Ledger, hotels: Hotels, id: int, c: Changes)
    requires FindIndex(l.rows, id).Some?
    requires c.hotelId.Some? && c.hotelId.value !in hotels
    ensures Update(l, hotels, id, AsUpdateRequest(c)) == Failure(UnknownHotel)
  {
    ValidateChangesComplete(c);
  }

  /** An update request with nothing in it rewrites nothing. */
  lemma EmptyUpdateIsIdentity(l: Ledger, hotels: Hotels, id: int)
    requires FindIndex(l.rows, id).Some?
    ensures Update(l, hotels, id, Body(None, None, None, None)) == Success(l)
  {
    var r := Update(l, hotels, id, Body(None, None, None, None));
    var i := FindIndex(l.rows, id).value;
    assert r.Success?;
    assert r.value.rows == l.rows;
  }

  /** An update never breaks what the schema enforces: keys and hotel references stay as they were. */
  lemma UpdateKeepsSchema(l: Ledger, hotels: Hotels, id: int, req: Body)
    requires SchemaValid(l, hotels)
    requires Update(l, hotels, id, req).Success?
    ensures SchemaValid(Update(l, hotels, id, req).value, hotels)
  {
    var s' := Update(l, hotels, id, req).value.rows;
    var i := FindIndex(l.rows, id).value;
    forall a, b | 0 <= a < b < |s'|
      ensures IdOf(s'[a]) != IdOf(s'[b])
    {
      assert s'[a].id == l.rows[a].id && s'[b].id == l.rows[b].id;
      assert IdOf(l.rows[a]) != IdOf(l.rows[b]);
    }
  }

  /** The triple of the rewritten row `x` is not held by any other row. */
  ghost predicate SlotFreeElsewhere(s: seq<Habitacion>, i: nat, x: Habitacion)
  {
    forall j :: 0 <= j < |s| && j != i ==> SlotOf(s[j]) != SlotOf(x)
  }

  /** Replacing one row keeps slot uniqueness exactly when the new triple is free elsewhere. */
  lemma DistinctSlotsReplaceAt(s: seq<Habitacion>, i: nat, x: Habitacion)
    requires i < |s| && DistinctBy(s, SlotOf)
    ensures DistinctBy(s[i := x], SlotOf) <==> SlotFreeElsewhere(s, i, x)
  {
    var s' := s[i := x];
    if DistinctBy(s', SlotOf) {
      forall j | 0 <= j < |s| && j != i
        ensures SlotOf(s[j]) != SlotOf(x)
      {
        if j < i {
          assert SlotOf(s'[j]) != SlotOf(s'[i]);
        } else {
          assert SlotOf(s'[i]) != SlotOf(s'[j]);
        }
      }
    }
    if SlotFreeElsewhere(s, i, x) {
      forall a, b | 0 <= a < b < |s'|
        ensures SlotOf(s'[a]) != SlotOf(s'[b])
      {
        if a != i && b != i {
          assert SlotOf(s[a]) != SlotOf(s[b]);
        }
      }
    }
  }

  /**
   After row `i` of `s` is replaced by `x`, the hotel `x` moves into and the
   hotel row `i` leaves (the same hotel when the row stays put) both fit
   their capacities: the first gains `x`'s quantity, the second loses the
   old row's.
   */
  ghost predicate FitsAfterReplace(s: seq<Habitacion>, hotels: Hotels, i: nat, x: Habitacion)
    requires i < |s|
  {
    && (x.hotelId in hotels ==> Total(s, x.hotelId) - Share(s[i], x.hotelId) + x.cantidad <= hotels[x.hotelId])
    && (s[i].hotelId in hotels ==> Total(s, s[i].hotelId) - s[i].cantidad + Share(x, s[i].hotelId) <= hotels[s[i].hotelId])
  }

  /**
   Replacing a row keeps every hotel within capacity exactly when the two
   hotels it touches still fit; every other hotel's total is unchanged.
   */
  lemma WithinCapacityReplaceAt(s: seq<Habitacion>, hotels: Hotels, i: nat, x: Habitacion)
    requires i < |s|
    requires WithinCapacity(s, hotels)
    ensures WithinCapacity(s[i := x], hotels) <==> FitsAfterReplace(s, hotels, i, x)
  {
    forall h | h in hotels
      ensures Total(s[i := x], h) == Total(s, h) - Share(s[i], h) + Share(x, h)
    {
      TotalReplaceAt(s, i, x, h);
    }
  }

  /**
   On a valid ledger, an accepted update leaves it valid exactly when the
   rewritten row is compatible, its triple is free among the other rows, and
   the hotel it now belongs to and the hotel it came from both fit their
   capacities. These are the checks the update action does not perform.
   */
  lemma UpdateValidIff(l: Ledger, hotels: Hotels, id: int, req: Body)
    requires Valid(l, hotels)
    requires Update(l, hotels, id, req).Success?
    ensures
      var i := FindIndex(l.rows, id).value;
      var x := Update(l, hotels, id, req).value.rows[i];
      Valid(Update(l, hotels, id, req).value, hotels)
      <==> && IsCompatible(x.tipo, x.acomodacion)
           && SlotFreeElsewhere(l.rows, i, x)
           && FitsAfterReplace(l.rows, hotels, i, x)
  {
    var l' := Update(l, hotels, id, req).value;
    var i := FindIndex(l.rows, id).value;
    var x := l'.rows[i];
    assert l'.rows == l.rows[i := x];
    UpdateKeepsSchema(l, hotels, id, req);
    DistinctSlotsReplaceAt(l.rows, i, x);
    WithinCapacityReplaceAt(l.rows, hotels, i, x);
    assert AllCompatible(l'.rows) <==> IsCompatible(x.tipo, x.acomodacion) by {
      if IsCompatible(x.tipo, x.acomodacion) {
        forall k | 0 <= k < |l'.rows|
          ensures IsCompatible(l'.rows[k].tipo, l'.rows[k].acomodacion)
        {
          if k != i {
            assert l'.rows[k] == l.rows[k];
          }
        }
      }
    }
  }
}
