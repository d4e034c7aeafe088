/**
 Properties of the destroy action. It removes exactly one row and keeps the
 schema constraints; because `cantidad` may be negative, removing a row can
 raise its hotel's total, so the invariant survives only when the remaining
 total still fits.
 */
module DestroyProofs {
  import opened Wrappers
  import opened Rooms
  import opened Inventory
  import opened Habitaciones

  /** Destroy takes out exactly one copy of the row that show returns, and nothing else. */
  lemma DestroyRemovesExactlyOne(l: Ledger, id: int)
    requires Destroy(l, id).Success?
    ensures Show(l, id).Success?
    ensures multiset(l.rows) == multiset(Destroy(l, id).value.rows) + multiset{Show(l, id).value}
  {
    var i := FindIndex(l.rows, id).value;
    assert Destroy(l, id).value.rows == l.rows[..i] + l.rows[i + 1..];
    MultisetRemoveAt(l.rows, i);
  }

  lemma MultisetRemoveAt(s: seq<Habitacion>, i: nat)
    requires i < |s|
    ensures multiset(s) == multiset(s[..i] + s[i + 1..]) + multiset{s[i]}
  {
    assert s == s[..i] + [s[i]] + s[i + 1..];
  }

  /** Removing one row keeps keys unique, below the counter, and naming existing hotels. */
  lemma SchemaValidRemoveAt(l: Ledger, hotels: Hotels, i: nat)
    requires i < |l.rows| && SchemaValid(l, hotels)
    ensures SchemaValid(Ledger(l.rows[..i] + l.rows[i + 1..], l.nextId), hotels)
  {
    var s' := l.rows[..i] + l.rows[i + 1..];
    DistinctRemoveAt(l.rows, i, IdOf);
    forall k | 0 <= k < |s'|
      ensures s'[k].id < l.nextId && s'[k].hotelId in hotels
    {
      assert s'[k] == (if k < i then l.rows[k] else l.rows[k + 1]);
    }
  }

  /** A destroy never breaks what the schema enforces. */
  lemma DestroyKeepsSchema(l: Ledger, hotels: Hotels, id: int)
    requires SchemaValid(l, hotels)
    requires Destroy(l, id).Success?
    ensures SchemaValid(Destroy(l, id).value, hotels)
  {
    var i := FindIndex(l.rows, id).value;
    assert Destroy(l, id).value == Ledger(l.rows[..i] + l.rows[i + 1..], l.nextId);
    SchemaValidRemoveAt(l, hotels, i);
  }

  /** Removing a row keeps every remaining pair compatible. */
  lemma AllCompatibleRemoveAt(s: seq<Habitacion>, i: nat)
    requires i < |s| && AllCompatible(s)
    ensures AllCompatible(s[..i] + s[i + 1..])
  {
    var s' := s[..i] + s[i + 1..];
    forall k | 0 <= k < |s'|
      ensures IsCompatible(s'[k].tipo, s'[k].acomodacion)
    {
      assert s'[k] == (if k < i then s[k] else s[k + 1]);
    }
  }

  /** Removing a row keeps capacity exactly when its hotel's reduced total fits. */
  lemma WithinCapacityRemoveAt(s: seq<Habitacion>, hotels: Hotels, i: nat)
    requires i < |s| && s[i].hotelId in hotels
    requires WithinCapacity(s, hotels)
    ensures WithinCapacity(s[..i] + s[i + 1..], hotels)
            <==> Total(s, s[i].hotelId) - s[i].cantidad <= hotels[s[i].hotelId]
  {
    forall h | h in hotels
      ensures Total(s[..i] + s[i + 1..], h) == Total(s, h) - Share(s[i], h)
    {
      TotalRemoveAt(s, i, h);
    }
  }

  /**
   On a valid ledger, a destroy leaves it valid exactly when the hotel of the
   removed row still fits its capacity once that row's quantity is taken out.
   */
  lemma DestroyValidIff(l: Ledger, hotels: Hotels, id: int)
    requires Valid(l, hotels)
    requires Destroy(l, id).Success?
    ensures
      var e := Show(l, id).value;
      Valid(Destroy(l, id).value, hotels)
      <==> Total(l.rows, e.hotelId) - e.cantidad <= hotels[e.hotelId]
  {
    var i := FindIndex(l.rows, id).value;
    var l' := Destroy(l, id).value;
    assert l'.rows == l.rows[..i] + l.rows[i + 1..];
    assert Show(l, id).value == l.rows[i];
    DestroyKeepsSchema(l, hotels, id);
    DistinctRemoveAt(l.rows, i, SlotOf);
    AllCompatibleRemoveAt(l.rows, i);
    WithinCapacityRemoveAt(l.rows, hotels, i);
  }

  /** Removing a row of non-negative quantity keeps the invariant. */
  lemma DestroyNonNegativePreservesValid(l: Ledger, hotels: Hotels, id: int)
    requires Valid(l, hotels)
    requires Destroy(l, id).Success?
    requires Show(l, id).value.cantidad >= 0
    ensures Valid(Destroy(l, id).value, hotels)
  {
    DestroyValidIff(l, hotels, id);
    var e := Show(l, id).value;
    assert Total(l.rows, e.hotelId) <= hotels[e.hotelId];
  }

  /** Destroying a last row whose key no earlier row carries leaves exactly the earlier rows. */
  lemma DestroyLast(rows: seq<Habitacion>, e: Habitacion, nextId: int)
    requires forall k :: 0 <= k < |rows| ==> rows[k].id != e.id
    ensures Destroy(Ledger(rows + [e], nextId), e.id) == Success(Ledger(rows, nextId))
  {
    var s := rows + [e];
    assert s[|rows|].id == e.id;
    assert forall k :: 0 <= k < |rows| ==> s[k] == rows[k];
    assert FindIndex(s, e.id) == Some(|rows|);
    assert s[..|rows|] + s[|rows| + 1..] == rows;
  }
}
