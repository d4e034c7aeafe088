/**
 Concrete request sequences against small hotels. They show the rules at work
 and exhibit the two ways the controller lets the invariant go: update
 re-checks nothing, and a negative `cantidad` makes destroy raise a total.
 */
module Scenarios {
  import opened Wrappers
  import opened Rooms
  import opened Inventory
  import opened Habitaciones
  import StoreProofs
  import UpdateProofs

  /** One hotel, id 1, declared with five rooms. */
  const SmallHotel: Hotels := map[1 := 5]

  /** The body of a store request for hotel 1, with the type and accommodation spelled out. */
  function StoreBody(t: Tipo, a: Acomodacion, cantidad: int): Body
  {
    AsRequest(Allocation(1, t, a, cantidad))
  }

  /** The total of hotel 1 over a one-row table of that hotel is the row's quantity. */
  lemma TotalOne(e: Habitacion)
    requires e.hotelId == 1
    ensures Total([e], 1) == e.cantidad
  {
    assert [e][..0] == [];
  }

  /** The total of hotel 1 over a two-row table of that hotel is the sum of the quantities. */
  lemma TotalTwo(e: Habitacion, f: Habitacion)
    requires e.hotelId == 1 && f.hotelId == 1
    ensures Total([e, f], 1) == e.cantidad + f.cantidad
  {
    TotalOne(e);
    TotalAppend([e], f, 1);
    assert [e] + [f] == [e, f];
  }

  /** Two ESTANDAR/DOBLE rooms stored into the empty table of the small hotel. */
  lemma OneStandardDouble()
    ensures Store(EmptyLedger, SmallHotel, StoreBody(Estandar, Doble, 2))
            == Success(Ledger([Habitacion(1, 1, Estandar, Doble, 2)], 2))
    ensures Valid(Ledger([Habitacion(1, 1, Estandar, Doble, 2)], 2), SmallHotel)
  {
    var a := Allocation(1, Estandar, Doble, 2);
    assert [] + [Habitacion(1, 1, Estandar, Doble, 2)] == [Habitacion(1, 1, Estandar, Doble, 2)];
    StoreProofs.StoreAdmitted(EmptyLedger, SmallHotel, a);
    EmptyLedgerValid(SmallHotel);
    StoreProofs.StorePreservesValid(EmptyLedger, SmallHotel, StoreBody(Estandar, Doble, 2));
  }

  /** Update writes an accommodation the type does not admit, and the ledger is no longer valid. */
  lemma UpdateIgnoresCompatibility()
    ensures
      var l := Ledger([Habitacion(1, 1, Estandar, Doble, 2)], 2);
      var r := Update(l, SmallHotel, 1, Body(None, None, Some("CUADRUPLE"), None));
      Valid(l, SmallHotel) && r == Success(Ledger([Habitacion(1, 1, Estandar, Cuadruple, 2)], 2))
      && !Valid(r.value, SmallHotel)
  {
    OneStandardDouble();
    var l := Ledger([Habitacion(1, 1, Estandar, Doble, 2)], 2);
    var c := Changes(None, None, Some(Cuadruple), None);
    assert AsUpdateRequest(c) == Body(None, None, Some("CUADRUPLE"), None);
    assert FindIndex(l.rows, 1) == Some(0);
    UpdateProofs.UpdateApplies(l, SmallHotel, 1, c, 0);
    var s' := [Habitacion(1, 1, Estandar, Cuadruple, 2)];
    assert l.rows[0 := Overlay(l.rows[0], c)] == s';
    assert !AllCompatible(s') by {
      CuadrupleOnlyJunior(Estandar);
      assert !IsCompatible(s'[0].tipo, s'[0].acomodacion);
    }
  }

  /** Update raises a quantity past the hotel's capacity, and the ledger is no longer valid. */
  lemma UpdateIgnoresCapacity()
    ensures
      var l := Ledger([Habitacion(1, 1, Estandar, Doble, 2)], 2);
      var r := Update(l, SmallHotel, 1, Body(None, None, None, Some(6)));
      Valid(l, SmallHotel) && r == Success(Ledger([Habitacion(1, 1, Estandar, Doble, 6)], 2))
      && !Valid(r.value, SmallHotel)
  {
    OneStandardDouble();
    var l := Ledger([Habitacion(1, 1, Estandar, Doble, 2)], 2);
    var c := Changes(None, None, None, Some(6));
    assert AsUpdateRequest(c) == Body(None, None, None, Some(6));
    assert FindIndex(l.rows, 1) == Some(0);
    UpdateProofs.UpdateApplies(l, SmallHotel, 1, c, 0);
    var s' := [Habitacion(1, 1, Estandar, Doble, 6)];
    assert l.rows[0 := Overlay(l.rows[0], c)] == s';
    assert !WithinCapacity(s', SmallHotel) by {
      TotalOne(s'[0]);
    }
  }

  /** One ESTANDAR/SENCILLA room stored beside the ESTANDAR/DOBLE pair: three of five rooms taken. */
  lemma StandardSingleAndDouble()
    ensures Store(Ledger([Habitacion(1, 1, Estandar, Doble, 2)], 2), SmallHotel, StoreBody(Estandar, Sencilla, 1))
            == Success(Ledger([Habitacion(1, 1, Estandar, Doble, 2), Habitacion(2, 1, Estandar, Sencilla, 1)], 3))
    ensures Valid(Ledger([Habitacion(1, 1, Estandar, Doble, 2), Habitacion(2, 1, Estandar, Sencilla, 1)], 3), SmallHotel)
  {
    OneStandardDouble();
    var l1 := Ledger([Habitacion(1, 1, Estandar, Doble, 2)], 2);
    var a := Allocation(1, Estandar, Sencilla, 1);
    TotalOne(l1.rows[0]);
    assert !HasSlot(l1.rows, Slot(1, Estandar, Sencilla));
    assert l1.rows + [Habitacion(2, 1, Estandar, Sencilla, 1)]
           == [Habitacion(1, 1, Estandar, Doble, 2), Habitacion(2, 1, Estandar, Sencilla, 1)];
    StoreProofs.StoreAdmitted(l1, SmallHotel, a);
    StoreProofs.StorePreservesValid(l1, SmallHotel, StoreBody(Estandar, Sencilla, 1));
  }

  /** Update moves a row onto a triple another row holds, and the ledger is no longer valid. */
  lemma UpdateIgnoresUniqueness()
    ensures
      var l := Ledger([Habitacion(1, 1, Estandar, Doble, 2), Habitacion(2, 1, Estandar, Sencilla, 1)], 3);
      var r := Update(l, SmallHotel, 2, Body(None, None, Some("DOBLE"), None));
      Valid(l, SmallHotel)
      && r == Success(Ledger([Habitacion(1, 1, Estandar, Doble, 2), Habitacion(2, 1, Estandar, Doble, 1)], 3))
      && !Valid(r.value, SmallHotel)
  {
    StandardSingleAndDouble();
    var l2 := Ledger([Habitacion(1, 1, Estandar, Doble, 2), Habitacion(2, 1, Estandar, Sencilla, 1)], 3);
    var c := Changes(None, None, Some(Doble), None);
    assert AsUpdateRequest(c) == Body(None, None, Some("DOBLE"), None);
    assert FindIndex(l2.rows, 2) == Some(1) by {
      assert l2.rows[1..] == [Habitacion(2, 1, Estandar, Sencilla, 1)];
      assert FindIndex(l2.rows[1..], 2) == Some(0);
    }
    UpdateProofs.UpdateApplies(l2, SmallHotel, 2, c, 1);
    var s3 := [Habitacion(1, 1, Estandar, Doble, 2), Habitacion(2, 1, Estandar, Doble, 1)];
    assert l2.rows[1 := Overlay(l2.rows[1], c)] == s3;
    assert !DistinctBy(s3, SlotOf) by {
      assert SlotOf(s3[0]) == SlotOf(s3[1]);
    }
  }

  /** Two hotels: id 1 declared with five rooms, id 2 with one. */
  const TwoHotels: Hotels := map[1 := 5, 2 := 1]

  /**
   Update moves a two-room row of hotel 1 into hotel 2, which has room for
   one: the move is accepted and the ledger is no longer valid.
   */
  lemma UpdateMovesRowPastCapacity()
    ensures
      var l := Ledger([Habitacion(1, 1, Estandar, Doble, 2)], 2);
      var r := Update(l, TwoHotels, 1, Body(Some(2), None, None, None));
      Valid(l, TwoHotels) && r == Success(Ledger([Habitacion(1, 2, Estandar, Doble, 2)], 2))
      && !Valid(r.value, TwoHotels)
  {
    var l := Ledger([Habitacion(1, 1, Estandar, Doble, 2)], 2);
    assert WithinCapacity(l.rows, TwoHotels) by {
      assert l.rows[..0] == [];
    }
    var c := Changes(Some(2), None, None, None);
    assert AsUpdateRequest(c) == Body(Some(2), None, None, None);
    assert FindIndex(l.rows, 1) == Some(0);
    UpdateProofs.UpdateApplies(l, TwoHotels, 1, c, 0);
    var s' := [Habitacion(1, 2, Estandar, Doble, 2)];
    assert l.rows[0 := Overlay(l.rows[0], c)] == s';
    assert !WithinCapacity(s', TwoHotels) by {
      assert s'[..0] == [];
      assert Total(s', 2) == 2;
    }
  }

  /** Update moving a row to a hotel that does not exist is refused, and the ledger stays as it was. */
  lemma UpdateToMissingHotelRefused()
    ensures
      var l := Ledger([Habitacion(1, 1, Estandar, Doble, 2)], 2);
      Update(l, TwoHotels, 1, Body(Some(3), None, None, None)) == Failure(UnknownHotel)
  {
    var l := Ledger([Habitacion(1, 1, Estandar, Doble, 2)], 2);
    var c := Changes(Some(3), None, None, None);
    assert AsUpdateRequest(c) == Body(Some(3), None, None, None);
    assert FindIndex(l.rows, 1) == Some(0);
    UpdateProofs.UpdateRefusesUnknownHotel(l, TwoHotels, 1, c);
  }

  /**
   A request that is both a duplicate and incompatible is reported as a
   duplicate: once an update has put an ESTANDAR/CUADRUPLE row in the table,
   storing the same triple again names the duplicate first.
   */
  lemma DuplicateReportedBeforeIncompatible()
    ensures
      var l := Ledger([Habitacion(1, 1, Estandar, Cuadruple, 2)], 2);
      !IsCompatible(Estandar, Cuadruple)
      && Store(l, SmallHotel, StoreBody(Estandar, Cuadruple, 0)) == Failure(Duplicate)
  {
    var l := Ledger([Habitacion(1, 1, Estandar, Cuadruple, 2)], 2);
    assert SlotOf(l.rows[0]) == Slot(1, Estandar, Cuadruple);
    StoreProofs.StoreRejectsDuplicate(l, SmallHotel, Allocation(1, Estandar, Cuadruple, 0));
  }

  /** Minus five ESTANDAR/DOBLE rooms stored into the empty table of the small hotel. */
  lemma NegativeFirst()
    ensures Store(EmptyLedger, SmallHotel, StoreBody(Estandar, Doble, -5))
            == Success(Ledger([Habitacion(1, 1, Estandar, Doble, -5)], 2))
    ensures Valid(Ledger([Habitacion(1, 1, Estandar, Doble, -5)], 2), SmallHotel)
  {
    assert [] + [Habitacion(1, 1, Estandar, Doble, -5)] == [Habitacion(1, 1, Estandar, Doble, -5)];
    StoreProofs.StoreAdmitted(EmptyLedger, SmallHotel, Allocation(1, Estandar, Doble, -5));
    EmptyLedgerValid(SmallHotel);
    StoreProofs.StorePreservesValid(EmptyLedger, SmallHotel, StoreBody(Estandar, Doble, -5));
  }

  /** Ten ESTANDAR/SENCILLA rooms stored beside the -5 row: total 5 of 5, a valid table. */
  lemma NegativeThenTen()
    ensures Store(Ledger([Habitacion(1, 1, Estandar, Doble, -5)], 2), SmallHotel, StoreBody(Estandar, Sencilla, 10))
            == Success(Ledger([Habitacion(1, 1, Estandar, Doble, -5), Habitacion(2, 1, Estandar, Sencilla, 10)], 3))
    ensures Valid(Ledger([Habitacion(1, 1, Estandar, Doble, -5), Habitacion(2, 1, Estandar, Sencilla, 10)], 3), SmallHotel)
  {
    NegativeFirst();
    var l1 := Ledger([Habitacion(1, 1, Estandar, Doble, -5)], 2);
    var a := Allocation(1, Estandar, Sencilla, 10);
    var l2 := Ledger([Habitacion(1, 1, Estandar, Doble, -5), Habitacion(2, 1, Estandar, Sencilla, 10)], 3);
    assert StoreProofs.Admissible(l1.rows, SmallHotel, a) by {
      TotalOne(l1.rows[0]);
      assert !HasSlot(l1.rows, Slot(1, Estandar, Sencilla));
    }
    assert l1.rows + [Habitacion(2, 1, Estandar, Sencilla, 10)] == l2.rows;
    StoreProofs.StoreAdmitted(l1, SmallHotel, a);
    assert Store(l1, SmallHotel, StoreBody(Estandar, Sencilla, 10)) == Success(l2);
    StoreProofs.StorePreservesValid(l1, SmallHotel, StoreBody(Estandar, Sencilla, 10));
  }

  /**
   A negative quantity passes the store rules and lowers its hotel's total;
   destroying that row raises the total past capacity. Rows: DOBLE -5 then
   SENCILLA 10, total 5 of 5; after destroying row 1 the total is 10.
   */
  lemma DestroyNegativeCantidadBreaksCapacity()
    ensures
      var l := Ledger([Habitacion(1, 1, Estandar, Doble, -5), Habitacion(2, 1, Estandar, Sencilla, 10)], 3);
      var r := Destroy(l, 1);
      Valid(l, SmallHotel) && r == Success(Ledger([Habitacion(2, 1, Estandar, Sencilla, 10)], 3))
      && Total(r.value.rows, 1) == 10 && !Valid(r.value, SmallHotel)
  {
    NegativeThenTen();
    var l2 := Ledger([Habitacion(1, 1, Estandar, Doble, -5), Habitacion(2, 1, Estandar, Sencilla, 10)], 3);
    var l3 := Ledger([Habitacion(2, 1, Estandar, Sencilla, 10)], 3);
    assert FindIndex(l2.rows, 1) == Some(0);
    assert l2.rows[..0] + l2.rows[1..] == l3.rows;
    assert Destroy(l2, 1) == Success(l3);
    TotalOne(l3.rows[0]);
  }

  /** A hotel declared with ten rooms. */
  const TenRooms: Hotels := map[1 := 10]

  /** ESTANDAR/SENCILLA 4 and ESTANDAR/DOBLE 3: seven of the ten rooms taken. */
  const SevenTaken := Ledger([Habitacion(1, 1, Estandar, Sencilla, 4), Habitacion(2, 1, Estandar, Doble, 3)], 3)

  /**
   With seven of ten rooms taken, four JUNIOR/TRIPLE rooms are refused for
   capacity (4 + 3 + 4 = 11 > 10) while three are accepted, filling the hotel
   exactly; ESTANDAR/CUADRUPLE is refused as incompatible even for zero rooms,
   and a taken triple as a duplicate.
   */
  lemma CapacityScenario()
    ensures Store(SevenTaken, TenRooms, StoreBody(Junior, Triple, 4)) == Failure(CapacityExceeded)
    ensures Store(SevenTaken, TenRooms, StoreBody(Junior, Triple, 3)).Success?
    ensures Total(Store(SevenTaken, TenRooms, StoreBody(Junior, Triple, 3)).value.rows, 1) == 10
    ensures Store(SevenTaken, TenRooms, StoreBody(Estandar, Cuadruple, 0)) == Failure(Incompatible)
    ensures Store(SevenTaken, TenRooms, StoreBody(Estandar, Sencilla, 0)) == Failure(Duplicate)
  {
    var s := SevenTaken.rows;
    TotalTwo(s[0], s[1]);
    assert !HasSlot(s, Slot(1, Junior, Triple));
    assert !HasSlot(s, Slot(1, Estandar, Cuadruple));
    assert SlotOf(s[0]) == Slot(1, Estandar, Sencilla);
    StoreProofs.StoreCapacityIff(SevenTaken, TenRooms, Allocation(1, Junior, Triple, 4));
    StoreProofs.StoreAdmitted(SevenTaken, TenRooms, Allocation(1, Junior, Triple, 3));
    TotalAppend(s, Habitacion(3, 1, Junior, Triple, 3), 1);
    StoreProofs.StoreRejectsIncompatible(SevenTaken, TenRooms, Allocation(1, Estandar, Cuadruple, 0));
    StoreProofs.StoreRejectsDuplicate(SevenTaken, TenRooms, Allocation(1, Estandar, Sencilla, 0));
  }
}
