/**
 The room controller's actions over the ledger: show, store, update and
 destroy. Each is a pure function from the table before the request to the
 table after it, or to the error the request reports.
 */
module Habitaciones {
  import opened Wrappers
  import opened Rooms
  import opened Inventory

  /** Every way a room request can fail. All field-validation failures share one constructor. */
  datatype Error =
    | NotFound          // no row with the requested primary key
    | ValidationFailed  // a request field is missing, unknown or out of its domain
    | Duplicate         // the (hotel, type, accommodation) triple is already taken
    | Incompatible      // the accommodation is not admitted for the room type
    | CapacityExceeded  // the hotel's rooms would exceed its declared capacity
    | UnknownHotel      // an update writes a hotel_id that the foreign key refuses

  /**
   A request body as the store and update actions read it: any of the row's
   four data fields may be absent. What each action demands of it is its
   validation's business.
   */
  datatype Body = Body(hotelId: Option<int>, tipo: Option<string>, acomodacion: Option<string>, cantidad: Option<int>)

  /** A store request that passed field validation. */
  datatype Allocation = Allocation(hotelId: int, tipo: Tipo, acomodacion: Acomodacion, cantidad: int)

  /** The request body that carries exactly the fields of `a`. */
  function AsRequest(a: Allocation): Body
  {
    Body(Some(a.hotelId), Some(TipoName(a.tipo)), Some(AcomodacionName(a.acomodacion)), Some(a.cantidad))
  }

  /**
   Field validation of a store request: `hotel_id` present and naming an
   existing hotel, `tipo` and `acomodacion` present and spelled as one of
   their enumerated values, `cantidad` present.
   */
  function ValidateStore(req: Body, hotels: Hotels): (r: Result<Allocation, Error>)
    ensures r.Success? ==> req == AsRequest(r.value) && r.value.hotelId in hotels
    ensures r.Failure? ==> r.error == ValidationFailed
  {
    if req.hotelId.None? || req.hotelId.value !in hotels || req.tipo.None? || req.acomodacion.None? || req.cantidad.None? then
      Failure(ValidationFailed)
    else
      match (ParseTipo(req.tipo.value), ParseAcomodacion(req.acomodacion.value))
      case (Some(t), Some(a)) => Success(Allocation(req.hotelId.value, t, a, req.cantidad.value))
      case _ => Failure(ValidationFailed)
  }

  function SlotOfAllocation(a: Allocation): Slot
  {
    Slot(a.hotelId, a.tipo, a.acomodacion)
  }

  /**
   The store action: validate the fields, then refuse a taken triple, then
   an incompatible pair, then a hotel total that would pass its capacity;
   otherwise append the row under the next primary key.
   */
  function Store(l: Ledger, hotels: Hotels, req: Body): (r: Result<Ledger, Error>)
    ensures r.Success? ==> r.value.nextId == l.nextId + 1 && |r.value.rows| == |l.rows| + 1
    ensures r.Success? ==> r.value.rows[..|l.rows|] == l.rows
    ensures r.Success? ==>
      var e := r.value.rows[|l.rows|];
      && e.id == l.nextId
      && req == AsRequest(Allocation(e.hotelId, e.tipo, e.acomodacion, e.cantidad))
      && e.hotelId in hotels
      && !HasSlot(l.rows, SlotOf(e))
      && IsCompatible(e.tipo, e.acomodacion)
      && Total(r.value.rows, e.hotelId) <= hotels[e.hotelId]
  {
    match ValidateStore(req, hotels)
    case Failure(err) => Failure(err)
    case Success(a) =>
      if HasSlot(l.rows, SlotOfAllocation(a)) then Failure(Duplicate)
      else if !IsCompatible(a.tipo, a.acomodacion) then Failure(Incompatible)
      else if Total(l.rows, a.hotelId) + a.cantidad > hotels[a.hotelId] then Failure(CapacityExceeded)
      else
        var e := Habitacion(l.nextId, a.hotelId, a.tipo, a.acomodacion, a.cantidad);
        TotalAppend(l.rows, e, a.hotelId);
        assert (l.rows + [e])[..|l.rows|] == l.rows;
        Success(Ledger(l.rows + [e], l.nextId + 1))
  }

  /** An update request that passed field validation. */
  datatype Changes = Changes(hotelId: Option<int>, tipo: Option<Tipo>, acomodacion: Option<Acomodacion>, cantidad: Option<int>)

  /** The request body that supplies exactly the fields of `c`. */
  function AsUpdateRequest(c: Changes): Body
  {
    Body(
      c.hotelId,
      if c.tipo.Some? then Some(TipoName(c.tipo.value)) else None,
      if c.acomodacion.Some? then Some(AcomodacionName(c.acomodacion.value)) else None,
      c.cantidad)
  }

  /**
   Field validation of an update request: `tipo` and `acomodacion`, when
   supplied, must be in their domains. `hotel_id` has no validation rule.
   */
  function ValidateChanges(req: Body): (r: Result<Changes, Error>)
    ensures r.Success? ==> req == AsUpdateRequest(r.value)
    ensures r.Failure? ==> r.error == ValidationFailed
  {
    var t := if req.tipo.Some? then ParseTipo(req.tipo.value) else None;
    var a := if req.acomodacion.Some? then ParseAcomodacion(req.acomodacion.value) else None;
    if (req.tipo.Some? && t.None?) || (req.acomodacion.Some? && a.None?) then Failure(ValidationFailed)
    else Success(Changes(req.hotelId, t, a, req.cantidad))
  }

  /** A row with the supplied fields written over it. */
  function Overlay(e: Habitacion, c: Changes): Habitacion
  {
    e.(hotelId := if c.hotelId.Some? then c.hotelId.value else e.hotelId,
       tipo := if c.tipo.Some? then c.tipo.value else e.tipo,
       acomodacion := if c.acomodacion.Some? then c.acomodacion.value else e.acomodacion,
       cantidad := if c.cantidad.Some? then c.cantidad.value else e.cantidad)
  }

  /**
   `after` is `before` with row `i` rewritten by `req`: the supplied fields
   carry the request's values, every other field and every other row is as it was.
   */
  ghost predicate RewrittenAt(before: seq<Habitacion>, after: seq<Habitacion>, i: nat, req: Body)
  {
    && i < |before| == |after|
    && (forall j :: 0 <= j < |before| && j != i ==> after[j] == before[j])
    && after[i].id == before[i].id
    && after[i].hotelId == (if req.hotelId.Some? then req.hotelId.value else before[i].hotelId)
    && (if req.tipo.Some? then TipoName(after[i].tipo) == req.tipo.value else after[i].tipo == before[i].tipo)
    && (if req.acomodacion.Some? then AcomodacionName(after[i].acomodacion) == req.acomodacion.value
        else after[i].acomodacion == before[i].acomodacion)
    && after[i].cantidad == (if req.cantidad.Some? then req.cantidad.value else before[i].cantidad)
  }

  /**
   The update action: look the row up, validate the supplied fields, and
   write them over the row. No duplicate, compatibility or capacity rule is
   checked. The only refusal after validation is the foreign key's: a
   `hotel_id` that names no hotel makes the write fail and roll back.
   */
  function Update(l: Ledger, hotels: Hotels, id: int, req: Body): (r: Result<Ledger, Error>)
    ensures r == Failure(NotFound) <==> forall k :: 0 <= k < |l.rows| ==> l.rows[k].id != id
    ensures r.Failure? ==> r.error == NotFound || r.error == ValidationFailed || r.error == UnknownHotel
    ensures r == Failure(UnknownHotel) <==>
      && FindIndex(l.rows, id).Some?
      && ValidateChanges(req).Success?
      && req.hotelId.Some? && req.hotelId.value !in hotels
    ensures r.Success? <==>
      && FindIndex(l.rows, id).Some?
      && ValidateChanges(req).Success?
      && (req.hotelId.Some? ==> req.hotelId.value in hotels)
    ensures r.Success? ==> r.value.nextId == l.nextId
    ensures r.Success? ==> FindIndex(l.rows, id).Some? && RewrittenAt(l.rows, r.value.rows, FindIndex(l.rows, id).value, req)
    ensures r.Success? && req.hotelId.Some? ==> req.hotelId.value in hotels
  {
    match FindIndex(l.rows, id)
    case None => Failure(NotFound)
    case Some(i) =>
      match ValidateChanges(req)
      case Failure(err) => Failure(err)
      case Success(c) =>
        if c.hotelId.Some? && c.hotelId.value !in hotels then Failure(UnknownHotel)
        else Success(Ledger(l.rows[i := Overlay(l.rows[i], c)], l.nextId))
  }

  /** The destroy action: look the row up and delete it. */
  function Destroy(l: Ledger, id: int): (r: Result<Ledger, Error>)
    ensures r.Failure? <==> forall k :: 0 <= k < |l.rows| ==> l.rows[k].id != id
    ensures r.Failure? ==> r.error == NotFound
    ensures r.Success? ==> r.value.nextId == l.nextId && |r.value.rows| == |l.rows| - 1
    ensures r.Success? ==> forall e :: e in r.value.rows ==> e in l.rows
    ensures r.Success? ==> forall e :: e in l.rows && e.id != id ==> e in r.value.rows
    ensures r.Success? && DistinctBy(l.rows, IdOf) ==> forall e :: e in r.value.rows ==> e.id != id
  {
    match FindIndex(l.rows, id)
    case None => Failure(NotFound)
    case Some(i) =>
      RemoveAtMembers(l.rows, i);
      Success(Ledger(l.rows[..i] + l.rows[i + 1..], l.nextId))
  }

  /** The show action: the row with primary key `id`, as stored. */
  function Show(l: Ledger, id: int): (r: Result<Habitacion, Error>)
    ensures r.Failure? <==> forall k :: 0 <= k < |l.rows| ==> l.rows[k].id != id
    ensures r.Failure? ==> r.error == NotFound
    ensures r.Success? ==> r.value in l.rows && r.value.id == id
  {
    match FindIndex(l.rows, id)
    case None => Failure(NotFound)
    case Some(i) => Success(l.rows[i])
  }
}
