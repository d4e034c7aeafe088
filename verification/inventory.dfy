/**
 The `habitaciones` table as a ledger of rows, the hotel capacities it is
 checked against, and the invariant the allocation rules are meant to keep.
 */
module Inventory {
  import opened Wrappers
  import opened Rooms

  /** One row of `habitaciones`: `cantidad` rooms of one type and accommodation at one hotel. */
  datatype Habitacion = Habitacion(id: int, hotelId: int, tipo: Tipo, acomodacion: Acomodacion, cantidad: int)

  /** The (hotel, type, accommodation) triple the store action keeps unique. */
  datatype Slot = Slot(hotelId: int, tipo: Tipo, acomodacion: Acomodacion)

  /**
   The rows in insertion order, and the next value of the auto-increment
   primary key.
   */
  datatype Ledger = Ledger(rows: seq<Habitacion>, nextId: int)

  /** Hotel id to `numero_habitaciones`, the hotel's declared room capacity. */
  type Hotels = map<int, int>

  /** The table right after the migration ran: no rows, keys start at 1. */
  const EmptyLedger := Ledger([], 1)

  function IdOf(e: Habitacion): int { e.id }

  function SlotOf(e: Habitacion): Slot { Slot(e.hotelId, e.tipo, e.acomodacion) }

  /** What one row adds to the room count of hotel `h`. */
  function Share(e: Habitacion, h: int): int
  {
    if e.hotelId == h then e.cantidad else 0
  }

  /** The sum of `cantidad` over the rows of hotel `h`. */
  function Total(s: seq<Habitacion>, h: int): (r: int)
    ensures (forall k :: 0 <= k < |s| ==> s[k].hotelId != h) ==> r == 0
    ensures (forall k :: 0 <= k < |s| ==> s[k].cantidad >= 0) ==> r >= 0
    decreases |s|
  {
    if |s| == 0 then 0 else Total(s[..|s| - 1], h) + Share(s[|s| - 1], h)
  }

  /** The position of the first row with primary key `id`, if any. */
  function FindIndex(s: seq<Habitacion>, id: int): (r: Option<nat>)
    ensures r.Some? ==> r.value < |s| && s[r.value].id == id
    ensures r.Some? ==> forall k :: 0 <= k < r.value ==> s[k].id != id
    ensures r.None? <==> forall k :: 0 <= k < |s| ==> s[k].id != id
    decreases |s|
  {
    if |s| == 0 then None
    else if s[0].id == id then Some(0)
    else match FindIndex(s[1..], id)
      case None => None
      case Some(k) => Some(k + 1)
  }

  /** Whether some row already occupies `slot`. */
  predicate HasSlot(s: seq<Habitacion>, slot: Slot)
  {
    exists k :: 0 <= k < |s| && SlotOf(s[k]) == slot
  }

  /** No two rows share a key. */
  ghost predicate DistinctBy<K>(s: seq<Habitacion>, key: Habitacion -> K)
  {
    forall i, j :: 0 <= i < j < |s| ==> key(s[i]) != key(s[j])
  }

  /**
   What the schema itself enforces: primary keys are unique and below the
   auto-increment counter, and every `hotel_id` names an existing hotel.
   */
  ghost predicate SchemaValid(l: Ledger, hotels: Hotels)
  {
    && DistinctBy(l.rows, IdOf)
    && (forall k :: 0 <= k < |l.rows| ==> l.rows[k].id < l.nextId)
    && (forall k :: 0 <= k < |l.rows| ==> l.rows[k].hotelId in hotels)
  }

  /** Every row's accommodation is admitted for its type. */
  ghost predicate AllCompatible(s: seq<Habitacion>)
  {
    forall k :: 0 <= k < |s| ==> IsCompatible(s[k].tipo, s[k].acomodacion)
  }

  /** Every hotel's allocated rooms fit in its declared capacity. */
  ghost predicate WithinCapacity(s: seq<Habitacion>, hotels: Hotels)
  {
    forall h :: h in hotels ==> Total(s, h) <= hotels[h]
  }

  /**
   The allocation invariant: the schema constraints, plus one row per
   (hotel, type, accommodation), compatible pairs only, and per-hotel totals
   within capacity.
   */
  ghost predicate Valid(l: Ledger, hotels: Hotels)
  {
    && SchemaValid(l, hotels)
    && DistinctBy(l.rows, SlotOf)
    && AllCompatible(l.rows)
    && WithinCapacity(l.rows, hotels)
  }

  /** The empty table satisfies the invariant for any hotels with non-negative capacity. */
  lemma EmptyLedgerValid(hotels: Hotels)
    requires forall h :: h in hotels ==> hotels[h] >= 0
    ensures Valid(EmptyLedger, hotels)
  {
  }

  /** Adding one row at the end adds its share to every hotel's total. */
  lemma TotalAppend(s: seq<Habitacion>, e: Habitacion, h: int)
    ensures Total(s + [e], h) == Total(s, h) + Share(e, h)
  {
    assert (s + [e])[..|s|] == s;
  }

  /** Totals are additive over concatenation. */
  lemma {:induction false} TotalConcat(a: seq<Habitacion>, b: seq<Habitacion>, h: int)
    ensures Total(a + b, h) == Total(a, h) + Total(b, h)
    decreases |b|
  {
    if |b| == 0 {
      assert a + b == a;
    } else {
      var b' := b[..|b| - 1];
      assert (a + b)[..|a + b| - 1] == a + b';
      assert (a + b)[|a + b| - 1] == b[|b| - 1];
      TotalConcat(a, b', h);
    }
  }

  /** Taking out row `i` takes its share out of every hotel's total. */
  lemma TotalRemoveAt(s: seq<Habitacion>, i: nat, h: int)
    requires i < |s|
    ensures Total(s[..i] + s[i + 1..], h) == Total(s, h) - Share(s[i], h)
  {
    assert s == s[..i] + [s[i]] + s[i + 1..];
    TotalConcat(s[..i] + [s[i]], s[i + 1..], h);
    TotalConcat(s[..i], s[i + 1..], h);
    TotalAppend(s[..i], s[i], h);
  }

  /** Replacing row `i` swaps its share for the new row's share. */
  lemma TotalReplaceAt(s: seq<Habitacion>, i: nat, x: Habitacion, h: int)
    requires i < |s|
    ensures Total(s[i := x], h) == Total(s, h) - Share(s[i], h) + Share(x, h)
  {
    assert s[i := x] == s[..i] + [x] + s[i + 1..];
    assert s == s[..i] + [s[i]] + s[i + 1..];
    TotalConcat(s[..i] + [x], s[i + 1..], h);
    TotalConcat(s[..i] + [s[i]], s[i + 1..], h);
    TotalAppend(s[..i], x, h);
    TotalAppend(s[..i], s[i], h);
  }

  /** Removing row `i` keeps every key distinct. */
  lemma DistinctRemoveAt<K>(s: seq<Habitacion>, i: nat, key: Habitacion -> K)
    requires i < |s| && DistinctBy(s, key)
    ensures DistinctBy(s[..i] + s[i + 1..], key)
  {
    var r := s[..i] + s[i + 1..];
    forall a, b | 0 <= a < b < |r|
      ensures key(r[a]) != key(r[b])
    {
      var a' := if a < i then a else a + 1;
      var b' := if b < i then b else b + 1;
      assert r[a] == s[a'] && r[b] == s[b'];
    }
  }

  /** Removing row `i` keeps every other row and brings in nothing new. */
  lemma RemoveAtMembers(s: seq<Habitacion>, i: nat)
    requires i < |s|
    ensures forall e :: e in s[..i] + s[i + 1..] ==> e in s
    ensures forall e :: e in s && e != s[i] ==> e in s[..i] + s[i + 1..]
    ensures DistinctBy(s, IdOf) ==> forall e :: e in s[..i] + s[i + 1..] ==> e.id != s[i].id
  {
    var r := s[..i] + s[i + 1..];
    forall e | e in s && e != s[i]
      ensures e in r
    {
      var k :| 0 <= k < |s| && s[k] == e;
      if k < i {
        assert r[k] == e;
      } else {
        assert r[k - 1] == e;
      }
    }
    if DistinctBy(s, IdOf) {
      forall e | e in r
        ensures e.id != s[i].id
      {
        var k :| 0 <= k < |r| && r[k] == e;
        var k' := if k < i then k else k + 1;
        assert r[k] == s[k'] && k' != i;
        assert IdOf(s[k']) != IdOf(s[i]);
      }
    }
  }
}
