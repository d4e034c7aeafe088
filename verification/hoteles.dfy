/**
 Deleting a hotel. The foreign key from `habitaciones.hotel_id` to
 `hoteles.id` cascades on delete, so the hotel's rows go with it.
 */
module Hoteles {
  import opened Rooms
  import opened Inventory

  /** The rows that do not belong to hotel `h`, in their original order. */
  function WithoutHotel(s: seq<Habitacion>, h: int): (r: seq<Habitacion>)
    ensures forall e :: e in r <==> e in s && e.hotelId != h
    ensures forall e :: multiset(r)[e] == if e.hotelId == h then 0 else multiset(s)[e]
    ensures |r| <= |s|
    decreases |s|
  {
    if |s| == 0 then []
    else
      var init := WithoutHotel(s[..|s| - 1], h);
      var last := s[|s| - 1];
      assert s == s[..|s| - 1] + [last];
      if last.hotelId == h then init else init + [last]
  }

  /**
   Deleting hotel `h`: the hotel leaves the capacity map and the cascade
   removes its rows. Deleting an id that names no hotel removes nothing.
   */
  function DeleteHotel(l: Ledger, hotels: Hotels, h: int): (r: (Ledger, Hotels))
    ensures r.1.Keys == hotels.Keys - {h}
    ensures forall g :: g in r.1 ==> r.1[g] == hotels[g]
    ensures r.0.nextId == l.nextId
    ensures forall e :: e in r.0.rows <==> e in l.rows && e.hotelId != h
    ensures forall e :: multiset(r.0.rows)[e] == if e.hotelId == h then 0 else multiset(l.rows)[e]
  {
    (Ledger(WithoutHotel(l.rows, h), l.nextId), hotels - {h})
  }

  /** The cascade leaves the other hotels' totals alone and empties the deleted hotel's. */
  lemma {:induction false} TotalWithoutHotel(s: seq<Habitacion>, h: int, g: int)
    ensures Total(WithoutHotel(s, h), g) == if g == h then 0 else Total(s, g)
    decreases |s|
  {
    if |s| > 0 {
      var init := s[..|s| - 1];
      var last := s[|s| - 1];
      TotalWithoutHotel(init, h, g);
      if last.hotelId != h {
        TotalAppend(WithoutHotel(init, h), last, g);
      }
    }
  }

  /** The cascade keeps any key that was distinct distinct. */
  lemma {:induction false} DistinctWithoutHotel<K>(s: seq<Habitacion>, h: int, key: Habitacion -> K)
    requires DistinctBy(s, key)
    ensures DistinctBy(WithoutHotel(s, h), key)
    decreases |s|
  {
    if |s| > 0 {
      var init := s[..|s| - 1];
      var last := s[|s| - 1];
      var r0 := WithoutHotel(init, h);
      DistinctWithoutHotel(init, h, key);
      if last.hotelId != h {
        var r := r0 + [last];
        forall a, b | 0 <= a < b < |r|
          ensures key(r[a]) != key(r[b])
        {
          if b == |r0| {
            assert r0[a] in init;
            var k :| 0 <= k < |init| && init[k] == r0[a];
            assert key(s[k]) != key(s[|s| - 1]);
          } else {
            assert key(r0[a]) != key(r0[b]);
          }
        }
      }
    }
  }

  /** The cascade keeps the allocation invariant for the hotels that remain. */
  lemma CascadePreservesValid(l: Ledger, hotels: Hotels, h: int)
    requires Valid(l, hotels)
    ensures Valid(DeleteHotel(l, hotels, h).0, DeleteHotel(l, hotels, h).1)
  {
    var (l', hotels') := DeleteHotel(l, hotels, h);
    var s := l.rows;
    var s' := l'.rows;
    DistinctWithoutHotel(s, h, IdOf);
    DistinctWithoutHotel(s, h, SlotOf);
    forall k | 0 <= k < |s'|
      ensures s'[k].id < l'.nextId && s'[k].hotelId in hotels' && IsCompatible(s'[k].tipo, s'[k].acomodacion)
    {
      assert s'[k] in s;
      var j :| 0 <= j < |s| && s[j] == s'[k];
    }
    forall g | g in hotels'
      ensures Total(s', g) <= hotels'[g]
    {
      TotalWithoutHotel(s, h, g);
    }
  }

  /**
   Deleting a hotel keeps what the schema enforces for the hotels that
   remain, whether or not the allocation rules held before.
   */
  lemma CascadeKeepsSchema(l: Ledger, hotels: Hotels, h: int)
    requires SchemaValid(l, hotels)
    ensures SchemaValid(DeleteHotel(l, hotels, h).0, DeleteHotel(l, hotels, h).1)
  {
    var (l', hotels') := DeleteHotel(l, hotels, h);
    DistinctWithoutHotel(l.rows, h, IdOf);
    forall k | 0 <= k < |l'.rows|
      ensures l'.rows[k].id < l'.nextId && l'.rows[k].hotelId in hotels'
    {
      assert l'.rows[k] in l.rows;
    }
  }

  /** Deleting an id that names no hotel leaves the table and the hotels as they were. */
  lemma DeleteMissingHotelIsNoop(l: Ledger, hotels: Hotels, h: int)
    requires SchemaValid(l, hotels)
    requires h !in hotels
    ensures DeleteHotel(l, hotels, h) == (l, hotels)
  {
    KeepAllWithoutHotel(l.rows, h);
    assert hotels - {h} == hotels;
  }

  /** Filtering out a hotel that owns no row keeps every row. */
  lemma {:induction false} KeepAllWithoutHotel(s: seq<Habitacion>, h: int)
    requires forall k :: 0 <= k < |s| ==> s[k].hotelId != h
    ensures WithoutHotel(s, h) == s
    decreases |s|
  {
    if |s| > 0 {
      KeepAllWithoutHotel(s[..|s| - 1], h);
      assert s == s[..|s| - 1] + [s[|s| - 1]];
    }
  }
}
