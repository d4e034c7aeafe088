/**
 The two enumerated columns of the `habitaciones` table and the rule that
 ties them together: which accommodations a room type may be sold with.
 */
module Rooms {
  import opened Wrappers

  /** Column `tipo`: the room type. */
  datatype Tipo = Estandar | Junior | Suite

  /** Column `acomodacion`: how many guests the room is set up for. */
  datatype Acomodacion = Sencilla | Doble | Triple | Cuadruple

  /** The spelling of a room type in requests and in the table. */
  function TipoName(t: Tipo): string
  {
    match t
    case Estandar => "ESTANDAR"
    case Junior => "JUNIOR"
    case Suite => "SUITE"
  }

  /** The spelling of an accommodation in requests and in the table. */
  function AcomodacionName(a: Acomodacion): string
  {
    match a
    case Sencilla => "SENCILLA"
    case Doble => "DOBLE"
    case Triple => "TRIPLE"
    case Cuadruple => "CUADRUPLE"
  }

  /** The `in:ESTANDAR,JUNIOR,SUITE` rule: accepts exactly the three spellings. */
  function ParseTipo(s: string): (r: Option<Tipo>)
    ensures r.Some? ==> TipoName(r.value) == s
    ensures r.None? ==> forall t: Tipo :: TipoName(t) != s
  {
    if s == "ESTANDAR" then Some(Estandar)
    else if s == "JUNIOR" then Some(Junior)
    else if s == "SUITE" then Some(Suite)
    else None
  }

  /** The `in:SENCILLA,DOBLE,TRIPLE,CUADRUPLE` rule: accepts exactly the four spellings. */
  function ParseAcomodacion(s: string): (r: Option<Acomodacion>)
    ensures r.Some? ==> AcomodacionName(r.value) == s
    ensures r.None? ==> forall a: Acomodacion :: AcomodacionName(a) != s
  {
    if s == "SENCILLA" then Some(Sencilla)
    else if s == "DOBLE" then Some(Doble)
    else if s == "TRIPLE" then Some(Triple)
    else if s == "CUADRUPLE" then Some(Cuadruple)
    else None
  }

  /** Parsing a printed value gives it back: the names are distinct. */
  lemma ParseNameRoundTrip(t: Tipo, a: Acomodacion)
    ensures ParseTipo(TipoName(t)) == Some(t)
    ensures ParseAcomodacion(AcomodacionName(a)) == Some(a)
  {
  }

  /**
   The store action's compatibility guard, as written: a pair is refused when
   the type is ESTANDAR and the accommodation is not SENCILLA or DOBLE, or the
   type is JUNIOR and it is not TRIPLE or CUADRUPLE, or the type is SUITE and
   it is not SENCILLA, DOBLE or TRIPLE.
   */
  predicate IsCompatible(t: Tipo, a: Acomodacion)
  {
    !(  (t == Estandar && !(a == Sencilla || a == Doble))
     || (t == Junior && !(a == Triple || a == Cuadruple))
     || (t == Suite && !(a == Sencilla || a == Doble || a == Triple)))
  }

  /** The compatibility table as a set of admitted pairs. */
  const CompatiblePairs: set<(Tipo, Acomodacion)> :=
    { (Estandar, Sencilla), (Estandar, Doble),
      (Junior, Triple), (Junior, Cuadruple),
      (Suite, Sencilla), (Suite, Doble), (Suite, Triple) }

  /** The guard admits exactly the seven pairs of the table. */
  lemma CompatibilityTable(t: Tipo, a: Acomodacion)
    ensures IsCompatible(t, a) <==> (t, a) in CompatiblePairs
  {
  }

  /** CUADRUPLE is admitted for JUNIOR only; JUNIOR is the only type without SENCILLA or DOBLE. */
  lemma CuadrupleOnlyJunior(t: Tipo)
    ensures IsCompatible(t, Cuadruple) <==> t == Junior
    ensures IsCompatible(t, Sencilla) <==> t != Junior
    ensures IsCompatible(t, Doble) <==> t != Junior
    ensures IsCompatible(t, Triple) <==> t != Estandar
  {
  }
}
