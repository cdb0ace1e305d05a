/** The show record and the one piece of shared state, the list of shows
    held by the application root. */
module App {

  /** One show, with the fields of the record type: title, date
      (`DD/MM/YYYY`), time (`HH:MM`), city, venue address and the URI of
      the banner image. */
  datatype Show = Show(titulo: string, data: string, hora: string, cidade: string, local: string, banner: string)

  /** The six fields, naming the form cell each input writes. */
  datatype Field = Titulo | Data | Hora | Cidade | Local | Banner

  function FieldOf(s: Show, f: Field): string
  {
    match f
    case Titulo => s.titulo
    case Data => s.data
    case Hora => s.hora
    case Cidade => s.cidade
    case Local => s.local
    case Banner => s.banner
  }

  /** The record with field `f` set to `v` and every other field as it was. */
  function WithField(s: Show, f: Field, v: string): (r: Show)
    ensures FieldOf(r, f) == v
    ensures forall g: Field | g != f :: FieldOf(r, g) == FieldOf(s, g)
  {
    match f
    case Titulo => s.(titulo := v)
    case Data => s.(data := v)
    case Hora => s.(hora := v)
    case Cidade => s.(cidade := v)
    case Local => s.(local := v)
    case Banner => s.(banner := v)
  }

  /** The guard of both forms: no field is the empty string. Nothing else
      is checked, so fields of white space pass. */
  predicate Complete(s: Show)
  {
    s.titulo != "" && s.data != "" && s.hora != "" && s.cidade != "" && s.local != "" && s.banner != ""
  }

  lemma CompleteMeansEveryField(s: Show)
    ensures Complete(s) <==> forall f: Field :: FieldOf(s, f) != ""
  {
    if !Complete(s) {
      if s.titulo == "" { assert FieldOf(s, Titulo) == ""; }
      else if s.data == "" { assert FieldOf(s, Data) == ""; }
      else if s.hora == "" { assert FieldOf(s, Hora) == ""; }
      else if s.cidade == "" { assert FieldOf(s, Cidade) == ""; }
      else if s.local == "" { assert FieldOf(s, Local) == ""; }
      else { assert FieldOf(s, Banner) == ""; }
    }
  }

  /** Every stored show passed the guard. */
  predicate AllComplete(shows: seq<Show>)
  {
    forall i | 0 <= i < |shows| :: Complete(shows[i])
  }

  /** The record with every field empty. */
  const EmptyShow := Show("", "", "", "", "", "")

  /** The `shows` state of the application root and its setter. */
  class ShowStore {
    var shows: seq<Show>

    /** The list starts empty. */
    constructor ()
      ensures shows == []
    {
      shows := [];
    }

    /** `setShows(newShows)`: the stored list is replaced wholesale. */
    method SetShows(newShows: seq<Show>)
      modifies this
      ensures shows == newShows
    {
      shows := newShows;
    }
  }
}
