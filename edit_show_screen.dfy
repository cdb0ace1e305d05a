/** The edit screen: six form cells pre-filled from the show at the route's
    index, the banner pick, and the guarded replacement `saveShow`. */
module EditShowScreen {

  import opened App
  import opened JsArray
  import opened AddShowScreen

  /** The initial cells: the fields of `shows[index]` when that show
      exists, the empty string for every cell when it does not. */
  function Prefill(shows: seq<Show>, index: int): (r: Show)
    ensures 0 <= index < |shows| ==> r == shows[index]
    ensures !(0 <= index < |shows|) ==> r == EmptyShow && !Complete(r)
  {
    if 0 <= index < |shows| then shows[index] else EmptyShow
  }

  /** The list after `saveShow` with the form holding `record`: position
      `index` replaced when the guard passes, the list as it was
      otherwise. */
  function Replaced(shows: seq<Show>, index: int, record: Show): (r: seq<Show>)
    requires Complete(record) ==> 0 <= index < |shows|
    ensures |r| == |shows|
    ensures !Complete(record) ==> r == shows
    ensures Complete(record) ==> r[index] == record
    ensures forall j | 0 <= j < |shows| && j != index :: r[j] == shows[j]
    ensures AllComplete(shows) ==> AllComplete(r)
  {
    if Complete(record) then shows[index := record] else shows
  }

  /** The form state of the edit screen. */
  class EditShowForm {
    /** The position from the route parameters. */
    const index: int
    var titulo: string
    var data: string
    var hora: string
    var cidade: string
    var local: string
    var banner: string

    /** The record the form would submit, its fields taken verbatim. */
    function Record(): Show
      reads this
    {
      Show(titulo, data, hora, cidade, local, banner)
    }

    /** The screen opens on the show at `index` of the current list. */
    constructor (shows: seq<Show>, index: int)
      ensures this.index == index
      ensures Record() == Prefill(shows, index)
    {
      this.index := index;
      var s := Prefill(shows, index);
      titulo, data, hora, cidade, local, banner := s.titulo, s.data, s.hora, s.cidade, s.local, s.banner;
    }

    /** The setter of one cell, as an input's `onChangeText` calls it. */
    method Edit(f: Field, v: string)
      modifies this
      ensures Record() == WithField(old(Record()), f, v)
    {
      match f
      case Titulo => titulo := v;
      case Data => data := v;
      case Hora => hora := v;
      case Cidade => cidade := v;
      case Local => local := v;
      case Banner => banner := v;
    }

    /** `pickImage` once the library has answered: the banner is set to
        the picked URI, and nothing changes on a cancel. */
    method PickImage(result: PickResult)
      modifies this
      ensures Record() == old(Record()).(banner := BannerAfterPick(old(banner), result))
    {
      if !result.Canceled? {
        banner := result.uri;
      }
    }

    /** `saveShow`: when every cell is non-empty, a copy of the list gets
        the form's record at `index` and replaces the list; otherwise
        nothing happens. */
    method SaveShow(store: ShowStore)
      requires Complete(Record()) ==> 0 <= index < |store.shows|
      modifies store
      ensures store.shows == Replaced(old(store.shows), index, Record())
    {
      if titulo == "" || data == "" || hora == "" || cidade == "" || local == "" || banner == "" {
        return;
      }
      var newShows := Spread(store.shows);
      newShows[index] := Record();
      store.SetShows(newShows[..]);
    }
  }

  /** Saving what the screen was opened with changes nothing, whatever
      the index: an existing show is written back over itself, and a
      missing one leaves every cell empty so the guard stops the save. */
  lemma SaveUnchanged(shows: seq<Show>, index: int)
    ensures Complete(Prefill(shows, index)) ==> 0 <= index < |shows|
    ensures Replaced(shows, index, Prefill(shows, index)) == shows
  {
  }

  /** Opening the edit screen and pressing save without touching a cell
      leaves the list as it was. */
  method SaveWithoutEditing(store: ShowStore, index: int)
    modifies store
    ensures store.shows == old(store.shows)
  {
    var form := new EditShowForm(store.shows, index);
    SaveUnchanged(store.shows, index);
    form.SaveShow(store);
  }
}
