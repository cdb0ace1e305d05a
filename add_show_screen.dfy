/** The create screen: six form cells, the banner picked from the image
    library, and the guarded append `addShow`. */
module AddShowScreen {

  import opened JsString
  import opened App

  /** What the image library hands back once the pick has resolved: the
      user cancelled, or the URI of the first selected asset. */
  datatype PickResult = Canceled | Picked(uri: string)

  /** The banner after a pick: a cancelled pick keeps the old value. */
  function BannerAfterPick(banner: string, result: PickResult): (r: string)
    ensures result.Canceled? ==> r == banner
    ensures result.Picked? ==> r == result.uri
  {
    match result
    case Canceled => banner
    case Picked(uri) => uri
  }

  /** `[...shows, record]` when the guard passes, the list as it was
      otherwise. */
  function Appended(shows: seq<Show>, record: Show): (r: seq<Show>)
    ensures !Complete(record) ==> r == shows
    ensures Complete(record) ==> |r| == |shows| + 1 && r[|shows|] == record
    ensures Complete(record) ==> r[..|shows|] == shows
    ensures AllComplete(shows) ==> AllComplete(r)
  {
    if Complete(record) then shows + [record] else shows
  }

  /** The form state of the create screen. */
  class AddShowForm {
    var titulo: string
    var data: string
    var hora: string
    var cidade: string
    var local: string
    var banner: string

    /** The record the form would submit, its fields taken verbatim. */
    function Record(): Show
      reads this
    {
      Show(titulo, data, hora, cidade, local, banner)
    }

    /** Every cell starts as the empty string. */
    constructor ()
      ensures Record() == EmptyShow
    {
      titulo, data, hora, cidade, local, banner := "", "", "", "", "", "";
    }

    /** The setter of one cell, as an input's `onChangeText` calls it. */
    method Edit(f: Field, v: string)
      modifies this
      ensures Record() == WithField(old(Record()), f, v)
    {
      match f
      case Titulo => titulo := v;
      case Data => data := v;
      case Hora => hora := v;
      case Cidade => cidade := v;
      case Local => local := v;
      case Banner => banner := v;
    }

    /** `pickImage` once the library has answered: the banner is set to
        the picked URI, and nothing changes on a cancel. */
    method PickImage(result: PickResult)
      modifies this
      ensures Record() == old(Record()).(banner := BannerAfterPick(old(banner), result))
    {
      if !result.Canceled? {
        banner := result.uri;
      }
    }

    /** `addShow`: when every cell is non-empty, the list gains the form's
        record at its end; otherwise nothing happens. */
    method AddShow(store: ShowStore)
      modifies store
      ensures store.shows == Appended(old(store.shows), Record())
    {
      if titulo == "" || data == "" || hora == "" || cidade == "" || local == "" || banner == "" {
        return;
      }
      store.SetShows(store.shows + [Record()]);
    }
  }

  /** The appended record is the form's record, nothing trimmed: fields of
      white space alone pass the guard. */
  lemma WhiteSpaceFieldsPass(shows: seq<Show>, record: Show)
    requires forall f: Field :: FieldOf(record, f) != "" && AllWhiteSpace(FieldOf(record, f))
    ensures Appended(shows, record) == shows + [record]
  {
    CompleteMeansEveryField(record);
  }

  /** A submission that leaves any one field empty is a no-op. */
  lemma MissingFieldIgnored(shows: seq<Show>, record: Show, f: Field)
    requires FieldOf(record, f) == ""
    ensures Appended(shows, record) == shows
  {
    CompleteMeansEveryField(record);
  }

  /** Pressing save on a form nobody has touched adds nothing. */
  method SubmitUntouchedForm(store: ShowStore)
    modifies store
    ensures store.shows == old(store.shows)
  {
    var form := new AddShowForm();
    form.AddShow(store);
  }
}
