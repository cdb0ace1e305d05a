/** Whole interactions across the screens, from an empty list. */
module Scenarios {

  import opened JsString
  import opened JsDate
  import opened App
  import opened ShowsScreen
  import opened AddShowScreen

  /** The show of the first scenario. */
  const BandA := Show("Band A", "01/01/2099", "20:00", "Metropolis", "123 Main St", "img://1")

  /** Fill the create form field by field, the banner through the image
      library, and save it into `store`. */
  method FillAndSave(store: ShowStore, s: Show)
    modifies store
    ensures store.shows == Appended(old(store.shows), s)
  {
    var form := new AddShowForm();
    form.Edit(Titulo, s.titulo);
    form.Edit(Data, s.data);
    form.Edit(Hora, s.hora);
    form.Edit(Cidade, s.cidade);
    form.Edit(Local, s.local);
    form.PickImage(Picked(s.banner));
    assert form.Record() == s;
    form.AddShow(store);
  }

  /** "Band A" plays on the first of January 2099. */
  lemma BandADate()
    ensures BandA.data == FormatDate(CalendarDate(2099, 1, 1))
  {
    assert Decimal(1) == "1";
    assert Pad2(1) == "01";
    assert Decimal(2099) == "2099";
  }

  /** Adding "Band A" to the empty list gives one show, active on any day
      up to its date and labelled as night. */
  method AddBandA(today: CalendarDate) returns (shows: seq<Show>)
    requires ValidDate(today) && InModelledRange(today)
    requires OnOrBefore(today, CalendarDate(2099, 1, 1))
    ensures shows == [BandA]
    ensures IsDateText(shows[0].data) && GetStatus(shows[0].data, today) == Active
    ensures GetTurno(shows[0].hora) == Night
  {
    var store := new ShowStore();
    FillAndSave(store, BandA);
    shows := store.shows;
    var c := CalendarDate(2099, 1, 1);
    BandADate();
    DateOfFormatted(c);
    StatusOfDate(Pad2(1), Pad2(1), Decimal(2099), today);
    TurnoExampleEvening();
  }

  /** Adding two complete shows and deleting the first leaves the second. */
  method AddTwoDeleteFirst(first: Show, second: Show) returns (shows: seq<Show>)
    requires Complete(first) && Complete(second)
    ensures shows == [second]
  {
    var store := new ShowStore();
    FillAndSave(store, first);
    FillAndSave(store, second);
    DeleteShow(store, 0);
    shows := store.shows;
  }
}
