/** The list screen: the time-of-day label `getTurno`, the event status
    `getStatus`, the map-search link of `openMaps` and `deleteShow`. */
module ShowsScreen {

  import opened Wrappers
  import opened JsString
  import opened JsUri
  import opened JsDate
  import opened JsArray
  import opened App

  // ---------------------------------------------------------------------
  // getTurno

  /** The time-of-day label; `Unknown` is the empty label, which the list
      does not show. */
  datatype Turno = Day | Night | Unknown

  function TurnoLabel(t: Turno): (text: string)
    ensures text == "" <==> t == Unknown
  {
    match t
    case Day => "\U{2600}\U{FE0F} Dia"
    case Night => "\U{1F319} Noite"
    case Unknown => ""
  }

  /** The classification of a parsed hour: day from 6 up to but not
      including 18, night for every other number. */
  function TurnoOfHour(h: int): Turno
  {
    if 6 <= h && h < 18 then Day else Night
  }

  /** `getTurno(hora)`: trim, require a `:`, `parseInt` the text before the
      first `:`, and classify the hour. */
  function GetTurno(hora: string): Turno
  {
    if hora == "" then Unknown
    else
      var cleanHora := Trim(hora);
      if ':' !in cleanHora then Unknown
      else
        match ParseInt(Split(cleanHora, ':')[0])
        case None => Unknown
        case Some(h) => TurnoOfHour(h)
  }

  /** White space before and after the time does not change the label. */
  lemma TurnoIgnoresSurroundingWhiteSpace(ws1: string, s: string, ws2: string)
    requires AllWhiteSpace(ws1) && AllWhiteSpace(ws2)
    ensures GetTurno(ws1 + s + ws2) == GetTurno(s)
  {
    TrimSurrounded(ws1, s, ws2);
    if s == "" {
      assert Trim(s) == "";
    } else {
      assert (ws1 + s + ws2)[|ws1|] == s[0];
    }
  }

  /** Without a `:` anywhere the label is unknown. */
  lemma TurnoWithoutColon(s: string)
    requires ':' !in s
    ensures GetTurno(s) == Unknown
  {
    if ':' in Trim(s) {
      TrimKeepsCharacters(s, ':');
    }
  }

  /** When the time starts with neither white space nor `:`, what matters
      is the text before its first `:`: it is trimmed, split and parsed
      as it stands. */
  lemma TextBeforeColon(p: string, rest: string)
    requires ':' !in p
    requires p == [] || !IsWhiteSpace(p[0])
    ensures ':' in Trim(p + ":" + rest)
    ensures Split(Trim(p + ":" + rest), ':')[0] == p
  {
    var b := ":" + rest;
    assert p + ":" + rest == p + b;
    var t := TrimAroundColon(p, b);
    SplitAtSeparator(p, ':', t);
    assert (p + [':'] + t)[|p|] == ':';
  }

  /** Trimming `p + b`, with `b` starting at the colon, leaves `p`, the
      colon and some text `t`. */
  lemma TrimAroundColon(p: string, b: string) returns (t: string)
    requires p == [] || !IsWhiteSpace(p[0])
    requires b != [] && b[0] == ':'
    ensures Trim(p + b) == p + [':'] + t
  {
    TrimAfterText(p, b);
    TrimEndKeepsFirst(b);
    t := TrimEnd(b)[1..];
    HeadThenTail(TrimEnd(b));
    ConcatAssoc(p, [':'], t);
  }

  lemma TrimAfterText(p: string, b: string)
    requires p == [] || !IsWhiteSpace(p[0])
    requires b != [] && b[0] == ':'
    ensures Trim(p + b) == p + TrimEnd(b)
  {
    TrimStartBeforeColon(p, b);
    TrimEndAppend(p, b);
  }

  lemma TrimStartBeforeColon(p: string, b: string)
    requires p == [] || !IsWhiteSpace(p[0])
    requires b != [] && b[0] == ':'
    ensures TrimStart(p + b) == p + b
    ensures !AllWhiteSpace(b)
  {
    assert (p + b)[0] == (if p == [] then ':' else p[0]);
    TrimStartUntouched(p + b);
  }

  lemma TurnoReadsTextBeforeColon(p: string, rest: string)
    requires ':' !in p
    requires p == [] || !IsWhiteSpace(p[0])
    ensures GetTurno(p + ":" + rest) ==
      match ParseInt(p)
      case None => Unknown
      case Some(h) => TurnoOfHour(h)
  {
    TextBeforeColon(p, rest);
  }

  /** With a run of digits before the `:` (leading zeros allowed, as in
      the `HH:MM` the time mask writes), signed or not and followed by
      anything but a digit, the label is day exactly when the number of
      those digits is from 6 to 17, and night otherwise. */
  lemma TurnoOfDigits(sign: string, d: string, junk: string, rest: string)
    requires IsSign(sign) && d != [] && AllDigits(d)
    requires junk == [] || !IsDigit(junk[0])
    requires ':' !in junk
    ensures var h := if sign == "-" then -(NumberOfDigits(d) as int) else NumberOfDigits(d) as int;
            && (GetTurno(sign + d + junk + ":" + rest) == Day <==> 6 <= h < 18)
            && (GetTurno(sign + d + junk + ":" + rest) == Night <==> !(6 <= h < 18))
  {
    var p := sign + d + junk;
    NoneOutsideDigits(d, ':');
    assert ':' !in p;
    assert p[0] == (if sign == "" then d[0] else sign[0]);
    TurnoReadsTextBeforeColon(p, rest);
    ParseIntOfDigits(sign, d, junk);
  }

  /** The same for an integer written in decimal: with an integer before
      the `:`, signed or not and followed by anything but a digit, the
      label is day exactly when that integer is from 6 to 17, and night
      otherwise, even when it is no real hour. */
  lemma TurnoOfLeadingInteger(sign: string, n: nat, junk: string, rest: string)
    requires IsSign(sign)
    requires junk == [] || !IsDigit(junk[0])
    requires ':' !in junk
    ensures var h := if sign == "-" then -(n as int) else n as int;
            && (GetTurno(sign + Decimal(n) + junk + ":" + rest) == Day <==> 6 <= h < 18)
            && (GetTurno(sign + Decimal(n) + junk + ":" + rest) == Night <==> !(6 <= h < 18))
  {
    TurnoOfDigits(sign, Decimal(n), junk, rest);
    DecimalValue(n);
  }

  /** With no integer before the `:` the label is unknown. */
  lemma TurnoWithoutLeadingInteger(p: string, rest: string)
    requires ':' !in p
    requires p == [] || !IsWhiteSpace(p[0])
    requires var u := if p != [] && (p[0] == '-' || p[0] == '+') then p[1..] else p;
             u == [] || !IsDigit(u[0])
    ensures GetTurno(p + ":" + rest) == Unknown
  {
    TurnoReadsTextBeforeColon(p, rest);
    ParseIntNaN(p);
  }

  lemma TurnoExampleEmpty()
    ensures GetTurno("") == Unknown
  {
  }

  lemma TurnoExampleNoColon()
    ensures GetTurno("12") == Unknown
  {
    TurnoWithoutColon("12");
  }

  lemma TurnoExampleNoHour()
    ensures GetTurno(":30") == Unknown
  {
    assert ":30" == "" + ":" + "30";
    TurnoWithoutLeadingInteger("", "30");
  }

  lemma TurnoExampleLetters()
    ensures GetTurno("ab:cd") == Unknown
  {
    assert "ab:cd" == "ab" + ":" + "cd";
    TurnoWithoutLeadingInteger("ab", "cd");
  }

  lemma TurnoExampleEvening()
    ensures GetTurno("20:00") == Night
  {
    assert Decimal(20) == "20";
    assert "20:00" == "" + Decimal(20) + "" + ":" + "00";
    TurnoOfLeadingInteger("", 20, "", "00");
  }

  lemma TurnoExampleMorning()
    ensures GetTurno("07:00") == Day
  {
    assert NumberOfDigits("07") == 7 by {
      assert "07" == "0" + "7";
      LeadingZeroValue("7");
    }
    assert "07:00" == "" + "07" + "" + ":" + "00";
    TurnoOfDigits("", "07", "", "00");
  }

  lemma TurnoExampleEarly()
    ensures GetTurno("05:30") == Night
  {
    assert NumberOfDigits("05") == 5 by {
      assert "05" == "0" + "5";
      LeadingZeroValue("5");
    }
    assert "05:30" == "" + "05" + "" + ":" + "30";
    TurnoOfDigits("", "05", "", "30");
  }

  lemma TurnoExampleTrailingJunk()
    ensures GetTurno("7x:00") == Day
  {
    assert Decimal(7) == "7";
    assert "7x:00" == "" + Decimal(7) + "x" + ":" + "00";
    TurnoOfLeadingInteger("", 7, "x", "00");
  }

  lemma TurnoExampleTooLate()
    ensures GetTurno("25:00") == Night
  {
    assert Decimal(25) == "25";
    assert "25:00" == "" + Decimal(25) + "" + ":" + "00";
    TurnoOfLeadingInteger("", 25, "", "00");
  }

  lemma TurnoExampleNegative()
    ensures GetTurno("-1:00") == Night
  {
    assert Decimal(1) == "1";
    assert "-1:00" == "-" + Decimal(1) + "" + ":" + "00";
    TurnoOfLeadingInteger("-", 1, "", "00");
  }

  // ---------------------------------------------------------------------
  // getStatus

  datatype Status = Active | Finished

  function StatusLabel(s: Status): string
  {
    match s
    case Active => "ativo"
    case Finished => "finalizado"
  }

  /** The text the `DD/MM/YYYY` input mask produces: digits and `/`. */
  predicate IsDateText(s: string)
  {
    forall i | 0 <= i < |s| :: IsDigit(s[i]) || s[i] == '/'
  }

  /** `Number(parts[i])` after the destructuring of `split("/")`: a missing
      part is `undefined`, which becomes `NaN`. */
  function PartNumber(parts: seq<string>, i: nat): Option<int>
    requires forall k | 0 <= k < |parts| :: AllDigits(parts[k])
  {
    if i < |parts| then Some(NumberOfDigits(parts[i])) else None
  }

  function MinusOne(x: Option<int>): Option<int>
  {
    match x
    case None => None
    case Some(v) => Some(v - 1)
  }

  /** `getStatus(data)` with the clock reading `today` (a calendar date with
      a 1-based month): "finalizado" for the empty string, otherwise
      "ativo" when the date read from `DD/MM/YYYY` is on or after today. */
  function GetStatus(data: string, today: CalendarDate): Status
    requires IsDateText(data)
  {
    if data == "" then Finished
    else
      SplitDigits(data, '/');
      StatusOfParts(Split(data, '/'), today)
  }

  /** The comparison of `getStatus` once the date is split into
      `[dia, mes, ano]`. */
  function StatusOfParts(parts: seq<string>, today: CalendarDate): Status
    requires forall k | 0 <= k < |parts| :: AllDigits(parts[k])
  {
    var dataEvento := NewDate(PartNumber(parts, 2), MinusOne(PartNumber(parts, 1)), PartNumber(parts, 0));
    var hoje := NewDate(Some(today.year), Some(today.month - 1), Some(today.day));
    if DateAtLeast(dataEvento, hoje) then Active else Finished
  }

  lemma StatusOfEmpty(today: CalendarDate)
    ensures GetStatus("", today) == Finished
  {
  }

  /** The three digit strings of `DD/MM/YYYY` read as a calendar date. */
  function DateOf(ds: string, ms: string, ys: string): CalendarDate
    requires AllDigits(ds) && AllDigits(ms) && AllDigits(ys)
  {
    CalendarDate(FullYear(NumberOfDigits(ys)), NumberOfDigits(ms), NumberOfDigits(ds))
  }

  lemma SplitDate(ds: string, ms: string, ys: string)
    requires AllDigits(ds) && AllDigits(ms) && AllDigits(ys)
    ensures IsDateText(ds + "/" + ms + "/" + ys)
    ensures Split(ds + "/" + ms + "/" + ys, '/') == [ds, ms, ys]
  {
    var s := ds + "/" + ms + "/" + ys;
    forall i | 0 <= i < |s| ensures IsDigit(s[i]) || s[i] == '/' {
      if i < |ds| { assert s[i] == ds[i]; }
      else if i == |ds| { }
      else if i < |ds| + 1 + |ms| { assert s[i] == ms[i - |ds| - 1]; }
      else if i > |ds| + 1 + |ms| { assert s[i] == ys[i - |ds| - |ms| - 2]; }
    }
    NoneOutsideDigits(ds, '/');
    NoneOutsideDigits(ms, '/');
    NoneOutsideDigits(ys, '/');
    assert s == ds + ['/'] + (ms + ['/'] + ys);
    SplitAtSeparator(ds, '/', ms + ['/'] + ys);
    SplitAtSeparator(ms, '/', ys);
    SplitWithoutSeparator(ys, '/');
  }

  /** For a well-formed date (three digit groups naming a real day; a year
      written 0 to 99 is read as 1900 to 1999) the status is active exactly
      when that day is on or after today in (year, month, day) order. */
  lemma StatusOfDate(ds: string, ms: string, ys: string, today: CalendarDate)
    requires AllDigits(ds) && AllDigits(ms) && AllDigits(ys)
    requires ValidDate(DateOf(ds, ms, ys)) && InModelledRange(DateOf(ds, ms, ys))
    requires ValidDate(today) && InModelledRange(today)
    ensures IsDateText(ds + "/" + ms + "/" + ys)
    ensures GetStatus(ds + "/" + ms + "/" + ys, today) == Active <==> OnOrBefore(today, DateOf(ds, ms, ys))
  {
    StatusSplitsDate(ds, ms, ys, today);
    StatusComparesParts(ds, ms, ys, today);
    EventDateComparison(ds, ms, ys, today);
  }

  /** `dataEvento >= hoje` for two real days is the calendar order of the
      days. */
  lemma EventDateComparison(ds: string, ms: string, ys: string, today: CalendarDate)
    requires AllDigits(ds) && AllDigits(ms) && AllDigits(ys)
    requires ValidDate(DateOf(ds, ms, ys)) && InModelledRange(DateOf(ds, ms, ys))
    requires ValidDate(today) && InModelledRange(today)
    ensures DateAtLeast(NewDate(Some(NumberOfDigits(ys) as int), Some(NumberOfDigits(ms) as int - 1), Some(NumberOfDigits(ds) as int)),
                        NewDate(Some(today.year), Some(today.month - 1), Some(today.day)))
            <==> OnOrBefore(today, DateOf(ds, ms, ys))
  {
    var ev := DateOf(ds, ms, ys);
    var dataEvento := NewDate(Some(NumberOfDigits(ys) as int), Some(NumberOfDigits(ms) as int - 1), Some(NumberOfDigits(ds) as int));
    var hoje := NewDate(Some(today.year), Some(today.month - 1), Some(today.day));
    EventDay(ds, ms, ys);
    NewDateOfValid(today.year, today.month - 1, today.day, today);
    assert hoje == Some(DayNumber(today) * MsPerDay);
    CompareMidnights(ev, today, dataEvento, hoje);
  }

  /** The event's `Date` is midnight of its day. */
  lemma EventDay(ds: string, ms: string, ys: string)
    requires AllDigits(ds) && AllDigits(ms) && AllDigits(ys)
    requires ValidDate(DateOf(ds, ms, ys)) && InModelledRange(DateOf(ds, ms, ys))
    ensures NewDate(Some(NumberOfDigits(ys) as int), Some(NumberOfDigits(ms) as int - 1), Some(NumberOfDigits(ds) as int))
            == Some(DayNumber(DateOf(ds, ms, ys)) * MsPerDay)
  {
    NewDateOfValid(NumberOfDigits(ys), NumberOfDigits(ms) as int - 1, NumberOfDigits(ds), DateOf(ds, ms, ys));
  }

  /** Two midnights compare as their days do. */
  lemma CompareMidnights(ev: CalendarDate, today: CalendarDate, dataEvento: Option<int>, hoje: Option<int>)
    requires ValidDate(ev) && ValidDate(today)
    requires dataEvento == Some(DayNumber(ev) * MsPerDay)
    requires hoje == Some(DayNumber(today) * MsPerDay)
    ensures DateAtLeast(dataEvento, hoje) <==> OnOrBefore(today, ev)
  {
    DayNumberOrder(today, ev);
    AtLeastOfDays(DayNumber(ev), DayNumber(today));
  }

  lemma AtLeastOfDays(x: int, y: int)
    ensures DateAtLeast(Some(x * MsPerDay), Some(y * MsPerDay)) <==> y <= x
  {
  }

  /** A date of three digit groups is split into exactly those groups. */
  lemma StatusSplitsDate(ds: string, ms: string, ys: string, today: CalendarDate)
    requires AllDigits(ds) && AllDigits(ms) && AllDigits(ys)
    ensures IsDateText(ds + "/" + ms + "/" + ys)
    ensures GetStatus(ds + "/" + ms + "/" + ys, today) == StatusOfParts([ds, ms, ys], today)
  {
    var data := ds + "/" + ms + "/" + ys;
    SplitDate(ds, ms, ys);
    assert data != "" by { assert |data| >= 2; }
  }

  /** The groups are read as `new Date(year, month - 1, day)` and compared
      with today's midnight. */
  lemma StatusComparesParts(ds: string, ms: string, ys: string, today: CalendarDate)
    requires AllDigits(ds) && AllDigits(ms) && AllDigits(ys)
    ensures StatusOfParts([ds, ms, ys], today) ==
      if DateAtLeast(NewDate(Some(NumberOfDigits(ys) as int), Some(NumberOfDigits(ms) as int - 1), Some(NumberOfDigits(ds) as int)),
                     NewDate(Some(today.year), Some(today.month - 1), Some(today.day)))
      then Active else Finished
  {
    PartNumbers(ds, ms, ys);
  }

  lemma PartNumbers(ds: string, ms: string, ys: string)
    requires AllDigits(ds) && AllDigits(ms) && AllDigits(ys)
    ensures PartNumber([ds, ms, ys], 0) == Some(NumberOfDigits(ds) as int)
    ensures MinusOne(PartNumber([ds, ms, ys], 1)) == Some(NumberOfDigits(ms) as int - 1)
    ensures PartNumber([ds, ms, ys], 2) == Some(NumberOfDigits(ys) as int)
  {
  }

  /** Without a year (`DD` or `DD/MM`, as while the date is being typed)
      the event date is an Invalid Date and the status is finished. */
  lemma StatusWithoutYear(ds: string, ms: string, today: CalendarDate)
    requires AllDigits(ds) && AllDigits(ms)
    ensures IsDateText(ds) && IsDateText(ds + "/" + ms)
    ensures GetStatus(ds, today) == Finished
    ensures GetStatus(ds + "/" + ms, today) == Finished
  {
    var s := ds + "/" + ms;
    forall i | 0 <= i < |s| ensures IsDigit(s[i]) || s[i] == '/' {
      if i < |ds| { assert s[i] == ds[i]; }
      else if i > |ds| { assert s[i] == ms[i - |ds| - 1]; }
    }
    NoneOutsideDigits(ds, '/');
    NoneOutsideDigits(ms, '/');
    SplitAtSeparator(ds, '/', ms);
    SplitWithoutSeparator(ms, '/');
    SplitWithoutSeparator(ds, '/');
  }

  /** Two digits, with a leading zero below 10. */
  function Pad2(n: nat): (s: string)
    ensures AllDigits(s) && DigitsValue(s) == n
  {
    DecimalValue(n);
    if n < 10 then LeadingZeroValue(Decimal(n)); "0" + Decimal(n) else Decimal(n)
  }

  /** A calendar date written `DD/MM/YYYY`. */
  function FormatDate(c: CalendarDate): string
    requires c.year >= 100 && c.month >= 0 && c.day >= 0
  {
    Pad2(c.day) + "/" + Pad2(c.month) + "/" + Decimal(c.year)
  }

  lemma DateOfFormatted(c: CalendarDate)
    requires c.year >= 100 && c.month >= 0 && c.day >= 0
    ensures DateOf(Pad2(c.day), Pad2(c.month), Decimal(c.year)) == c
  {
    DecimalValue(c.year);
  }

  /** An event today is active. */
  lemma StatusToday(today: CalendarDate)
    requires ValidDate(today) && InModelledRange(today)
    ensures IsDateText(FormatDate(today))
    ensures GetStatus(FormatDate(today), today) == Active
  {
    DateOfFormatted(today);
    StatusOfDate(Pad2(today.day), Pad2(today.month), Decimal(today.year), today);
  }

  /** An event tomorrow is active. */
  lemma StatusTomorrow(today: CalendarDate)
    requires ValidDate(today) && InModelledRange(today) && InModelledRange(NextDay(today))
    ensures IsDateText(FormatDate(NextDay(today)))
    ensures GetStatus(FormatDate(NextDay(today)), today) == Active
  {
    var t := NextDay(today);
    NextDayNumber(today);
    DayNumberOrder(today, t);
    DateOfFormatted(t);
    StatusOfDate(Pad2(t.day), Pad2(t.month), Decimal(t.year), today);
  }

  /** An event yesterday is finished. */
  lemma StatusYesterday(yesterday: CalendarDate)
    requires ValidDate(yesterday) && InModelledRange(yesterday) && InModelledRange(NextDay(yesterday))
    ensures IsDateText(FormatDate(yesterday))
    ensures GetStatus(FormatDate(yesterday), NextDay(yesterday)) == Finished
  {
    var t := NextDay(yesterday);
    NextDayNumber(yesterday);
    DayNumberOrder(t, yesterday);
    DateOfFormatted(yesterday);
    StatusOfDate(Pad2(yesterday.day), Pad2(yesterday.month), Decimal(yesterday.year), t);
  }

  // ---------------------------------------------------------------------
  // openMaps

  const MapsSearchPrefix := "https://www.google.com/maps/search/?api=1&query="

  /** The URL `openMaps(address)` opens: the search prefix followed by the
      encoded address. */
  function MapsUrl(address: string): (url: string)
    requires AllAscii(address)
    ensures |url| >= |MapsSearchPrefix|
  {
    MapsSearchPrefix + EncodeURIComponent(address)
  }

  /** The maps URL starts with the search prefix; its query part decodes
      back to the address and cannot end the parameter or the URL early. */
  lemma MapsUrlQuery(address: string)
    requires AllAscii(address)
    ensures MapsUrl(address)[..|MapsSearchPrefix|] == MapsSearchPrefix
    ensures PercentDecode(MapsUrl(address)[|MapsSearchPrefix|..]) == Some(address)
    ensures forall i | |MapsSearchPrefix| <= i < |MapsUrl(address)| ::
              MapsUrl(address)[i] != ' ' && MapsUrl(address)[i] != '&' &&
              MapsUrl(address)[i] != '#' && MapsUrl(address)[i] != '?'
  {
    QueryAfterPrefix(MapsSearchPrefix, address);
  }

  /** A prefix followed by an encoded query, for any prefix. */
  lemma QueryAfterPrefix(prefix: string, address: string)
    requires AllAscii(address)
    ensures (prefix + EncodeURIComponent(address))[..|prefix|] == prefix
    ensures PercentDecode((prefix + EncodeURIComponent(address))[|prefix|..]) == Some(address)
    ensures forall i | |prefix| <= i < |prefix + EncodeURIComponent(address)| ::
              var c := (prefix + EncodeURIComponent(address))[i];
              c != ' ' && c != '&' && c != '#' && c != '?'
  {
    DecodeEncode(address);
    var query := EncodeURIComponent(address);
    PrefixThenQuery(prefix, query);
    forall i | |prefix| <= i < |prefix + query|
      ensures var c := (prefix + query)[i]; c != ' ' && c != '&' && c != '#' && c != '?'
    {
      QueryCharSafe(query[i - |prefix|]);
    }
  }

  /** No character the encoder writes is a space or a URL delimiter. */
  lemma QueryCharSafe(c: char)
    requires IsUnescaped(c) || c == '%'
    ensures c != ' ' && c != '&' && c != '#' && c != '?'
  {
  }

  lemma PrefixThenQuery(prefix: string, query: string)
    ensures (prefix + query)[..|prefix|] == prefix
    ensures (prefix + query)[|prefix|..] == query
    ensures forall i | |prefix| <= i < |prefix + query| :: (prefix + query)[i] == query[i - |prefix|]
  {
  }

  // ---------------------------------------------------------------------
  // deleteShow

  /** `deleteShow(index)`: copy the list, splice the copy, store it. The
      show at `index` is gone and the others keep their order. */
  method DeleteShow(store: ShowStore, index: nat)
    requires index < |store.shows|
    modifies store
    ensures store.shows == old(store.shows[..index] + store.shows[index + 1..])
    ensures AllComplete(old(store.shows)) ==> AllComplete(store.shows)
  {
    var newShows := Spread(store.shows);
    var _, newLength := SpliceOne(newShows, index);
    store.SetShows(newShows[..newLength]);
  }

  /** What removing position `i` leaves: one fewer show, the earlier ones
      in place, the later ones one position down, and exactly one
      occurrence of the removed show fewer. */
  lemma RemovedAt(s: seq<Show>, i: nat)
    requires i < |s|
    ensures var r := s[..i] + s[i + 1..];
            && |r| == |s| - 1
            && (forall j | 0 <= j < i :: r[j] == s[j])
            && (forall j | i <= j < |r| :: r[j] == s[j + 1])
            && multiset(r) + multiset{s[i]} == multiset(s)
  {
    assert s == s[..i] + [s[i]] + s[i + 1..];
  }
}
