# agenda-shows in Dafny

A model of the logic of *agenda-shows*, a small React Native app that keeps
an in-memory list of live shows. Each show has a title, a date written
`DD/MM/YYYY`, a time written `HH:MM`, a city, a venue address and a banner
image URI. The app has three screens:

- the list screen (`ShowsScreen`). It labels each show with a time of day
  (`getTurno`) and a status, "ativo" or "finalizado" (`getStatus`). It opens
  a Google Maps search for the venue (`openMaps`) and deletes a show by its
  position (`deleteShow`).
- the create screen (`AddShowScreen`). It has a form of six cells and a
  banner picked from the image library. `addShow` appends the record only
  when no cell is empty.
- the edit screen (`EditShowScreen`). Its form is pre-filled from the show at
  the route's index. `saveShow` replaces that position, under the same guard.

The modules follow that structure:

- `App`: the `Show` record, the six `Field`s, the guard `Complete`, and
  `ShowStore`. `ShowStore` is a class holding the one `shows` state of the
  application root; its setter replaces the whole list.
- `ShowsScreen`, `AddShowScreen`, `EditShowScreen`: one module per screen.
  - The form cells are fields of the classes `AddShowForm` and
    `EditShowForm`.
  - The handlers are methods that change those cells or the store.
  - Each handler's new state is tied to a specification function
    (`Appended`, `Replaced`, the spliced sequence), and the lemmas beside it
    prove what the app promises about that function.
  - `getTurno` and `getStatus` are pure functions.
- `JsString`, `JsUri`, `JsDate`, `JsArray`: the JavaScript built-ins the
  screens rely on, written after their ECMA-262 definitions.
  - `String.prototype.trim`, `split` on one character, and `parseInt`
    with radix 10.
  - `Number` on strings of digits.
  - `encodeURIComponent` on ASCII, with a percent-decoder as its inverse.
  - A `Date` built by `new Date(y, m, d)`, using the calendar arithmetic of
    section 21.4.1 of ECMA-262: `DayFromYear`, `MakeDay` with month carry,
    `MakeDate` and `TimeClip`, and years 0 to 99 read as 1900 to 1999.
  - The array spread copy and the element-moving loop of
    `splice(index, 1)`.
- `Scenarios`: whole interactions across the screens, starting from the
  empty list.

The clock read of `getStatus` is the parameter `today`, a calendar date with
a 1-based month. The local time zone is taken to be UTC. The image library's
answer is the value `Canceled | Picked(uri)`.

## Model

| member | source | states |
|---|---|---|
| `App.WithField` | screens/AddShowScreen.tsx:22-27 | setting one form cell changes that field to the new text and leaves the other five as they were |
| `App.CompleteMeansEveryField` | screens/AddShowScreen.tsx:43 | the guard of the forms holds exactly when none of the six fields is the empty string |
| `App.ShowStore.constructor` | App.tsx:26 | the shared list of shows starts empty |
| `App.ShowStore.SetShows` | App.tsx:26 | the setter replaces the stored list with the given one |
| `JsArray.Spread` | screens/ShowsScreen.tsx:57 | `[...shows]` is a fresh array holding the shows in order, so writes to it cannot reach the stored list |
| `JsArray.SpliceOne` | screens/ShowsScreen.tsx:58 | `splice(index, 1)` returns the one-element array of the removed element, shortens the array by one, keeps the elements before `index` and moves each later one a place down |
| `JsString.TrimStart` | screens/ShowsScreen.tsx:31 | the result is a suffix of the input, everything removed is white space, and the result does not start with white space |
| `JsString.TrimEnd` | screens/ShowsScreen.tsx:31 | the result is a prefix of the input, everything removed is white space, and the result does not end with white space |
| `JsString.TrimStartOfWhiteSpace` | screens/ShowsScreen.tsx:31 | trimming a string of white space alone gives the empty string |
| `JsString.TrimStartAppend` | screens/ShowsScreen.tsx:31 | trimming the front of `s + t` removes `s` entirely when it is all white space and touches only `s` otherwise |
| `JsString.TrimEndWhiteSpaceSuffix` | screens/ShowsScreen.tsx:31 | white space appended to a string is removed by trimming its end |
| `JsString.TrimEndAppend` | screens/ShowsScreen.tsx:31 | trimming the end of `a + b` touches only `b` when `b` is not all white space |
| `JsString.TrimEndKeepsFirst` | screens/ShowsScreen.tsx:31 | trimming the end keeps a first character that is not white space |
| `JsString.TrimSurrounded` | screens/ShowsScreen.tsx:31 | `trim` removes white space added on both sides: `trim(ws1 + s + ws2) == trim(s)` |
| `JsString.TrimKeepsCharacters` | screens/ShowsScreen.tsx:31-32 | every character of the trimmed string occurs in the original, so trimming cannot create a `:` |
| `JsString.Split` | screens/ShowsScreen.tsx:33 | `split` on one character gives at least one part, and no part contains the separator |
| `JsString.SplitWithoutSeparator` | screens/ShowsScreen.tsx:33 | a string without the separator splits into itself alone |
| `JsString.SplitAtSeparator` | screens/ShowsScreen.tsx:33 | splitting `a`, then the separator, then `t`, where `a` has no separator, gives `a` followed by the parts of `t` |
| `JsString.JoinSplit` | screens/ShowsScreen.tsx:33 | joining the parts of a split with the separator gives back the string |
| `JsString.SplitJoin` | screens/ShowsScreen.tsx:33 | splitting the join of a non-empty list of parts, none containing the separator, gives back those parts |
| `JsString.SplitDigits` | screens/ShowsScreen.tsx:43 | splitting a text of digits and `/` on `/` gives parts made of digits only |
| `JsString.Decimal` | screens/ShowsScreen.tsx:34 | a natural number's decimal numeral is non-empty, all digits, and has no leading zero unless the number is 0 |
| `JsString.DecimalValue` | screens/ShowsScreen.tsx:34 | reading the decimal numeral of `n` gives back `n` |
| `JsString.LeadingZeroValue` | screens/ShowsScreen.tsx:43 | a leading `0` does not change the number a digit string denotes (`Number("01") == 1`) |
| `JsString.LeadingDigits` | screens/ShowsScreen.tsx:34 | the longest run of leading decimal digits: a prefix made of digits, followed by the end of the text or by a non-digit |
| `JsString.LeadingDigitsOf` | screens/ShowsScreen.tsx:34 | digits followed by anything that does not start with a digit have exactly those digits as leading run |
| `JsString.NumberOfDigits` | screens/ShowsScreen.tsx:43 | `Number` of a digit string is a natural number and `Number("")` is 0 |
| `JsString.ParseIntSkipsWhiteSpace` | screens/ShowsScreen.tsx:34 | `parseInt` ignores leading white space |
| `JsString.TrimStartOfSigned` | screens/ShowsScreen.tsx:34 | a sign followed by a digit is not white space, so `parseInt` starts reading there |
| `JsString.TrimStartUntouched` | screens/ShowsScreen.tsx:31 | a string that does not start with white space has nothing to trim at its front |
| `JsString.ParseSignedOf` | screens/ShowsScreen.tsx:34 | `parseInt` after a sign reads the digits behind it and negates them for `-` |
| `JsString.ParseDigitsOfPrefix` | screens/ShowsScreen.tsx:34 | a non-empty run of digits followed by a non-digit parses to the number of those digits |
| `JsString.ParseIntOfSigned` | screens/ShowsScreen.tsx:34 | `parseInt` of a sign and a digit string is the digits' value, negated for `-` |
| `JsString.ParseIntOfDigits` | screens/ShowsScreen.tsx:34 | `parseInt` of an optional sign, digits and trailing junk is the value of those digits with that sign |
| `JsString.ParseIntOfDecimal` | screens/ShowsScreen.tsx:34 | `parseInt` of a signed decimal numeral followed by junk gives that integer back |
| `JsString.ParseIntNaN` | screens/ShowsScreen.tsx:34-35 | without a digit after the optional sign, `parseInt` is `NaN` |
| `JsUri.HexDigit` | screens/ShowsScreen.tsx:22-24 | the encoder's hex digit for a value below 16 is one of `0`-`9`, `A`-`F`, and reads back as that value |
| `JsUri.EncodeChar` | screens/ShowsScreen.tsx:22-24 | an unreserved character or one of `! ' ( ) *` stays as it is; every other ASCII character becomes `%` followed by two upper-case hex digits whose value is its code |
| `JsUri.EncodeURIComponent` | screens/ShowsScreen.tsx:22-24 | every character of the encoded text is unescaped or `%` |
| `JsUri.DecodeEncode` | screens/ShowsScreen.tsx:22-24 | percent-decoding the encoding of an ASCII address gives back the address |
| `JsDate.TimeClip` | screens/ShowsScreen.tsx:44 | a time value is kept exactly when it lies within 8.64e15 ms of the epoch, and is `NaN` otherwise |
| `JsDate.DayFromYearStep` | screens/ShowsScreen.tsx:44 | each year begins where the one before it ends, after 365 or 366 days |
| `JsDate.DayFromYearOrder` | screens/ShowsScreen.tsx:44 | every day of a year comes before the first day of any later year |
| `JsDate.MonthOrder` | screens/ShowsScreen.tsx:44 | the months of a year come in order without overlapping |
| `JsDate.MonthsFillYear` | screens/ShowsScreen.tsx:44 | every month lies inside its year |
| `JsDate.MakeDayWithinYear` | screens/ShowsScreen.tsx:44 | a month from 0 to 11 does not carry into the year |
| `JsDate.DayNumberInYear` | screens/ShowsScreen.tsx:44 | the day number of a real date lies inside its year |
| `JsDate.DayNumberEarlierYear` | screens/ShowsScreen.tsx:44-47 | a real date in an earlier year has a smaller day number |
| `JsDate.DayNumberEarlierMonth` | screens/ShowsScreen.tsx:44-47 | a real date in an earlier month of the same year has a smaller day number |
| `JsDate.DayNumberStrict` | screens/ShowsScreen.tsx:44-47 | a strictly earlier real date has a strictly smaller day number |
| `JsDate.DayNumberOrder` | screens/ShowsScreen.tsx:44-47 | on real dates, the day number that `new Date` computes orders dates exactly as comparing (year, month, day) does |
| `JsDate.NextDayNumber` | screens/ShowsScreen.tsx:44-47 | the day after a real date is a real date whose day number is one more, across month and year ends |
| `JsDate.DayNumberBounded` | screens/ShowsScreen.tsx:44 | a real date from year 100 to 200000 is within 1e8 days of the epoch |
| `JsDate.NewDateOfValid` | screens/ShowsScreen.tsx:44-47 | `new Date(year, month - 1, day)` of a real date from year 100 to 200000 is midnight of its day, and nothing is clipped |
| `ShowsScreen.TurnoLabel` | screens/ShowsScreen.tsx:29-37 | the label is the empty string exactly for the unknown time of day, so the list shows a label for day and night only |
| `ShowsScreen.TurnoIgnoresSurroundingWhiteSpace` | screens/ShowsScreen.tsx:31 | white space added before and after the time does not change the label |
| `ShowsScreen.TurnoWithoutColon` | screens/ShowsScreen.tsx:30-32 | a time without `:` is unknown |
| `ShowsScreen.TextBeforeColon` | screens/ShowsScreen.tsx:31-33 | for a time that does not start with white space, the first part of the trimmed text split on `:` is the text before the first `:` |
| `ShowsScreen.TrimAroundColon` | screens/ShowsScreen.tsx:31 | trimming text that starts with non-white-space text and then `:` keeps that text and the colon in place |
| `ShowsScreen.TurnoReadsTextBeforeColon` | screens/ShowsScreen.tsx:31-36 | the label is `parseInt` of the text before the first `:`, classified, and unknown when that is `NaN` |
| `ShowsScreen.TurnoOfDigits` | screens/ShowsScreen.tsx:33-36 | with any run of digits before the `:` (leading zeros allowed, as in `07:00`; signed or not; trailing junk allowed) whose number is `h`, the label is day exactly when 6 <= h < 18 and night exactly otherwise |
| `ShowsScreen.TurnoOfLeadingInteger` | screens/ShowsScreen.tsx:33-36 | the same for an integer `h` written in decimal before the `:`: day exactly when 6 <= h < 18, night exactly otherwise |
| `ShowsScreen.TurnoWithoutLeadingInteger` | screens/ShowsScreen.tsx:33-35 | with no digit after the optional sign before the `:`, the label is unknown |
| `ShowsScreen.TurnoExampleEmpty` | screens/ShowsScreen.tsx:30 | the empty time is unknown |
| `ShowsScreen.TurnoExampleNoColon` | screens/ShowsScreen.tsx:32 | `"12"` is unknown |
| `ShowsScreen.TurnoExampleNoHour` | screens/ShowsScreen.tsx:33-35 | `":30"` is unknown |
| `ShowsScreen.TurnoExampleLetters` | screens/ShowsScreen.tsx:33-35 | `"ab:cd"` is unknown |
| `ShowsScreen.TurnoExampleEvening` | screens/ShowsScreen.tsx:34-36 | `"20:00"` is night |
| `ShowsScreen.TurnoExampleMorning` | screens/ShowsScreen.tsx:34-36 | `"07:00"` is day, read as hour 7 despite the leading zero |
| `ShowsScreen.TurnoExampleEarly` | screens/ShowsScreen.tsx:34-36 | `"05:30"` is night |
| `ShowsScreen.TurnoExampleTrailingJunk` | screens/ShowsScreen.tsx:34-36 | `"7x:00"` is day, read as hour 7 |
| `ShowsScreen.TurnoExampleTooLate` | screens/ShowsScreen.tsx:36 | `"25:00"` is night |
| `ShowsScreen.TurnoExampleNegative` | screens/ShowsScreen.tsx:34-36 | `"-1:00"` is night |
| `ShowsScreen.StatusOfEmpty` | screens/ShowsScreen.tsx:41 | an empty date is finished |
| `ShowsScreen.SplitDate` | screens/ShowsScreen.tsx:43 | three digit groups joined by `/` form a date text and split back into those three groups |
| `ShowsScreen.StatusSplitsDate` | screens/ShowsScreen.tsx:41-43 | a date of three digit groups is not empty and its status compares exactly those groups |
| `ShowsScreen.PartNumbers` | screens/ShowsScreen.tsx:43-44 | the destructured parts are the numbers of the day, month and year groups, and the month is made 0-based |
| `ShowsScreen.StatusComparesParts` | screens/ShowsScreen.tsx:43-49 | the status is active exactly when `new Date(year, month - 1, day)` is at least today's midnight |
| `ShowsScreen.EventDay` | screens/ShowsScreen.tsx:44 | the event's `Date` is midnight of the written day |
| `ShowsScreen.CompareMidnights` | screens/ShowsScreen.tsx:47 | two midnights compare with `>=` as their days compare in the calendar |
| `ShowsScreen.EventDateComparison` | screens/ShowsScreen.tsx:44-47 | the event's `Date` is at least today's midnight exactly when today is on or before the event's day |
| `ShowsScreen.StatusOfDate` | screens/ShowsScreen.tsx:40-50 | for a real date written `DD/MM/YYYY`, the status is active exactly when the date is on or after today, comparing (year, month, day) in that order |
| `ShowsScreen.StatusWithoutYear` | screens/ShowsScreen.tsx:43-49 | a date without a year (`DD` or `DD/MM`) is an Invalid Date, so its status is finished |
| `ShowsScreen.DateOfFormatted` | screens/ShowsScreen.tsx:43 | a calendar date written `DD/MM/YYYY` reads back as that date |
| `ShowsScreen.StatusToday` | screens/ShowsScreen.tsx:43-49 | an event today is active |
| `ShowsScreen.StatusTomorrow` | screens/ShowsScreen.tsx:43-49 | an event tomorrow is active |
| `ShowsScreen.StatusYesterday` | screens/ShowsScreen.tsx:43-49 | an event yesterday is finished |
| `ShowsScreen.MapsUrlQuery` | screens/ShowsScreen.tsx:22-24 | the maps URL is the search prefix followed by a query that decodes back to the address and has no space, `&`, `#` or `?` |
| `ShowsScreen.DeleteShow` | screens/ShowsScreen.tsx:56-60 | the stored list loses the show at `index`, and the others keep their order; a list of complete shows stays complete |
| `ShowsScreen.RemovedAt` | screens/ShowsScreen.tsx:58 | removing a position leaves one show fewer, the earlier shows in place, the later ones a position down, and exactly one occurrence of the removed show fewer |
| `AddShowScreen.BannerAfterPick` | screens/AddShowScreen.tsx:37-39 | a cancelled pick keeps the banner, and a completed pick sets it to the returned URI |
| `AddShowScreen.Appended` | screens/AddShowScreen.tsx:43-44 | with an empty field the list is unchanged; otherwise it grows by exactly one, the new last show is the form's record, and every earlier show keeps its position and value |
| `AddShowScreen.AddShowForm.constructor` | screens/AddShowScreen.tsx:22-27 | every cell of the create form starts empty |
| `AddShowScreen.AddShowForm.Edit` | screens/AddShowScreen.tsx:22-27 | a cell's setter changes only that field of the form's record |
| `AddShowScreen.AddShowForm.PickImage` | screens/AddShowScreen.tsx:37-39 | a pick changes only the banner, and only when it was not cancelled |
| `AddShowScreen.AddShowForm.AddShow` | screens/AddShowScreen.tsx:42-46 | the stored list becomes the guarded append of the form's record, taken verbatim |
| `AddShowScreen.WhiteSpaceFieldsPass` | screens/AddShowScreen.tsx:43-44 | any record whose six fields are non-empty white space passes the guard and is appended as it stands, untrimmed |
| `AddShowScreen.MissingFieldIgnored` | screens/AddShowScreen.tsx:43 | a record with any one empty field is not appended |
| `AddShowScreen.SubmitUntouchedForm` | screens/AddShowScreen.tsx:42-46 | saving before any input leaves the list unchanged |
| `EditShowScreen.Prefill` | screens/EditShowScreen.tsx:28-33 | the form starts as `shows[index]` when that position exists, and with every cell empty otherwise |
| `EditShowScreen.Replaced` | screens/EditShowScreen.tsx:49-52 | with an empty field the list is unchanged; otherwise position `index` holds the form's record; the length and every other position are unchanged either way |
| `EditShowScreen.EditShowForm.constructor` | screens/EditShowScreen.tsx:27-33 | the edit form keeps the route's index and starts pre-filled from the list |
| `EditShowScreen.EditShowForm.Edit` | screens/EditShowScreen.tsx:28-33 | a cell's setter changes only that field of the form's record |
| `EditShowScreen.EditShowForm.PickImage` | screens/EditShowScreen.tsx:43-45 | a pick changes only the banner, and only when it was not cancelled |
| `EditShowScreen.EditShowForm.SaveShow` | screens/EditShowScreen.tsx:48-54 | the stored list becomes the guarded replacement of position `index` by the form's record, made on a copy |
| `EditShowScreen.SaveUnchanged` | screens/EditShowScreen.tsx:28-52 | saving the pre-filled record gives back the list, whatever the index |
| `EditShowScreen.SaveWithoutEditing` | screens/EditShowScreen.tsx:27-54 | opening the edit screen and saving without changing a cell leaves the list unchanged |
| `Scenarios.FillAndSave` | screens/AddShowScreen.tsx:22-46 | typing each field and picking the banner, then saving, appends exactly that show under the guard |
| `Scenarios.AddBandA` | screens/ShowsScreen.tsx:29-50 | adding "Band A" (01/01/2099 at 20:00) to the empty list gives one show, active on any day up to its date and labelled as night |
| `Scenarios.AddTwoDeleteFirst` | screens/ShowsScreen.tsx:56-60 | adding two complete shows and deleting the first leaves the second alone |

## Left out

- Screen layout, styling, the list rendering and navigation (`navigate`, `goBack`) are not modelled. They hold no logic beyond calling the handlers.
- `Linking.openURL` is a call into the platform. The model stops at the URL it is given.
- `ImagePicker.launchImageLibraryAsync` is an asynchronous library call. Only its resolved answer is modelled, as `Canceled | Picked(uri)` with the first asset's URI.
- The input masks (`MaskInput`) are library code. `GetStatus` therefore requires the text the date mask produces: digits and `/` only. The `Number` coercion of any other character (white space, signs, hexadecimal, exponents) is not modelled.
- React's `useState` scheduling and batching are not modelled. Every setter is an immediate, wholesale replacement of its cell or of the list.
- Floating point is not modelled. `parseInt` and `Number` give unbounded integers. `-0`, `Infinity` and the rounding of very long digit runs are not told apart, and none of them changes the labels `getTurno` and `getStatus` produce.
- The clock read of `getStatus` is the parameter `today`. The local time zone and daylight-saving time are taken to be UTC.
- `encodeURIComponent` is modelled on ASCII only. The UTF-8 escapes of other characters and the `URIError` on lone surrogates are left out.
- ShowsScreen.MapsUrlQuery: requires an ASCII address, because the encoder is modelled on ASCII only.
- ShowsScreen.StatusOfDate: proved for real dates and today's dates with years from 100 to 200000, not for every year at or after 100. Beyond that range `TimeClip` starts to matter. Years written 0 to 99 are covered, read as 1900 to 1999. Dates that roll over (day 32, month 13) are computed by `GetStatus` as the code does, but the order theorem does not cover them.
- ShowsScreen.DeleteShow: requires `0 <= index < |shows|`. The list only offers the indices it renders. `splice` with a negative or out-of-range index is not modelled.
- EditShowScreen.EditShowForm.SaveShow: requires the index to be in range when the guard passes. Writing past the end of a JavaScript array makes it grow with holes, which is not modelled.
- The list is a sequence value, so the copy made before the splice or the assignment is shown to leave the stored list untouched only as value semantics. Aliasing of the original JavaScript array by other references is not modelled.
