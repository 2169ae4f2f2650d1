# A Daily Memoir: a Dafny model of the journaling handlers

A Daily Memoir is a small journaling web application on Google App Engine
(Python 2.7, webapp2, ndb). A signed-in user registers under a display
name and becomes a Writer; registering again replaces the name. After that
the user writes entries, each with a title, a date and some content. The
dashboard shows the writer's nine newest entries. A favorites page was meant to list the writer's favorite entries.

This project models the core of `main.py` and proves properties of the model:

- `wrappers.dfy` (`Wrappers`): the `Option` and `Result` values.
- `pytext.dfy` (`PyText`): Python 2.7's `unicode.split("-")` and base-10
  `int()`, which the entry form's date goes through. It also holds their
  partners: `Join`, and a zero-padded decimal spelling.
- `dates.dfy` (`Dates`): `datetime.date` validity, the date order, and
  `NewEntry.post`'s parse `datetime.date(int(f[0]), int(f[1]), int(f[2]))`.
  Errors are reported in the order Python raises them (`ParseDateFails`).
  `date.isoformat()` is the partner of the parse.
- `journal.dfy` (`Journal`): the Writer key and the Entry record.
  - The two queries: entries of a writer, and favorite entries of a writer.
  - `.order(-Entry.date).fetch(n)`, given as a specification
    (`IsNewestWindow`) and as one function that meets it (`Newest`).
  - The dashboard and favorites listings, and what appending an entry does
    to them.
- `handlers.dfy` (`Handlers`): the request handlers.
  - Handlers that only read are functions of the signed-in user, the Writer
    records and the stored entries: `Login.get`, `Registration.get`,
    `Dashboard.get` and `Favorites.get`.
  - The two handlers that write, `Registration.post` and `NewEntry.post`,
    are methods of the class `Datastore`. Its invariant `Valid` holds in
    every reachable store.
  - A Python exception that escapes a handler is the outcome `Crash`, with
    the reason.

Three behaviours of the code shape the model:
- `Registration.post` puts a Writer with the user's id on every submission,
  so a second submission replaces the name (main.py:90-94).
- `Registration.get` with nobody signed in raises at `user.user_id()`
  rather than rendering anything (main.py:77-78).
- `Favorites.get` never gets as far as a listing (see Findings). The
  intended listing, the writer's favorites newest first and at most 20,
  follows the query at main.py:134 and the `fetch(20)` at main.py:136.

## Model

| member | source | states |
|---|---|---|
| PyText.Split | main.py:147 | `split("-")` always yields at least one field, and no field contains the separator |
| PyText.JoinSplit | main.py:147 | joining the fields of a split with the separator gives back the original text |
| PyText.SplitJoin | main.py:147 | splitting a join of one or more separator-free fields gives back exactly those fields |
| PyText.SplitAppend | main.py:147 | text extended by a separator and a tail splits into the fields of the text followed by the fields of the tail |
| PyText.ParseInt | main.py:154 | Python 2.7 base-10 `int()`: it parses exactly the texts of `IsIntShape`, to their signed value (IntShapeParses and IntShapeOnly); anything else is a ValueError |
| PyText.IsIntShape | main.py:154 | the texts `int()` accepts: whitespace, an optional `+` or `-`, whitespace, one or more digits, whitespace |
| PyText.IntShapeOnly | main.py:154 | every text `int()` accepts has that shape, so text such as "5 x" or "2024-03-15 x" raises ValueError |
| PyText.IntShapeParses | main.py:154 | `int()` accepts whitespace, an optional `+` or `-`, whitespace, one or more digits and whitespace, and returns the digits' value, negated after `-` |
| PyText.TrailingJunkFails | main.py:154 | digits in that shape followed by a character that is neither digit nor whitespace raise ValueError |
| PyText.DigitsParse | main.py:154 | `int()` of a non-empty string of ASCII digits is the number those digits spell |
| PyText.NeedsDigit | main.py:154 | `int()` of text without a digit fails (ValueError) |
| PyText.SkipSpacesIsSuffix | main.py:154 | skipping `int()`'s leading whitespace leaves a suffix of the text |
| PyText.Decimal | main.py:154 | the decimal spelling of n is a non-empty digit string whose value is n |
| PyText.PaddedParses | main.py:154 | `int()` of a zero-padded decimal spelling of n gives back n |
| Dates.DaysInMonth | main.py:154 | month lengths as `datetime.date` checks them: 28 exactly for February of a common year, 29 exactly for February of a Gregorian leap year, 30 exactly for April, June, September and November, 31 otherwise |
| Dates.DaysInMonthMatchesTable | main.py:154 | each month length is the common-year table entry, plus one for February of a leap year |
| Dates.YearLength | main.py:154 | the month lengths add up to 366 days in a leap year and 365 otherwise |
| Dates.IsValidDate | main.py:154 | the arguments `datetime.date` accepts: year 1 to 9999, month 1 to 12, day 1 to the month's length |
| Dates.NotAfterIsTotalOrder | main.py:113 | the date order the listings sort by is reflexive, total, antisymmetric and transitive |
| Dates.FieldValue | main.py:154 | reading field i gives `int()` of that field when it exists and parses; a missing field is an IndexError (`MissingField(i)`) and only then, an unparsable one a ValueError (`NotAnInteger(i)`) |
| Dates.ParseDate | main.py:147-154 | a date the parse returns is a valid `datetime.date` |
| Dates.ParseDateAccepts | main.py:147-154 | the parse succeeds exactly when there are at least three fields, the first three are integers and they form a valid date, and it then returns that date |
| Dates.ParseDateFails | main.py:147-154 | the parse fails with `MissingField(i)` or `NotAnInteger(i)` exactly when fields before i parse and field i is missing or not an integer, and with `OutOfRange` exactly when three integers fail the calendar check |
| Dates.IgnoresExtraFields | main.py:147-154 | text with three fields parses the same whatever "-" and further fields follow |
| Dates.EmptyFails | main.py:147-154 | an empty date field fails at the first `int()` |
| Dates.DigitFieldsParse | main.py:154 | three digit fields joined by "-" give the date they spell, or fail the calendar check |
| Dates.IsoShapedParses | main.py:154 | "YYYY-MM-DD" in digits gives the date it spells, or fails the calendar check |
| Dates.ParsesIsoSubmission | main.py:147-154 | "2024-03-15" parses to 15 March 2024 |
| Dates.RejectsNonLeapDay | main.py:154 | "2023-02-29" fails the calendar check |
| Dates.RejectsWords | main.py:147-154 | "not-a-date" fails at the first `int()` |
| Dates.IsoFormatRoundTrip | main.py:147-154 | every valid date, spelled as `isoformat()` spells it, parses back to itself |
| Journal.Owned | main.py:111 | the query `writer_key == key` returns no more entries than are stored; its exact contents are stated by OwnedCounts |
| Journal.Favorites | main.py:134 | the query `writer_key == key, favorite == True` returns no more entries than are stored; its exact contents are stated by FavoritesCounts |
| Journal.OwnedCounts | main.py:111 | the query `writer_key == key` keeps each of the writer's entries as often as it is stored, and no other entry |
| Journal.OwnedMembers | main.py:111 | every entry the writer query returns is stored and belongs to the writer |
| Journal.FavoritesCounts | main.py:134 | the query `writer_key == key, favorite == True` keeps each favorite of the writer as often as it is stored, and no other entry; an unset flag does not match |
| Journal.FavoritesMembers | main.py:134 | every entry the favorites query returns is stored, belongs to the writer and is flagged favorite |
| Journal.Insert | main.py:113 | inserting an entry adds exactly that entry to the contents |
| Journal.InsertNewestFirst | main.py:113 | inserting into a newest-first sequence keeps it newest first |
| Journal.PrependNewestFirst | main.py:113 | putting an entry that is no older than any other in front keeps the order newest first |
| Journal.SortNewestFirst | main.py:113 | `.order(-Entry.date)`: the result is newest first and a permutation of the input |
| Journal.IsNewestWindow | main.py:113 | what `.order(-Entry.date).fetch(n)` may return: min(n, size) of the entries, newest first, none left out newer than one returned |
| Journal.SplitNewestFirst | main.py:113 | in a newest-first sequence nothing after a cut is newer than anything before it |
| Journal.PrefixIsWindow | main.py:113 | the first min(n, size) entries of a newest-first ordering are a valid result of `.fetch(n)` |
| Journal.Newest | main.py:113 | `.order(-Entry.date).fetch(n)` returns min(n, size) of the entries, newest first, and none left out is newer than one returned |
| Journal.DashboardListing | main.py:111-113 | the dashboard lists a newest-first window of nine of the writer's entries, and only the writer's stored entries |
| Journal.FavoritesListing | main.py:134-136 | the intended favorites listing is a newest-first window of twenty of the writer's favorites, and only those |
| Journal.OwnedAppend | main.py:111 | storing an entry adds it at the end of its writer's selection and leaves every other writer's selection unchanged |
| Journal.FavoritesAppendUnset | main.py:134 | storing an entry with the favorite flag unset changes no writer's favorites selection |
| Journal.NoneOwned | main.py:111 | a writer with no stored entry gets an empty owner query |
| Journal.NoFlagNoFavorites | main.py:134 | when no stored entry has the flag set, every writer's favorites are empty |
| Journal.WindowOfFewIsAll | main.py:113 | a writer with no more entries than the limit sees all of them |
| Journal.FavoriteListedWhenRoom | main.py:134-136 | a writer with at most twenty favorites sees every favorite on the intended favorites listing |
| Journal.NewEntryListedWhenRoom | main.py:111-113 | a writer with fewer than nine entries sees a newly stored one on the dashboard |
| Journal.InWindowOrOutdated | main.py:113 | an entry left out of a window has a different entry at least as new ahead of it |
| Journal.NewestEntryIsListed | main.py:111-113 | a newly stored entry dated after all of its writer's other entries is always on the dashboard |
| Journal.OtherDashboardsUnchanged | main.py:111-113 | storing an entry changes no other writer's dashboard listing |
| Journal.FavoritesUnchangedByUnsetEntry | main.py:134-136 | storing an entry with the flag unset changes no writer's favorites listing |
| Journal.DistinctDatesIdentify | main.py:113 | when stored dates are distinct, an entry is stored once and its date identifies it |
| Journal.NewestFirstTail | main.py:113 | the rest of a newest-first sequence after its first entry is newest first |
| Journal.HeadIsNewest | main.py:113 | the first entry of a newest-first sequence is at least as new as every entry in it |
| Journal.SameHead | main.py:113 | two newest-first orderings of the same entries start with the same entry when equal dates mean equal entries |
| Journal.NewestFirstUnique | main.py:113 | two newest-first orderings of the same entries are the same when equal dates mean equal entries |
| Journal.WindowsAgree | main.py:113 | with distinct dates, any two results of `.fetch(n)` hold the same entries |
| Journal.WindowIsUnique | main.py:113 | with distinct dates, `.order(-Entry.date).fetch(n)` has exactly one possible result |
| Handlers.LoginGet | main.py:57-73 | the login page exactly when nobody is signed in; otherwise a redirect to the dashboard exactly when the user is a writer, and to registration exactly when not |
| Handlers.RegistrationGet | main.py:76-83 | a crash with nobody signed in; a redirect to the dashboard exactly when the user is a writer; the form exactly when a signed-in user is not a writer |
| Handlers.DashboardGet | main.py:99-124 | a crash with nobody signed in or with no Writer; otherwise the page shows the writer's name and the nine-entry dashboard listing, all of them the writer's stored entries |
| Handlers.DashboardGetIntended | main.py:104-105 | with the redirect ending the handler, a signed-in user without a Writer goes to registration, and the page is otherwise as written |
| Handlers.DashboardRedirectIsLost | main.py:104-111 | for a signed-in user with no Writer the handler as written crashes, instead of redirecting to registration as the intended one and `Login.get` do |
| Handlers.FavoritesGet | main.py:128-138 | the favorites page as written always crashes: no user, no Writer, or the undefined name `all_entries` |
| Handlers.FavoritesGetIntended | main.py:133-136 | the intended page renders exactly for a writer, with a newest-first window of twenty of the writer's favorites; it fails as written otherwise |
| Handlers.NewEntryOnOwnDashboard | main.py:111-113 | a writer with fewer than nine entries finds a newly stored entry on the dashboard page |
| Handlers.NewEntryInvisibleToOthers | main.py:111-113 | storing an entry changes no other user's dashboard outcome |
| Handlers.FavoritesPageEmpty | main.py:134-136 | when no stored entry has the flag set, the intended favorites page is empty |
| Handlers.UnregisteredOwnsNothing | main.py:144-159 | in every reachable store a user without a Writer owns no entries, since `NewEntry.post` stores only entries of registered writers |
| Handlers.StoredFavoritesEmpty | main.py:134-136 | in every reachable store every writer's intended favorites page is empty, since `NewEntry.post` never sets the flag |
| Handlers.Datastore.RegistrationPost | main.py:84-95 | with nobody signed in, error 500 and nothing written; otherwise the user's Writer is stored with the submitted name, replacing any earlier one, and the user goes to the dashboard; entries never change |
| Handlers.Datastore.NewEntryPost | main.py:144-159 | a bad date, no user or no Writer raise in that order and store nothing; otherwise exactly one entry is appended, with the parsed date, no favorite flag and the user's Writer key, and the user goes to the dashboard; Writers never change |
| Handlers.SignUpAndWrite | main.py:84-124 | after registering and posting "2024-03-15", the user's dashboard shows the new entry under their name, the user's intended favorites page is empty, and another user's dashboard is unchanged |

## Left out

- URL routing (main.py:167-176) is left out. Each handler is modelled on its own.
- Templates and the HTML they produce are left out. A rendered page is the
  template's name and the values it is given.
- `Home.get`, `Collections.get` and `NewEntry.get` are left out. They render
  fixed templates and read nothing.
- The sign-in and sign-out links (main.py:62, main.py:70, main.py:108) are
  left out. They come from the users API and affect no state.
- The module-level `login_url` and `logout_url` (main.py:29-31) are left out.
  They are dead: the handlers assign locals of the same names.
- The users API is left out. It becomes the parameter `user`, the signed-in
  account's id if there is one.
- Form fields are left out. `request.get` becomes string parameters, and a
  missing field is the empty string (`EmptyFails` covers that case for the date).
- Datastore mechanics are left out: key allocation, eventual consistency,
  indexes, transactions, and the 1500-byte limit on string properties.
  The store is a map of Writers and a sequence of Entries.
- The race between two concurrent registrations is left out. Handlers run
  one at a time in the model.
- PyText.ParseInt: digits and whitespace beyond ASCII are left out. Python's
  `unicode` `int()` also maps other Unicode decimal digits and Unicode
  whitespace (such as U+0085, U+00A0 and U+3000) to ASCII first; the model
  treats them as not a number. All ASCII whitespace Python skips is modelled,
  the separators U+001C to U+001F included.
- PyText.ParseInt: does not model the overflow path of `int()` for values
  beyond the machine integer. Python re-parses those without allowing
  whitespace after the sign, so "- 99999999999999999999" is a ValueError
  there and a number here (either way the date is rejected, with
  `OutOfRange` in place of `NotAnInteger`).
- Journal.Newest: among entries with the same date, the datastore's order
  is unspecified. `IsNewestWindow` leaves it open, `Newest` picks one
  order, and `WindowIsUnique` shows the choice only matters when dates tie.
- Dates.ParseDate: does not distinguish ValueError from OverflowError for
  huge years. Both are `OutOfRange`.

## Findings

| source | as written | input that shows it | evidently intended | confidence | as-written member | corrected member |
|---|---|---|---|---|---|---|
| main.py:134-138 | `Favorites.get` fetches from `all_entries`, a name not defined in that method, so it raises NameError after building the favorites query | any signed-in writer requesting /favorites | list the writer's favorites, newest first, at most 20 | not executed | Handlers.FavoritesGet | Handlers.FavoritesGetIntended |
| main.py:104-111 | `Dashboard.get` calls `redirect('/registration')` without returning, then reads `writer.key` of the missing Writer and raises | a signed-in user with no Writer requesting /dashboard | end the handler with the redirect to registration | not executed | Handlers.DashboardRedirectIsLost | Handlers.DashboardGetIntended |
