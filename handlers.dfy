/**
 * The request handlers. The users API reduces to the current account's id,
 * if anyone is signed in; the datastore to a map from writer id to display
 * name and the sequence of stored entries. Handlers that only read are
 * functions of that state; the two that write are methods of Datastore.
 * A Python exception that escapes a handler is the outcome Crash.
 */
module Handlers {
  import opened Wrappers
  import opened Dates
  import opened Journal

  /** The Writer records: display name by user id. */
  type Writers = map<UserId, string>

  /** A rendered template and the values it is given (link markup is left out). */
  datatype Page =
    | LoginPage
    | RegistrationPage
    | DashboardPage(name: string, entries: seq<Entry>)
    | FavoritesPage(entries: seq<Entry>)

  /** The exception that ends a handler early. */
  datatype Fault =
    | NoCurrentUser              // AttributeError: `user.user_id()` with no signed-in user
    | NoWriter                   // AttributeError: `.key` or `.name` of a missing Writer
    | UndefinedName(name: string) // NameError
    | BadDate(error: DateError)  // the date parse raised

  datatype Outcome =
    | Render(page: Page)
    | Redirect(path: string)
    | Error500
    | Crash(fault: Fault)

  const DASHBOARD_PATH := "/dashboard"
  const REGISTRATION_PATH := "/registration"

  // ---- Login.get and Registration.get ----

  /** `Login.get`: the login page when nobody is signed in, otherwise on to the dashboard or to registration. */
  function LoginGet(user: Option<UserId>, writers: Writers): (o: Outcome)
    ensures o == Render(LoginPage) <==> user.None?
    ensures o == Redirect(DASHBOARD_PATH) <==> user.Some? && user.value in writers
    ensures o == Redirect(REGISTRATION_PATH) <==> user.Some? && user.value !in writers
  {
    match user
    case None => Render(LoginPage)
    case Some(id) => if id in writers then Redirect(DASHBOARD_PATH) else Redirect(REGISTRATION_PATH)
  }

  /** `Registration.get`: a registered writer goes to the dashboard, anyone else signed in gets the form. */
  function RegistrationGet(user: Option<UserId>, writers: Writers): (o: Outcome)
    ensures o == Crash(NoCurrentUser) <==> user.None?
    ensures o == Redirect(DASHBOARD_PATH) <==> user.Some? && user.value in writers
    ensures o == Render(RegistrationPage) <==> user.Some? && user.value !in writers
  {
    match user
    case None => Crash(NoCurrentUser)
    case Some(id) => if id in writers then Redirect(DASHBOARD_PATH) else Render(RegistrationPage)
  }

  // ---- Dashboard.get ----

  /**
   * `Dashboard.get` as written: the redirect for a missing writer does not
   * end the handler, so the following `writer.key` raises.
   */
  function DashboardGet(user: Option<UserId>, writers: Writers, entries: seq<Entry>): (o: Outcome)
    ensures user.None? ==> o == Crash(NoCurrentUser)
    ensures user.Some? && user.value !in writers ==> o == Crash(NoWriter)
    ensures o.Render? <==> user.Some? && user.value in writers
    ensures o.Render? ==>
      var key := WriterKey(user.value);
      && o.page.DashboardPage?
      && o.page.name == writers[user.value]
      && IsNewestWindow(Owned(entries, key), DASHBOARD_LIMIT, o.page.entries)
      && forall e | e in o.page.entries :: OwnedBy(e, key) && e in entries
  {
    match user
    case None => Crash(NoCurrentUser)
    case Some(id) =>
      if id !in writers then Crash(NoWriter)
      else Render(DashboardPage(writers[id], DashboardListing(entries, WriterKey(id))))
  }

  /** `Dashboard.get` as evidently intended: the redirect for a missing writer ends the handler. */
  function DashboardGetIntended(user: Option<UserId>, writers: Writers, entries: seq<Entry>): (o: Outcome)
    ensures user.None? ==> o == Crash(NoCurrentUser)
    ensures user.Some? && user.value !in writers ==> o == Redirect(REGISTRATION_PATH)
    ensures user.Some? && user.value in writers ==> o == DashboardGet(user, writers, entries)
  {
    match user
    case None => Crash(NoCurrentUser)
    case Some(id) =>
      if id !in writers then Redirect(REGISTRATION_PATH)
      else DashboardGet(user, writers, entries)
  }

  /** The one input on which the two differ: a signed-in user with no Writer record. */
  lemma DashboardRedirectIsLost(id: UserId, writers: Writers, entries: seq<Entry>)
    requires id !in writers
    ensures DashboardGet(Some(id), writers, entries) == Crash(NoWriter)
    ensures DashboardGetIntended(Some(id), writers, entries) == Redirect(REGISTRATION_PATH)
    ensures LoginGet(Some(id), writers) == DashboardGetIntended(Some(id), writers, entries)
  {
  }

  // ---- Favorites.get ----

  /**
   * `Favorites.get` as written: it builds the favorites query, then reads
   * the undefined name `all_entries`, so it never renders.
   */
  function FavoritesGet(user: Option<UserId>, writers: Writers, entries: seq<Entry>): (o: Outcome)
    ensures o.Crash?
    ensures user.None? ==> o == Crash(NoCurrentUser)
    ensures user.Some? && user.value !in writers ==> o == Crash(NoWriter)
    ensures user.Some? && user.value in writers ==> o == Crash(UndefinedName("all_entries"))
  {
    match user
    case None => Crash(NoCurrentUser)
    case Some(id) =>
      if id !in writers then Crash(NoWriter)
      else Crash(UndefinedName("all_entries"))
  }

  /** `Favorites.get` as evidently intended: the writer's twenty newest favorite entries. */
  function FavoritesGetIntended(user: Option<UserId>, writers: Writers, entries: seq<Entry>): (o: Outcome)
    ensures !o.Render? ==> o == FavoritesGet(user, writers, entries)
    ensures o.Render? <==> user.Some? && user.value in writers
    ensures o.Render? ==>
      var key := WriterKey(user.value);
      && o.page.FavoritesPage?
      && IsNewestWindow(Favorites(entries, key), FAVORITES_LIMIT, o.page.entries)
      && forall e | e in o.page.entries :: IsFavoriteOf(e, key) && e in entries
  {
    match user
    case None => Crash(NoCurrentUser)
    case Some(id) =>
      if id !in writers then Crash(NoWriter)
      else Render(FavoritesPage(FavoritesListing(entries, WriterKey(id))))
  }

  // ---- what a new entry changes on the pages ----

  /** A writer with fewer than nine entries finds a newly added one on the dashboard. */
  lemma NewEntryOnOwnDashboard(writers: Writers, entries: seq<Entry>, id: UserId, e: Entry)
    requires id in writers && e.writerKey == WriterKey(id)
    requires |Owned(entries, e.writerKey)| < DASHBOARD_LIMIT
    ensures var o := DashboardGet(Some(id), writers, entries + [e]);
      o.Render? && e in o.page.entries
  {
    NewEntryListedWhenRoom(entries, e);
  }

  /** A newly added entry changes nothing on any other user's dashboard. */
  lemma NewEntryInvisibleToOthers(writers: Writers, entries: seq<Entry>, e: Entry, other: UserId)
    requires e.writerKey != WriterKey(other)
    ensures DashboardGet(Some(other), writers, entries + [e]) == DashboardGet(Some(other), writers, entries)
  {
    if other in writers {
      OtherDashboardsUnchanged(entries, e, WriterKey(other));
    }
  }

  /** The entries these handlers store never set the favorite flag, so even the intended favorites page is empty. */
  lemma FavoritesPageEmpty(writers: Writers, entries: seq<Entry>, id: UserId)
    requires forall e | e in entries :: e.favorite == None
    requires id in writers
    ensures FavoritesGetIntended(Some(id), writers, entries) == Render(FavoritesPage([]))
  {
    NoFlagNoFavorites(entries, WriterKey(id));
  }

  // ---- the store and the two handlers that write to it ----

  /** The datastore's Writer and Entry records. */
  class Datastore {
    var writers: Writers
    var entries: seq<Entry>

    /**
     * What every reachable store satisfies: each entry belongs to a
     * registered writer, carries a valid date, and has no favorite flag
     * (no handler ever sets it).
     */
    ghost predicate Valid()
      reads this
    {
      forall e | e in entries :: e.writerKey.id in writers && Dates.Valid(e.date) && e.favorite == None
    }

    constructor ()
      ensures Valid()
      ensures writers == map[] && entries == []
    {
      writers := map[];
      entries := [];
    }

    /**
     * `Registration.post`: without a signed-in user, error 500 and no write;
     * otherwise the Writer with the user's id is stored with the submitted
     * name (replacing any earlier one) and the user goes to the dashboard.
     */
    method RegistrationPost(user: Option<UserId>, name: string) returns (o: Outcome)
      requires Valid()
      modifies this
      ensures Valid()
      ensures entries == old(entries)
      ensures user.None? ==> o == Error500 && writers == old(writers)
      ensures user.Some? ==> o == Redirect(DASHBOARD_PATH) && writers == old(writers)[user.value := name]
    {
      if user.None? {
        return Error500;
      }
      writers := writers[user.value := name];
      return Redirect(DASHBOARD_PATH);
    }

    /**
     * `NewEntry.post`: the date is parsed and the writer looked up before the
     * single write, so a failure of either stores nothing. On success one
     * entry is appended and the user goes to the dashboard.
     */
    method NewEntryPost(user: Option<UserId>, title: string, date: string, content: string)
      returns (o: Outcome)
      requires Valid()
      modifies this
      ensures Valid()
      ensures writers == old(writers)
      ensures ParseDate(date).Failure? ==> o == Crash(BadDate(ParseDate(date).error))
      ensures ParseDate(date).Success? && user.None? ==> o == Crash(NoCurrentUser)
      ensures ParseDate(date).Success? && user.Some? && user.value !in writers ==> o == Crash(NoWriter)
      ensures o.Redirect? <==> ParseDate(date).Success? && user.Some? && user.value in writers
      ensures !o.Redirect? ==> entries == old(entries)
      ensures o.Redirect? ==>
        && o == Redirect(DASHBOARD_PATH)
        && entries == old(entries) + [Entry(title, ParseDate(date).value, content, None, WriterKey(user.value))]
    {
      var parsed := ParseDate(date);
      if parsed.Failure? {
        return Crash(BadDate(parsed.error));
      }
      if user.None? {
        return Crash(NoCurrentUser);
      }
      if user.value !in writers {
        return Crash(NoWriter);
      }
      entries := entries + [Entry(title, parsed.value, content, None, WriterKey(user.value))];
      return Redirect(DASHBOARD_PATH);
    }
  }

  /** In a reachable store a user who has not registered owns no entries. */
  lemma UnregisteredOwnsNothing(store: Datastore, id: UserId)
    requires store.Valid() && id !in store.writers
    ensures Owned(store.entries, WriterKey(id)) == []
  {
    NoneOwned(store.entries, WriterKey(id));
  }

  /**
   * In a reachable store no entry has its favorite flag set, so every
   * writer's favorites page, even as intended, is empty.
   */
  lemma StoredFavoritesEmpty(store: Datastore, id: UserId)
    requires store.Valid() && id in store.writers
    ensures FavoritesGetIntended(Some(id), store.writers, store.entries) == Render(FavoritesPage([]))
  {
    FavoritesPageEmpty(store.writers, store.entries, id);
  }

  /**
   * A visit as a sequence of requests: sign up, post an entry, look at the
   * dashboard. The entry is listed for its writer and for nobody else,
   * and it is not among the writer's favorites.
   */
  method SignUpAndWrite(store: Datastore, id: UserId, other: UserId, name: string, date: string)
    returns (page: Outcome)
    requires store.Valid() && id != other && id !in store.writers
    requires date == "2024-03-15"
    modifies store
    ensures store.Valid()
    ensures LoginGet(Some(id), store.writers) == Redirect(DASHBOARD_PATH)
    ensures page.Render? && page.page.DashboardPage? && page.page.name == name
    ensures Entry("T", Date(2024, 3, 15), "C", None, WriterKey(id)) in page.page.entries
    ensures DashboardGet(Some(other), store.writers, store.entries)
         == DashboardGet(Some(other), store.writers, old(store.entries))
    ensures FavoritesGetIntended(Some(id), store.writers, store.entries) == Render(FavoritesPage([]))
  {
    assert LoginGet(Some(id), store.writers) == Redirect(REGISTRATION_PATH);
    UnregisteredOwnsNothing(store, id);
    var registered := store.RegistrationPost(Some(id), name);
    assert registered == Redirect(DASHBOARD_PATH);
    ParsesIsoSubmission(date);
    ghost var before := store.entries;
    var posted := store.NewEntryPost(Some(id), "T", date, "C");
    assert posted == Redirect(DASHBOARD_PATH);
    var e := Entry("T", Date(2024, 3, 15), "C", None, WriterKey(id));
    assert store.entries == before + [e];
    NewEntryOnOwnDashboard(store.writers, before, id, e);
    NewEntryInvisibleToOthers(store.writers, before, e, other);
    page := DashboardGet(Some(id), store.writers, store.entries);
    StoredFavoritesEmpty(store, id);
  }
}
