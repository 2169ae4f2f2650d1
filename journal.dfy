/**
 * The journal's records and the listing queries over them: a writer's
 * entries, the favorites among them, and the newest-first window that the
 * dashboard fetches.
 */
module Journal {
  import opened Wrappers
  import opened Dates

  /** The external identity the users API reports for the signed-in account; also the writer's record id. */
  type UserId = string

  /** The datastore key of a Writer record, built from its id. */
  datatype WriterKey = WriterKey(id: UserId)

  /**
   * An Entry record. `favorite` is an optional boolean property: an entry
   * stored without it holds None, which is neither True nor False.
   */
  datatype Entry = Entry(
    title: string,
    date: Date,
    content: string,
    favorite: Option<bool>,
    writerKey: WriterKey)

  /** The number of entries the dashboard fetches. */
  const DASHBOARD_LIMIT := 9
  /** The number of entries the favorites page means to fetch. */
  const FAVORITES_LIMIT := 20

  // ---- the two filters ----

  /** The query `Entry.writer_key == key`. */
  predicate OwnedBy(e: Entry, key: WriterKey)
  {
    e.writerKey == key
  }

  /** The query `Entry.writer_key == key, Entry.favorite == True`: an unset flag does not match. */
  predicate IsFavoriteOf(e: Entry, key: WriterKey)
  {
    e.writerKey == key && e.favorite == Some(true)
  }

  /** The entries owned by `key`, in store order, each as often as it is stored. */
  function Owned(entries: seq<Entry>, key: WriterKey): (r: seq<Entry>)
    ensures |r| <= |entries|
  {
    if entries == [] then []
    else
      (if OwnedBy(entries[0], key) then [entries[0]] else []) + Owned(entries[1..], key)
  }

  /** The favorite entries of `key`, in store order, each as often as it is stored. */
  function Favorites(entries: seq<Entry>, key: WriterKey): (r: seq<Entry>)
    ensures |r| <= |entries|
  {
    if entries == [] then []
    else
      (if IsFavoriteOf(entries[0], key) then [entries[0]] else []) + Favorites(entries[1..], key)
  }

  /** The owner filter keeps every entry of `key` as often as it is stored and drops every other entry. */
  lemma {:induction false} OwnedCounts(entries: seq<Entry>, key: WriterKey, e: Entry)
    ensures multiset(Owned(entries, key))[e] == if OwnedBy(e, key) then multiset(entries)[e] else 0
  {
    if entries != [] {
      var head: seq<Entry> := if OwnedBy(entries[0], key) then [entries[0]] else [];
      OwnedCounts(entries[1..], key, e);
      assert entries == [entries[0]] + entries[1..];
      assert multiset(entries) == multiset{entries[0]} + multiset(entries[1..]);
      assert multiset(Owned(entries, key)) == multiset(head) + multiset(Owned(entries[1..], key));
    }
  }

  /** The favorites filter keeps every favorite of `key` as often as it is stored and drops every other entry. */
  lemma {:induction false} FavoritesCounts(entries: seq<Entry>, key: WriterKey, e: Entry)
    ensures multiset(Favorites(entries, key))[e] == if IsFavoriteOf(e, key) then multiset(entries)[e] else 0
  {
    if entries != [] {
      var head: seq<Entry> := if IsFavoriteOf(entries[0], key) then [entries[0]] else [];
      FavoritesCounts(entries[1..], key, e);
      assert entries == [entries[0]] + entries[1..];
      assert multiset(entries) == multiset{entries[0]} + multiset(entries[1..]);
      assert multiset(Favorites(entries, key)) == multiset(head) + multiset(Favorites(entries[1..], key));
    }
  }

  /** The owner filter selects only stored entries of `key`. */
  lemma OwnedMembers(entries: seq<Entry>, key: WriterKey)
    ensures forall e | e in Owned(entries, key) :: OwnedBy(e, key) && e in entries
  {
    forall e | e in Owned(entries, key) ensures OwnedBy(e, key) && e in entries {
      OwnedCounts(entries, key, e);
    }
  }

  /** The favorites filter selects only stored favorites of `key`. */
  lemma FavoritesMembers(entries: seq<Entry>, key: WriterKey)
    ensures forall e | e in Favorites(entries, key) :: IsFavoriteOf(e, key) && e in entries
  {
    forall e | e in Favorites(entries, key) ensures IsFavoriteOf(e, key) && e in entries {
      FavoritesCounts(entries, key, e);
    }
  }

  // ---- newest first ----

  /** The order `.order(-Entry.date)` promises: no entry is older than one after it. */
  predicate NewestFirst(s: seq<Entry>)
  {
    forall i, j :: 0 <= i < j < |s| ==> NotAfter(s[j].date, s[i].date)
  }

  /** `e` inserted into a sequence before the first entry not newer than it. */
  function Insert(e: Entry, s: seq<Entry>): (r: seq<Entry>)
    ensures multiset(r) == multiset(s) + multiset{e}
  {
    if s == [] || NotAfter(s[0].date, e.date) then [e] + s
    else
      assert s == [s[0]] + s[1..];
      [s[0]] + Insert(e, s[1..])
  }

  /** An entry put in front of a newest-first sequence of entries none newer than it keeps the order. */
  lemma PrependNewestFirst(x: Entry, s: seq<Entry>)
    requires NewestFirst(s)
    requires forall k :: 0 <= k < |s| ==> NotAfter(s[k].date, x.date)
    ensures NewestFirst([x] + s)
  {
    var r := [x] + s;
    forall i, j | 0 <= i < j < |r| ensures NotAfter(r[j].date, r[i].date) {
      assert r[j] == s[j - 1];
      if i > 0 {
        assert r[i] == s[i - 1];
      }
    }
  }

  /** Insertion keeps a sequence newest first. */
  lemma {:induction false} InsertNewestFirst(e: Entry, s: seq<Entry>)
    requires NewestFirst(s)
    ensures NewestFirst(Insert(e, s))
  {
    if s == [] || NotAfter(s[0].date, e.date) {
      forall k | 0 <= k < |s| ensures NotAfter(s[k].date, e.date) {
        if k > 0 {
          NotAfterIsTotalOrder(s[k].date, s[0].date, e.date);
        }
      }
      PrependNewestFirst(e, s);
    } else {
      var tail := s[1..];
      var rest := Insert(e, tail);
      NewestFirstTail(s);
      InsertNewestFirst(e, tail);
      NotAfterIsTotalOrder(e.date, s[0].date, s[0].date);
      forall k | 0 <= k < |rest| ensures NotAfter(rest[k].date, s[0].date) {
        var x := rest[k];
        assert x in multiset(rest);
        if x != e {
          assert x in multiset(tail);
          var j :| 0 <= j < |tail| && tail[j] == x;
          assert s[j + 1] == x;
        }
      }
      PrependNewestFirst(s[0], rest);
    }
  }

  /** The entries reordered newest first; entries with the same date keep no particular order. */
  function SortNewestFirst(s: seq<Entry>): (r: seq<Entry>)
    ensures NewestFirst(r)
    ensures multiset(r) == multiset(s)
  {
    if s == [] then []
    else
      assert s == [s[0]] + s[1..];
      var sortedTail := SortNewestFirst(s[1..]);
      InsertNewestFirst(s[0], sortedTail);
      Insert(s[0], sortedTail)
  }

  /**
   * What `.order(-Entry.date).fetch(limit)` may return for the entries `s`:
   * min(limit, |s|) of them, newest first, such that none left out is newer
   * than any returned. Ties between equal dates are unspecified.
   */
  ghost predicate IsNewestWindow(s: seq<Entry>, limit: nat, r: seq<Entry>)
  {
    && |r| == (if |s| <= limit then |s| else limit)
    && multiset(r) <= multiset(s)
    && NewestFirst(r)
    && forall x, y | x in multiset(s) - multiset(r) && y in r :: NotAfter(x.date, y.date)
  }

  /** In a newest-first sequence nothing after position `n` is newer than anything before it. */
  lemma SplitNewestFirst(sorted: seq<Entry>, n: nat)
    requires NewestFirst(sorted) && n <= |sorted|
    ensures forall x, y | x in sorted[n..] && y in sorted[..n] :: NotAfter(x.date, y.date)
  {
    forall x, y | x in sorted[n..] && y in sorted[..n] ensures NotAfter(x.date, y.date) {
      var j :| 0 <= j < |sorted| - n && sorted[n..][j] == x;
      var i :| 0 <= i < n && sorted[..n][i] == y;
      assert sorted[i] == y && sorted[n + j] == x;
    }
  }

  /** The first `n` entries of a newest-first ordering of `s` are a window of `s`. */
  lemma PrefixIsWindow(s: seq<Entry>, limit: nat, sorted: seq<Entry>, n: nat)
    requires NewestFirst(sorted) && multiset(sorted) == multiset(s)
    requires n == if |s| <= limit then |s| else limit
    ensures n <= |sorted| && IsNewestWindow(s, limit, sorted[..n])
  {
    assert |sorted| == |s| by {
      assert |multiset(sorted)| == |multiset(s)|;
    }
    var r := sorted[..n];
    var rest := sorted[n..];
    assert sorted == r + rest;
    assert multiset(s) - multiset(r) == multiset(rest);
    SplitNewestFirst(sorted, n);
    forall i, j | 0 <= i < j < |r| ensures NotAfter(r[j].date, r[i].date) {
      assert r[i] == sorted[i] && r[j] == sorted[j];
    }
  }

  /** One admissible result of `.order(-Entry.date).fetch(limit)`. */
  function Newest(s: seq<Entry>, limit: nat): (r: seq<Entry>)
    ensures IsNewestWindow(s, limit, r)
  {
    var sorted := SortNewestFirst(s);
    var n := if |s| <= limit then |s| else limit;
    PrefixIsWindow(s, limit, sorted, n);
    sorted[..n]
  }

  // ---- the listings ----

  /** The dashboard listing of `key`: its nine newest entries. */
  function DashboardListing(entries: seq<Entry>, key: WriterKey): (r: seq<Entry>)
    ensures IsNewestWindow(Owned(entries, key), DASHBOARD_LIMIT, r)
    ensures forall e | e in r :: OwnedBy(e, key) && e in entries
  {
    var r := Newest(Owned(entries, key), DASHBOARD_LIMIT);
    assert forall e | e in r :: e in multiset(Owned(entries, key));
    OwnedMembers(entries, key);
    r
  }

  /** The favorites listing the favorites page evidently means: the writer's twenty newest favorite entries. */
  function FavoritesListing(entries: seq<Entry>, key: WriterKey): (r: seq<Entry>)
    ensures IsNewestWindow(Favorites(entries, key), FAVORITES_LIMIT, r)
    ensures forall e | e in r :: IsFavoriteOf(e, key) && e in entries
  {
    var r := Newest(Favorites(entries, key), FAVORITES_LIMIT);
    assert forall e | e in r :: e in multiset(Favorites(entries, key));
    FavoritesMembers(entries, key);
    r
  }

  // ---- properties of the listings ----

  /** Appending an entry extends the owner's selection by it and leaves every other writer's selection alone. */
  lemma {:induction false} OwnedAppend(entries: seq<Entry>, e: Entry, key: WriterKey)
    ensures Owned(entries + [e], key) == Owned(entries, key) + (if OwnedBy(e, key) then [e] else [])
  {
    var last: seq<Entry> := if OwnedBy(e, key) then [e] else [];
    if entries == [] {
      assert [] + [e] == [e];
      assert [e][1..] == [];
      assert Owned([e], key) == last + Owned([], key);
    } else {
      var whole := entries + [e];
      var head: seq<Entry> := if OwnedBy(entries[0], key) then [entries[0]] else [];
      assert whole[0] == entries[0];
      assert whole[1..] == entries[1..] + [e];
      OwnedAppend(entries[1..], e, key);
      assert Owned(whole, key) == head + Owned(whole[1..], key);
      assert Owned(entries, key) == head + Owned(entries[1..], key);
      assert head + (Owned(entries[1..], key) + last) == (head + Owned(entries[1..], key)) + last;
    }
  }

  /** Appending an entry whose favorite flag is unset leaves every writer's favorites as they were. */
  lemma {:induction false} FavoritesAppendUnset(entries: seq<Entry>, e: Entry, key: WriterKey)
    requires e.favorite == None
    ensures Favorites(entries + [e], key) == Favorites(entries, key)
  {
    if entries == [] {
      assert [] + [e] == [e];
      assert [e][1..] == [];
      assert Favorites([e], key) == [] + Favorites([], key);
    } else {
      var whole := entries + [e];
      var head: seq<Entry> := if IsFavoriteOf(entries[0], key) then [entries[0]] else [];
      assert whole[0] == entries[0];
      assert whole[1..] == entries[1..] + [e];
      FavoritesAppendUnset(entries[1..], e, key);
      assert Favorites(whole, key) == head + Favorites(whole[1..], key);
    }
  }

  /** Entries none of which has its favorite flag set give every writer an empty favorites listing. */
  lemma {:induction false} NoFlagNoFavorites(entries: seq<Entry>, key: WriterKey)
    requires forall e | e in entries :: e.favorite == None
    ensures Favorites(entries, key) == [] && FavoritesListing(entries, key) == []
  {
    if entries != [] {
      assert entries[0] in entries;
      assert forall e | e in entries[1..] :: e in entries;
      NoFlagNoFavorites(entries[1..], key);
    }
  }

  /** A writer none of whose entries is stored has an empty selection. */
  lemma {:induction false} NoneOwned(entries: seq<Entry>, key: WriterKey)
    requires forall e | e in entries :: e.writerKey != key
    ensures Owned(entries, key) == []
  {
    if entries != [] {
      assert entries[0] in entries;
      assert forall e | e in entries[1..] :: e in entries;
      NoneOwned(entries[1..], key);
    }
  }

  /** A sub-multiset as large as the whole is the whole. */
  lemma SubMultisetOfSameSize(a: multiset<Entry>, b: multiset<Entry>)
    requires a <= b && |a| == |b|
    ensures a == b
  {
    assert b == a + (b - a);
    assert |b - a| == 0;
  }

  /** When there are no more entries than the limit, the window holds every one of them. */
  lemma WindowOfFewIsAll(s: seq<Entry>, limit: nat, r: seq<Entry>)
    requires IsNewestWindow(s, limit, r)
    requires |s| <= limit
    ensures multiset(r) == multiset(s)
    ensures forall e | e in s :: e in r
  {
    SubMultisetOfSameSize(multiset(r), multiset(s));
    assert forall e | e in s :: e in multiset(s);
  }

  /** A writer with room under the limit sees a newly added entry of theirs on the dashboard. */
  lemma NewEntryListedWhenRoom(entries: seq<Entry>, e: Entry)
    requires |Owned(entries, e.writerKey)| < DASHBOARD_LIMIT
    ensures e in DashboardListing(entries + [e], e.writerKey)
  {
    var key := e.writerKey;
    OwnedAppend(entries, e, key);
    var s := Owned(entries + [e], key);
    assert e in s;
    WindowOfFewIsAll(s, DASHBOARD_LIMIT, DashboardListing(entries + [e], key));
  }

  /** While a writer has at most twenty favorites, every one of them is on the favorites listing. */
  lemma FavoriteListedWhenRoom(entries: seq<Entry>, key: WriterKey, e: Entry)
    requires e in entries && IsFavoriteOf(e, key)
    requires |Favorites(entries, key)| <= FAVORITES_LIMIT
    ensures e in FavoritesListing(entries, key)
  {
    FavoritesCounts(entries, key, e);
    assert e in multiset(entries);
    WindowOfFewIsAll(Favorites(entries, key), FAVORITES_LIMIT, FavoritesListing(entries, key));
  }

  /** An entry of `s` is in a non-empty window unless the window's first entry is another entry at least as new. */
  lemma InWindowOrOutdated(s: seq<Entry>, limit: nat, r: seq<Entry>, e: Entry)
    requires IsNewestWindow(s, limit, r)
    requires limit >= 1 && e in s
    ensures r != []
    ensures e in r || (r[0] in s && r[0] != e && NotAfter(e.date, r[0].date))
  {
    if e !in r {
      var y := r[0];
      assert multiset(s)[e] >= 1 && multiset(r)[e] == 0;
      assert e in multiset(s) - multiset(r);
      assert y in multiset(s);
    }
  }

  /** A newly added entry dated after all of its writer's other entries is always on that writer's dashboard. */
  lemma NewestEntryIsListed(entries: seq<Entry>, e: Entry)
    requires forall x | x in Owned(entries, e.writerKey) :: !NotAfter(e.date, x.date)
    ensures e in DashboardListing(entries + [e], e.writerKey)
  {
    var key := e.writerKey;
    OwnedAppend(entries, e, key);
    var s := Owned(entries + [e], key);
    assert s == Owned(entries, key) + [e];
    InWindowOrOutdated(s, DASHBOARD_LIMIT, DashboardListing(entries + [e], key), e);
  }

  /** Adding an entry changes no other writer's dashboard. */
  lemma OtherDashboardsUnchanged(entries: seq<Entry>, e: Entry, key: WriterKey)
    requires key != e.writerKey
    ensures DashboardListing(entries + [e], key) == DashboardListing(entries, key)
  {
    OwnedAppend(entries, e, key);
    assert Owned(entries, key) + [] == Owned(entries, key);
  }

  /** Adding an entry whose favorite flag is unset changes no writer's favorites. */
  lemma FavoritesUnchangedByUnsetEntry(entries: seq<Entry>, e: Entry, key: WriterKey)
    requires e.favorite == None
    ensures FavoritesListing(entries + [e], key) == FavoritesListing(entries, key)
  {
    FavoritesAppendUnset(entries, e, key);
  }

  // ---- the window is determined when dates are distinct ----

  /** No two stored entries share a date. */
  predicate DistinctDates(s: seq<Entry>)
  {
    forall i, j :: 0 <= i < j < |s| ==> s[i].date != s[j].date
  }

  /** With distinct dates an entry occurs at most once, and equal dates mean equal entries. */
  lemma DistinctDatesIdentify(s: seq<Entry>)
    requires DistinctDates(s)
    ensures forall x | x in s :: multiset(s)[x] == 1
    ensures forall x, y | x in s && y in s && x.date == y.date :: x == y
  {
    forall x | x in s ensures multiset(s)[x] == 1 {
      var i :| 0 <= i < |s| && s[i] == x;
      assert s == s[..i] + [x] + s[i + 1..];
      assert x !in s[..i];
      assert x !in s[i + 1..];
    }
    forall x, y | x in s && y in s && x.date == y.date ensures x == y {
      var i :| 0 <= i < |s| && s[i] == x;
      var j :| 0 <= j < |s| && s[j] == y;
      assert i == j;
    }
  }

  lemma NewestFirstTail(a: seq<Entry>)
    requires NewestFirst(a) && a != []
    ensures NewestFirst(a[1..])
  {
    forall i, j | 0 <= i < j < |a| - 1 ensures NotAfter(a[1..][j].date, a[1..][i].date) {
      assert a[1..][i] == a[i + 1] && a[1..][j] == a[j + 1];
    }
  }

  /** The first of a non-empty newest-first sequence is at least as new as any of its entries. */
  lemma HeadIsNewest(a: seq<Entry>, x: Entry)
    requires NewestFirst(a) && x in a
    ensures NotAfter(x.date, a[0].date)
  {
    var i :| 0 <= i < |a| && a[i] == x;
    if i > 0 {
      assert NotAfter(a[i].date, a[0].date);
    }
  }

  /** Two newest-first sequences with the same entries, where equal dates mean equal entries, are the same sequence. */
  lemma {:induction false} NewestFirstUnique(a: seq<Entry>, b: seq<Entry>)
    requires forall i, j :: 0 <= i < |a| && 0 <= j < |b| && a[i].date == b[j].date ==> a[i] == b[j]
    requires multiset(a) == multiset(b)
    requires NewestFirst(a) && NewestFirst(b)
    ensures a == b
    decreases |a|
  {
    assert |a| == |multiset(a)| == |b|;
    if a != [] {
      SameHead(a, b);
      NewestFirstTail(a);
      NewestFirstTail(b);
      forall i, j | 0 <= i < |a| - 1 && 0 <= j < |b| - 1 && a[1..][i].date == b[1..][j].date
        ensures a[1..][i] == b[1..][j]
      {
        assert a[1..][i] == a[i + 1] && b[1..][j] == b[j + 1];
      }
      NewestFirstUnique(a[1..], b[1..]);
      assert a == [a[0]] + a[1..] && b == [b[0]] + b[1..];
    }
  }

  /** Two such sequences start with the same entry and continue with the same entries. */
  lemma SameHead(a: seq<Entry>, b: seq<Entry>)
    requires a != [] && b != []
    requires a[0].date == b[0].date ==> a[0] == b[0]
    requires multiset(a) == multiset(b)
    requires NewestFirst(a) && NewestFirst(b)
    ensures a[0] == b[0] && multiset(a[1..]) == multiset(b[1..])
  {
    assert a[0] in multiset(b) && b[0] in multiset(a);
    HeadIsNewest(b, a[0]);
    HeadIsNewest(a, b[0]);
    NotAfterIsTotalOrder(a[0].date, b[0].date, b[0].date);
    assert a == [a[0]] + a[1..] && b == [b[0]] + b[1..];
    assert multiset(a[1..]) == multiset(a) - multiset{a[0]};
    assert multiset(b[1..]) == multiset(b) - multiset{b[0]};
  }

  /** With distinct dates, two windows of the same entries hold the same entries. */
  lemma WindowsAgree(s: seq<Entry>, limit: nat, r1: seq<Entry>, r2: seq<Entry>)
    requires DistinctDates(s)
    requires IsNewestWindow(s, limit, r1) && IsNewestWindow(s, limit, r2)
    ensures multiset(r1) == multiset(r2)
  {
    DistinctDatesIdentify(s);
    var m1, m2, ms := multiset(r1), multiset(r2), multiset(s);
    if m1 != m2 {
      if m2 <= m1 {
        SubMultisetOfSameSize(m2, m1);
      }
      var y :| m2[y] > m1[y];
      if m1 <= m2 {
        SubMultisetOfSameSize(m1, m2);
      }
      var x :| m1[x] > m2[x];
      assert x in s && y in s;
      assert m1[x] == 1 && m2[x] == 0 && m2[y] == 1 && m1[y] == 0;
      assert x in ms - m2 && y in r2;
      assert y in ms - m1 && x in r1;
      NotAfterIsTotalOrder(x.date, y.date, y.date);
    }
  }

  /**
   * When no two entries share a date the window is unique: it is exactly
   * the `limit` most recent entries, newest first.
   */
  lemma WindowIsUnique(s: seq<Entry>, limit: nat, r1: seq<Entry>, r2: seq<Entry>)
    requires DistinctDates(s)
    requires IsNewestWindow(s, limit, r1) && IsNewestWindow(s, limit, r2)
    ensures r1 == r2
  {
    WindowsAgree(s, limit, r1, r2);
    DistinctDatesIdentify(s);
    forall i, j | 0 <= i < |r1| && 0 <= j < |r2| && r1[i].date == r2[j].date ensures r1[i] == r2[j] {
      assert r1[i] in multiset(s) && r2[j] in multiset(s);
    }
    NewestFirstUnique(r1, r2);
  }
}
