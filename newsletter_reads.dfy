/**
 * Read marks of newsletters (convex/newsletterReads.ts): marking a newsletter read, at most
 * once per user, and listing the newsletters of a circle published within a month. The read
 * lookup by the by_user_newsletter index is shared with the newsletter and circle queries.
 */
module NewsletterReads {
  import opened Wrappers
  import opened Calendar
  import opened Store
  import Access

  // ---------------------------------------------------------------------------------
  // Read records

  predicate ReadOfUser(r: NewsletterRead, userId: Id, newsletterId: Id)
  {
    r.userId == userId && r.newsletterId == newsletterId
  }

  function ReadBy(userId: Id, newsletterId: Id): NewsletterRead -> bool
  {
    (r: NewsletterRead) => ReadOfUser(r, userId, newsletterId)
  }

  /** The earliest read record of the user for the newsletter (by_user_newsletter, `.first()`). */
  function ReadOf(marks: map<Id, NewsletterRead>, n: nat, userId: Id, newsletterId: Id): (r: Option<Id>)
    ensures r.Some? ==> r.value in marks && ReadOfUser(marks[r.value], userId, newsletterId)
    ensures r.None? <==> forall k :: k in marks && k < n ==> !ReadOfUser(marks[k], userId, newsletterId)
  {
    var rows := Rows(marks, n, ReadBy(userId, newsletterId));
    if |rows| == 0 then None else assert rows[0] in rows; Some(rows[0])
  }

  /** `isRead: !!read`: a read record of the user for the newsletter exists. */
  predicate IsRead(marks: map<Id, NewsletterRead>, n: nat, userId: Id, newsletterId: Id)
  {
    ReadOf(marks, n, userId, newsletterId).Some?
  }

  lemma IsReadIff(marks: map<Id, NewsletterRead>, n: nat, userId: Id, newsletterId: Id)
    requires Below(marks, n)
    ensures IsRead(marks, n, userId, newsletterId) <==>
              exists k :: k in marks && ReadOfUser(marks[k], userId, newsletterId)
  {
  }

  /** A user has at most one read record per newsletter. */
  ghost predicate OneReadPerNewsletter(marks: map<Id, NewsletterRead>)
  {
    forall a, b :: a in marks && b in marks && ReadOfUser(marks[a], marks[b].userId, marks[b].newsletterId) ==> a == b
  }

  /** A newsletter in a listing, with the caller's read status. */
  datatype NewsletterItem = NewsletterItem(id: Id, newsletter: Newsletter, isRead: bool)

  /** The ids of the listed newsletters, in listing order. */
  function ListedIds(items: seq<NewsletterItem>): (r: seq<Id>)
    ensures |r| == |items| && forall i :: 0 <= i < |items| ==> r[i] == items[i].id
  {
    seq(|items|, i requires 0 <= i < |items| => items[i].id)
  }

  function Items(ns: map<Id, Newsletter>, marks: map<Id, NewsletterRead>, n: nat, userId: Id, ids: seq<Id>): (r: seq<NewsletterItem>)
    requires forall i :: 0 <= i < |ids| ==> ids[i] in ns
    ensures |r| == |ids| && ListedIds(r) == ids
    ensures forall i :: 0 <= i < |ids| ==> r[i] == NewsletterItem(ids[i], ns[ids[i]], IsRead(marks, n, userId, ids[i]))
  {
    seq(|ids|, i requires 0 <= i < |ids| => NewsletterItem(ids[i], ns[ids[i]], IsRead(marks, n, userId, ids[i])))
  }

  // ---------------------------------------------------------------------------------
  // markNewsletterRead

  /**
   * markNewsletterRead: the caller needs a membership row in the circle (left or not); an
   * existing read record is returned as it is, otherwise one is inserted at time now.
   * Either way the returned record is the one a repeated call finds, so a repeat inserts
   * nothing, and no user ever gets a second record for one newsletter.
   */
  method MarkNewsletterRead(db: Database, caller: Id, circleId: Id, newsletterId: Id, now: int) returns (r: Result<Id>)
    requires db.Valid()
    modifies db`newsletterReads, db`nextId
    ensures db.Valid()
    ensures Access.RequireAnyMembership(old(db.memberships), old(db.nextId), caller, circleId).Err? ==>
              r == Err(Access.NotAMember) &&
              db.newsletterReads == old(db.newsletterReads) && db.nextId == old(db.nextId)
    ensures Access.RequireAnyMembership(old(db.memberships), old(db.nextId), caller, circleId).Ok? &&
            ReadOf(old(db.newsletterReads), old(db.nextId), caller, newsletterId).Some? ==>
              r == Ok(ReadOf(old(db.newsletterReads), old(db.nextId), caller, newsletterId).value) &&
              db.newsletterReads == old(db.newsletterReads) && db.nextId == old(db.nextId)
    ensures Access.RequireAnyMembership(old(db.memberships), old(db.nextId), caller, circleId).Ok? &&
            ReadOf(old(db.newsletterReads), old(db.nextId), caller, newsletterId).None? ==>
              r == Ok(old(db.nextId)) && db.nextId == old(db.nextId) + 1 &&
              db.newsletterReads == old(db.newsletterReads)[r.value := NewsletterRead(caller, circleId, newsletterId, now)]
    ensures r.Ok? ==> ReadOf(db.newsletterReads, db.nextId, caller, newsletterId) == Some(r.value)
    ensures OneReadPerNewsletter(old(db.newsletterReads)) ==> OneReadPerNewsletter(db.newsletterReads)
  {
    var membership := Access.RequireAnyMembership(db.memberships, db.nextId, caller, circleId);
    if membership.Err? {
      return Err(membership.msg);
    }
    var existing := ReadOf(db.newsletterReads, db.nextId, caller, newsletterId);
    if existing.Some? {
      return Ok(existing.value);
    }
    var id := InsertFirstRead(db, NewsletterRead(caller, circleId, newsletterId, now));
    r := Ok(id);
  }

  /** The insert branch of MarkNewsletterRead: the first record of a user for a newsletter. */
  method InsertFirstRead(db: Database, row: NewsletterRead) returns (id: Id)
    requires db.Valid() && ReadOf(db.newsletterReads, db.nextId, row.userId, row.newsletterId).None?
    modifies db`newsletterReads, db`nextId
    ensures db.Valid()
    ensures id == old(db.nextId) && db.nextId == id + 1 && db.newsletterReads == old(db.newsletterReads)[id := row]
    ensures ReadOf(db.newsletterReads, db.nextId, row.userId, row.newsletterId) == Some(id)
    ensures OneReadPerNewsletter(old(db.newsletterReads)) ==> OneReadPerNewsletter(db.newsletterReads)
  {
    ReadAfterInsert(db.newsletterReads, db.nextId, row);
    id := db.InsertNewsletterRead(row);
  }

  /**
   * Inserting the first read record of a user for a newsletter: the lookup then finds it,
   * and uniqueness is kept.
   */
  lemma ReadAfterInsert(marks: map<Id, NewsletterRead>, n: nat, row: NewsletterRead)
    requires Below(marks, n) && ReadOf(marks, n, row.userId, row.newsletterId).None?
    ensures ReadOf(marks[n := row], n + 1, row.userId, row.newsletterId) == Some(n)
    ensures OneReadPerNewsletter(marks) ==> OneReadPerNewsletter(marks[n := row])
  {
    var p := ReadBy(row.userId, row.newsletterId);
    RowsInsert(marks, n, row, p);
    assert Rows(marks, n, p) == [];
    assert Rows(marks[n := row], n + 1, p) == [n];
    InsertKeepsOneRead(marks, n, row);
  }

  lemma InsertKeepsOneRead(marks: map<Id, NewsletterRead>, n: nat, row: NewsletterRead)
    requires n !in marks
    requires forall k :: k in marks ==> !ReadOfUser(marks[k], row.userId, row.newsletterId)
    ensures OneReadPerNewsletter(marks) ==> OneReadPerNewsletter(marks[n := row])
  {
  }

  // ---------------------------------------------------------------------------------
  // getNewslettersByDate

  /** new Date(year, month0, 1).getTime(), the local time zone taken as UTC. */
  function StartOfMonth(year: int, month0: int): Option<int>
  {
    UtcTime(year, month0, 1, 0, 0, 0)
  }

  /** new Date(year, month0 + 1, 0, 23, 59, 59, 999).getTime(): the last millisecond of the month. */
  function EndOfMonth(year: int, month0: int): Option<int>
  {
    TimeClip(DateUtc(FullYear(year), month0 + 1, 0, 23, 59, 59) + 999)
  }

  /** The filter: publishedAt is truthy and lies within both bounds, each inclusive (NaN compares false). */
  predicate PublishedWithin(nl: Newsletter, start: Option<int>, end: Option<int>)
  {
    Truthy(nl.publishedAt) && start.Some? && end.Some? &&
    start.value <= nl.publishedAt.value <= end.value
  }

  function InMonthOf(circleId: Id, start: Option<int>, end: Option<int>): Newsletter -> bool
  {
    (nl: Newsletter) => nl.circleId == circleId && PublishedWithin(nl, start, end)
  }

  /**
   * getNewslettersByDate: the caller needs a membership row; the circle's newsletters
   * published within the month, in index order, each with the caller's read status.
   */
  function GetNewslettersByDate(ms: map<Id, Membership>, ns: map<Id, Newsletter>, marks: map<Id, NewsletterRead>,
                                n: nat, caller: Id, circleId: Id, year: int, month0: int): (r: Result<seq<NewsletterItem>>)
    requires Below(ns, n)
    ensures Access.RequireAnyMembership(ms, n, caller, circleId).Err? ==> r == Err(Access.NotAMember)
    ensures Access.RequireAnyMembership(ms, n, caller, circleId).Ok? ==> r.Ok?
    ensures r.Ok? ==> forall k :: k in ListedIds(r.value) <==>
              k in ns && ns[k].circleId == circleId &&
              PublishedWithin(ns[k], StartOfMonth(year, month0), EndOfMonth(year, month0))
    ensures r.Ok? ==> forall i :: 0 <= i < |r.value| ==>
              r.value[i].id in ns && r.value[i].newsletter == ns[r.value[i].id] &&
              r.value[i].isRead == IsRead(marks, n, caller, r.value[i].id)
    ensures r.Ok? ==> forall i, j :: 0 <= i < j < |r.value| ==> r.value[i].id < r.value[j].id
  {
    match Access.RequireAnyMembership(ms, n, caller, circleId)
    case Err(e) => Err(e)
    case Ok(_) =>
      var ids := Rows(ns, n, InMonthOf(circleId, StartOfMonth(year, month0), EndOfMonth(year, month0)));
      Ok(Items(ns, marks, n, caller, ids))
  }

  /**
   * For a month of the years 100 to 9999 the bounds are defined and the window is exactly
   * the UTC month: a time lies within them if and only if its UTC date is in that month.
   */
  lemma MonthWindowIff(year: int, month0: int, t: int)
    requires 100 <= year <= 9999 && 0 <= month0 <= 11
    ensures StartOfMonth(year, month0).Some? && EndOfMonth(year, month0).Some?
    ensures StartOfMonth(year, month0).value <= t <= EndOfMonth(year, month0).value <==>
              UtcDate(t).year == year && UtcDate(t).month == month0 + 1
  {
    var m := month0 + 1;
    var s := DayNumber(Date(year, m, 1));
    var dim := DaysInMonth(year, m);
    MonthBounds(year, month0);
    DayRange(t, s, s + dim);
    InMonthIff(year, m, Day(t));
  }

  /** The bounds of the month in days: its first day and the day after its last. */
  lemma MonthBounds(year: int, month0: int)
    requires 100 <= year <= 9999 && 0 <= month0 <= 11
    ensures var s := DayNumber(Date(year, month0 + 1, 1));
            StartOfMonth(year, month0) == Some(s * MsPerDay) &&
            EndOfMonth(year, month0) == Some((s + DaysInMonth(year, month0 + 1)) * MsPerDay - 1)
  {
    var m := month0 + 1;
    var s := DayNumber(Date(year, m, 1));
    MakeDayInMonth(year, m, 1);
    DayBounds(year, m, 1);
    var e := MakeDay(year, m, 0);
    LastDayOfMonth(year, m);
    assert FullYear(year) == year;
    var start := DateUtc(year, month0, 1, 0, 0, 0);
    assert start == s * MsPerDay;
    assert -MaxTime <= start <= MaxTime;
    var end := DateUtc(year, month0 + 1, 0, 23, 59, 59) + 999;
    assert end == (e + 1) * MsPerDay - 1;
    assert -MaxTime <= end <= MaxTime;
  }

  /** A time lies in the days a..b-1 exactly when its day number does. */
  lemma DayRange(t: int, a: int, b: int)
    ensures a * MsPerDay <= t <= b * MsPerDay - 1 <==> a <= Day(t) < b
  {
  }

  /** Hence a newsletter is listed for a month exactly when it was published, at a nonzero time, in that UTC month. */
  lemma ByDateIsPublishedInMonth(ms: map<Id, Membership>, ns: map<Id, Newsletter>, marks: map<Id, NewsletterRead>,
                                 n: nat, caller: Id, circleId: Id, year: int, month0: int, k: Id)
    requires Below(ns, n) && 100 <= year <= 9999 && 0 <= month0 <= 11
    requires GetNewslettersByDate(ms, ns, marks, n, caller, circleId, year, month0).Ok?
    ensures k in ListedIds(GetNewslettersByDate(ms, ns, marks, n, caller, circleId, year, month0).value) <==>
              k in ns && ns[k].circleId == circleId && Truthy(ns[k].publishedAt) &&
              UtcDate(ns[k].publishedAt.value).year == year && UtcDate(ns[k].publishedAt.value).month == month0 + 1
  {
    if k in ns && Truthy(ns[k].publishedAt) {
      MonthWindowIff(year, month0, ns[k].publishedAt.value);
    }
  }
}
