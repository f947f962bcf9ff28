/**
 * The daily recall sweep (`runOnce`): the users with an unacknowledged record
 * written exactly 6 or 12 months before today, and one notification per such
 * user carrying both lists. Only `Users_Rec` pairs of a record's own author
 * count as acknowledgments. The cron schedule that calls it, and the delivery
 * of a notification, are outside the model; the notifications are returned.
 */
module RecallNotifier {
  import opened Wrappers
  import opened Seqs
  import opened Dates
  import opened Tables
  import opened RecordRouter

  /** `LEFT JOIN Users_Rec ur ON ur.recId = r.id AND ur.userId = r.userId ... WHERE ur.id IS NULL`. */
  predicate NotRecalled(acks: set<(int, int)>, r: Record) {
    (r.userId, r.id) !in acks
  }

  /** A record the due query counts: unacknowledged and written on one of the two dates. */
  function DueRecord(acks: set<(int, int)>, six: Date, twelve: Date): Record -> bool {
    (r: Record) => NotRecalled(acks, r) && (r.createdAt.date == six || r.createdAt.date == twelve)
  }

  function UserOf(r: Record): int { r.userId }

  /** `GROUP BY r.userId HAVING c6 > 0 OR c12 > 0`: each due user once. */
  function DueUsers(records: seq<Record>, acks: set<(int, int)>, six: Date, twelve: Date): (us: seq<int>)
    ensures forall u :: u in us <==>
      exists r :: r in records && r.userId == u && NotRecalled(acks, r)
                  && (r.createdAt.date == six || r.createdAt.date == twelve)
    ensures Distinct(us)
  {
    var due := Filter(records, DueRecord(acks, six, twelve));
    var ids := Map(due, UserOf);
    assert forall u :: u in ids ==> exists r :: r in due && r.userId == u by {
      forall u | u in ids ensures exists r :: r in due && r.userId == u {
        var k :| 0 <= k < |ids| && ids[k] == u;
        assert due[k] in due;
      }
    }
    assert forall r :: r in due ==> r.userId in ids by {
      forall r | r in due ensures r.userId in ids {
        var k :| 0 <= k < |due| && due[k] == r;
        assert ids[k] == r.userId;
      }
    }
    Dedup(ids)
  }

  function BatchMatch(acks: set<(int, int)>, u: int, d: Date): Record -> bool {
    (r: Record) => r.userId == u && NotRecalled(acks, r) && r.createdAt.date == d
  }

  /** One of the two per-user queries: the user's unacknowledged records of
      date `d`, `ORDER BY r.created_at DESC` (ties in any order). */
  function Batch(records: seq<Record>, acks: set<(int, int)>, u: int, d: Date): (rows: seq<Record>)
    ensures forall r :: r in rows <==> r in records && r.userId == u && NotRecalled(acks, r) && r.createdAt.date == d
    ensures multiset(rows) == multiset(Filter(records, BatchMatch(acks, u, d)))
    ensures SortedBy(rows, NewerFirst)
  {
    NewerFirstTotalPreorder();
    SortByIsSorted(Filter(records, BatchMatch(acks, u, d)), NewerFirst);
    SortBy(Filter(records, BatchMatch(acks, u, d)), NewerFirst)
  }

  /** The argument of one `sendRecallNotification` call. */
  datatype Notification = Notification(userId: int, records6: seq<Record>, records12: seq<Record>)

  /** The notification sent to `u`: the lists of the two dates. */
  function NotificationFor(records: seq<Record>, acks: set<(int, int)>, u: int, six: Date, twelve: Date): Notification {
    Notification(u, Batch(records, acks, u, six), Batch(records, acks, u, twelve))
  }

  /** The notifications of a sweep, one per due user. */
  function Sent(records: seq<Record>, acks: set<(int, int)>, six: Date, twelve: Date): (sent: seq<Notification>)
    ensures var due := DueUsers(records, acks, six, twelve);
      |sent| == |due| && forall i :: 0 <= i < |sent| ==> sent[i] == NotificationFor(records, acks, due[i], six, twelve)
  {
    Map(DueUsers(records, acks, six, twelve), (u: int) => NotificationFor(records, acks, u, six, twelve))
  }

  /** `runOnce` on `today`: one notification per due user, in the order the
      due query returns them. It reads the database and writes nothing. */
  method RunOnce(db: Database, today: Date) returns (sent: seq<Notification>)
    requires ValidDate(today)
    ensures sent == Sent(db.records, db.acks, SubMonths(today, 6), SubMonths(today, 12))
  {
    var records, acks := db.records, db.acks;
    var six, twelve := SubMonths(today, 6), SubMonths(today, 12);
    var due := DueUsers(records, acks, six, twelve);
    sent := [];
    var i := 0;
    while i < |due|
      invariant 0 <= i <= |due|
      invariant sent == Sent(records, acks, six, twelve)[..i]
    {
      var u := due[i];
      var records6 := Batch(records, acks, u, six);
      var records12 := Batch(records, acks, u, twelve);
      sent := sent + [Notification(u, records6, records12)];
      i := i + 1;
    }
    assert Sent(records, acks, six, twelve)[..i] == Sent(records, acks, six, twelve);
  }

  /** Every notified user has a due record, and every notification carries at
      least one record. */
  lemma SentOnlyDue(records: seq<Record>, acks: set<(int, int)>, six: Date, twelve: Date)
    ensures forall n :: n in Sent(records, acks, six, twelve) ==>
      (exists r :: r in records && r.userId == n.userId && NotRecalled(acks, r)
                   && (r.createdAt.date == six || r.createdAt.date == twelve))
      && (n.records6 != [] || n.records12 != [])
  {
    var due := DueUsers(records, acks, six, twelve);
    var sent := Sent(records, acks, six, twelve);
    forall n | n in sent
      ensures exists r :: r in records && r.userId == n.userId && NotRecalled(acks, r)
                          && (r.createdAt.date == six || r.createdAt.date == twelve)
      ensures n.records6 != [] || n.records12 != []
    {
      var i :| 0 <= i < |sent| && sent[i] == n;
      assert due[i] in due;
      DueUserNotified(records, acks, due[i], six, twelve);
    }
  }

  /** A due user's notification carries at least one of the user's due records. */
  lemma DueUserNotified(records: seq<Record>, acks: set<(int, int)>, u: int, six: Date, twelve: Date)
    requires u in DueUsers(records, acks, six, twelve)
    ensures exists r :: r in records && r.userId == u && NotRecalled(acks, r)
                        && (r.createdAt.date == six || r.createdAt.date == twelve)
    ensures var n := NotificationFor(records, acks, u, six, twelve);
            n.records6 != [] || n.records12 != []
  {
    var r :| r in records && r.userId == u && NotRecalled(acks, r)
             && (r.createdAt.date == six || r.createdAt.date == twelve);
    if r.createdAt.date == six {
      assert r in Batch(records, acks, u, six);
    } else {
      assert r in Batch(records, acks, u, twelve);
    }
  }

  /** Every user with a due record is notified. */
  lemma SentAllDue(records: seq<Record>, acks: set<(int, int)>, six: Date, twelve: Date)
    ensures forall r :: (r in records && NotRecalled(acks, r) && (r.createdAt.date == six || r.createdAt.date == twelve))
                        ==> exists i :: 0 <= i < |Sent(records, acks, six, twelve)| && Sent(records, acks, six, twelve)[i].userId == r.userId
  {
    var due := DueUsers(records, acks, six, twelve);
    var sent := Sent(records, acks, six, twelve);
    forall r | r in records && NotRecalled(acks, r) && (r.createdAt.date == six || r.createdAt.date == twelve)
      ensures exists i :: 0 <= i < |sent| && sent[i].userId == r.userId
    {
      assert r.userId in due;
      var i :| 0 <= i < |due| && due[i] == r.userId;
      assert sent[i] == NotificationFor(records, acks, due[i], six, twelve);
    }
  }

  /** No user is notified twice. */
  lemma SentOnce(records: seq<Record>, acks: set<(int, int)>, six: Date, twelve: Date)
    ensures var sent := Sent(records, acks, six, twelve);
      forall i, j :: 0 <= i < j < |sent| ==> sent[i].userId != sent[j].userId
  {
    var due := DueUsers(records, acks, six, twelve);
    var sent := Sent(records, acks, six, twelve);
    forall i, j | 0 <= i < j < |sent| ensures sent[i].userId != sent[j].userId {
      assert sent[i].userId == due[i] && sent[j].userId == due[j];
    }
  }
}
