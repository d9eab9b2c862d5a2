/**
 * `markBulkAttendance`: for a session that exists, try to insert one attendance record per item
 * of `attendance_data`, skip the items the store refuses, and answer 201 with the records that
 * were created.
 */
module AttendanceSessionController {
  import opened Wrappers
  import opened Http
  import opened Store

  /** One element of `attendance_data`; `None` is an undefined field. */
  datatype AttendanceItem = AttendanceItem(userId: Option<int>, status: Option<string>, location: Option<string>)

  const DEFAULT_STATUS := "present"
  const DEFAULT_LOCATION := ""
  const SESSION_NOT_FOUND := "Session not found."
  const NOT_AN_ARRAY := "attendance_data must be an array."

  /** `s || d` for a string field: the value unless it is undefined or empty. */
  function StringOr(s: Option<string>, d: string): (v: string)
    ensures s.Some? && s.value != "" ==> v == s.value
    ensures s.None? || s.value == "" ==> v == d
  {
    if s.Some? && s.value != "" then s.value else d
  }

  /** At most one record per (session, user): the unique key the handler's catch relies on. */
  ghost predicate OnePerUserAndSession(rows: seq<Attendance>) {
    forall i, j :: 0 <= i < j < |rows| ==>
      !(rows[i].attendanceSessionId == rows[j].attendanceSessionId && rows[i].userId == rows[j].userId)
  }

  /** The user already has a record in the session. */
  predicate Marked(rows: seq<Attendance>, sessionId: int, userId: int) {
    exists r :: r in rows && r.attendanceSessionId == sessionId && r.userId == userId
  }

  /**
   * The store accepts the insert: a user id is given, it names an existing user (the record's
   * `user` relation), and that user has no record in the session yet (the unique key).
   */
  predicate InsertAccepted(rows: seq<Attendance>, users: seq<User>, sessionId: int, userId: Option<int>)
    ensures InsertAccepted(rows, users, sessionId, userId) ==> userId.Some? && HasUser(users, userId.value)
  {
    userId.Some? && HasUser(users, userId.value) && !Marked(rows, sessionId, userId.value)
  }

  /** The table, the next autoincrement id, and `createdRecords`, as the loop carries them. */
  datatype BulkState = BulkState(rows: seq<Attendance>, nextId: int, created: seq<Attendance>)

  /** The record `attendance.create` stores for an item, with the handler's defaults. */
  function NewRecord(id: int, sessionId: int, item: AttendanceItem): (r: Attendance)
    requires item.userId.Some?
    ensures r.id == id && r.attendanceSessionId == sessionId && r.userId == item.userId.value
    ensures r.status == StringOr(item.status, DEFAULT_STATUS) && r.location == StringOr(item.location, DEFAULT_LOCATION)
  {
    Attendance(id, sessionId, item.userId.value, StringOr(item.status, DEFAULT_STATUS), StringOr(item.location, DEFAULT_LOCATION))
  }

  /**
   * The insert is sent to the store: a missing `userId` is refused by the client's validation
   * before any SQL runs, every other insert reaches the table.
   */
  predicate ReachesStore(item: AttendanceItem) {
    item.userId.Some?
  }

  /**
   * The number of items whose insert reaches the store.  Each of them takes a value of the
   * table's id sequence, kept or not: the sequence hands out the id before the unique and
   * foreign-key checks run, and a refused insert does not give it back.
   */
  function Submitted(items: seq<AttendanceItem>): (n: nat)
    ensures n <= |items|
  {
    if items == [] then 0
    else Submitted(items[..|items| - 1]) + (if ReachesStore(items[|items| - 1]) then 1 else 0)
  }

  /**
   * One iteration: insert and push the new record, or skip the item when the store refuses it.
   * Every insert that reaches the store uses up an id, whether the store keeps the row or not.
   */
  function Step(s: BulkState, users: seq<User>, sessionId: int, item: AttendanceItem): (r: BulkState)
    ensures |r.created| == |s.created| + (if InsertAccepted(s.rows, users, sessionId, item.userId) then 1 else 0)
    ensures r.nextId == s.nextId + (if ReachesStore(item) then 1 else 0)
  {
    if InsertAccepted(s.rows, users, sessionId, item.userId) then
      var rec := NewRecord(s.nextId, sessionId, item);
      BulkState(s.rows + [rec], s.nextId + 1, s.created + [rec])
    else if ReachesStore(item) then s.(nextId := s.nextId + 1)
    else s
  }

  /** The loop over `attendance_data`, one step per item in input order. */
  function BulkInsert(s: BulkState, users: seq<User>, sessionId: int, items: seq<AttendanceItem>): (r: BulkState)
    decreases |items|
    ensures s.created <= r.created && |r.created| - |s.created| <= |items|
    ensures r.rows == s.rows + r.created[|s.created|..]
    ensures r.nextId == s.nextId + Submitted(items)
  {
    if items == [] then s
    else Step(BulkInsert(s, users, sessionId, items[..|items| - 1]), users, sessionId, items[|items| - 1])
  }

  /** The positions of the items the loop inserted, in input order. */
  function AcceptedItems(s: BulkState, users: seq<User>, sessionId: int, items: seq<AttendanceItem>): (js: seq<int>)
    decreases |items|
    ensures forall k :: 0 <= k < |js| ==> 0 <= js[k] < |items|
    ensures forall k, l :: 0 <= k < l < |js| ==> js[k] < js[l]
  {
    if items == [] then []
    else
      var n := |items| - 1;
      var prev := AcceptedItems(s, users, sessionId, items[..n]);
      if InsertAccepted(BulkInsert(s, users, sessionId, items[..n]).rows, users, sessionId, items[n].userId)
      then prev + [n] else prev
  }

  /**
   * `recs` are, in order, the records of the items at positions `js`, each under the id the
   * sequence handed that item: `base` plus the number of earlier items whose insert reached the store.
   */
  ghost predicate RecordsFollow(recs: seq<Attendance>, base: int, sessionId: int, items: seq<AttendanceItem>, js: seq<int>) {
    && |recs| == |js|
    && forall k :: 0 <= k < |js| ==>
         && 0 <= js[k] < |items| && items[js[k]].userId.Some?
         && recs[k] == NewRecord(base + Submitted(items[..js[k]]), sessionId, items[js[k]])
  }

  /** Records that follow a prefix of the items follow the whole list at the same positions. */
  lemma RecordsFollowLonger(recs: seq<Attendance>, base: int, sessionId: int, init: seq<AttendanceItem>,
                            items: seq<AttendanceItem>, js: seq<int>)
    requires init <= items && RecordsFollow(recs, base, sessionId, init, js)
    ensures RecordsFollow(recs, base, sessionId, items, js)
  {
    forall k | 0 <= k < |js|
      ensures items[js[k]] == init[js[k]] && items[..js[k]] == init[..js[k]]
    {}
  }

  /** The record of the item at `n`, under the id it was handed, extends records that follow the items. */
  lemma RecordsFollowAppend(recs: seq<Attendance>, base: int, sessionId: int, items: seq<AttendanceItem>, js: seq<int>, n: int)
    requires RecordsFollow(recs, base, sessionId, items, js)
    requires 0 <= n < |items| && items[n].userId.Some?
    ensures RecordsFollow(recs + [NewRecord(base + Submitted(items[..n]), sessionId, items[n])], base, sessionId, items, js + [n])
  {}

  /**
   * `createdRecords` follows the input: its k-th new record is the record of the k-th accepted
   * item, under the id the sequence handed that item (one more for every earlier item that
   * reached the store, refused or not), and the accepted items are taken in input order, each once.
   */
  lemma {:induction false} CreatedRecordsFollowTheItems(s: BulkState, users: seq<User>, sessionId: int, items: seq<AttendanceItem>)
    ensures var r := BulkInsert(s, users, sessionId, items);
            RecordsFollow(r.created[|s.created|..], s.nextId, sessionId, items, AcceptedItems(s, users, sessionId, items))
    decreases |items|
  {
    if items != [] {
      var n := |items| - 1;
      var init := items[..n];
      CreatedRecordsFollowTheItems(s, users, sessionId, init);
      var prev := BulkInsert(s, users, sessionId, init);
      var pjs := AcceptedItems(s, users, sessionId, init);
      var before := prev.created[|s.created|..];
      RecordsFollowLonger(before, s.nextId, sessionId, init, items, pjs);
      var r := BulkInsert(s, users, sessionId, items);
      var js := AcceptedItems(s, users, sessionId, items);
      var last := InsertAccepted(prev.rows, users, sessionId, items[n].userId);
      assert js == if last then pjs + [n] else pjs;
      assert r == Step(prev, users, sessionId, items[n]);
      if last {
        assert items[..n] == init;
        RecordsFollowAppend(before, s.nextId, sessionId, items, pjs, n);
        assert r.created[|s.created|..] == before + [NewRecord(prev.nextId, sessionId, items[n])];
      } else {
        assert r.created[|s.created|..] == before;
      }
    }
  }

  /**
   * An item is accepted exactly when the store takes its insert in the state the earlier items
   * left; every other item is skipped.
   */
  lemma {:induction false} AcceptedExactlyWhenStoreTakesIt(s: BulkState, users: seq<User>, sessionId: int, items: seq<AttendanceItem>, i: int)
    requires 0 <= i < |items|
    ensures i in AcceptedItems(s, users, sessionId, items) <==>
            InsertAccepted(BulkInsert(s, users, sessionId, items[..i]).rows, users, sessionId, items[i].userId)
    decreases |items|
  {
    var n := |items| - 1;
    var init := items[..n];
    var pjs := AcceptedItems(s, users, sessionId, init);
    var js := AcceptedItems(s, users, sessionId, items);
    var last := InsertAccepted(BulkInsert(s, users, sessionId, init).rows, users, sessionId, items[n].userId);
    assert js == if last then pjs + [n] else pjs;
    if i < n {
      AcceptedExactlyWhenStoreTakesIt(s, users, sessionId, init, i);
      assert items[..i] == init[..i];
      assert items[i] == init[i];
      assert i in js <==> i in pjs;
    } else {
      assert items[..i] == init;
      assert i !in pjs;
    }
  }

  /** The records' ids lie in `[lo, hi)` and strictly increase along the list. */
  ghost predicate IdsIncreaseWithin(recs: seq<Attendance>, lo: int, hi: int) {
    && (forall k :: 0 <= k < |recs| ==> lo <= recs[k].id < hi)
    && (forall k, l :: 0 <= k < l < |recs| ==> recs[k].id < recs[l].id)
  }

  /**
   * The new records' ids strictly increase in `createdRecords` and lie between the old and the
   * new value of the sequence; they need not be consecutive.
   */
  lemma {:induction false} CreatedIdsIncrease(s: BulkState, users: seq<User>, sessionId: int, items: seq<AttendanceItem>)
    ensures var r := BulkInsert(s, users, sessionId, items);
            IdsIncreaseWithin(r.created[|s.created|..], s.nextId, r.nextId)
    decreases |items|
  {
    if items != [] {
      var init := items[..|items| - 1];
      CreatedIdsIncrease(s, users, sessionId, init);
      var prev := BulkInsert(s, users, sessionId, init);
      var r := BulkInsert(s, users, sessionId, items);
      var item := items[|items| - 1];
      assert r == Step(prev, users, sessionId, item);
      var before := prev.created[|s.created|..];
      if InsertAccepted(prev.rows, users, sessionId, item.userId) {
        var rec := NewRecord(prev.nextId, sessionId, item);
        assert r.created[|s.created|..] == before + [rec];
        assert r.nextId == prev.nextId + 1;
      } else {
        assert r.created[|s.created|..] == before;
      }
    }
  }

  /**
   * A duplicate in the input leaves a gap: with users 1 and 2 present and the sequence at 10,
   * items for users 1, 1 and 2 create records 10 and 12, and the refused second insert uses up 11.
   */
  lemma DuplicateLeavesAGapInIds(u1: User, u2: User, sessionId: int)
    requires u1.id == 1 && u2.id == 2
    ensures var items := [AttendanceItem(Some(1), None, None), AttendanceItem(Some(1), None, None),
                          AttendanceItem(Some(2), None, None)];
            var r := BulkInsert(BulkState([], 10, []), [u1, u2], sessionId, items);
            |r.created| == 2 && r.created[0].id == 10 && r.created[1].id == 12 && r.nextId == 13
  {
    var a := AttendanceItem(Some(1), None, None);
    var b := AttendanceItem(Some(2), None, None);
    var items := [a, a, b];
    var users := [u1, u2];
    var s0 := BulkState([], 10, []);
    assert items[..0] == [] && items[..1] == [a] && items[..2] == [a, a];
    assert HasUser(users, 1) && HasUser(users, 2);
    var s1 := BulkInsert(s0, users, sessionId, [a]);
    assert [a][..0] == [];
    assert s1 == Step(s0, users, sessionId, a);
    assert s1.rows == [NewRecord(10, sessionId, a)] && s1.nextId == 11;
    var s2 := BulkInsert(s0, users, sessionId, [a, a]);
    assert [a, a][..1] == [a];
    assert Marked(s1.rows, sessionId, 1);
    assert s2 == s1.(nextId := 12);
    assert !Marked(s2.rows, sessionId, 2);
    assert BulkInsert(s0, users, sessionId, items) == Step(s2, users, sessionId, b);
  }

  /** The unique key is kept: no insert ever gives a user a second record in a session. */
  lemma {:induction false} BulkInsertKeepsOnePerUser(s: BulkState, users: seq<User>, sessionId: int, items: seq<AttendanceItem>)
    requires OnePerUserAndSession(s.rows)
    ensures OnePerUserAndSession(BulkInsert(s, users, sessionId, items).rows)
    decreases |items|
  {
    if items != [] {
      var prev := BulkInsert(s, users, sessionId, items[..|items| - 1]);
      BulkInsertKeepsOnePerUser(s, users, sessionId, items[..|items| - 1]);
      var item := items[|items| - 1];
      if InsertAccepted(prev.rows, users, sessionId, item.userId) {
        var rows := prev.rows + [NewRecord(prev.nextId, sessionId, item)];
        forall i, j | 0 <= i < j < |rows|
          ensures !(rows[i].attendanceSessionId == rows[j].attendanceSessionId && rows[i].userId == rows[j].userId)
        {
          if j == |prev.rows| {
            assert rows[i] in prev.rows;
          }
        }
      }
    }
  }

  /**
   * Afterwards every item that names an existing user has that user marked in the session,
   * created now or before.  An item naming no user is refused and leaves nothing behind.
   */
  lemma {:induction false} EveryNamedUserIsMarked(s: BulkState, users: seq<User>, sessionId: int, items: seq<AttendanceItem>)
    ensures forall item :: item in items && item.userId.Some? && HasUser(users, item.userId.value) ==>
              Marked(BulkInsert(s, users, sessionId, items).rows, sessionId, item.userId.value)
    decreases |items|
  {
    if items != [] {
      var init := items[..|items| - 1];
      EveryNamedUserIsMarked(s, users, sessionId, init);
      var prev := BulkInsert(s, users, sessionId, init);
      var r := BulkInsert(s, users, sessionId, items);
      assert prev.rows <= r.rows;
      forall item | item in items && item.userId.Some? && HasUser(users, item.userId.value)
        ensures Marked(r.rows, sessionId, item.userId.value)
      {
        if item in init {
          var a :| a in prev.rows && a.attendanceSessionId == sessionId && a.userId == item.userId.value;
          assert a in r.rows;
        } else {
          assert item == items[|items| - 1];
          if InsertAccepted(prev.rows, users, sessionId, item.userId) {
            assert r.rows[|r.rows| - 1] == NewRecord(prev.nextId, sessionId, item);
          } else {
            var a :| a in prev.rows && a.attendanceSessionId == sessionId && a.userId == item.userId.value;
            assert a in r.rows;
          }
        }
      }
    }
  }

  /**
   * An item whose user does not exist is refused: the record's foreign key fails, the item is
   * skipped, and the id the sequence handed it is lost.
   */
  lemma UnknownUserIsSkipped(s: BulkState, users: seq<User>, sessionId: int, item: AttendanceItem)
    requires item.userId.Some? && !HasUser(users, item.userId.value)
    ensures BulkInsert(s, users, sessionId, [item]) == s.(nextId := s.nextId + 1)
  {
    assert [item][..0] == [];
  }

  /**
   * A second run with the same items creates nothing: every user it names is already marked.
   * Only the id sequence moves on, once per refused insert that reached the store.
   */
  lemma {:induction false} RepeatCreatesNothing(s: BulkState, users: seq<User>, sessionId: int, items: seq<AttendanceItem>)
    requires forall item :: item in items ==> item.userId.None? || Marked(s.rows, sessionId, item.userId.value)
    ensures BulkInsert(s, users, sessionId, items) == s.(nextId := s.nextId + Submitted(items))
    decreases |items|
  {
    if items != [] {
      var init := items[..|items| - 1];
      assert forall item :: item in init ==> item in items;
      RepeatCreatesNothing(s, users, sessionId, init);
      assert items[|items| - 1] in items;
    }
  }

  /**
   * The handler: a missing session answers 404 before the body is looked at; a non-array
   * `attendance_data` answers 400; otherwise the loop runs and the answer is 201 with
   * `createdRecords`.
   */
  method MarkBulkAttendance(db: Db, id: int, data: Option<seq<AttendanceItem>>)
      returns (status: int, detail: string, created: seq<Attendance>)
    modifies db`attendance, db`nextAttendanceId
    ensures id !in db.attendanceSessions ==> status == NOT_FOUND && detail == SESSION_NOT_FOUND
    ensures id in db.attendanceSessions && data.None? ==> status == BAD_REQUEST && detail == NOT_AN_ARRAY
    ensures status != CREATED ==>
              created == [] && db.attendance == old(db.attendance) && db.nextAttendanceId == old(db.nextAttendanceId)
    ensures status == CREATED ==>
              id in db.attendanceSessions && data.Some? &&
              BulkState(db.attendance, db.nextAttendanceId, created) ==
              BulkInsert(BulkState(old(db.attendance), old(db.nextAttendanceId), []), db.users, id, data.value)
    ensures status in {CREATED, NOT_FOUND, BAD_REQUEST}
  {
    created := [];
    if id !in db.attendanceSessions {
      return NOT_FOUND, SESSION_NOT_FOUND, created;
    }
    if data.None? {
      return BAD_REQUEST, NOT_AN_ARRAY, created;
    }
    var items := data.value;
    ghost var start := BulkState(db.attendance, db.nextAttendanceId, []);
    for i := 0 to |items|
      invariant BulkState(db.attendance, db.nextAttendanceId, created) == BulkInsert(start, db.users, id, items[..i])
    {
      assert items[..i + 1][..i] == items[..i];
      var item := items[i];
      if InsertAccepted(db.attendance, db.users, id, item.userId) {
        var record := NewRecord(db.nextAttendanceId, id, item);
        db.attendance := db.attendance + [record];
        db.nextAttendanceId := db.nextAttendanceId + 1;
        created := created + [record];
      } else if ReachesStore(item) {
        db.nextAttendanceId := db.nextAttendanceId + 1;
      }
    }
    assert items[..|items|] == items;
    return CREATED, "", created;
  }
}
