/** The `response_text` endpoints of the server.

    Every handler runs ONE SQL statement, and the ownership check lives inside that
    statement (an EXISTS join chain `application -> office_action -> issue`, or the
    caller's admin flag).  A handler is modelled here as a function from the database
    state (and the request) to the new database state and the HTTP reply.  The boolean
    `fault` stands for "the statement raised an error" (lost connection, constraint
    violation, ...): the handler then answers 500 and the database is unchanged. */
module ResponseRouter {

  // ---------------------------------------------------------------------------
  // Tables and requests
  // ---------------------------------------------------------------------------

  datatype Application = Application(id: int, userId: int)
  datatype OfficeAction = OfficeAction(id: int, applicationId: int)
  datatype Issue = Issue(id: int, officeActionId: int)
  datatype ResponseText = ResponseText(id: int, issueId: int, text: string)

  /** The four tables the handlers touch.  `nextResponseId` is the value the
      `response_text.id` serial column hands out to the next inserted row. */
  datatype Db = Db(
    applications: seq<Application>,
    officeActions: seq<OfficeAction>,
    issues: seq<Issue>,
    responseTexts: seq<ResponseText>,
    nextResponseId: int)

  /** The authenticated caller (`req.user`). */
  datatype Principal = Principal(id: int, isAdmin: bool)

  /** The JSON body of POST /add and PUT /edit. */
  datatype Body = Body(issueId: int, text: string)

  /** `res.send(rows)` (status 200) or `res.sendStatus(code)`. */
  datatype Reply = Send(rows: seq<ResponseText>) | SendStatus(code: int)

  datatype Transition = Transition(db: Db, reply: Reply)

  const CREATED := 201
  const SERVER_ERROR := 500

  /** Keys that the database keeps unique: `issue.id` and `response_text.id` are
      primary keys, and the serial counter is ahead of every stored id. */
  predicate UniqueIds(rows: seq<ResponseText>) {
    forall i, j :: 0 <= i < j < |rows| ==> rows[i].id != rows[j].id
  }

  predicate UniqueIssueIds(issues: seq<Issue>) {
    forall i, j :: 0 <= i < j < |issues| ==> issues[i].id != issues[j].id
  }

  predicate WellFormed(db: Db) {
    UniqueIds(db.responseTexts) &&
    UniqueIssueIds(db.issues) &&
    forall r :: r in db.responseTexts ==> r.id < db.nextResponseId
  }

  // ---------------------------------------------------------------------------
  // The EXISTS sub-queries
  // ---------------------------------------------------------------------------

  /** `EXISTS (SELECT * FROM application JOIN office_action JOIN issue
      WHERE application.user_id = userId AND issue.id = issueId)`:
      user `userId` owns the application that issue `issueId` belongs to. */
  predicate IssueOwnedBy(db: Db, issueId: int, userId: int) {
    exists a, o, i :: a in db.applications && o in db.officeActions && i in db.issues &&
      a.id == o.applicationId && i.officeActionId == o.id &&
      a.userId == userId && i.id == issueId
  }

  /** The same join chain without any condition on the issue: user `userId` owns at
      least one application that has an office action that has an issue. */
  predicate OwnsSomeIssue(db: Db, userId: int) {
    exists a, o, i :: a in db.applications && o in db.officeActions && i in db.issues &&
      a.id == o.applicationId && i.officeActionId == o.id &&
      a.userId == userId
  }

  // ---------------------------------------------------------------------------
  // GET /by_office_action/:officeActionId
  // ---------------------------------------------------------------------------

  /** The two WHERE clauses of the GET handler: the admin query joins only `issue`,
      the other one joins the whole chain up to `application` and fixes its owner. */
  datatype Query =
    | OnOfficeAction(officeActionId: int)
    | OwnedOnOfficeAction(officeActionId: int, userId: int)

  predicate Matches(db: Db, q: Query, r: ResponseText) {
    match q
    case OnOfficeAction(oa) =>
      exists i :: i in db.issues && i.id == r.issueId && i.officeActionId == oa
    case OwnedOnOfficeAction(oa, u) =>
      exists i, o, a :: i in db.issues && o in db.officeActions && a in db.applications &&
        i.id == r.issueId && o.id == i.officeActionId && o.applicationId == a.id &&
        i.officeActionId == oa && a.userId == u
  }

  /** The rows of `rows` that satisfy the WHERE clause, in their stored order. */
  function Select(db: Db, q: Query, rows: seq<ResponseText>): (s: seq<ResponseText>)
    ensures forall r :: r in s <==> r in rows && Matches(db, q, r)
  {
    if rows == [] then []
    else
      var rest := Select(db, q, rows[1..]);
      assert forall r :: r in rows <==> r == rows[0] || r in rows[1..] by {
        assert rows == [rows[0]] + rows[1..];
      }
      if Matches(db, q, rows[0]) then [rows[0]] + rest else rest
  }

  /** Selecting keeps the relative order of the rows. */
  lemma {:induction false} SelectSorted(db: Db, q: Query, rows: seq<ResponseText>)
    requires SortedById(rows)
    ensures SortedById(Select(db, q, rows))
  {
    if rows != [] {
      SelectSorted(db, q, rows[1..]);
      var rest := Select(db, q, rows[1..]);
      if Matches(db, q, rows[0]) {
        forall y | y in rest ensures rows[0].id <= y.id {
          var m :| 0 <= m < |rows| - 1 && rows[1..][m] == y;
          assert rows[m + 1] == y;
        }
        SortedCons(rows[0], rest);
      }
    }
  }

  /** Prepending a row no larger than any other keeps a sequence sorted. */
  lemma SortedCons(x: ResponseText, s: seq<ResponseText>)
    requires SortedById(s)
    requires forall y :: y in s ==> x.id <= y.id
    ensures SortedById([x] + s)
  {
    var r := [x] + s;
    forall i, j | 0 <= i < j < |r| ensures r[i].id <= r[j].id {
      assert r[j] == s[j - 1];
      if i > 0 { assert r[i] == s[i - 1]; } else { assert s[j - 1] in s; }
    }
  }

  predicate SortedById(s: seq<ResponseText>) {
    forall i, j :: 0 <= i < j < |s| ==> s[i].id <= s[j].id
  }

  /** Inserts `x` before the first row whose id is not smaller. */
  function InsertById(x: ResponseText, s: seq<ResponseText>): (r: seq<ResponseText>)
    ensures multiset(r) == multiset(s) + multiset{x}
  {
    if s == [] || x.id <= s[0].id then [x] + s
    else
      assert s == [s[0]] + s[1..];
      [s[0]] + InsertById(x, s[1..])
  }

  /** Inserting into a sorted sequence keeps it sorted. */
  lemma {:induction false} InsertSorted(x: ResponseText, s: seq<ResponseText>)
    requires SortedById(s)
    ensures SortedById(InsertById(x, s))
  {
    if s == [] || x.id <= s[0].id {
      forall y | y in s ensures x.id <= y.id {
        var m :| 0 <= m < |s| && s[m] == y;
        assert m == 0 || s[0].id <= s[m].id;
      }
      SortedCons(x, s);
    } else {
      assert s == [s[0]] + s[1..];
      var rest := InsertById(x, s[1..]);
      SortedTail(s);
      InsertSorted(x, s[1..]);
      forall y | y in rest ensures s[0].id <= y.id {
        assert y in multiset(rest);
        if y != x {
          var m :| 0 <= m < |s| - 1 && s[1..][m] == y;
          assert s[m + 1] == y;
        }
      }
      SortedCons(s[0], rest);
    }
  }

  /** `ORDER BY "response_text"."id"`. */
  function SortById(s: seq<ResponseText>): (r: seq<ResponseText>)
    ensures SortedById(r)
    ensures multiset(r) == multiset(s)
  {
    if s == [] then []
    else
      assert s == [s[0]] + s[1..];
      InsertSorted(s[0], SortById(s[1..]));
      InsertById(s[0], SortById(s[1..]))
  }

  /** The query the GET handler picks for the caller (lines 9-23). */
  function ListQuery(user: Principal, officeActionId: int): Query {
    if user.isAdmin then OnOfficeAction(officeActionId)
    else OwnedOnOfficeAction(officeActionId, user.id)
  }

  /** GET /by_office_action/:officeActionId. */
  function List(db: Db, user: Principal, officeActionId: int, fault: bool): (reply: Reply)
    ensures fault ==> reply == SendStatus(SERVER_ERROR)
    ensures !fault ==> reply.Send? && SortedById(reply.rows)
    ensures !fault ==> forall r :: r in reply.rows <==>
      r in db.responseTexts && Matches(db, ListQuery(user, officeActionId), r)
  {
    if fault then SendStatus(SERVER_ERROR)
    else
      var rows := Select(db, ListQuery(user, officeActionId), db.responseTexts);
      var sorted := SortById(rows);
      assert forall r :: r in sorted <==> r in rows by {
        forall r ensures r in sorted <==> r in rows {
          assert r in sorted <==> r in multiset(sorted);
        }
      }
      Send(sorted)
  }

  // ----- lemmas about the listing -----

  /** Selecting commutes with inserting into a sorted sequence. */
  lemma {:induction false} SelectInsert(db: Db, q: Query, x: ResponseText, s: seq<ResponseText>)
    requires SortedById(s)
    ensures Select(db, q, InsertById(x, s)) ==
      if Matches(db, q, x) then InsertById(x, Select(db, q, s)) else Select(db, q, s)
  {
    if s == [] || x.id <= s[0].id {
      SelectInsertFront(db, q, x, s);
    } else {
      assert s == [s[0]] + s[1..];
      SortedTail(s);
      SelectInsert(db, q, x, s[1..]);
      SelectCons(db, q, s[0], InsertById(x, s[1..]));
      SelectCons(db, q, s[0], s[1..]);
    }
  }

  /** The case where `x` goes in front of every row. */
  lemma SelectInsertFront(db: Db, q: Query, x: ResponseText, s: seq<ResponseText>)
    requires SortedById(s) && (s == [] || x.id <= s[0].id)
    ensures Select(db, q, InsertById(x, s)) ==
      if Matches(db, q, x) then InsertById(x, Select(db, q, s)) else Select(db, q, s)
  {
    assert InsertById(x, s) == [x] + s;
    SelectCons(db, q, x, s);
    var t := Select(db, q, s);
    if Matches(db, q, x) && t != [] {
      assert t[0] in t;
      var k :| 0 <= k < |s| && s[k] == t[0];
      assert k == 0 || s[0].id <= s[k].id;
      assert InsertById(x, t) == [x] + t;
    }
  }

  /** Selecting from a sequence with a known first row. */
  lemma SelectCons(db: Db, q: Query, x: ResponseText, s: seq<ResponseText>)
    ensures Select(db, q, [x] + s) ==
      if Matches(db, q, x) then [x] + Select(db, q, s) else Select(db, q, s)
  {
    assert ([x] + s)[0] == x && ([x] + s)[1..] == s;
  }

  lemma SortedTail(s: seq<ResponseText>)
    requires SortedById(s) && s != []
    ensures SortedById(s[1..])
  {
    forall i, j | 0 <= i < j < |s| - 1 ensures s[1..][i].id <= s[1..][j].id {
      assert s[1..][i] == s[i + 1] && s[1..][j] == s[j + 1];
    }
  }

  /** Selecting and sorting commute: filtering the sorted table gives the same
      sequence as sorting the filtered rows. */
  lemma {:induction false} SelectSort(db: Db, q: Query, s: seq<ResponseText>)
    ensures Select(db, q, SortById(s)) == SortById(Select(db, q, s))
  {
    if s != [] {
      SelectSort(db, q, s[1..]);
      SelectInsert(db, q, s[0], SortById(s[1..]));
      var t := Select(db, q, s);
      if Matches(db, q, s[0]) {
        assert t[0] == s[0] && t[1..] == Select(db, q, s[1..]);
      } else {
        assert t == Select(db, q, s[1..]);
      }
    }
  }

  /** Every row the owner query matches is matched by the admin query, so the owner
      query may as well run on the admin query's result. */
  lemma {:induction false} SelectOwnedWithinAdmin(db: Db, oa: int, u: int, s: seq<ResponseText>)
    ensures Select(db, OwnedOnOfficeAction(oa, u), s) ==
      Select(db, OwnedOnOfficeAction(oa, u), Select(db, OnOfficeAction(oa), s))
  {
    if s != [] {
      SelectOwnedWithinAdmin(db, oa, u, s[1..]);
      var r := s[0];
      if Matches(db, OwnedOnOfficeAction(oa, u), r) {
        var i, o, a :| i in db.issues && o in db.officeActions && a in db.applications &&
          i.id == r.issueId && o.id == i.officeActionId && o.applicationId == a.id &&
          i.officeActionId == oa && a.userId == u;
        assert Matches(db, OnOfficeAction(oa), r);
      }
    }
  }

  /** A non-admin caller sees exactly the admin's list for the same office action,
      restricted to the rows on their own applications, in the same order. */
  lemma OwnerListFiltersAdminList(db: Db, user: Principal, oa: int)
    requires !user.isAdmin
    ensures List(db, user, oa, false).rows ==
      Select(db, OwnedOnOfficeAction(oa, user.id), List(db, Principal(user.id, true), oa, false).rows)
  {
    var adminRows := Select(db, OnOfficeAction(oa), db.responseTexts);
    SelectOwnedWithinAdmin(db, oa, user.id, db.responseTexts);
    SelectSort(db, OwnedOnOfficeAction(oa, user.id), adminRows);
  }

  /** With primary keys in place, a row is on a non-admin caller's list exactly when
      its issue is on the office action and the caller owns that issue's application. */
  lemma OwnerListMembership(db: Db, user: Principal, oa: int, r: ResponseText)
    requires WellFormed(db) && !user.isAdmin
    ensures r in List(db, user, oa, false).rows <==>
      r in db.responseTexts && Matches(db, OnOfficeAction(oa), r) && IssueOwnedBy(db, r.issueId, user.id)
  {
    if r in db.responseTexts && Matches(db, OnOfficeAction(oa), r) && IssueOwnedBy(db, r.issueId, user.id) {
      var i :| i in db.issues && i.id == r.issueId && i.officeActionId == oa;
      var a, o, i' :| a in db.applications && o in db.officeActions && i' in db.issues &&
        a.id == o.applicationId && i'.officeActionId == o.id && a.userId == user.id && i'.id == r.issueId;
      assert i == i' by {
        var x :| 0 <= x < |db.issues| && db.issues[x] == i;
        var y :| 0 <= y < |db.issues| && db.issues[y] == i';
        assert x == y;
      }
      assert Matches(db, OwnedOnOfficeAction(oa, user.id), r);
    }
    if Matches(db, OwnedOnOfficeAction(oa, user.id), r) {
      var i, o, a :| i in db.issues && o in db.officeActions && a in db.applications &&
        i.id == r.issueId && o.id == i.officeActionId && o.applicationId == a.id &&
        i.officeActionId == oa && a.userId == user.id;
      assert Matches(db, OnOfficeAction(oa), r);
      assert IssueOwnedBy(db, r.issueId, user.id);
    }
  }

  lemma {:induction false} UniqueIdsInsert(x: ResponseText, s: seq<ResponseText>)
    requires UniqueIds(s)
    requires forall y :: y in s ==> y.id != x.id
    ensures UniqueIds(InsertById(x, s))
  {
    if s == [] || x.id <= s[0].id {
      UniqueCons(x, s);
    } else {
      UniqueTail(s);
      UniqueIdsInsert(x, s[1..]);
      var t := InsertById(x, s[1..]);
      forall y | y in t ensures y.id != s[0].id {
        assert y in multiset(t);
        if y != x {
          var m :| 0 <= m < |s| - 1 && s[1..][m] == y;
          assert s[m + 1] == y;
        }
      }
      UniqueCons(s[0], t);
    }
  }

  /** Prepending a row whose id is new keeps the ids unique. */
  lemma UniqueCons(x: ResponseText, s: seq<ResponseText>)
    requires UniqueIds(s)
    requires forall y :: y in s ==> y.id != x.id
    ensures UniqueIds([x] + s)
  {
    var r := [x] + s;
    forall i, j | 0 <= i < j < |r| ensures r[i].id != r[j].id {
      assert r[j] == s[j - 1];
      if i > 0 { assert r[i] == s[i - 1]; } else { assert s[j - 1] in s; }
    }
  }

  lemma {:induction false} UniqueIdsSort(s: seq<ResponseText>)
    requires UniqueIds(s)
    ensures UniqueIds(SortById(s))
  {
    if s != [] {
      UniqueTail(s);
      UniqueIdsSort(s[1..]);
      var t := SortById(s[1..]);
      forall y | y in t ensures y.id != s[0].id {
        assert y in multiset(s[1..]);
        var k :| 0 <= k < |s| - 1 && s[1..][k] == y;
        assert s[k + 1] == y;
      }
      UniqueIdsInsert(s[0], t);
    }
  }

  lemma {:induction false} UniqueIdsSelect(db: Db, q: Query, s: seq<ResponseText>)
    requires UniqueIds(s)
    ensures UniqueIds(Select(db, q, s))
  {
    if s != [] {
      UniqueTail(s);
      UniqueIdsSelect(db, q, s[1..]);
      var t := Select(db, q, s[1..]);
      forall y | y in t ensures y.id != s[0].id {
        var k :| 0 <= k < |s| - 1 && s[1..][k] == y;
        assert s[k + 1] == y;
      }
      UniqueCons(s[0], t);
    }
  }

  /** Since `response_text.id` is a primary key, the list is in strictly ascending id order. */
  lemma ListStrictlyAscending(db: Db, user: Principal, oa: int)
    requires WellFormed(db)
    ensures var rows := List(db, user, oa, false).rows;
      forall i, j :: 0 <= i < j < |rows| ==> rows[i].id < rows[j].id
  {
    var q := ListQuery(user, oa);
    UniqueIdsSelect(db, q, db.responseTexts);
    UniqueIdsSort(Select(db, q, db.responseTexts));
  }

  // ---------------------------------------------------------------------------
  // POST /add
  // ---------------------------------------------------------------------------

  /** `INSERT INTO response_text (issue_id, text) SELECT $1, $2 WHERE EXISTS (...) OR $4`. */
  predicate AddAllowed(db: Db, user: Principal, issueId: int) {
    IssueOwnedBy(db, issueId, user.id) || user.isAdmin
  }

  /** The serial default is evaluated once the SELECT has formed the row, before the
      constraint checks; a value drawn from a sequence is never handed back.  So an
      insert that faults after its row was formed has used up one id. */
  function Add(db: Db, user: Principal, body: Body, fault: bool): (t: Transition)
    ensures fault ==> t.reply == SendStatus(SERVER_ERROR) && t.db.responseTexts == db.responseTexts
    ensures !fault ==> t.reply == SendStatus(CREATED)
    ensures t.db.applications == db.applications && t.db.officeActions == db.officeActions
    ensures t.db.issues == db.issues
    ensures t.db.nextResponseId ==
      if AddAllowed(db, user, body.issueId) then db.nextResponseId + 1 else db.nextResponseId
    ensures !AddAllowed(db, user, body.issueId) ==> t.db == db
    ensures |db.responseTexts| <= |t.db.responseTexts| <= |db.responseTexts| + 1
    ensures t.db.responseTexts[..|db.responseTexts|] == db.responseTexts
    ensures |t.db.responseTexts| == |db.responseTexts| + 1 <==> !fault && AddAllowed(db, user, body.issueId)
    ensures |t.db.responseTexts| == |db.responseTexts| + 1 ==>
      var r := t.db.responseTexts[|db.responseTexts|];
      r.issueId == body.issueId && r.text == body.text && r.id == db.nextResponseId
  {
    if fault then
      var drawn := if AddAllowed(db, user, body.issueId) then 1 else 0;
      Transition(db.(nextResponseId := db.nextResponseId + drawn), SendStatus(SERVER_ERROR))
    else if AddAllowed(db, user, body.issueId) then
      var row := ResponseText(db.nextResponseId, body.issueId, body.text);
      Transition(db.(responseTexts := db.responseTexts + [row],
                     nextResponseId := db.nextResponseId + 1), SendStatus(CREATED))
    else Transition(db, SendStatus(CREATED))
  }

  lemma AddPreservesWellFormed(db: Db, user: Principal, body: Body, fault: bool)
    requires WellFormed(db)
    ensures WellFormed(Add(db, user, body, fault).db)
  {
    var t := Add(db, user, body, fault);
    if |t.db.responseTexts| > |db.responseTexts| {
      var rows := t.db.responseTexts;
      assert rows == db.responseTexts + [rows[|db.responseTexts|]];
      forall i, j | 0 <= i < j < |rows| ensures rows[i].id != rows[j].id {
        if j == |db.responseTexts| {
          assert rows[i] in db.responseTexts;
        }
      }
    }
  }

  // ---------------------------------------------------------------------------
  // PUT /edit/:responseId
  // ---------------------------------------------------------------------------

  /** The WHERE clause of the UPDATE (lines 58-64).  The inner `response_text.id = $5`
      only repeats the outer condition, so the EXISTS part does not depend on the
      row being edited. */
  predicate EditGate(db: Db, user: Principal) {
    OwnsSomeIssue(db, user.id) || user.isAdmin
  }

  /** `SET issue_id = $1, text = $2` on every row where `where` holds. */
  function SetWhere(rows: seq<ResponseText>, responseId: int, allowed: bool, body: Body): (s: seq<ResponseText>)
    ensures |s| == |rows|
    ensures forall k :: 0 <= k < |rows| ==> s[k].id == rows[k].id
    ensures forall k :: 0 <= k < |rows| && (rows[k].id != responseId || !allowed) ==> s[k] == rows[k]
    ensures forall k :: 0 <= k < |rows| && rows[k].id == responseId && allowed ==>
      s[k].issueId == body.issueId && s[k].text == body.text
  {
    seq(|rows|, k requires 0 <= k < |rows| =>
      if rows[k].id == responseId && allowed then rows[k].(issueId := body.issueId, text := body.text)
      else rows[k])
  }

  function Edit(db: Db, user: Principal, responseId: int, body: Body, fault: bool): (t: Transition)
    ensures fault ==> t == Transition(db, SendStatus(SERVER_ERROR))
    ensures !fault ==> t.reply == SendStatus(CREATED)
    ensures t.db.(responseTexts := db.responseTexts) == db
    ensures |t.db.responseTexts| == |db.responseTexts|
    ensures forall k :: 0 <= k < |db.responseTexts| ==> t.db.responseTexts[k].id == db.responseTexts[k].id
    ensures forall k :: 0 <= k < |db.responseTexts| && db.responseTexts[k].id != responseId ==>
      t.db.responseTexts[k] == db.responseTexts[k]
  {
    if fault then Transition(db, SendStatus(SERVER_ERROR))
    else
      var rows := SetWhere(db.responseTexts, responseId, EditGate(db, user), body);
      Transition(db.(responseTexts := rows), SendStatus(CREATED))
  }

  /** Editing an id that no row has changes nothing and still answers 201. */
  lemma EditMissingIdNoChange(db: Db, user: Principal, responseId: int, body: Body)
    requires forall r :: r in db.responseTexts ==> r.id != responseId
    ensures Edit(db, user, responseId, body, false) == Transition(db, SendStatus(CREATED))
  {
    var rows := Edit(db, user, responseId, body, false).db.responseTexts;
    forall k | 0 <= k < |rows| ensures rows[k] == db.responseTexts[k] {
      assert db.responseTexts[k] in db.responseTexts;
    }
  }

  /** The row with the edited id receives the body's issue_id and text whenever the
      caller is admin or owns ANY issue at all: neither the row's own ownership chain
      nor the new issue_id is consulted. */
  lemma EditGateIgnoresRowChain(db: Db, user: Principal, responseId: int, body: Body, k: int)
    requires 0 <= k < |db.responseTexts| && db.responseTexts[k].id == responseId
    ensures var rows := Edit(db, user, responseId, body, false).db.responseTexts;
      rows[k] == (if EditGate(db, user) then ResponseText(responseId, body.issueId, body.text)
                  else db.responseTexts[k])
  {
  }

  /** Edit preserves the primary key and the serial counter. */
  lemma EditPreservesWellFormed(db: Db, user: Principal, responseId: int, body: Body, fault: bool)
    requires WellFormed(db)
    ensures WellFormed(Edit(db, user, responseId, body, fault).db)
  {
    var rows := Edit(db, user, responseId, body, fault).db.responseTexts;
    forall r | r in rows ensures r.id < db.nextResponseId {
      var k :| 0 <= k < |rows| && rows[k] == r;
      assert db.responseTexts[k] in db.responseTexts;
    }
  }

  /** A concrete database on which a non-admin caller edits a row of an application they
      do not own: user 1 owns application 1 (office action 1, issue 1); row 5 hangs off
      issue 2 of application 2, owned by user 2. */
  function BypassDb(): Db {
    Db([Application(1, 1), Application(2, 2)],
       [OfficeAction(1, 1), OfficeAction(2, 2)],
       [Issue(1, 1), Issue(2, 2)],
       [ResponseText(5, 2, "owner's text")],
       6)
  }

  lemma EditBypassesOwnership()
    ensures WellFormed(BypassDb())
    ensures !IssueOwnedBy(BypassDb(), 2, 1)
    ensures Edit(BypassDb(), Principal(1, false), 5, Body(2, "overwritten"), false).db.responseTexts ==
      [ResponseText(5, 2, "overwritten")]
  {
    var db := BypassDb();
    assert db.applications[0] in db.applications && db.officeActions[0] in db.officeActions;
    assert db.issues[0] in db.issues;
    assert EditGate(db, Principal(1, false));
    var rows := SetWhere(db.responseTexts, 5, true, Body(2, "overwritten"));
    assert |rows| == 1 && rows[0] == ResponseText(5, 2, "overwritten");
    assert !IssueOwnedBy(db, 2, 1) by {
      forall a, o, i | a in db.applications && o in db.officeActions && i in db.issues &&
        a.id == o.applicationId && i.officeActionId == o.id && a.userId == 1
        ensures i.id != 2
      {
        assert a == Application(1, 1);
        assert o == OfficeAction(1, 1);
        assert i == Issue(1, 1);
      }
    }
  }

  // ----- the edit gate tied to the edited row, as DELETE does it -----

  /** Admin, or the caller owns the application of the stored row with this id.  This is
      the WHERE clause of the DELETE: its sub-query joins its own copy of `response_text`
      and looks for the row with this id whose issue the caller owns. */
  predicate RowOwnerGate(db: Db, user: Principal, responseId: int) {
    (exists r :: r in db.responseTexts && r.id == responseId && IssueOwnedBy(db, r.issueId, user.id))
    || user.isAdmin
  }

  function EditOwnRow(db: Db, user: Principal, responseId: int, body: Body, fault: bool): (t: Transition)
    ensures fault ==> t == Transition(db, SendStatus(SERVER_ERROR))
    ensures !fault ==> t.reply == SendStatus(CREATED)
    ensures t.db.(responseTexts := db.responseTexts) == db
    ensures |t.db.responseTexts| == |db.responseTexts|
    ensures forall k :: 0 <= k < |db.responseTexts| && db.responseTexts[k].id != responseId ==>
      t.db.responseTexts[k] == db.responseTexts[k]
  {
    if fault then Transition(db, SendStatus(SERVER_ERROR))
    else
      var rows := SetWhere(db.responseTexts, responseId, RowOwnerGate(db, user, responseId), body);
      Transition(db.(responseTexts := rows), SendStatus(CREATED))
  }

  /** With the gate on the row's own chain, a non-admin caller changes a row only when
      they own the application that row's current issue belongs to. */
  lemma EditOwnRowRespectsOwnership(db: Db, user: Principal, responseId: int, body: Body, k: int)
    requires WellFormed(db) && !user.isAdmin
    requires 0 <= k < |db.responseTexts| && db.responseTexts[k].id == responseId
    ensures EditOwnRow(db, user, responseId, body, false).db.responseTexts[k] ==
      (if IssueOwnedBy(db, db.responseTexts[k].issueId, user.id)
       then ResponseText(responseId, body.issueId, body.text) else db.responseTexts[k])
  {
    SameIdSameRow(db.responseTexts, responseId, k);
  }

  /** On the counterexample database the corrected edit leaves the row alone. */
  lemma EditOwnRowBlocksBypass()
    ensures EditOwnRow(BypassDb(), Principal(1, false), 5, Body(2, "overwritten"), false).db == BypassDb()
  {
    var db := BypassDb();
    EditBypassesOwnership();
    EditOwnRowRespectsOwnership(db, Principal(1, false), 5, Body(2, "overwritten"), 0);
  }

  /** Primary key: at most one stored row carries a given id. */
  lemma SameIdSameRow(rows: seq<ResponseText>, id: int, k: int)
    requires UniqueIds(rows) && 0 <= k < |rows| && rows[k].id == id
    ensures forall r :: r in rows && r.id == id ==> r == rows[k]
  {
    forall r | r in rows && r.id == id ensures r == rows[k] {
      var m :| 0 <= m < |rows| && rows[m] == r;
    }
  }

  // ---------------------------------------------------------------------------
  // DELETE /delete/:responseId
  // ---------------------------------------------------------------------------

  /** The rows whose id differs from `responseId`, in their stored order. */
  function RemoveId(rows: seq<ResponseText>, responseId: int): (s: seq<ResponseText>)
    ensures forall r :: r in s <==> r in rows && r.id != responseId
    ensures (forall r :: r in rows ==> r.id != responseId) ==> s == rows
  {
    if rows == [] then []
    else
      assert rows == [rows[0]] + rows[1..];
      var rest := RemoveId(rows[1..], responseId);
      if rows[0].id == responseId then rest else [rows[0]] + rest
  }

  /** With unique ids, removing the id of row `k` cuts out exactly that row. */
  lemma {:induction false} RemoveIdAt(rows: seq<ResponseText>, k: int)
    requires UniqueIds(rows) && 0 <= k < |rows|
    ensures RemoveId(rows, rows[k].id) == rows[..k] + rows[k + 1..]
  {
    if k == 0 {
      RemoveIdHead(rows);
    } else {
      UniqueTail(rows);
      RemoveIdAt(rows[1..], k - 1);
      assert rows[1..][k - 1] == rows[k];
      assert rows[0].id != rows[k].id;
      ConsSlices(rows, k);
    }
  }

  lemma RemoveIdHead(rows: seq<ResponseText>)
    requires UniqueIds(rows) && rows != []
    ensures RemoveId(rows, rows[0].id) == rows[1..]
  {
    forall r | r in rows[1..] ensures r.id != rows[0].id {
      var m :| 0 <= m < |rows| - 1 && rows[1..][m] == r;
      assert rows[m + 1] == r;
    }
  }

  lemma ConsSlices(rows: seq<ResponseText>, k: int)
    requires 0 < k < |rows|
    ensures [rows[0]] + (rows[1..][..k - 1] + rows[1..][k..]) == rows[..k] + rows[k + 1..]
  {
    assert rows[1..][..k - 1] == rows[1..k];
    assert rows[1..][k..] == rows[k + 1..];
    assert rows[..k] == [rows[0]] + rows[1..k];
  }

  lemma UniqueTail(rows: seq<ResponseText>)
    requires UniqueIds(rows) && rows != []
    ensures UniqueIds(rows[1..])
  {
    forall i, j | 0 <= i < j < |rows| - 1 ensures rows[1..][i].id != rows[1..][j].id {
      assert rows[1..][i] == rows[i + 1] && rows[1..][j] == rows[j + 1];
    }
  }

  function Delete(db: Db, user: Principal, responseId: int, fault: bool): (t: Transition)
    ensures fault ==> t == Transition(db, SendStatus(SERVER_ERROR))
    ensures !fault ==> t.reply == SendStatus(CREATED)
    ensures t.db.(responseTexts := db.responseTexts) == db
    ensures forall r :: r in t.db.responseTexts <==>
      r in db.responseTexts && (r.id != responseId || fault || !RowOwnerGate(db, user, responseId))
    ensures fault || !RowOwnerGate(db, user, responseId) ==> t.db == db
  {
    if fault then Transition(db, SendStatus(SERVER_ERROR))
    else if RowOwnerGate(db, user, responseId) then
      Transition(db.(responseTexts := RemoveId(db.responseTexts, responseId)), SendStatus(CREATED))
    else Transition(db, SendStatus(CREATED))
  }

  /** With primary keys, DELETE removes the stored row `k` (and nothing else, keeping the
      order of the rest) exactly when the caller is admin or owns that row's own chain. */
  lemma DeleteRespectsOwnership(db: Db, user: Principal, k: int)
    requires WellFormed(db) && 0 <= k < |db.responseTexts|
    ensures var rows := db.responseTexts;
      Delete(db, user, rows[k].id, false).db.responseTexts ==
        if user.isAdmin || IssueOwnedBy(db, rows[k].issueId, user.id)
        then rows[..k] + rows[k + 1..] else rows
  {
    var rows := db.responseTexts;
    SameIdSameRow(rows, rows[k].id, k);
    if user.isAdmin || IssueOwnedBy(db, rows[k].issueId, user.id) {
      RemoveIdAt(rows, k);
    }
  }

  /** Deleting twice is deleting once: the second call finds no row with the id,
      changes nothing and still answers 201. */
  lemma DeleteIdempotent(db: Db, user: Principal, responseId: int)
    ensures var first := Delete(db, user, responseId, false);
      Delete(first.db, user, responseId, false) == Transition(first.db, SendStatus(CREATED))
  {
    var first := Delete(db, user, responseId, false);
    if RowOwnerGate(db, user, responseId) {
      assert forall r :: r in first.db.responseTexts ==> r.id != responseId;
    }
  }

  lemma {:induction false} RemoveIdKeepsUnique(rows: seq<ResponseText>, responseId: int)
    requires UniqueIds(rows)
    ensures UniqueIds(RemoveId(rows, responseId))
  {
    if rows != [] {
      UniqueTail(rows);
      RemoveIdKeepsUnique(rows[1..], responseId);
      var t := RemoveId(rows[1..], responseId);
      if rows[0].id != responseId {
        forall y | y in t ensures y.id != rows[0].id {
          var m :| 0 <= m < |rows| - 1 && rows[1..][m] == y;
          assert rows[m + 1] == y;
        }
        UniqueCons(rows[0], t);
      }
    }
  }

  lemma DeletePreservesWellFormed(db: Db, user: Principal, responseId: int, fault: bool)
    requires WellFormed(db)
    ensures WellFormed(Delete(db, user, responseId, fault).db)
  {
    RemoveIdKeepsUnique(db.responseTexts, responseId);
  }
}
