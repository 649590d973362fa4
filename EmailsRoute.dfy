/** The `/api/emails` route: GET lists the table newest first, POST adds one
    address, DELETE empties the table. The table is the `emails` table with
    its AUTO_INCREMENT `id` and UNIQUE `email` columns. */
module EmailsRoute {
  import opened Text
  import opened Http

  /** A row of `emails`; `created_at` is an instant, compared as an integer. */
  datatype Row = Row(id: int, email: string, createdAt: int)

  /** The `email` member of a parsed request body, as JavaScript sees it
      (JSON numbers are taken to be integers). */
  datatype JsonValue = Undefined | Null | Bool(b: bool) | Number(n: int) | Str(s: string) | Composite

  /** The request body: unreadable (not JSON, or JSON `null`, whose
      destructuring throws) or an object with an `email` member. */
  datatype PostBody = Unreadable | Body(email: JsonValue)

  /** How the database treats the request: no failure, the connection cannot
      be opened, or the statement raises an error carrying a code. */
  datatype DbFault = NoFault | ConnectFault | QueryFault(code: string)

  /** The error code the route reads as a duplicate key. */
  const UniqueViolation := "23505"

  const EmailRequired := "Email is required"
  const EmailExists := "Email already exists"
  const FailedToAdd := "Failed to add email"
  const EmailAdded := "Email added successfully"
  const FailedToFetch := "Failed to fetch emails"
  const FailedToDelete := "Failed to delete emails"
  const AllDeleted := "All emails deleted successfully"

  /** JavaScript's `!email`: true of exactly the falsy values `undefined`,
      `null`, `false`, `0` and `""`. */
  predicate Falsy(v: JsonValue)
    ensures Falsy(v) <==> v in {Undefined, Null, Bool(false), Number(0), Str([])}
  {
    match v
    case Undefined => true
    case Null => true
    case Bool(b) => !b
    case Number(n) => n == 0
    case Str(s) => s == []
    case Composite => false
  }

  /** The value the route inserts: `email.toLowerCase().trim()`. It is the
      page's normal form `trim().toLowerCase()`, no longer than the input,
      holds no upper-case letter and has no whitespace at either end. */
  function StoredForm(email: string): (r: string)
    ensures r == ToLower(Trim(email))
    ensures |r| <= |email|
    ensures forall i :: 0 <= i < |r| ==> !IsUpper(r[i])
    ensures r == [] || (!IsSpace(r[0]) && !IsSpace(r[|r| - 1]))
  {
    TrimLowerCommute(email);
    var r := Trim(ToLower(email));
    assert r == ToLower(Trim(email));
    r
  }

  /** The reply to an INSERT that raised an error with `code`: a duplicate
      key is a conflict, any other error is rethrown and ends as a 500. */
  function InsertErrorReply(code: string): (r: Reply)
    ensures !r.success
    ensures code == UniqueViolation ==> r == Failure(409, EmailExists)
    ensures r.status == 409 <==> code == UniqueViolation
    ensures r.status != 409 ==> r == Failure(500, FailedToAdd)
  {
    if code == UniqueViolation then Failure(409, EmailExists) else Failure(500, FailedToAdd)
  }

  /** The `email` column, in row order. */
  function EmailsOf(rows: seq<Row>): seq<string> {
    seq(|rows|, i requires 0 <= i < |rows| => rows[i].email)
  }

  ghost predicate UniqueEmails(rows: seq<Row>) {
    forall i, j :: 0 <= i < j < |rows| ==> rows[i].email != rows[j].email
  }

  ghost predicate UniqueIds(rows: seq<Row>) {
    forall i, j :: 0 <= i < j < |rows| ==> rows[i].id != rows[j].id
  }

  /** `ORDER BY created_at DESC`. */
  predicate NewestFirst(rows: seq<Row>) {
    forall i, j :: 0 <= i < j < |rows| ==> rows[i].createdAt >= rows[j].createdAt
  }

  /** Puts `r` into a newest-first sequence, after the rows at least as new. */
  function InsertNewest(r: Row, sorted: seq<Row>): (out: seq<Row>)
    requires NewestFirst(sorted)
    ensures NewestFirst(out)
    ensures multiset(out) == multiset(sorted) + multiset{r}
    ensures |out| == |sorted| + 1
    ensures out[0] == r || (sorted != [] && out[0] == sorted[0])
  {
    if sorted == [] || r.createdAt >= sorted[0].createdAt then
      [r] + sorted
    else
      var rest := InsertNewest(r, sorted[1..]);
      assert sorted == [sorted[0]] + sorted[1..];
      var out := [sorted[0]] + rest;
      assert forall j :: 0 < j < |out| ==> out[j] == rest[j - 1];
      assert sorted[0].createdAt >= rest[0].createdAt;
      out
  }

  /** The rows in GET's order: every row once, newest first. */
  function SortNewestFirst(rows: seq<Row>): (out: seq<Row>)
    ensures NewestFirst(out)
    ensures multiset(out) == multiset(rows)
  {
    if rows == [] then []
    else
      assert rows == [rows[0]] + rows[1..];
      InsertNewest(rows[0], SortNewestFirst(rows[1..]))
  }

  /** Every address stores as the empty string when it is only whitespace:
      the route tests for a missing value before it trims, so a non-empty
      whitespace-only address passes that test. */
  lemma BlankStoresEmpty(email: string)
    requires Blank(email)
    ensures email != [] ==> !Falsy(Str(email))
    ensures StoredForm(email) == []
  {
    TrimLowerCommute(email);
    TrimEmptyIffBlank(email);
  }

  /** Normalising twice is normalising once, so a value the route stored is
      stored unchanged when posted again (and then collides with itself). */
  lemma StoredFormIdempotent(email: string)
    ensures StoredForm(StoredForm(email)) == StoredForm(email)
  {
    var t := Trim(ToLower(email));
    TrimLowerCommute(email);
    ToLowerIdempotent(Trim(email));
    TrimLowerCommute(t);
    TrimIdempotent(ToLower(email));
  }

  /** Appending a row with a fresh id and an address not yet present keeps
      ids and addresses unique. */
  lemma AppendKeepsUnique(rows: seq<Row>, row: Row, nextId: int)
    requires UniqueIds(rows) && UniqueEmails(rows)
    requires forall r :: r in rows ==> r.id < nextId
    requires row.id == nextId && row.email !in EmailsOf(rows)
    ensures var rows' := rows + [row];
      UniqueIds(rows') && UniqueEmails(rows') && forall r :: r in rows' ==> r.id < nextId + 1
  {
    var rows' := rows + [row];
    forall i | 0 <= i < |rows| ensures rows'[i].email != row.email && rows'[i].id != row.id {
      assert EmailsOf(rows)[i] == rows[i].email;
      assert rows[i] in rows;
    }
  }

  class EmailsTable {
    var rows: seq<Row>
    /** The next AUTO_INCREMENT value. */
    var nextId: int

    ghost predicate Valid()
      reads this
    {
      && UniqueIds(rows)
      && UniqueEmails(rows)
      && forall r :: r in rows ==> r.id < nextId
    }

    constructor ()
      ensures Valid() && rows == [] && nextId == 1
    {
      rows := [];
      nextId := 1;
    }

    /** GET: `SELECT * FROM emails ORDER BY created_at DESC`. */
    method Get(fault: DbFault) returns (reply: Reply, data: seq<Row>)
      ensures fault == NoFault ==> reply == Success("")
      ensures fault == NoFault ==> multiset(data) == multiset(rows) && NewestFirst(data)
      ensures fault != NoFault ==> reply == Failure(500, FailedToFetch) && data == []
    {
      if fault != NoFault {
        return Failure(500, FailedToFetch), [];
      }
      data := SortNewestFirst(rows);
      reply := Success("");
    }

    /** POST: check the `email` member, normalise it and insert it; `now` is
        the CURRENT_TIMESTAMP the row receives. */
    method Post(body: PostBody, fault: DbFault, now: int) returns (reply: Reply)
      requires Valid()
      modifies this
      ensures Valid()
      ensures body.Unreadable? ==> reply == Failure(500, FailedToAdd)
      ensures body.Body? && Falsy(body.email) ==> reply == Failure(400, EmailRequired)
      ensures body.Body? && !Falsy(body.email) && fault == ConnectFault ==> reply == Failure(500, FailedToAdd)
      ensures body.Body? && !Falsy(body.email) && !body.email.Str? ==> reply == Failure(500, FailedToAdd)
      ensures body.Body? && body.email.Str? && body.email.s != [] ==>
        (fault.QueryFault? ==> reply == InsertErrorReply(fault.code)) &&
        (fault == NoFault && StoredForm(body.email.s) in EmailsOf(old(rows)) ==>
           reply == InsertErrorReply(UniqueViolation)) &&
        (fault == NoFault && StoredForm(body.email.s) !in EmailsOf(old(rows)) ==>
           reply == Success(EmailAdded))
      ensures reply.success ==>
        && body.Body? && body.email.Str?
        && rows == old(rows) + [Row(old(nextId), StoredForm(body.email.s), now)]
        && nextId == old(nextId) + 1
      ensures !reply.success ==> rows == old(rows) && nextId == old(nextId)
    {
      if body.Unreadable? {
        return Failure(500, FailedToAdd);
      }
      var email := body.email;
      if Falsy(email) {
        return Failure(400, EmailRequired);
      }
      if fault == ConnectFault {
        return Failure(500, FailedToAdd);
      }
      if !email.Str? {
        // `toLowerCase` is not a function on this value: a TypeError, caught as a 500.
        return Failure(500, FailedToAdd);
      }
      var stored := StoredForm(email.s);
      if fault.QueryFault? {
        return InsertErrorReply(fault.code);
      }
      if stored in EmailsOf(rows) {
        return InsertErrorReply(UniqueViolation);
      }
      AppendKeepsUnique(rows, Row(nextId, stored, now), nextId);
      rows := rows + [Row(nextId, stored, now)];
      nextId := nextId + 1;
      reply := Success(EmailAdded);
    }

    /** DELETE: `DELETE FROM emails`; the AUTO_INCREMENT counter is kept. */
    method Delete(fault: DbFault) returns (reply: Reply)
      requires Valid()
      modifies this`rows
      ensures Valid()
      ensures fault == NoFault ==> rows == [] && reply == Success(AllDeleted)
      ensures fault != NoFault ==> rows == old(rows) && reply == Failure(500, FailedToDelete)
    {
      if fault != NoFault {
        return Failure(500, FailedToDelete);
      }
      rows := [];
      reply := Success(AllDeleted);
    }
  }
}
