/** The persistence methods of the older package domain/users: each one
    runs one statement on the users table against the receiver `u` and
    turns the driver's failures into REST errors that carry the driver's
    own text. */
module UsersDb {
  import opened Wrappers
  import opened Text
  import opened Errors
  import opened Domain
  import opened Store

  /** handleQueryExecError: no error stays no error; an error naming the
      unique index on email is the client's fault; anything else is an
      internal error that passes the driver's text on. */
  function HandleQueryExecError(email: string, err: Option<string>): (r: Option<RestErr>)
    ensures r == None <==> err == None
    ensures r != None ==> WellLabelled(r.value)
    ensures r != None ==> (r.value.status == StatusBadRequest <==> Contains(err.value, EmailUniqueKey))
    ensures r != None && r.value.status == StatusBadRequest ==>
      r.value.message == EmailAlreadyUsedMessage(email)
    ensures r != None && r.value.status != StatusBadRequest ==>
      r.value.status == StatusInternalServerError && r.value.message == err.value
  {
    if err == None then None
    else if Contains(err.value, EmailUniqueKey) then Some(BadRequestError(EmailAlreadyUsedMessage(email)))
    else Some(InternalServerError(err.value))
  }

  /** The table's own duplicate-entry failure always reaches the client as
      "email already in use" for the email being written. */
  lemma DuplicateEmailIsBadRequest(email: string, stored: string)
    ensures HandleQueryExecError(email, Some(DuplicateEmailMessage(stored)))
      == Some(BadRequestError(EmailAlreadyUsedMessage(email)))
  {
    DuplicateEmailNamesKey(stored);
  }

  /** The error the SELECT by id ends in, if any: a failed statement, a
      cursor that fails before the first row (Row.Scan reports rows.Err
      before it reports a missing row), no row with that id, or a failed
      scan of the one row. */
  function ReadFailure(id: int, rows: map<int, UserRecord>, fault: Fault): (r: Option<RestErr>)
    ensures r == None <==>
      && !(fault.PrepareFault? || fault.ExecFault? || (fault.NextFault? && fault.row == 0))
      && id in rows && !(fault.ScanFault? && fault.row == 0)
    ensures r != None ==> WellLabelled(r.value)
    ensures r != None && r.value.status == StatusNotFound <==>
      !(fault.PrepareFault? || fault.ExecFault? || (fault.NextFault? && fault.row == 0)) && id !in rows
    ensures r != None && r.value.status == StatusNotFound ==> r.value.message == UserNotFoundMessage(id)
    ensures r != None && r.value.status != StatusNotFound ==>
      r.value == InternalServerError(fault.message)
  {
    if fault.PrepareFault? || fault.ExecFault? then Some(InternalServerError(fault.message))
    else if fault.NextFault? && fault.row == 0 then Some(InternalServerError(fault.message))
    else if id !in rows then Some(NotFoundError(UserNotFoundMessage(id)))
    else if fault.ScanFault? && fault.row == 0 then Some(InternalServerError(fault.message))
    else None
  }

  /** Get: reads the row with the receiver's id into the receiver. The
      SELECT does not read the password, so the receiver keeps its own. */
  method Get(u: User, db: Table, fault: Fault) returns (err: Option<RestErr>)
    requires db.Valid()
    modifies u
    ensures err == ReadFailure(old(u.id), db.rows, fault)
    ensures err != None ==> u.Value() == old(u.Value())
    ensures err == None ==> u.Value() == db.rows[old(u.id)].(password := old(u.password)) && u.id == old(u.id)
  {
    if fault.PrepareFault? || fault.ExecFault? {
      return Some(InternalServerError(fault.message));
    }
    if fault.NextFault? && fault.row == 0 {
      return Some(InternalServerError(fault.message));
    }
    if u.id !in db.rows {
      return Some(NotFoundError(UserNotFoundMessage(u.id)));
    }
    if fault.ScanFault? && fault.row == 0 {
      return Some(InternalServerError(fault.message));
    }
    var row := db.rows[u.id];
    u.id, u.firstName, u.lastName, u.email := row.id, row.firstName, row.lastName, row.email;
    u.status, u.dateCreated, u.dateUpdated := row.status, row.dateCreated, row.dateUpdated;
    return None;
  }

  /** FindByStatus: scans, one by one, every row with the receiver's
      status; a failed scan abandons the whole result. A failure of the
      cursor ends the loop as if the rows had run out (rows.Err is never
      looked at), so the rows read so far come back without an error. A
      search that finds nothing gives an empty list, never a nil one. */
  method FindByStatus(u: User, db: Table, fault: Fault) returns (users: Option<seq<UserRecord>>, err: Option<RestErr>)
    requires db.Valid()
    ensures fault.PrepareFault? || fault.ExecFault? ==>
      users == None && err == Some(InternalServerError(fault.message))
    ensures fault.ScanFault? && fault.row < |db.RowsWithStatus(u.status)| ==>
      users == None && err == Some(InternalServerError(fault.message))
    ensures fault.NextFault? ==>
      var found := db.RowsWithStatus(u.status);
      err == None && users == Some(SelectedAll(found[..if fault.row < |found| then fault.row else |found|]))
    ensures (!(fault.PrepareFault? || fault.ExecFault? || fault.NextFault?)
      && !(fault.ScanFault? && fault.row < |db.RowsWithStatus(u.status)|)) ==>
      err == None && users == Some(SelectedAll(db.RowsWithStatus(u.status)))
  {
    if fault.PrepareFault? || fault.ExecFault? {
      return None, Some(InternalServerError(fault.message));
    }
    var rows := db.RowsWithStatus(u.status);
    var found: seq<UserRecord> := [];
    var i := 0;
    while i < |rows|
      invariant 0 <= i <= |rows|
      invariant found == SelectedAll(rows[..i])
      invariant !(fault.ScanFault? && fault.row < i)
      invariant !(fault.NextFault? && fault.row < i)
    {
      if fault.NextFault? && fault.row == i {
        break;
      }
      if fault.ScanFault? && fault.row == i {
        return None, Some(InternalServerError(fault.message));
      }
      var user := Selected(rows[i]);
      found := found + [user];
      i := i + 1;
    }
    assert i == |rows| ==> rows[..i] == rows;
    return Some(found), None;
  }

  /** Create: inserts the receiver as a new row and sets its id to the one
      the table assigned. */
  method Create(u: User, db: Table, fault: Fault) returns (err: Option<RestErr>)
    requires db.Valid()
    modifies u, db
    ensures db.Valid()
    ensures fault.PrepareFault? ==>
      err == Some(InternalServerError(fault.message))
      && u.Value() == old(u.Value()) && db.rows == old(db.rows) && db.nextId == old(db.nextId)
    ensures fault.ExecFault? ==>
      err == HandleQueryExecError(old(u.email), Some(fault.message))
      && u.Value() == old(u.Value()) && db.rows == old(db.rows) && db.nextId == old(db.nextId)
    ensures !fault.PrepareFault? && !fault.ExecFault? && old(db.EmailTaken(u.email)) ==>
      err == Some(BadRequestError(EmailAlreadyUsedMessage(old(u.email))))
      && u.Value() == old(u.Value()) && db.rows == old(db.rows) && db.nextId == old(db.nextId)
    ensures !fault.PrepareFault? && !fault.ExecFault? && !old(db.EmailTaken(u.email)) ==>
      && db.rows == old(db.rows)[old(db.nextId) := old(u.Value()).(id := old(db.nextId))]
      && db.nextId == old(db.nextId) + 1
      && (fault.ResultFault? ==> err == Some(InternalServerError(fault.message)) && u.Value() == old(u.Value()).(id := 0))
      && (!fault.ResultFault? ==> err == None && u.Value() == old(u.Value()).(id := old(db.nextId)))
  {
    if fault.PrepareFault? {
      return Some(InternalServerError(fault.message));
    }
    if fault.ExecFault? {
      return HandleQueryExecError(u.email, Some(fault.message));
    }
    var res := db.Insert(u.Value());
    if res.Failure? {
      DuplicateEmailIsBadRequest(u.email, u.email);
      return HandleQueryExecError(u.email, Some(res.error));
    }
    if fault.ResultFault? {
      u.id := 0;
      return Some(InternalServerError(fault.message));
    }
    u.id := res.value;
    return None;
  }

  /** Update: writes the receiver's first name, last name, email and
      update time into the row with its id. The number of rows affected is
      not looked at, so an id with no row is not an error. */
  method Update(u: User, db: Table, fault: Fault) returns (err: Option<RestErr>)
    requires db.Valid()
    modifies db
    ensures db.Valid() && db.nextId == old(db.nextId)
    ensures fault.PrepareFault? ==>
      err == Some(InternalServerError(fault.message)) && db.rows == old(db.rows)
    ensures fault.ExecFault? ==>
      err == HandleQueryExecError(u.email, Some(fault.message)) && db.rows == old(db.rows)
    ensures !fault.PrepareFault? && !fault.ExecFault? && u.id !in old(db.rows) ==>
      err == None && db.rows == old(db.rows)
    ensures !fault.PrepareFault? && !fault.ExecFault? && u.id in old(db.rows) && old(db.EmailTakenByOther(u.email, u.id)) ==>
      err == Some(BadRequestError(EmailAlreadyUsedMessage(u.email))) && db.rows == old(db.rows)
    ensures !fault.PrepareFault? && !fault.ExecFault? && u.id in old(db.rows) && !old(db.EmailTakenByOther(u.email, u.id)) ==>
      && err == None
      && db.rows == old(db.rows)[u.id := old(db.rows)[u.id].(firstName := u.firstName, lastName := u.lastName,
                                                             email := u.email, dateUpdated := u.dateUpdated)]
  {
    if fault.PrepareFault? {
      return Some(InternalServerError(fault.message));
    }
    if fault.ExecFault? {
      return HandleQueryExecError(u.email, Some(fault.message));
    }
    var e := db.UpdateRow(u.id, u.firstName, u.lastName, u.email, u.dateUpdated);
    if e != None {
      DuplicateEmailIsBadRequest(u.email, u.email);
    }
    return HandleQueryExecError(u.email, e);
  }

  /** Delete: removes the row with the receiver's id; deleting nothing is
      a not-found error. */
  method Delete(u: User, db: Table, fault: Fault) returns (err: Option<RestErr>)
    requires db.Valid()
    modifies db
    ensures db.Valid() && db.nextId == old(db.nextId)
    ensures fault.PrepareFault? ==>
      err == Some(InternalServerError(fault.message)) && db.rows == old(db.rows)
    ensures fault.ExecFault? ==>
      err == HandleQueryExecError(u.email, Some(fault.message)) && db.rows == old(db.rows)
    ensures !fault.PrepareFault? && !fault.ExecFault? ==> db.rows == old(db.rows) - {u.id}
    ensures !fault.PrepareFault? && !fault.ExecFault? && fault.ResultFault? ==>
      err == Some(InternalServerError(fault.message))
    ensures !fault.PrepareFault? && !fault.ExecFault? && !fault.ResultFault? && u.id !in old(db.rows) ==>
      err == Some(NotFoundError(UserNotFoundMessage(u.id)))
    ensures !fault.PrepareFault? && !fault.ExecFault? && !fault.ResultFault? && u.id in old(db.rows) ==>
      err == None
  {
    if fault.PrepareFault? {
      return Some(InternalServerError(fault.message));
    }
    if fault.ExecFault? {
      return HandleQueryExecError(u.email, Some(fault.message));
    }
    var affected := db.DeleteRow(u.id);
    if fault.ResultFault? {
      return Some(InternalServerError(fault.message));
    }
    if affected == 0 {
      return Some(NotFoundError(UserNotFoundMessage(u.id)));
    }
    return None;
  }
}
