/** The newer persistence adapter (interfaces/db/mysql): a store object
    whose methods take and return users by value. Unlike the older
    package it never passes the driver's text to the client: every
    internal failure is the same generic 500. */
module MysqlStore {
  import opened Wrappers
  import opened Text
  import opened Errors
  import opened Domain
  import opened Store

  /** The one 500 the adapter reports, whatever went wrong. */
  function GenericInternalError(): (r: RestErr)
    ensures r.status == StatusInternalServerError && WellLabelled(r) && r.message == InternalServerErrMsg
  {
    InternalServerError(InternalServerErrMsg)
  }

  /** handleQueryExecError of the adapter: as in the older package, but an
      error that does not name the unique index hides the driver's text. */
  function HandleQueryExecError(email: string, err: Option<string>): (r: Option<RestErr>)
    ensures r == None <==> err == None
    ensures r != None ==> WellLabelled(r.value)
    ensures r != None && Contains(err.value, EmailUniqueKey) ==>
      r.value == BadRequestError(EmailAlreadyUsedMessage(email))
    ensures r != None && !Contains(err.value, EmailUniqueKey) ==>
      r.value == GenericInternalError()
  {
    if err == None then None
    else if Contains(err.value, EmailUniqueKey) then Some(BadRequestError(EmailAlreadyUsedMessage(email)))
    else Some(GenericInternalError())
  }

  /** The table's duplicate-entry failure is "email already in use". */
  lemma DuplicateEmailIsBadRequest(email: string, stored: string)
    ensures HandleQueryExecError(email, Some(DuplicateEmailMessage(stored)))
      == Some(BadRequestError(EmailAlreadyUsedMessage(email)))
  {
    DuplicateEmailNamesKey(stored);
  }

  /** The adapter over the users table. The Go methods reach the table
      through the package's client, which is the same connection the
      adapter is built with; here they reach it through `db`. */
  class UserStore {
    const db: Table

    /** NewUsersStore */
    constructor (db: Table)
      ensures this.db == db
    {
      this.db := db;
    }

    /** Get: the row with id `id`, with the columns the SELECT reads. */
    method Get(id: int, fault: Fault) returns (user: Option<UserRecord>, err: Option<RestErr>)
      requires db.Valid()
      ensures fault.PrepareFault? || fault.ExecFault? || (fault.NextFault? && fault.row == 0) ==>
        user == None && err == Some(GenericInternalError())
      ensures !(fault.PrepareFault? || fault.ExecFault? || (fault.NextFault? && fault.row == 0)) && id !in db.rows ==>
        user == None && err == Some(NotFoundError(UserNotFoundMessage(id)))
      ensures id in db.rows && fault.ScanFault? && fault.row == 0 ==>
        user == None && err == Some(GenericInternalError())
      ensures (!(fault.PrepareFault? || fault.ExecFault? || (fault.NextFault? && fault.row == 0)) && id in db.rows
        && !(fault.ScanFault? && fault.row == 0)) ==>
        err == None && user == Some(Selected(db.rows[id])) && user.value.id == id
    {
      if fault.PrepareFault? || fault.ExecFault? {
        return None, Some(GenericInternalError());
      }
      if fault.NextFault? && fault.row == 0 {
        return None, Some(GenericInternalError());
      }
      if id !in db.rows {
        return None, Some(NotFoundError(UserNotFoundMessage(id)));
      }
      if fault.ScanFault? && fault.row == 0 {
        return None, Some(GenericInternalError());
      }
      return Some(Selected(db.rows[id])), None;
    }

    /** FindByStatus: every row with that status, scanned one by one; a
        failed scan abandons the result; a failed cursor ends the loop
        early without an error; no match gives an empty list. */
    method FindByStatus(status: string, fault: Fault) returns (users: Option<seq<UserRecord>>, err: Option<RestErr>)
      requires db.Valid()
      ensures fault.PrepareFault? || fault.ExecFault? ==>
        users == None && err == Some(GenericInternalError())
      ensures fault.ScanFault? && fault.row < |db.RowsWithStatus(status)| ==>
        users == None && err == Some(GenericInternalError())
      ensures fault.NextFault? ==>
        var found := db.RowsWithStatus(status);
        err == None && users == Some(SelectedAll(found[..if fault.row < |found| then fault.row else |found|]))
      ensures (!(fault.PrepareFault? || fault.ExecFault? || fault.NextFault?)
        && !(fault.ScanFault? && fault.row < |db.RowsWithStatus(status)|)) ==>
        err == None && users == Some(SelectedAll(db.RowsWithStatus(status)))
    {
      if fault.PrepareFault? || fault.ExecFault? {
        return None, Some(GenericInternalError());
      }
      var rows := db.RowsWithStatus(status);
      var found: seq<UserRecord> := [];
      var i := 0;
      while i < |rows|
        invariant 0 <= i <= |rows|
        invariant found == SelectedAll(rows[..i])
        invariant !(fault.ScanFault? && fault.row < i)
        invariant !(fault.NextFault? && fault.row < i)
      {
        if fault.NextFault? && fault.row == i {
          break;
        }
        if fault.ScanFault? && fault.row == i {
          return None, Some(GenericInternalError());
        }
        found := found + [Selected(rows[i])];
        i := i + 1;
      }
      assert i == |rows| ==> rows[..i] == rows;
      return Some(found), None;
    }

    /** Create: inserts `u` and returns it with the id the table assigned. */
    method Create(u: UserRecord, fault: Fault) returns (created: Option<UserRecord>, err: Option<RestErr>)
      requires db.Valid()
      modifies db
      ensures db.Valid()
      ensures fault.PrepareFault? ==>
        created == None && err == Some(GenericInternalError())
        && db.rows == old(db.rows) && db.nextId == old(db.nextId)
      ensures fault.ExecFault? ==>
        created == None && err == HandleQueryExecError(u.email, Some(fault.message))
        && db.rows == old(db.rows) && db.nextId == old(db.nextId)
      ensures !fault.PrepareFault? && !fault.ExecFault? && old(db.EmailTaken(u.email)) ==>
        created == None && err == Some(BadRequestError(EmailAlreadyUsedMessage(u.email)))
        && db.rows == old(db.rows) && db.nextId == old(db.nextId)
      ensures !fault.PrepareFault? && !fault.ExecFault? && !old(db.EmailTaken(u.email)) ==>
        && db.rows == old(db.rows)[old(db.nextId) := u.(id := old(db.nextId))]
        && db.nextId == old(db.nextId) + 1
        && (fault.ResultFault? ==> created == None && err == Some(GenericInternalError()))
        && (!fault.ResultFault? ==> err == None && created == Some(u.(id := old(db.nextId))))
    {
      if fault.PrepareFault? {
        return None, Some(GenericInternalError());
      }
      if fault.ExecFault? {
        return None, HandleQueryExecError(u.email, Some(fault.message));
      }
      var res := db.Insert(u);
      if res.Failure? {
        DuplicateEmailIsBadRequest(u.email, u.email);
        return None, HandleQueryExecError(u.email, Some(res.error));
      }
      if fault.ResultFault? {
        return None, Some(GenericInternalError());
      }
      return Some(u.(id := res.value)), None;
    }

    /** Update: writes the four writable columns of `u` into the row with
        its id and returns `u`; rows affected are not looked at. */
    method Update(u: UserRecord, fault: Fault) returns (updated: Option<UserRecord>, err: Option<RestErr>)
      requires db.Valid()
      modifies db
      ensures db.Valid() && db.nextId == old(db.nextId)
      ensures fault.PrepareFault? ==>
        updated == None && err == Some(GenericInternalError()) && db.rows == old(db.rows)
      ensures fault.ExecFault? ==>
        updated == None && err == HandleQueryExecError(u.email, Some(fault.message)) && db.rows == old(db.rows)
      ensures !fault.PrepareFault? && !fault.ExecFault? && u.id !in old(db.rows) ==>
        updated == Some(u) && err == None && db.rows == old(db.rows)
      ensures !fault.PrepareFault? && !fault.ExecFault? && u.id in old(db.rows) && old(db.EmailTakenByOther(u.email, u.id)) ==>
        updated == None && err == Some(BadRequestError(EmailAlreadyUsedMessage(u.email))) && db.rows == old(db.rows)
      ensures !fault.PrepareFault? && !fault.ExecFault? && u.id in old(db.rows) && !old(db.EmailTakenByOther(u.email, u.id)) ==>
        && updated == Some(u) && err == None
        && db.rows == old(db.rows)[u.id := old(db.rows)[u.id].(firstName := u.firstName, lastName := u.lastName,
                                                               email := u.email, dateUpdated := u.dateUpdated)]
    {
      if fault.PrepareFault? {
        return None, Some(GenericInternalError());
      }
      if fault.ExecFault? {
        return None, HandleQueryExecError(u.email, Some(fault.message));
      }
      var e := db.UpdateRow(u.id, u.firstName, u.lastName, u.email, u.dateUpdated);
      if e != None {
        DuplicateEmailIsBadRequest(u.email, u.email);
        return None, HandleQueryExecError(u.email, e);
      }
      return Some(u), None;
    }

    /** Delete: removes the row with id `id`; deleting nothing is a
        not-found error. The classification sees a user with only its id
        set, so its email is empty. */
    method Delete(id: int, fault: Fault) returns (err: Option<RestErr>)
      requires db.Valid()
      modifies db
      ensures db.Valid() && db.nextId == old(db.nextId)
      ensures fault.PrepareFault? ==>
        err == Some(GenericInternalError()) && db.rows == old(db.rows)
      ensures fault.ExecFault? ==>
        err == HandleQueryExecError("", Some(fault.message)) && db.rows == old(db.rows)
      ensures !fault.PrepareFault? && !fault.ExecFault? ==> db.rows == old(db.rows) - {id}
      ensures !fault.PrepareFault? && !fault.ExecFault? && fault.ResultFault? ==>
        err == Some(GenericInternalError())
      ensures !fault.PrepareFault? && !fault.ExecFault? && !fault.ResultFault? && id !in old(db.rows) ==>
        err == Some(NotFoundError(UserNotFoundMessage(id)))
      ensures !fault.PrepareFault? && !fault.ExecFault? && !fault.ResultFault? && id in old(db.rows) ==>
        err == None
    {
      if fault.PrepareFault? {
        return Some(GenericInternalError());
      }
      if fault.ExecFault? {
        return HandleQueryExecError("", Some(fault.message));
      }
      var affected := db.DeleteRow(id);
      if fault.ResultFault? {
        return Some(GenericInternalError());
      }
      if affected == 0 {
        return Some(NotFoundError(UserNotFoundMessage(id)));
      }
      return None;
    }
  }
}
