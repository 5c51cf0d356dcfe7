/** The users service (services/users.go): the use cases the REST layer
    calls, each a short sequence of validation and persistence steps on
    one mutable user. The clock and the cipher are parameters: `now`,
    `created` and `updated` are readings of the formatted current time,
    `encrypt` the outcome of encrypting a
    password (the ciphertext, or the text of the cipher's failure). */
module Service {
  import opened Wrappers
  import opened Text
  import opened Errors
  import opened EmailPattern
  import opened Domain
  import opened Store
  import UsersDb

  /** Get: loads the user with the receiver's id and hands the receiver
      back with the error, if any. */
  method Get(u: User, db: Table, fault: Fault) returns (user: User, err: Option<RestErr>)
    requires db.Valid()
    modifies u
    ensures user == u
    ensures err == UsersDb.ReadFailure(old(u.id), db.rows, fault)
    ensures err != None ==> u.Value() == old(u.Value())
    ensures err == None ==> u.Value() == db.rows[old(u.id)].(password := old(u.password))
  {
    err := UsersDb.Get(u, db, fault);
    user := u;
  }

  /** Find: a status other than "active" or "inactive" is refused before
      the store is asked; otherwise every stored user with that status. */
  method Find(u: User, db: Table, fault: Fault) returns (users: Option<seq<UserRecord>>, err: Option<RestErr>)
    requires db.Valid()
    ensures !(u.status == ActiveStatus || u.status == InactiveStatus) ==>
      users == None && err == Some(BadRequestError(InvalidStatus(u.status, ValidStatusList).Message()))
    ensures ((u.status == ActiveStatus || u.status == InactiveStatus)
      && (fault.PrepareFault? || fault.ExecFault? || (fault.ScanFault? && fault.row < |db.RowsWithStatus(u.status)|))) ==>
      users == None && err == Some(InternalServerError(fault.message))
    ensures ((u.status == ActiveStatus || u.status == InactiveStatus) && fault.NextFault?) ==>
      (var found := db.RowsWithStatus(u.status);
       err == None && users == Some(SelectedAll(found[..if fault.row < |found| then fault.row else |found|])))
    ensures ((u.status == ActiveStatus || u.status == InactiveStatus)
      && !(fault.PrepareFault? || fault.ExecFault? || fault.NextFault?
           || (fault.ScanFault? && fault.row < |db.RowsWithStatus(u.status)|))) ==>
      err == None && users == Some(SelectedAll(db.RowsWithStatus(u.status)))
  {
    var e := u.ValidateStatus();
    if e != None {
      return None, Some(BadRequestError(e.value.Message()));
    }
    users, err := UsersDb.FindByStatus(u, db, fault);
  }

  /** What Create stores: the validated user stamped with the two clock
      readings, its password replaced by what the cipher returned. */
  function ToStore(validated: UserRecord, created: string, updated: string, ciphertext: string): UserRecord
  {
    validated.(dateCreated := created, dateUpdated := updated, password := ciphertext)
  }

  /** Create: a user that fails validation is refused with the
      validator's message; a password the cipher cannot encrypt is an
      internal error; otherwise the stamped, encrypted user is inserted and
      handed back, with the store's error if the insert failed. The clock
      is read twice, once per stamp. Nothing is
      written unless validation and encryption both succeed. */
  method Create(u: User, db: Table, created: string, updated: string, encrypt: string -> Result<string, string>, fault: Fault)
    returns (user: Option<User>, err: Option<RestErr>)
    requires db.Valid()
    modifies u, db
    ensures db.Valid()
    ensures Validation(old(u.Value())).Failure? ==>
      && user == None
      && err == Some(BadRequestError(Validation(old(u.Value())).error.Message()))
      && u.Value() == ValidatedState(old(u.Value()))
      && db.rows == old(db.rows) && db.nextId == old(db.nextId)
    ensures Validation(old(u.Value())).Success? ==>
      SealAndInsertOutcome(Validation(old(u.Value())).value, created, updated, encrypt, fault,
        old(db.rows), old(db.nextId), u.Value(), db.rows, db.nextId, user == Some(u), err)
    ensures user == None || user == Some(u)
  {
    var e := u.Validate();
    if e != None {
      return None, Some(BadRequestError(e.value.Message()));
    }
    var returned;
    returned, err := SealAndInsert(u, db, created, updated, encrypt, fault);
    user := if returned then Some(u) else None;
  }

  /** What the second half of Create (after validation) ends in, for a
      validated user `v` and the table as it was: the stamps are set; an
      encryption failure blanks the password (the cipher gives "" with its
      error) and is a generic 500 with nothing written and no user handed
      back; otherwise the stamped user with the ciphertext is
      inserted, exactly as UsersDb.Create inserts it, and handed back. */
  ghost predicate SealAndInsertOutcome(
    v: UserRecord, created: string, updated: string, encrypt: string -> Result<string, string>, fault: Fault,
    rows0: map<int, UserRecord>, next0: int,
    user: UserRecord, rows: map<int, UserRecord>, next: int, returned: bool, err: Option<RestErr>)
  {
    if encrypt(v.password).Failure? then
      && !returned && err == Some(InternalServerError(InternalServerErrMsg))
      && user == v.(dateCreated := created, dateUpdated := updated, password := "")
      && rows == rows0 && next == next0
    else
      var w := ToStore(v, created, updated, encrypt(v.password).value);
      var taken := exists k :: k in rows0 && rows0[k].email == w.email;
      && returned
      && (fault.PrepareFault? ==>
            err == Some(InternalServerError(fault.message)) && user == w && rows == rows0 && next == next0)
      && (fault.ExecFault? ==>
            err == UsersDb.HandleQueryExecError(w.email, Some(fault.message)) && user == w && rows == rows0 && next == next0)
      && (!fault.PrepareFault? && !fault.ExecFault? && taken ==>
            err == Some(BadRequestError(EmailAlreadyUsedMessage(w.email))) && user == w && rows == rows0 && next == next0)
      && (!fault.PrepareFault? && !fault.ExecFault? && !taken ==>
            && rows == rows0[next0 := w.(id := next0)] && next == next0 + 1
            && (fault.ResultFault? ==> err == Some(InternalServerError(fault.message)) && user == w.(id := 0))
            && (!fault.ResultFault? ==> err == None && user == w.(id := next0)))
  }

  /** Create after validation: stamp, encrypt, insert. */
  method SealAndInsert(u: User, db: Table, created: string, updated: string, encrypt: string -> Result<string, string>, fault: Fault)
    returns (returned: bool, err: Option<RestErr>)
    requires db.Valid()
    modifies u, db
    ensures db.Valid()
    ensures SealAndInsertOutcome(old(u.Value()), created, updated, encrypt, fault,
      old(db.rows), old(db.nextId), u.Value(), db.rows, db.nextId, returned, err)
  {
    u.dateCreated := created;
    u.dateUpdated := updated;
    var sealed := encrypt(u.password);
    if sealed.Failure? {
      u.password := "";
      return false, Some(InternalServerError(InternalServerErrMsg));
    }
    u.password := sealed.value;
    err := UsersDb.Create(u, db, fault);
    returned := true;
  }

  /** The user Update writes: each of first name, last name and email
      that the request fills replaces the stored one (the email in its
      lower-case form), and the update time is stamped. */
  function Merged(stored: UserRecord, request: UserRecord, now: string): UserRecord
  {
    stored.(
      firstName := if IsBlank(request.firstName) then stored.firstName else request.firstName,
      lastName := if IsBlank(request.lastName) then stored.lastName else request.lastName,
      email := if IsBlank(request.email) then stored.email else ToLower(request.email),
      dateUpdated := now)
  }

  /** The request to Update carries an email that is filled but malformed. */
  predicate EmailRejected(request: UserRecord)
  {
    !IsBlank(request.email) && !MatchesEmailPattern(request.email)
  }

  /** Update is a partial update: only the three writable fields that the
      request fills change, and only those and the time; the id, status,
      password and creation time are kept. A request that fills none of
      them only stamps the time. */
  lemma MergedChangesOnlyFilledFields(stored: UserRecord, request: UserRecord, now: string)
    ensures var m := Merged(stored, request, now);
      && m.id == stored.id && m.status == stored.status
      && m.password == stored.password && m.dateCreated == stored.dateCreated
      && m.dateUpdated == now
      && (!IsBlank(request.firstName) ==> m.firstName == request.firstName)
      && (IsBlank(request.firstName) ==> m.firstName == stored.firstName)
      && (!IsBlank(request.lastName) ==> m.lastName == request.lastName)
      && (IsBlank(request.lastName) ==> m.lastName == stored.lastName)
      && (!IsBlank(request.email) ==> m.email == ToLower(request.email))
      && (IsBlank(request.email) ==> m.email == stored.email)
    ensures IsBlank(request.firstName) && IsBlank(request.lastName) && IsBlank(request.email) ==>
      Merged(stored, request, now) == stored.(dateUpdated := now)
  {
  }

  /** Applying the same request twice leaves the user as applying it once. */
  lemma {:induction false} MergedIsIdempotent(stored: UserRecord, request: UserRecord, now: string)
    ensures Merged(Merged(stored, request, now), request, now) == Merged(stored, request, now)
  {
    ToLowerIdempotent(request.email);
  }

  /** A merged email that passed the pattern is still in the pattern's
      language and already lower-case. */
  lemma {:induction false} MergedEmailIsCanonical(stored: UserRecord, request: UserRecord, now: string)
    requires !IsBlank(request.email) && !EmailRejected(request)
    ensures var m := Merged(stored, request, now);
      MatchesEmailPattern(m.email) && ToLower(m.email) == m.email
  {
    LowerCasePreservesMatch(request.email);
    ToLowerIdempotent(request.email);
  }

  /** Update: loads the stored user into the receiver, overlays the
      fields the request fills, re-validates a new email and writes the
      result. A failed load or a malformed email writes nothing. */
  method Update(u: User, db: Table, now: string, readFault: Fault, writeFault: Fault) returns (err: Option<RestErr>)
    requires db.Valid()
    modifies u, db
    ensures db.Valid() && db.nextId == old(db.nextId)
    ensures UsersDb.ReadFailure(old(u.id), old(db.rows), readFault) != None ==>
      && err == UsersDb.ReadFailure(old(u.id), old(db.rows), readFault)
      && u.Value() == old(u.Value()) && db.rows == old(db.rows)
    ensures UsersDb.ReadFailure(old(u.id), old(db.rows), readFault) == None && EmailRejected(old(u.Value())) ==>
      var loaded := old(db.rows)[old(u.id)].(password := old(u.password));
      && err == Some(BadRequestError(InvalidEmail.Message()))
      && u.Value() == Merged(loaded, old(u.Value()), loaded.dateUpdated).(email := old(u.email))
      && db.rows == old(db.rows)
    ensures UsersDb.ReadFailure(old(u.id), old(db.rows), readFault) == None && !EmailRejected(old(u.Value())) ==>
      var stored := old(db.rows)[old(u.id)];
      var m := Merged(stored, old(u.Value()), now);
      && u.Value() == m.(password := old(u.password))
      && (writeFault.PrepareFault? ==>
            err == Some(InternalServerError(writeFault.message)) && db.rows == old(db.rows))
      && (writeFault.ExecFault? ==>
            err == UsersDb.HandleQueryExecError(m.email, Some(writeFault.message)) && db.rows == old(db.rows))
      && (!writeFault.PrepareFault? && !writeFault.ExecFault? && old(db.EmailTakenByOther(m.email, stored.id)) ==>
            err == Some(BadRequestError(EmailAlreadyUsedMessage(m.email))) && db.rows == old(db.rows))
      && (!writeFault.PrepareFault? && !writeFault.ExecFault? && !old(db.EmailTakenByOther(m.email, stored.id)) ==>
            err == None && db.rows == old(db.rows)[stored.id := m])
  {
    var request := u.Value();
    err := UsersDb.Get(u, db, readFault);
    if err != None {
      return;
    }
    err := Overlay(u, request, now);
    if err != None {
      return;
    }
    err := UsersDb.Update(u, db, writeFault);
  }

  /** The part of Update between loading and writing: overlays on the
      loaded user the fields the request fills, re-validating a new email,
      and stamps the update time. A malformed email stops it before the
      stamp. */
  method Overlay(u: User, request: UserRecord, now: string) returns (err: Option<RestErr>)
    modifies u
    ensures EmailRejected(request) ==>
      err == Some(BadRequestError(InvalidEmail.Message()))
      && u.Value() == Merged(old(u.Value()), request, old(u.dateUpdated)).(email := request.email)
    ensures !EmailRejected(request) ==>
      err == None && u.Value() == Merged(old(u.Value()), request, now)
  {
    ghost var loaded := u.Value();
    ghost var m := Merged(loaded, request, now);
    var blank := TrimsToEmpty(request.firstName);
    if !blank {
      u.firstName := request.firstName;
    }
    assert u.firstName == m.firstName;
    blank := TrimsToEmpty(request.lastName);
    if !blank {
      u.lastName := request.lastName;
    }
    assert u.lastName == m.lastName;
    blank := TrimsToEmpty(request.email);
    if !blank {
      u.email := request.email;
      var e := u.ValidateEmail();
      if e != None {
        return Some(BadRequestError(e.value.Message()));
      }
    }
    assert u.email == m.email;
    u.dateUpdated := now;
    err := None;
  }

  /** Delete: removes the stored user with the receiver's id. */
  method Delete(u: User, db: Table, fault: Fault) returns (err: Option<RestErr>)
    requires db.Valid()
    modifies db
    ensures db.Valid() && db.nextId == old(db.nextId)
    ensures fault.PrepareFault? ==>
      err == Some(InternalServerError(fault.message)) && db.rows == old(db.rows)
    ensures fault.ExecFault? ==>
      err == UsersDb.HandleQueryExecError(u.email, Some(fault.message)) && db.rows == old(db.rows)
    ensures !fault.PrepareFault? && !fault.ExecFault? ==> db.rows == old(db.rows) - {u.id}
    ensures !fault.PrepareFault? && !fault.ExecFault? && fault.ResultFault? ==>
      err == Some(InternalServerError(fault.message))
    ensures !fault.PrepareFault? && !fault.ExecFault? && !fault.ResultFault? ==>
      (err == None <==> u.id in old(db.rows))
    ensures !fault.PrepareFault? && !fault.ExecFault? && !fault.ResultFault? && err != None ==>
      err == Some(NotFoundError(UserNotFoundMessage(u.id)))
  {
    err := UsersDb.Delete(u, db, fault);
  }
}
