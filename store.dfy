/** The users table behind both persistence adapters, as an abstract
    table: rows keyed by id, a next-id counter (AUTO_INCREMENT) and the
    unique index on email. Failures of the driver that do not come from
    the table's own constraints are supplied as a Fault. */
module Store {
  import opened Wrappers
  import opened Text
  import opened Domain

  /** The name of the table's unique index on email. */
  const EmailUniqueKey := "email_UNIQUE"

  /** The driver's text for a second row with an email already present. */
  function DuplicateEmailMessage(email: string): string
  {
    "Error 1062: Duplicate entry '" + email + "' for key '" + EmailUniqueKey + "'"
  }

  /** The duplicate-entry text always names the unique index. */
  lemma DuplicateEmailNamesKey(email: string)
    ensures Contains(DuplicateEmailMessage(email), EmailUniqueKey)
  {
    var m := DuplicateEmailMessage(email);
    var p := "Error 1062: Duplicate entry '" + email + "' for key '";
    assert m == p + EmailUniqueKey + "'";
    assert m[|p|..|p| + |EmailUniqueKey|] == EmailUniqueKey;
    assert OccursAt(m, EmailUniqueKey, |p|);
  }

  /** A failure the driver reports at one step of running a statement:
      preparing it, executing it (or running the query), reading its
      result (last insert id, rows affected), scanning the result row at
      position `row`, or advancing the cursor (rows.Next) to position
      `row`, which then reports no further row and keeps the error for
      rows.Err. A step a statement does not have ignores the fault aimed
      at it. */
  datatype Fault =
    | NoFault
    | PrepareFault(message: string)
    | ExecFault(message: string)
    | ResultFault(message: string)
    | ScanFault(row: nat, message: string)
    | NextFault(row: nat, message: string)

  /** The columns the SELECT statements read (all but password), scanned
      into a zero-valued user. */
  function Selected(r: UserRecord): UserRecord
  {
    r.(password := "")
  }

  /** Every row of a result set, scanned as Selected. */
  function SelectedAll(rs: seq<UserRecord>): (us: seq<UserRecord>)
    ensures |us| == |rs|
    ensures forall k :: 0 <= k < |rs| ==> us[k] == Selected(rs[k])
  {
    seq(|rs|, k requires 0 <= k < |rs| => Selected(rs[k]))
  }

  /** The texts both adapters report. */
  function UserNotFoundMessage(id: int): string
  {
    "User with id " + IntToString(id) + " was not found"
  }

  function EmailAlreadyUsedMessage(email: string): string
  {
    "Email id " + email + " is already in use."
  }

  /** The rows with ids 1..n whose status is `status`, by ascending id. */
  function WithStatus(rows: map<int, UserRecord>, status: string, n: int): seq<UserRecord>
    decreases n
  {
    if n <= 0 then []
    else WithStatus(rows, status, n - 1) + (if n in rows && rows[n].status == status then [rows[n]] else [])
  }

  /** The query by status returns exactly the rows with that status. */
  lemma {:induction false} WithStatusMeaning(rows: map<int, UserRecord>, status: string, n: int)
    ensures forall r :: r in WithStatus(rows, status, n) <==>
      exists id :: 1 <= id <= n && id in rows && rows[id] == r && r.status == status
    decreases n
  {
    if n > 0 {
      WithStatusMeaning(rows, status, n - 1);
      var last := if n in rows && rows[n].status == status then [rows[n]] else [];
      assert WithStatus(rows, status, n) == WithStatus(rows, status, n - 1) + last;
      forall r ensures r in WithStatus(rows, status, n) <==>
        exists id :: 1 <= id <= n && id in rows && rows[id] == r && r.status == status
      {
        if r in last {
          assert rows[n] == r;
        }
      }
    }
  }

  /** A search by status lists, with the password blanked, exactly the
      stored rows with that status; it is empty exactly when no stored row
      has it. */
  lemma {:induction false} SearchResultMeaning(rows: map<int, UserRecord>, status: string, n: int)
    ensures var found := SelectedAll(WithStatus(rows, status, n));
      && (forall k :: 0 <= k < |found| ==>
            found[k].status == status && found[k].password == ""
            && exists id :: 1 <= id <= n && id in rows && found[k] == Selected(rows[id]))
      && (found == [] <==> forall id :: 1 <= id <= n && id in rows ==> rows[id].status != status)
  {
    var ws := WithStatus(rows, status, n);
    WithStatusMeaning(rows, status, n);
    forall k | 0 <= k < |ws| ensures ws[k].status == status
      && exists id :: 1 <= id <= n && id in rows && ws[k] == rows[id]
    {
      assert ws[k] in ws;
    }
    if ws != [] {
      assert ws[0] in ws;
    }
  }

  predicate UniqueEmails(rows: map<int, UserRecord>)
  {
    forall a, b :: a in rows && b in rows && a != b ==> rows[a].email != rows[b].email
  }

  class Table {
    var rows: map<int, UserRecord>
    var nextId: int

    /** Every row is stored under its own id, below the next id to be
        assigned, and no two rows share an email. */
    ghost predicate Valid()
      reads this
    {
      && nextId >= 1
      && (forall id :: id in rows ==> 1 <= id < nextId && rows[id].id == id)
      && UniqueEmails(rows)
    }

    constructor ()
      ensures Valid() && rows == map[] && nextId == 1
    {
      rows := map[];
      nextId := 1;
    }

    /** Some row has this email. */
    predicate EmailTaken(email: string)
      reads this
    {
      exists k :: k in rows && rows[k].email == email
    }

    /** Some row other than the one with id `except` has this email. */
    predicate EmailTakenByOther(email: string, except: int)
      reads this
    {
      exists k :: k in rows && k != except && rows[k].email == email
    }

    /** The rows `SELECT ... WHERE status=?` returns. */
    function RowsWithStatus(status: string): seq<UserRecord>
      reads this
    {
      WithStatus(rows, status, nextId - 1)
    }

    /** INSERT: a new row under the next id, unless its email is taken. */
    method Insert(r: UserRecord) returns (res: Result<int, string>)
      requires Valid()
      modifies this
      ensures Valid()
      ensures old(EmailTaken(r.email)) ==>
        res == Failure(DuplicateEmailMessage(r.email)) && rows == old(rows) && nextId == old(nextId)
      ensures !old(EmailTaken(r.email)) ==>
        && res == Success(old(nextId))
        && rows == old(rows)[old(nextId) := r.(id := old(nextId))]
        && nextId == old(nextId) + 1
    {
      if exists k | k in rows :: rows[k].email == r.email {
        return Failure(DuplicateEmailMessage(r.email));
      }
      var id := nextId;
      rows := rows[id := r.(id := id)];
      nextId := nextId + 1;
      return Success(id);
    }

    /** UPDATE of the four writable columns of row `id`: no row changes
        when there is none with that id; the email must stay unique. */
    method UpdateRow(id: int, firstName: string, lastName: string, email: string, dateUpdated: string)
      returns (err: Option<string>)
      requires Valid()
      modifies this
      ensures Valid() && nextId == old(nextId)
      ensures id !in old(rows) ==> err == None && rows == old(rows)
      ensures id in old(rows) && old(EmailTakenByOther(email, id)) ==>
        err == Some(DuplicateEmailMessage(email)) && rows == old(rows)
      ensures id in old(rows) && !old(EmailTakenByOther(email, id)) ==>
        && err == None
        && rows == old(rows)[id := old(rows)[id].(firstName := firstName, lastName := lastName,
                                                   email := email, dateUpdated := dateUpdated)]
    {
      if id !in rows {
        return None;
      }
      if exists k | k in rows :: k != id && rows[k].email == email {
        return Some(DuplicateEmailMessage(email));
      }
      rows := rows[id := rows[id].(firstName := firstName, lastName := lastName,
                                   email := email, dateUpdated := dateUpdated)];
      return None;
    }

    /** DELETE of row `id`; the result is the number of rows affected. */
    method DeleteRow(id: int) returns (affected: nat)
      requires Valid()
      modifies this
      ensures Valid() && nextId == old(nextId)
      ensures id in old(rows) ==> affected == 1 && rows == old(rows) - {id}
      ensures id !in old(rows) ==> affected == 0 && rows == old(rows)
    {
      if id in rows {
        rows := rows - {id};
        return 1;
      }
      return 0;
    }
  }
}
