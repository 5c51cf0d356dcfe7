/** The user entity of the domain package (domain/user.go) and its
    validators. The older package domain/users holds the same struct and
    line-for-line the same validators, so both are modelled here. */
module Domain {
  import opened Text
  import opened Wrappers
  import opened Errors
  import opened StructUtils
  import opened EmailPattern
  import Slice
  import Secrets

  const ActiveStatus := "active"
  const InactiveStatus := "inactive"
  const ValidStatusList := [ActiveStatus, InactiveStatus]

  /** A User as a value: what is copied, passed by value and stored as a
      table row. */
  datatype UserRecord = UserRecord(
    id: int, firstName: string, lastName: string, email: string,
    status: string, password: string, dateCreated: string, dateUpdated: string)

  /** The struct's fields with their tags, in declaration order. */
  const UserFields: seq<Field> := [
    Field("Id", [Tag("json", "id")]),
    Field("FirstName", [Tag("json", "firstName")]),
    Field("Lastname", [Tag("json", "lastName")]),
    Field("Email", [Tag("json", "email")]),
    Field("Status", [Tag("json", "status")]),
    Field("Password", [Tag("json", "password,omitempty")]),
    Field("DateCreated", [Tag("json", "dateCreated")]),
    Field("DateUpdated", [Tag("json", "dateUpdated")])
  ]

  /** The five fields that must not be blank, in the order they are checked. */
  datatype Mandatory = FirstName | LastName | Email | Status | Password

  /** The Go name of a mandatory field, by which its tags are looked up. */
  function GoFieldName(f: Mandatory): string
  {
    match f
    case FirstName => "FirstName"
    case LastName => "Lastname"
    case Email => "Email"
    case Status => "Status"
    case Password => "Password"
  }

  function FieldValue(u: UserRecord, f: Mandatory): string
  {
    match f
    case FirstName => u.firstName
    case LastName => u.lastName
    case Email => u.email
    case Status => u.status
    case Password => u.password
  }

  /** The external (JSON) name reported for a missing field. */
  function ExternalName(f: Mandatory): string
  {
    match f
    case FirstName => "firstName"
    case LastName => "lastName"
    case Email => "email"
    case Status => "status"
    case Password => "password"
  }

  /** Each mandatory field's external name is what its json tag gives,
      with the password tag's omitempty option dropped. */
  lemma ExternalNameFromTags(f: Mandatory)
    ensures FieldTagValue(UserFields, GoFieldName(f)) == ExternalName(f)
  {
    match f
    case FirstName => FirstNameTag();
    case LastName => LastNameTag();
    case Email => EmailTag();
    case Status => StatusTag();
    case Password => PasswordTag();
  }

  lemma FirstNameTag()
    ensures FieldTagValue(UserFields, "FirstName") == "firstName"
  {
    JsonOnlyFieldNamed(UserFields, "FirstName", 1, "firstName");
    NoOptionsKeptWhole("firstName");
  }

  lemma LastNameTag()
    ensures FieldTagValue(UserFields, "Lastname") == "lastName"
  {
    JsonOnlyFieldNamed(UserFields, "Lastname", 2, "lastName");
    NoOptionsKeptWhole("lastName");
  }

  lemma EmailTag()
    ensures FieldTagValue(UserFields, "Email") == "email"
  {
    JsonOnlyFieldNamed(UserFields, "Email", 3, "email");
    NoOptionsKeptWhole("email");
  }

  lemma StatusTag()
    ensures FieldTagValue(UserFields, "Status") == "status"
  {
    JsonOnlyFieldNamed(UserFields, "Status", 4, "status");
    NoOptionsKeptWhole("status");
  }

  lemma PasswordTag()
    ensures FieldTagValue(UserFields, "Password") == "password"
  {
    JsonOnlyFieldNamed(UserFields, "Password", 5, "password,omitempty");
    PasswordTagOptionsDropped();
  }

  /** The tag lookup validateNotEmpty performs for one field. */
  method LookUpExternalName(f: Mandatory) returns (name: string)
    ensures name == ExternalName(f)
  {
    name := GetFieldTagValue(UserFields, GoFieldName(f));
    ExternalNameFromTags(f);
  }

  /** The field's position in the check order (and, one further on, in
      the struct). */
  function Rank(f: Mandatory): nat
  {
    match f
    case FirstName => 0
    case LastName => 1
    case Email => 2
    case Status => 3
    case Password => 4
  }

  /** What checking one field contributes to the report. */
  function Report(u: UserRecord, f: Mandatory): seq<string>
  {
    if IsBlank(FieldValue(u, f)) then [ExternalName(f)] else []
  }

  /** The parameter list validateNotEmpty reports: the fields are checked
      in the order firstName, lastName, email, status, password. */
  function MissingParams(u: UserRecord): seq<string>
  {
    Report(u, FirstName) + Report(u, LastName) + Report(u, Email)
    + Report(u, Status) + Report(u, Password)
  }

  /** The report names exactly the blank mandatory fields; it is empty
      exactly when all five are filled. */
  lemma MissingParamsMeaning(u: UserRecord)
    ensures forall f :: ExternalName(f) in MissingParams(u) <==> IsBlank(FieldValue(u, f))
    ensures MissingParams(u) == [] <==>
      !IsBlank(u.firstName) && !IsBlank(u.lastName) && !IsBlank(u.email)
      && !IsBlank(u.status) && !IsBlank(u.password)
  {
    forall f ensures ExternalName(f) in MissingParams(u) <==> IsBlank(FieldValue(u, f)) {
      assert forall g :: ExternalName(f) in Report(u, g) <==> g == f && IsBlank(FieldValue(u, f));
    }
  }

  /** Nothing but mandatory field names is reported, and none twice. */
  lemma MissingParamsWellFormed(u: UserRecord)
    ensures forall p :: p in MissingParams(u) ==> exists f :: p == ExternalName(f)
    ensures Distinct(MissingParams(u))
  {
    forall p | p in MissingParams(u) ensures exists f :: p == ExternalName(f) {
      if p in Report(u, FirstName) { assert p == ExternalName(FirstName); }
      else if p in Report(u, LastName) { assert p == ExternalName(LastName); }
      else if p in Report(u, Email) { assert p == ExternalName(Email); }
      else if p in Report(u, Status) { assert p == ExternalName(Status); }
      else { assert p == ExternalName(Password); }
    }
    var r0, r1, r2 := Report(u, FirstName), Report(u, LastName), Report(u, Email);
    var r3, r4 := Report(u, Status), Report(u, Password);
    DistinctAppend(r0, r1);
    DistinctAppend(r0 + r1, r2);
    DistinctAppend(r0 + r1 + r2, r3);
    DistinctAppend(r0 + r1 + r2 + r3, r4);
  }

  predicate Distinct(xs: seq<string>)
  {
    forall i, j :: 0 <= i < j < |xs| ==> xs[i] != xs[j]
  }

  lemma DistinctAppend(a: seq<string>, b: seq<string>)
    requires Distinct(a) && Distinct(b)
    requires forall x :: x in a ==> x !in b
    ensures Distinct(a + b)
  {
    forall i, j | 0 <= i < j < |a + b| ensures (a + b)[i] != (a + b)[j] {
      if j >= |a| && i < |a| {
        assert (a + b)[i] in a && (a + b)[j] == b[j - |a|];
      }
    }
  }

  /** The result of a full validation: the user as it is left (its email
      lower-cased once the pattern matched), or the first check that failed. */
  function Validation(u: UserRecord): Result<UserRecord, GoError>
  {
    if MissingParams(u) != [] then Failure(MissingMandatoryParam(MissingParams(u)))
    else if !MatchesEmailPattern(u.email) then Failure(InvalidEmail)
    else if !Secrets.PolicyHolds(u.password) then Failure(InvalidPassword)
    else Success(u.(email := ToLower(u.email)))
  }

  /** What Validate leaves in the user: only the email can change, and only
      once the mandatory fields are present and the pattern matched. */
  function ValidatedState(u: UserRecord): UserRecord
  {
    if MissingParams(u) == [] && MatchesEmailPattern(u.email) then u.(email := ToLower(u.email)) else u
  }

  function ErrorOf(r: Result<UserRecord, GoError>): Option<GoError>
  {
    if r.Failure? then Some(r.error) else None
  }

  lemma BlankUnderLowerCase(s: string)
    ensures IsBlank(ToLower(s)) <==> IsBlank(s)
  {
    forall i | 0 <= i < |s| ensures IsSpace(ToLower(s)[i]) <==> IsSpace(s[i]) {
      assert ToLower(s)[i] == LowerChar(s[i]);
    }
  }

  /** A user that passes validation has every mandatory field filled, a
      matching lower-case email and a strong password, and validating the
      result again accepts it unchanged. */
  lemma {:induction false} ValidatedUserIsCanonical(u: UserRecord)
    requires Validation(u).Success?
    ensures var v := Validation(u).value;
      && v == u.(email := ToLower(u.email))
      && MissingParams(v) == [] && MatchesEmailPattern(v.email)
      && ToLower(v.email) == v.email && Secrets.PolicyHolds(v.password)
      && Validation(v) == Success(v)
  {
    var v := Validation(u).value;
    BlankUnderLowerCase(u.email);
    MissingParamsMeaning(u);
    MissingParamsMeaning(v);
    assert FieldValue(v, Email) == ToLower(u.email);
    LowerCasePreservesMatch(u.email);
    ToLowerIdempotent(u.email);
  }

  /** The first failing check decides the error; a missing field hides a
      malformed email, and a malformed email hides a weak password. */
  lemma ValidationOrder(u: UserRecord)
    ensures MissingParams(u) != [] ==> Validation(u) == Failure(MissingMandatoryParam(MissingParams(u)))
    ensures MissingParams(u) == [] && !MatchesEmailPattern(u.email) ==> Validation(u) == Failure(InvalidEmail)
    ensures Validation(u).Success? <==>
      MissingParams(u) == [] && MatchesEmailPattern(u.email) && Secrets.PolicyHolds(u.password)
  {
  }

  /** ValidateEmail is idempotent: an address it accepted and lower-cased
      is accepted again and left as it is. */
  lemma ValidateEmailIsIdempotent(email: string)
    requires MatchesEmailPattern(email)
    ensures MatchesEmailPattern(ToLower(email)) && ToLower(ToLower(email)) == ToLower(email)
  {
    LowerCasePreservesMatch(email);
    ToLowerIdempotent(email);
  }

  /** `new(User)` filled from a request body: the mutable user the
      validators and the store work on. */
  class User {
    var id: int
    var firstName: string
    var lastName: string
    var email: string
    var status: string
    var password: string
    var dateCreated: string
    var dateUpdated: string

    constructor (r: UserRecord)
      ensures Value() == r
    {
      id, firstName, lastName, email := r.id, r.firstName, r.lastName, r.email;
      status, password, dateCreated, dateUpdated := r.status, r.password, r.dateCreated, r.dateUpdated;
    }

    /** The user's current field values (Go's `*u`). */
    function Value(): UserRecord
      reads this
    {
      UserRecord(id, firstName, lastName, email, status, password, dateCreated, dateUpdated)
    }

    /** validateNotEmpty: collects the external name of every blank field,
        in check order, into one MissingMandatoryParamError. */
    method ValidateNotEmpty() returns (err: Option<GoError>)
      ensures err == None <==> MissingParams(Value()) == []
      ensures err != None ==> err == Some(MissingMandatoryParam(MissingParams(Value())))
    {
      var missingParams: seq<string> := [];
      var name: string;
      var blank: bool;
      ghost var u := Value();
      blank := TrimsToEmpty(firstName);
      if blank {
        name := LookUpExternalName(FirstName);
        missingParams := missingParams + [name];
      }
      assert missingParams == Report(u, FirstName);
      blank := TrimsToEmpty(lastName);
      if blank {
        name := LookUpExternalName(LastName);
        missingParams := missingParams + [name];
      }
      assert missingParams == Report(u, FirstName) + Report(u, LastName);
      blank := TrimsToEmpty(email);
      if blank {
        name := LookUpExternalName(Email);
        missingParams := missingParams + [name];
      }
      assert missingParams == Report(u, FirstName) + Report(u, LastName) + Report(u, Email);
      blank := TrimsToEmpty(status);
      if blank {
        name := LookUpExternalName(Status);
        missingParams := missingParams + [name];
      }
      assert missingParams == Report(u, FirstName) + Report(u, LastName) + Report(u, Email) + Report(u, Status);
      blank := TrimsToEmpty(password);
      if blank {
        name := LookUpExternalName(Password);
        missingParams := missingParams + [name];
      }
      assert missingParams == Report(u, FirstName) + Report(u, LastName) + Report(u, Email) + Report(u, Status) + Report(u, Password);
      if |missingParams| > 0 {
        return Some(MissingMandatoryParam(missingParams));
      }
      return None;
    }

    /** ValidateEmail: a non-matching email is refused and left as it is;
        a matching one is replaced by its lower-case form. */
    method ValidateEmail() returns (err: Option<GoError>)
      modifies this`email
      ensures MatchesEmailPattern(old(email)) ==> err == None && email == ToLower(old(email))
      ensures !MatchesEmailPattern(old(email)) ==> err == Some(InvalidEmail) && email == old(email)
    {
      if !MatchesEmailPattern(email) {
        return Some(InvalidEmail);
      }
      email := ToLower(email);
      return None;
    }

    /** ValidateStatus: accepts exactly "active" and "inactive"; the error
        carries the offending value and the valid list. */
    method ValidateStatus() returns (err: Option<GoError>)
      ensures err == None <==> status == ActiveStatus || status == InactiveStatus
      ensures err != None ==> err == Some(InvalidStatus(status, ValidStatusList))
    {
      var ok := Slice.EntryExists(ValidStatusList, status);
      assert ok <==> status == ValidStatusList[0] || status == ValidStatusList[1];
      if !ok {
        return Some(InvalidStatus(status, ValidStatusList));
      }
      return None;
    }

    /** ValidatePassword: the strength policy of Secrets. */
    method ValidatePassword() returns (err: Option<GoError>)
      ensures err == None <==> Secrets.PolicyHolds(password)
      ensures err != None ==> err == Some(InvalidPassword)
    {
      err := Secrets.VerifyPassword(password);
    }

    /** Validate: missing fields, then the email, then the password; the
        first failure is returned. */
    method Validate() returns (err: Option<GoError>)
      modifies this`email
      ensures err == ErrorOf(Validation(old(Value())))
      ensures Value() == ValidatedState(old(Value()))
    {
      err := ValidateNotEmpty();
      if err != None {
        return;
      }
      err := ValidateEmail();
      if err != None {
        return;
      }
      err := ValidatePassword();
    }
  }
}
