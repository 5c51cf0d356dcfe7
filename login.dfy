/** The login request of the domain package (domain/login.go): the user
    name and password are trimmed in place, then both must be non-empty. */
module LoginRequest {
  import opened Text
  import opened Wrappers
  import opened Errors
  import opened StructUtils

  /** The struct's fields with their tags. */
  const LoginFields: seq<Field> := [
    Field("Username", [Tag("json", "username")]),
    Field("Password", [Tag("json", "password")])
  ]

  /** The parameters reported missing for these (untrimmed) credentials,
      user name first: those that trimming leaves empty. */
  function LoginMissing(username: string, password: string): seq<string>
  {
    (if TrimSpace(username) == "" then ["username"] else [])
    + (if TrimSpace(password) == "" then ["password"] else [])
  }

  /** The report names a field exactly when it is blank, and is empty
      exactly when both are filled. */
  lemma LoginMissingMeaning(username: string, password: string)
    ensures "username" in LoginMissing(username, password) <==> IsBlank(username)
    ensures "password" in LoginMissing(username, password) <==> IsBlank(password)
    ensures LoginMissing(username, password) == [] <==> !IsBlank(username) && !IsBlank(password)
    ensures |LoginMissing(username, password)| <= 2
  {
    TrimmedEmptyIffBlank(username);
    TrimmedEmptyIffBlank(password);
  }

  datatype LoginField = Username | Password

  function GoFieldName(f: LoginField): string
  {
    if f == Username then "Username" else "Password"
  }

  /** The external (JSON) name reported for an empty field. */
  function ExternalName(f: LoginField): string
  {
    if f == Username then "username" else "password"
  }

  lemma ExternalNameFromTags(f: LoginField)
    ensures FieldTagValue(LoginFields, GoFieldName(f)) == ExternalName(f)
  {
    LastNamedFieldDecides(LoginFields, GoFieldName(f), if f == Username then 0 else 1);
    NoOptionsKeptWhole(ExternalName(f));
  }

  /** The tag lookup Validate performs for one field. */
  method LookUpExternalName(f: LoginField) returns (name: string)
    ensures name == ExternalName(f)
  {
    name := GetFieldTagValue(LoginFields, GoFieldName(f));
    ExternalNameFromTags(f);
  }

  class Login {
    var username: string
    var password: string

    constructor (username: string, password: string)
      ensures this.username == username && this.password == password
    {
      this.username := username;
      this.password := password;
    }

    /** Validate: trims both fields in place, then reports every empty one
        by its json name in one MissingMandatoryParamError. */
    method Validate() returns (err: Option<GoError>)
      modifies this
      ensures username == TrimSpace(old(username)) && password == TrimSpace(old(password))
      ensures err == None <==> LoginMissing(old(username), old(password)) == []
      ensures err != None ==> err == Some(MissingMandatoryParam(LoginMissing(old(username), old(password))))
    {
      var missingParams: seq<string> := [];
      var name: string;
      ghost var u, p := username, password;
      username := TrimSpace(username);
      if username == "" {
        name := LookUpExternalName(Username);
        missingParams := missingParams + [name];
      }
      assert missingParams == if TrimSpace(u) == "" then ["username"] else [];
      password := TrimSpace(password);
      if password == "" {
        name := LookUpExternalName(Password);
        missingParams := missingParams + [name];
      }
      assert missingParams == LoginMissing(u, p);
      if |missingParams| > 0 {
        return Some(MissingMandatoryParam(missingParams));
      }
      return None;
    }
  }

  /** Validating again, after a successful or a failed validation, leaves
      the credentials as they are and reports the same outcome. */
  lemma {:induction false} ValidateIsIdempotent(username: string, password: string)
    ensures TrimSpace(TrimSpace(username)) == TrimSpace(username)
    ensures TrimSpace(TrimSpace(password)) == TrimSpace(password)
    ensures LoginMissing(TrimSpace(username), TrimSpace(password)) == LoginMissing(username, password)
  {
    var u, p := TrimSpace(username), TrimSpace(password);
    TrimSpaceIdempotent(username);
    TrimSpaceIdempotent(password);
    assert TrimSpace(u) == u && TrimSpace(p) == p;
    TrimmedEmptyIffBlank(u);
    TrimmedEmptyIffBlank(username);
    assert IsBlank(u) <==> IsBlank(username);
    TrimmedEmptyIffBlank(p);
    TrimmedEmptyIffBlank(password);
    assert IsBlank(p) <==> IsBlank(password);
  }
}
