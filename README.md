# Users API core in Dafny

This project models the user-record core of the bkst-users-api service: the
user and login entities and their validators, the password policy and
generator, the field-tag lookup that names missing parameters, the REST
error vocabulary, the two persistence layers over the `users` table, and
the users service that puts validation, time stamps, encryption and
persistence together.

Layout, one module per file:

- `wrappers.dfy` (`Wrappers`): `Option` and `Result`.
- `text.dfy` (`Text`): the parts of Go's `strings` package that the core uses: `TrimSpace` over Unicode white space, ASCII `ToLower`, `Contains`, `Split` and `Join` on one separator character, and `%v`/`%d` formatting.
- `errors.dfy` (`Errors`): `RestErr` and its constructors, and the Go `error` values with the text each renders. The two error packages (`utils/errors.go` and `utils/errors/errors.go`) build identical records and are modelled once. `GoError` gathers every Go `error` value the core renders, wherever Go declares it. So `InvalidEmailError` and `InvalidStatusError`, which the domain packages declare (domain/user.go:39-51, domain/users/users.go:15-50), are cases of it, and one `Message` function gives every text.
- `slice.dfy` (`Slice`): the linear search `EntryExists`.
- `structutils.dfy` (`StructUtils`): `GetFieldTagValue` over an explicit table of fields and tags, in place of reflection.
- `secrets.dfy` (`Secrets`): `VerifyPassword` and `GetRandomPassword`. `utils/password.go` and `utils/secrets/password.go` hold the same two functions line for line, so both are modelled once; the older copy's debug print is dropped.
- `email.dfy` (`EmailPattern`): a recognizer for the email regular expression, proved equal to the language the pattern describes.
- `domain.dfy` (`Domain`): the `User` entity. It is a class, because its validators update it in place, and a `UserRecord` value, used for copies and table rows. `domain/users/users.go` declares the same struct with the same validators, so they are modelled once.
- `login.dfy` (`LoginRequest`): the `Login` entity and its trimming validator.
- `store.dfy` (`Store`): the `users` table as a class. It holds rows keyed by id, the AUTO_INCREMENT counter and the unique index on email.
- `users_db.dfy` (`UsersDb`): the persistence methods of `domain/users` on a `*User` receiver. Their 500 errors carry the driver's text.
- `mysql_store.dfy` (`MysqlStore`): the `interfaces/db/mysql` adapter, working on values. Its 500 errors carry a generic text.
- `services.dfy` (`Service`): the users service.

The environment becomes parameters:

- A failure of the database driver is a `Fault`. It names the step that fails (prepare, execute, read the result, or scan row k) and the driver's message.
- The clock is a string argument per reading: `now` for the one reading Update makes, and `created` and `updated` for the two readings Create makes.
- The cipher is a function from the plaintext to a ciphertext or a failure.
- The random source of `GetRandomPassword` is its list of draws.

## Model

| member | source | states |
|---|---|---|
| Text.TrimLeft | domain/user.go:70 | the result is a suffix of the input that does not start with white space, and every dropped character is white space |
| Text.TrimRight | domain/user.go:70 | the result is a prefix that does not end with white space, and every dropped character is white space |
| Text.TrimSpaceEnds | domain/login.go:17 | a trimmed value has no leading and no trailing white space |
| Text.TrimSpaceIdempotent | domain/login.go:21 | trimming a trimmed value changes nothing |
| Text.TrimmedEmptyIffBlank | domain/user.go:70 | a value trims to "" exactly when every character of it is white space |
| Text.TrimsToEmpty | domain/user.go:73 | the test `TrimSpace(s) == ""` of the validators answers whether `s` is blank |
| Text.ToLower | domain/user.go:98 | same length; each character is mapped on its own: an upper-case ASCII letter becomes its own lower-case letter (32 code points on), and everything else is unchanged |
| Text.ToLowerIdempotent | domain/user.go:98 | lower-casing twice is lower-casing once |
| Text.Contains | domain/users/users.go:259 | true exactly when the substring occurs at some position |
| Text.GoStringList | utils/errors.go:77 | `%v` of a string list is the elements in order, separated by single spaces, in square brackets; an empty list is "[]" |
| Text.JoinSplit | domain/user.go:34 | joining the pieces a split cut gives the string back |
| Text.SplitJoin | domain/user.go:34 | splitting a join of separator-free parts gives the parts back |
| Text.GoStringListRoundTrip | utils/errors.go:77 | the inside of the rendering of a non-empty list of space-free elements splits back into the list |
| Text.NatToString | domain/users/users.go:106 | `%d` of a natural number is a non-empty string of decimal digits with no leading zero, and "0" exactly for zero |
| Text.NatToStringRoundTrip | domain/users/users.go:106 | the digits written spell the number back |
| Text.IntToString | domain/users/users.go:106 | `%d` of an integer starts with a minus sign exactly when the integer is negative, and is decimal digits after that |
| Text.IntToStringRoundTrip | domain/users/users.go:106 | reading the text back, sign included, gives the integer |
| Errors.NewRestErr | utils/errors.go:24-30 | the record holds message, status and label exactly as given |
| Errors.BadRequestError | utils/errors/errors.go:30-36 | status 400, label "Bad Request", message unchanged |
| Errors.UnauthorizedError | utils/errors/errors.go:38-44 | status 401, label "Unauthorized", message unchanged |
| Errors.ForbiddenError | utils/errors/errors.go:46-52 | status 403, label "Forbidden", message unchanged |
| Errors.NotFoundError | utils/errors/errors.go:54-60 | status 404, label "Not Found", message unchanged |
| Errors.InternalServerError | utils/errors/errors.go:62-68 | status 500, label "Internal Server Error", message unchanged |
| Errors.ConstructorsWellLabelled | utils/errors.go:32-70 | every constructor's label is the standard text of its status code, and each of the five agrees with building the record by NewError |
| Errors.ConstructorsDistinct | utils/errors/errors.go:30-68 | records from any two different constructors (all ten pairs) differ whatever their messages |
| Errors.NewError | utils/errors/errors.go:26-28 | the error renders exactly the given message |
| Errors.MissingMandatoryParamMessage | utils/errors/errors.go:74-76 | the text is the fixed prefix followed by the bracketed, space-separated parameter list |
| Errors.CipherErrorMessages | utils/errors/errors.go:78-92 | the encryption and decryption errors are their fixed prefixes followed by the cause's text, and never equal each other |
| Slice.EntryExists | utils/slice/slice.go:7-14 | true exactly when some index holds an element equal to the entry; so an empty list gives false, and the comparison is exact |
| Slice.AnswerDependsOnElementsOnly | utils/slice/slice.go:8-13 | two lists with the same elements give the same answer, whatever their order or duplicates |
| StructUtils.TagGet | utils/structutils/struct.go:18 | the answer is the value of the first pair with that key; a non-empty answer comes from a pair with that key; no pair with the key gives "" |
| StructUtils.BeforeComma | utils/structutils/struct.go:28 | the result is the prefix up to the first comma, and it contains no comma |
| StructUtils.GetFieldTagValue | utils/structutils/struct.go:8-29 | the loop over the fields computes the reference lookup FieldTagValue |
| StructUtils.TagPrecedence | utils/structutils/struct.go:18-24 | a mapstructure tag wins; yaml is used only when mapstructure is empty; json only when both are empty |
| StructUtils.UnknownOrUntaggedFieldIsUnnamed | utils/structutils/struct.go:10-28 | a field that is not in the struct, or has no tags, gives "" |
| StructUtils.LastNamedFieldDecides | utils/structutils/struct.go:15-26 | the last field that carries the name decides the tag |
| StructUtils.NoOptionsKeptWhole | utils/structutils/struct.go:28 | a tag without a comma is returned whole |
| StructUtils.JsonOnlyFieldNamed | utils/structutils/struct.go:15-28 | a field named only by a json tag, and not named again later, is reported by that tag up to its first comma |
| StructUtils.OptionsDropped | utils/structutils/struct.go:28 | a comma-free name followed by a comma and options gives back the name |
| StructUtils.PasswordTagOptionsDropped | utils/structutils/struct.go:28 | "password,omitempty" gives "password" |
| Secrets.ClassifiedCountAppend | utils/secrets/password.go:39-54 | appending a rune adds one to the count exactly when the rune is classified |
| Secrets.ScanMeaning | utils/secrets/password.go:39-54 | the loop's counter is the number of classified runes, and each flag says whether a rune of its class occurs |
| Secrets.PassesIffPolicy | utils/secrets/password.go:55-59 | the loop's verdict is the policy: more than 8 counted runes and all four classes present |
| Secrets.VerifyPassword | utils/secrets/password.go:34-60 | no error exactly when the policy holds; every failure is the one fixed InvalidPasswordError |
| Secrets.StepTouchesOneClass | utils/secrets/password.go:40-53 | a rune raises the counter by at most one and can set only the flag of its own class |
| Secrets.ClassOrder | utils/secrets/password.go:41-52 | a digit is always a number, never a symbol, and a space counts as lower case |
| Secrets.UnclassifiedIgnored | utils/secrets/password.go:39-54 | an unclassified rune changes neither the counter nor the verdict |
| Secrets.PassingIsMonotonic | utils/secrets/password.go:39-59 | appending any runes to a passing password keeps it passing |
| Secrets.EightIsNotEnough | utils/secrets/password.go:55 | eight counted runes never pass, though the message says "at least 8" |
| Secrets.ShortExample | utils/secrets/password.go:55-58 | "abc" fails |
| Secrets.StrongExample | utils/secrets/password.go:55-56 | "Abcdefg1!" passes |
| Secrets.EightRuneExample | utils/secrets/password.go:55-58 | "Abcdef1!" fails, though it has all four classes |
| Secrets.AlphanumericNeverPasses | utils/secrets/password.go:44-58 | a password of letters and digits only never passes: it has no punctuation or symbol |
| Secrets.UpperCaseIsUpper | utils/secrets/password.go:21 | the first 26 letters of the alphabet are the upper-case ASCII letters |
| Secrets.LowerCaseIsLower | utils/secrets/password.go:21 | the next 26 are the lower-case ASCII letters |
| Secrets.LettersAreLetters | utils/secrets/password.go:21 | the 52 letters of the alphabet are ASCII letters |
| Secrets.AlphabetIsAlphanumeric | utils/secrets/password.go:20-21 | 10 digits and 62 characters in all, every one of them a letter or digit |
| Secrets.ShuffledIsPermutation | utils/secrets/password.go:28-30 | the swaps of the shuffle only permute the buffer, keeping each character's count |
| Secrets.Shuffle | utils/secrets/password.go:28-30 | the in-place shuffle of the array leaves the swaps' result in it |
| Secrets.UnshuffledIsAlphanumeric | utils/secrets/password.go:24-27 | the filled buffer is alphanumeric and starts with a digit |
| Secrets.AlphanumericPermuted | utils/secrets/password.go:28-31 | a permutation of an alphanumeric buffer is alphanumeric |
| Secrets.GetRandomPassword | utils/secrets/password.go:18-32 | 23 characters, a permutation of the filled buffer, all alphanumeric, at least one digit, and never passing VerifyPassword |
| Secrets.GeneratedPasswordsFailThePolicy | utils/password.go:12-26 | whatever the draws, the generated password fails the policy |
| EmailPattern.LabelHasNoDotOrAt | domain/user.go:34 | a domain label contains neither '.' nor '@' |
| EmailPattern.RecognizerMatchesLanguage | domain/user.go:34 | the recognizer accepts exactly a local part of allowed characters, '@', and dot-joined labels of 1 to 63 alphanumerics and inner hyphens |
| EmailPattern.LowerCasePreservesMatch | domain/user.go:94-98 | lower-casing a matching address keeps it matching |
| Domain.ExternalNameFromTags | domain/user.go:71-83 | the tag lookup on the User struct names the five checked fields firstName, lastName, email, status, password |
| Domain.FirstNameTag | domain/user.go:15 | the tag lookup names FirstName "firstName" |
| Domain.LastNameTag | domain/user.go:16 | the tag lookup names Lastname "lastName" |
| Domain.EmailTag | domain/user.go:17 | the tag lookup names Email "email" |
| Domain.StatusTag | domain/user.go:18 | the tag lookup names Status "status" |
| Domain.PasswordTag | domain/user.go:19 | the tag lookup names Password "password", without its omitempty option |
| Domain.LookUpExternalName | domain/user.go:71 | the lookup done at run time gives that name |
| Domain.MissingParamsMeaning | domain/user.go:67-91 | a field's name is reported exactly when the field is blank, and nothing is reported exactly when all five are filled |
| Domain.MissingParamsWellFormed | domain/user.go:70-84 | the report lists only field names, each at most once |
| Domain.ValidationOrder | domain/user.go:54-65 | missing fields are reported before a bad email, and a bad email before a weak password; validation succeeds exactly when all three checks pass |
| Domain.ValidatedUserIsCanonical | domain/user.go:54-65 | a user that passes is left with its email lower-cased and nothing else changed, and validating it again accepts it unchanged |
| Domain.ValidateEmailIsIdempotent | domain/user.go:93-100 | an address accepted and lower-cased is accepted again and left as it is |
| Domain.User.constructor | domain/user.go:13-22 | the new user holds the given field values |
| Domain.User.ValidateNotEmpty | domain/user.go:67-91 | no error exactly when nothing is missing; otherwise MissingMandatoryParamError with the blank fields' names in check order |
| Domain.User.ValidateEmail | domain/user.go:93-100 | a non-matching email gives InvalidEmailError and is left as it is; a matching one is lower-cased |
| Domain.User.ValidateStatus | domain/user.go:102-110 | no error exactly when the status is "active" or "inactive"; the error carries the status and the valid list; the user is not changed |
| Domain.User.ValidatePassword | domain/user.go:112-114 | no error exactly when the password policy holds |
| Domain.User.Validate | domain/user.go:54-65 | the error is the first failing check's, and the user is left as that prefix of the checks leaves it |
| LoginRequest.LoginMissingMeaning | domain/login.go:18-24 | a field's name is reported exactly when it is blank; nothing is reported exactly when both are filled |
| LoginRequest.ExternalNameFromTags | domain/login.go:9-12 | the tag lookup on Login names its fields username and password |
| LoginRequest.LookUpExternalName | domain/login.go:19 | the lookup done at run time gives that name |
| LoginRequest.Login.constructor | domain/login.go:9-12 | the login holds the given values |
| LoginRequest.Login.Validate | domain/login.go:14-30 | both fields are replaced by their trimmed values, failure or not; no error exactly when neither trims to empty; otherwise the empty ones in order |
| LoginRequest.ValidateIsIdempotent | domain/login.go:17-29 | a second call sees trimmed values, keeps them and reports the same missing list |
| Store.DuplicateEmailNamesKey | domain/users/users.go:259 | the table's duplicate-entry message names the email_UNIQUE index |
| Store.SelectedAll | domain/users/users.go:124-130 | each row of a result set is scanned, in order, into a user without a password |
| Store.WithStatusMeaning | domain/users/users.go:27 | the search by status yields exactly the stored rows with that status |
| Store.SearchResultMeaning | domain/users/users.go:119-137 | every user found has the status asked for and no password, and is a stored row; the list is empty exactly when no row has the status |
| Store.Table.constructor | domain/users/users.go:26-30 | the table starts empty with the first id to be assigned |
| Store.Table.Insert | domain/users/users.go:28 | a taken email gives the duplicate-entry error and leaves the table alone; otherwise the row is stored under the next id |
| Store.Table.UpdateRow | domain/users/users.go:29 | only first name, last name, email and update time of the row change; a missing id changes nothing; an email held by another row is refused |
| Store.Table.DeleteRow | domain/users/users.go:30 | the row is removed and one row is affected, or none exists and none is |
| UsersDb.HandleQueryExecError | domain/users/users.go:256-264 | nil stays nil; a message naming email_UNIQUE gives 400 "Email id E is already in use."; anything else gives 500 with the driver's text |
| UsersDb.DuplicateEmailIsBadRequest | domain/users/users.go:259-260 | the table's own duplicate failure always becomes that 400 |
| UsersDb.ReadFailure | domain/users/users.go:95-109 | no error exactly when the statement runs, the cursor reaches the row, the row exists and it scans; a missing row is 404 "User with id N was not found"; other failures, a cursor failure before the first row included, are 500 with the driver's text |
| UsersDb.Get | domain/users/users.go:94-110 | on success every selected column is loaded into the user, the password is kept and the id is unchanged; on failure the user is untouched |
| UsersDb.FindByStatus | domain/users/users.go:112-138 | the scanning loop returns a non-nil list of exactly the rows with the status; a failed statement or scan gives nil with a 500; a failed cursor gives, with no error, the rows read before it |
| UsersDb.Create | domain/users/users.go:140-156 | the user is stored under the next id and takes that id; a taken email gives 400 and writes nothing |
| UsersDb.Update | domain/users/users.go:158-171 | only the four writable columns of the user's row change; an email held by another row gives 400; a missing row is no error |
| UsersDb.Delete | domain/users/users.go:173-192 | the row is removed; zero rows affected gives 404, one gives nil |
| MysqlStore.GenericInternalError | interfaces/db/mysql/mysql.go:22 | a 500 whose message is the fixed generic text |
| MysqlStore.HandleQueryExecError | interfaces/db/mysql/users.go:165-176 | nil stays nil; a message naming email_UNIQUE gives 400 "Email id E is already in use."; anything else gives the generic 500, never the driver's text |
| MysqlStore.DuplicateEmailIsBadRequest | interfaces/db/mysql/users.go:168-171 | the table's own duplicate failure always becomes that 400 |
| MysqlStore.UserStore.constructor | interfaces/db/mysql/users.go:32-36 | the store works on the given table |
| MysqlStore.UserStore.Get | interfaces/db/mysql/users.go:50-71 | a missing id gives nil and 404; a failed statement, cursor or scan gives nil and the generic 500; success gives the stored row without its password, whose id is the one asked for |
| MysqlStore.UserStore.FindByStatus | interfaces/db/mysql/users.go:73-102 | the scanning loop returns a non-nil list of exactly the stored rows with the status; a failed statement or scan gives nil with the generic 500; a failed cursor gives, with no error, the rows read before it |
| MysqlStore.UserStore.Create | interfaces/db/mysql/users.go:104-122 | success gives the input with only its id set to the new one, stored under that id; a taken email gives 400 and writes nothing |
| MysqlStore.UserStore.Update | interfaces/db/mysql/users.go:124-137 | success gives the input unchanged, and only the four writable columns of the row change |
| MysqlStore.UserStore.Delete | interfaces/db/mysql/users.go:139-163 | the row is removed; zero rows affected gives 404, otherwise nil |
| Service.Get | services/users.go:26-29 | the same user comes back, loaded from its row, or untouched with the load's error |
| Service.Find | services/users.go:31-38 | an invalid status gives 400 with the status error's text, before the store is asked; otherwise the store's search, including its early end on a failed cursor |
| Service.Create | services/users.go:40-56 | invalid input gives 400 with the validator's message and writes nothing; otherwise the creation and update stamps take the two clock readings; an encryption failure blanks the password, gives 500 and writes nothing; otherwise the value the cipher returned is stored as the password |
| Service.SealAndInsert | services/users.go:46-55 | the creation stamp takes the first clock reading and the update stamp the second; an encryption failure blanks the password, gives the generic 500, hands back no user and writes nothing; otherwise the stamped user with the value the cipher returned is inserted as the store's Create inserts it |
| Service.MergedChangesOnlyFilledFields | services/users.go:59-81 | only filled fields of the request replace stored ones; id, status, password and creation time are kept; a blank request changes only the update time |
| Service.MergedIsIdempotent | services/users.go:65-79 | applying the same request twice gives what applying it once gives |
| Service.MergedEmailIsCanonical | services/users.go:71-77 | a supplied email that passed is stored matching the pattern and lower-cased |
| Service.Overlay | services/users.go:65-79 | filled fields overwrite the loaded ones untrimmed; a malformed email stops with 400 before the time stamp; otherwise the result is the merge |
| Service.Update | services/users.go:58-82 | a failed load is returned as it is and nothing is written; a malformed email gives 400 and nothing is written; otherwise the merged user is written |
| Service.Delete | services/users.go:84-87 | the store's delete: the row is removed, and zero rows affected gives 404 |

## Left out

- I/O: logging (`logger.*`), the debug print in utils/password.go, and database connection setup and teardown. `UserDbConn.Open`/`Close`, interfaces/db/mysql/mysql.go and services/usersdb.go are not part of this model, apart from one message text.
- The SQL text and prepared-statement lifetime. Each statement is its effect on the abstract table.
- The HTTP layer (controllers, routing, JSON binding, id parsing) and the login flow it drives. The service for login is not part of this model.
- Password encryption and decryption (AES-GCM, SHA-256, base64, crypto/rand) are foreign code. Encryption is a parameter that may fail, and no round trip is claimed.
- The clock: each reading of it is a parameter. Create reads it twice and gets two parameters, so the two stamps may differ, as they do in Go when a create crosses a second.
- The random source: the draws of `GetRandomPassword` and of the shuffle are parameters, and the shuffle is the Fisher–Yates swaps of Go's rand.Shuffle over those draws.
- Unicode tables: the password classes and `ToLower` are ASCII-only. Non-ASCII runes are unclassified. `ToLower` is exact for what is stored, because the email pattern admits only ASCII.
- The regular-expression engine: the pattern is modelled by a hand-written recognizer, proved equal to the pattern's language.
- Concurrency, including two creates racing on the unique email index.
- Row order: a search returns rows in ascending id order; SQL promises no order.
- UsersDb.Get: a scan that fails part-way is modelled as leaving the user untouched. Go's `Scan` may have written some columns before failing.
- UsersDb.Create: when reading the inserted id fails, the model sets the user's id to 0, taking `LastInsertId` to return 0 with its error. The row stays inserted.
- Service.Find: on a store failure Go returns a pointer to a nil list; the model returns None, the same as for a bad status.
- Service.Create: `users.InternalServerErrMsg` is not part of this model. Its text is taken to be the generic one of interfaces/db/mysql/mysql.go.
- MysqlStore.GenericInternalError: the adapter calls an argument-less `InternalServerError()` from an external package whose text is not part of this model. It is taken to be the generic message of interfaces/db/mysql/mysql.go.
- Domain, LoginRequest and MysqlStore: domain/user.go, domain/login.go and interfaces/db/mysql import `errors`, `secrets`, `slice` and `structutils` from the external bkst-go-utils module, whose text is not part of this model. These members use the repository's own utils/ packages in their place. Where the external module differs from them (it has an argument-less `InternalServerError()`, for one), the model follows the in-repository copy. That covers the texts of `MissingMandatoryParamError`, `InvalidPasswordError` and the REST errors, the password policy used by domain/user.go's `ValidatePassword`, and `GetFieldTagValue` and `EntryExists` as the domain uses them.

## Notes on the code

- Service.Create neither defaults the status to "active" nor calls `ValidateStatus`. What it stores is the status the request gave, even an invalid one. The model follows the code.
- Update in both persistence layers ignores the number of rows affected. Updating an id with no row is therefore not an error.
- VerifyPassword requires more than eight counted runes, although its error message says "at least 8" (Secrets.EightIsNotEnough, Secrets.EightRuneExample). The model follows the code.
- The domain/users validators call utils.VerifyPassword (utils/password.go). domain/user.go calls the external module's secrets.VerifyPassword, which is modelled by the in-repository one (see "## Left out").
