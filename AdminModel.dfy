/** The admin request body (`AdminCreate`) and its validation. */
module AdminModel {
  import opened Wrappers
  import opened Text
  import opened Validation

  const DefaultFullName: string := "Admin"
  const PasswordMinLength: nat := 6

  datatype AdminCreate = AdminCreate(username: string, password: string, fullName: string)

  /** Validate the body of an admin creation. `username` and `password` must be non-blank
      and are kept stripped; the stripped password needs six characters; a full name that is
      left out (`None`) becomes "Admin". */
  function CreateAdmin(username: string, password: string, fullName: Option<string>)
    : (r: Result<AdminCreate, seq<FieldError>>)
    ensures r.Ok? <==> Strip(username) != [] && |Strip(password)| >= PasswordMinLength
    ensures r.Ok? ==> r.value.username == Strip(username) && r.value.password == Strip(password)
    ensures r.Ok? ==> r.value.fullName == fullName.GetOr(DefaultFullName)
    ensures r.Err? ==>
      r.error != [] &&
      forall e :: e in r.error ==> e.field in {"username", "password"}
    ensures r.Err? ==>
      ((exists e :: e in r.error && e.field == "username") <==> CheckField("username", username, 0).Err?)
    ensures r.Err? ==>
      ((exists e :: e in r.error && e.field == "password") <==> CheckField("password", password, PasswordMinLength).Err?)
    ensures r.Err? && Strip(password) == [] ==> FieldError("password", Blank) in r.error
  {
    var user := CheckField("username", username, 0);
    var pass := CheckField("password", password, PasswordMinLength);
    if user.Ok? && pass.Ok? then
      Ok(AdminCreate(user.value, pass.value, fullName.GetOr(DefaultFullName)))
    else
      Err(AdminErrors(user, pass))
  }

  /** The report of the two field checks, in declaration order: it names exactly the fields
      that failed, with each failing check's own error, and it is empty only when both passed. */
  function AdminErrors(user: Result<string, FieldError>, pass: Result<string, FieldError>)
    : (errs: seq<FieldError>)
    requires user.Err? ==> user.error.field == "username"
    requires pass.Err? ==> pass.error.field == "password"
    ensures (exists e :: e in errs && e.field == "username") <==> user.Err?
    ensures (exists e :: e in errs && e.field == "password") <==> pass.Err?
    ensures pass.Err? ==> pass.error in errs
    ensures errs == [] <==> user.Ok? && pass.Ok?
    ensures forall e :: e in errs ==> e.field in {"username", "password"}
  {
    var errs := ErrorOf(user) + ErrorOf(pass);
    assert "username"[0] == 'u' && "password"[0] == 'p';
    assert forall e :: e in errs ==> (user.Err? && e == user.error) || (pass.Err? && e == pass.error);
    assert user.Err? ==> user.error in errs;
    assert pass.Err? ==> pass.error in errs;
    errs
  }
}
