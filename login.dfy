/** The login route's action (`app/routes/login.tsx`): the two form fields are validated, a
    failed validation answers 400 before any login attempt, an empty token answers 400 with
    "Invalid credentials", and a token redirects to `/` carrying it. The token request is not
    modelled: the authentication endpoint's answer is a parameter. */
module Login {
  import opened Wrappers

  const UsernameRequired: string := "user is required."
  const PasswordRequired: string := "Password is required."
  const InvalidCredentials: string := "Invalid credentials"

  /** The errors object: each field's message when it is set. */
  datatype LoginErrors = LoginErrors(username: Option<string>, password: Option<string>)

  /** `String(formData.get(name) || "")`: a missing field reads as the empty string. */
  function FieldText(field: Option<string>): (text: string)
    ensures field.None? ==> text == ""
    ensures field.Some? ==> text == field.value
  {
    if field.Some? && field.value != "" then field.value else ""
  }

  /** `validate`: fills the errors object field by field, and returns it only when it has
      at least one key. */
  method Validate(username: string, password: string) returns (errors: Option<LoginErrors>)
    ensures errors.None? <==> username != "" && password != ""
    ensures errors.Some? ==> (errors.value.username == Some(UsernameRequired) <==> username == "")
    ensures errors.Some? ==> (errors.value.username.None? <==> username != "")
    ensures errors.Some? ==> (errors.value.password == Some(PasswordRequired) <==> password == "")
    ensures errors.Some? ==> (errors.value.password.None? <==> password != "")
  {
    var usernameError: Option<string> := None;
    var passwordError: Option<string> := None;
    var keys := 0;
    if username == "" {
      usernameError := Some(UsernameRequired);
      keys := keys + 1;
    }
    if password == "" {
      passwordError := Some(PasswordRequired);
      keys := keys + 1;
    }
    if keys > 0 {
      errors := Some(LoginErrors(usernameError, passwordError));
    } else {
      errors := None;
    }
  }

  /** What the authentication endpoint answered: a non-ok response, or an ok one whose body
      holds a token. */
  datatype AuthReply = NotOk | Token(token: string)

  /** `login`: the empty string for a non-ok response, else the token of the body. */
  function LoginToken(reply: AuthReply): (token: string)
    ensures reply.NotOk? ==> token == ""
    ensures reply.Token? ==> token == reply.token
  {
    match reply
    case NotOk => ""
    case Token(t) => t
  }

  /** What the action returns: a 400 with its errors, or the redirect carrying the token. */
  datatype ActionResult = Rejected(status: int, errors: LoginErrors) | Redirect(location: string, token: string)

  /** `action`: `attempted` tells whether the login request was made. */
  method Action(usernameField: Option<string>, passwordField: Option<string>, reply: AuthReply)
    returns (result: ActionResult, attempted: bool)
    ensures var username := FieldText(usernameField);
      var password := FieldText(passwordField);
      attempted <==> username != "" && password != ""
    ensures !attempted ==> result.Rejected? && result.status == 400
    ensures !attempted ==>
      && (result.errors.username.Some? <==> FieldText(usernameField) == "")
      && (result.errors.password.Some? <==> FieldText(passwordField) == "")
    ensures attempted && LoginToken(reply) == "" ==> result == Rejected(400, LoginErrors(None, Some(InvalidCredentials)))
    ensures attempted && LoginToken(reply) != "" ==> result == Redirect("/", LoginToken(reply))
  {
    var username := FieldText(usernameField);
    var password := FieldText(passwordField);
    var errors := Validate(username, password);
    if errors.Some? {
      return Rejected(400, errors.value), false;
    }
    attempted := true;
    var token := LoginToken(reply);
    if token == "" {
      return Rejected(400, LoginErrors(None, Some(InvalidCredentials))), attempted;
    }
    result := Redirect("/", token);
  }
}
