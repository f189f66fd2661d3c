/** The registration form's submit handler: a first-match chain of field checks, then
    a call to register, whose answer decides between success and the duplicate error. */
module Registration {
  import opened Lists
  import opened KotlinLang
  import opened UserRepository

  const MIN_PASSWORD_LENGTH: nat := 6

  datatype RegisterError =
    | IncompleteFields
    | PasswordMismatch
    | PasswordTooShort
    | InvalidEmail
    | UserOrEmailExists

  /** `Registered` is the navigation to the home screen; `Rejected` shows a message. */
  datatype Outcome = Registered | Rejected(error: RegisterError)

  /** The text the screen shows for each error. */
  function Message(e: RegisterError): string
  {
    match e
    case IncompleteFields => "Por favor, completa todos los campos"
    case PasswordMismatch => "Las contraseñas no coinciden"
    case PasswordTooShort => "La contraseña debe tener al menos 6 caracteres"
    case InvalidEmail => "Ingresa un correo válido"
    case UserOrEmailExists => "El usuario o correo ya existe"
  }

  /** Every error has its own text, so the message on screen tells the user which check
      failed. */
  lemma MessagesDiffer(a: RegisterError, b: RegisterError)
    requires a != b
    ensures Message(a) != Message(b)
  {
    assert |Message(IncompleteFields)| == 36 && |Message(PasswordMismatch)| == 28;
    assert |Message(PasswordTooShort)| == 46 && |Message(InvalidEmail)| == 24;
    assert |Message(UserOrEmailExists)| == 29;
  }

  /** The text shown after a rejected submit: the first failing check's message, or the
      duplicate-account message when the checks pass and register refuses. */
  lemma RejectionMessage(username: string, email: string, password: string, confirmPassword: string,
                         registered: bool)
    requires Decide(username, email, password, confirmPassword, registered).Rejected?
    ensures Message(Decide(username, email, password, confirmPassword, registered).error) ==
      match CheckFields(username, email, password, confirmPassword)
      case Some(e) => Message(e)
      case None => "El usuario o correo ya existe"
  {
  }

  predicate AnyBlank(username: string, email: string, password: string, confirmPassword: string)
  {
    IsBlank(username) || IsBlank(email) || IsBlank(password) || IsBlank(confirmPassword)
  }

  /** The checks that run before register, in order; the first failing one is reported.
      Each error is stated by the checks before it passing and its own failing, and no
      error at all means every check passes. */
  function CheckFields(username: string, email: string, password: string, confirmPassword: string)
    : (r: Option<RegisterError>)
    ensures r == Some(IncompleteFields) <==> AnyBlank(username, email, password, confirmPassword)
    ensures r == Some(PasswordMismatch) <==>
      !AnyBlank(username, email, password, confirmPassword) && password != confirmPassword
    ensures r == Some(PasswordTooShort) <==>
      && !AnyBlank(username, email, password, confirmPassword) && password == confirmPassword
      && Utf16Length(password) < MIN_PASSWORD_LENGTH
    ensures r == Some(InvalidEmail) <==>
      && !AnyBlank(username, email, password, confirmPassword) && password == confirmPassword
      && Utf16Length(password) >= MIN_PASSWORD_LENGTH && '@' !in email
    ensures r == None <==>
      && !IsBlank(username) && !IsBlank(email) && !IsBlank(password) && !IsBlank(confirmPassword)
      && password == confirmPassword && Utf16Length(password) >= MIN_PASSWORD_LENGTH && '@' in email
    ensures r != Some(UserOrEmailExists)
  {
    if AnyBlank(username, email, password, confirmPassword) then Some(IncompleteFields)
    else if password != confirmPassword then Some(PasswordMismatch)
    else if Utf16Length(password) < MIN_PASSWORD_LENGTH then Some(PasswordTooShort)
    else if '@' !in email then Some(InvalidEmail)
    else None
  }

  /** What the handler ends in, given what register answers when it is called. */
  function Decide(username: string, email: string, password: string, confirmPassword: string, registered: bool)
    : (r: Outcome)
    ensures CheckFields(username, email, password, confirmPassword).Some? ==>
      r == Rejected(CheckFields(username, email, password, confirmPassword).value)
    ensures r == Registered <==> CheckFields(username, email, password, confirmPassword).None? && registered
    ensures r == Rejected(UserOrEmailExists) <==>
      CheckFields(username, email, password, confirmPassword).None? && !registered
  {
    match CheckFields(username, email, password, confirmPassword)
    case Some(e) => Rejected(e)
    case None => if registered then Registered else Rejected(UserOrEmailExists)
  }

  /** The register button's handler. The repository is touched only when every field
      check passes; its answer then picks the outcome. */
  method Submit(repo: UserRepo, username: string, email: string, password: string, confirmPassword: string,
                idMillis: nat, createdAt: int)
    returns (outcome: Outcome)
    modifies repo
    ensures CheckFields(username, email, password, confirmPassword).Some? ==>
      repo.users == old(repo.users) && repo.currentUser == old(repo.currentUser)
    ensures CheckFields(username, email, password, confirmPassword).None? ==>
      var ok := FindClash(old(repo.users), username, email).None?;
      && outcome == Decide(username, email, password, confirmPassword, ok)
      && repo.users == (if ok then old(repo.users) + [NewPlayer(username, email, idMillis, createdAt)]
                        else old(repo.users))
      && repo.currentUser == (if ok then Some(NewPlayer(username, email, idMillis, createdAt))
                              else old(repo.currentUser))
    ensures outcome == Decide(username, email, password, confirmPassword, outcome == Registered)
  {
    var check := CheckFields(username, email, password, confirmPassword);
    if check.Some? {
      outcome := Rejected(check.value);
    } else {
      var success := repo.Register(username, email, password, idMillis, createdAt);
      outcome := if success then Registered else Rejected(UserOrEmailExists);
    }
  }

  /** The length check counts UTF-16 units, so three characters outside the Basic
      Multilingual Plane make a long enough password. */
  lemma ThreeAstralCharactersAreEnough()
    ensures CheckFields("ana", "ana@x", "\U{1F40D}\U{1F40D}\U{1F40D}", "\U{1F40D}\U{1F40D}\U{1F40D}") == None
  {
    var p := "\U{1F40D}\U{1F40D}\U{1F40D}";
    assert Utf16Length(p) == 6 by {
      assert p[1..] == "\U{1F40D}\U{1F40D}" && p[2..] == "\U{1F40D}";
      assert p[3..] == [];
    }
    assert "ana@x"[3] == '@';
    assert !IsWhitespace('a') && !IsWhitespace('\U{1F40D}');
    assert "ana"[0] == 'a' && "ana@x"[0] == 'a' && p[0] == '\U{1F40D}';
  }

  /** A field of spaces counts as empty, and that check comes before the others. */
  lemma BlankBeatsMismatch(username: string, email: string, password: string)
    requires password != "  "
    ensures CheckFields(username, email, password, "  ") == Some(IncompleteFields)
  {
    assert IsBlank("  ") by {
      assert "  "[0] == ' ' && "  "[1] == ' ';
    }
  }
}
