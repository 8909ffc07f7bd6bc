/**
 * The validator of login and registration requests: a `Username` chain and
 * a `Password` chain of FluentValidation checks, run in that order.
 */
module LoginValidation {
  import opened Text
  import Validation

  /** The request body of login and registration. */
  datatype LoginUser = LoginUser(username: string, password: string)

  /** One error per check of the two chains; `Message` is the text reported. */
  datatype LoginError =
    | UsernameRequired | UsernameTooShort | UsernameTooLong | UsernameInvalidChars
    | PasswordRequired | PasswordTooShort | PasswordNoUpper | PasswordNoLower | PasswordNoDigit
  {
    predicate IsUsernameError()
    {
      UsernameRequired? || UsernameTooShort? || UsernameTooLong? || UsernameInvalidChars?
    }

    function Message(): string
    {
      match this
      case UsernameRequired => "Имя пользователя обязательно"
      case UsernameTooShort => "Имя пользователя должно содержать минимум 3 символа"
      case UsernameTooLong => "Имя пользователя должно содержать максимум 50 символов"
      case UsernameInvalidChars => "Имя пользователя может содержать только буквы, цифры и подчеркивания"
      case PasswordRequired => "Пароль обязателен"
      case PasswordTooShort => "Пароль должен содержать минимум 6 символов"
      case PasswordNoUpper => "Пароль должен содержать хотя бы одну заглавную букву"
      case PasswordNoLower => "Пароль должен содержать хотя бы одну строчную букву"
      case PasswordNoDigit => "Пароль должен содержать хотя бы одну цифру"
    }
  }

  const UsernameMinLength: nat := 3
  const UsernameMaxLength: nat := 50
  const PasswordMinLength: nat := 6

  /** The checks of the Username chain, in declaration order. */
  const UsernameRules: seq<LoginError> :=
    [UsernameRequired, UsernameTooShort, UsernameTooLong, UsernameInvalidChars]

  /** The checks of the Password chain, in declaration order. */
  const PasswordRules: seq<LoginError> :=
    [PasswordRequired, PasswordTooShort, PasswordNoUpper, PasswordNoLower, PasswordNoDigit]

  /** All checks, in the order the validator runs them. */
  const LoginRules: seq<LoginError> := UsernameRules + PasswordRules

  /** The class `[a-zA-Z0-9_]`. */
  predicate IsUsernameChar(c: char)
  {
    ('a' <= c <= 'z') || ('A' <= c <= 'Z') || ('0' <= c <= '9') || c == '_'
  }

  predicate IsUpper(c: char) { 'A' <= c <= 'Z' }
  predicate IsLower(c: char) { 'a' <= c <= 'z' }
  predicate IsDigit(c: char) { '0' <= c <= '9' }

  /** Whether the check that reports `e` passes on `x`. */
  predicate Holds(x: LoginUser, e: LoginError)
  {
    match e
    case UsernameRequired => !IsNullOrWhiteSpace(x.username)
    case UsernameTooShort => |x.username| >= UsernameMinLength
    case UsernameTooLong => |x.username| <= UsernameMaxLength
    case UsernameInvalidChars => MatchesWhole(x.username, IsUsernameChar)
    case PasswordRequired => !IsNullOrWhiteSpace(x.password)
    case PasswordTooShort => |x.password| >= PasswordMinLength
    case PasswordNoUpper => ContainsAny(x.password, IsUpper)
    case PasswordNoLower => ContainsAny(x.password, IsLower)
    case PasswordNoDigit => ContainsAny(x.password, IsDigit)
  }

  /** The checks of the validator, applied to `x`. */
  function Checks(x: LoginUser): LoginError -> bool
  {
    e => Holds(x, e)
  }

  /** The errors the validator reports for `x`, in the order it reports them. */
  function ValidateLogin(x: LoginUser): (errs: seq<LoginError>)
    ensures |errs| <= |LoginRules|
  {
    Validation.Failures(LoginRules, Checks(x))
  }

  /** The messages the validator reports for `x`, one per failed check, in order. */
  function LoginMessages(x: LoginUser): (msgs: seq<string>)
    ensures |msgs| == |ValidateLogin(x)|
    ensures forall i :: 0 <= i < |msgs| ==> msgs[i] == ValidateLogin(x)[i].Message()
  {
    var errs := ValidateLogin(x);
    seq(|errs|, i requires 0 <= i < |errs| => errs[i].Message())
  }

  /**
   * An acceptable user name: 3 to 50 characters of `[a-zA-Z0-9_]`, except
   * that the last one may be a line feed, which then counts towards the length.
   */
  predicate ValidUsername(u: string)
  {
    && UsernameMinLength <= |u| <= UsernameMaxLength
    && (AllIn(u, IsUsernameChar) || (u[|u| - 1] == '\n' && AllIn(u[..|u| - 1], IsUsernameChar)))
  }

  /**
   * An acceptable password: at least 6 characters, of any kind and with no
   * upper bound, among them an ASCII upper-case letter, an ASCII lower-case
   * letter and an ASCII digit.
   */
  predicate ValidPassword(p: string)
  {
    && |p| >= PasswordMinLength
    && (exists i :: 0 <= i < |p| && 'A' <= p[i] <= 'Z')
    && (exists i :: 0 <= i < |p| && 'a' <= p[i] <= 'z')
    && (exists i :: 0 <= i < |p| && '0' <= p[i] <= '9')
  }

  /** Each error is reported exactly when its check fails. */
  lemma LoginErrorIff(x: LoginUser, e: LoginError)
    ensures e in ValidateLogin(x) <==> !Holds(x, e)
  {
    if !Holds(x, e) {
      assert e in LoginRules;
      Validation.FailuresComplete(LoginRules, Checks(x), e);
    }
  }

  /** The four user-name checks pass exactly when the user name is acceptable. */
  lemma UsernameChecksIff(x: LoginUser)
    ensures ValidUsername(x.username) <==>
      Holds(x, UsernameRequired) && Holds(x, UsernameTooShort)
      && Holds(x, UsernameTooLong) && Holds(x, UsernameInvalidChars)
  {
    var u := x.username;
    if ValidUsername(u) {
      assert IsUsernameChar(u[0]);
      NotBlank(u, 0);
    }
  }

  /** The five password checks pass exactly when the password is acceptable. */
  lemma PasswordChecksIff(x: LoginUser)
    ensures ValidPassword(x.password) <==>
      Holds(x, PasswordRequired) && Holds(x, PasswordTooShort)
      && Holds(x, PasswordNoUpper) && Holds(x, PasswordNoLower) && Holds(x, PasswordNoDigit)
  {
    var p := x.password;
    if ValidPassword(p) {
      var i :| 0 <= i < |p| && '0' <= p[i] <= '9';
      NotBlank(p, i);
    }
  }

  /**
   * The request is accepted (no error) exactly when the user name and the
   * password are acceptable; `NotEmpty` never fails alone, since the other
   * checks already demand a non-blank character.
   */
  lemma LoginValidIff(x: LoginUser)
    ensures ValidateLogin(x) == [] <==> ValidUsername(x.username) && ValidPassword(x.password)
  {
    Validation.FailuresEmptyIff(LoginRules, Checks(x));
    UsernameChecksIff(x);
    PasswordChecksIff(x);
    if ValidateLogin(x) == [] {
      forall e | e in [UsernameRequired, UsernameTooShort, UsernameTooLong, UsernameInvalidChars,
                       PasswordRequired, PasswordTooShort, PasswordNoUpper, PasswordNoLower, PasswordNoDigit]
        ensures Holds(x, e)
      {
        assert e in LoginRules;
        assert Checks(x)(e);
      }
    }
    if ValidUsername(x.username) && ValidPassword(x.password) {
      forall e | e in LoginRules ensures Checks(x)(e) {
        match e
        case UsernameRequired =>
        case UsernameTooShort =>
        case UsernameTooLong =>
        case UsernameInvalidChars =>
        case PasswordRequired =>
        case PasswordTooShort =>
        case PasswordNoUpper =>
        case PasswordNoLower =>
        case PasswordNoDigit =>
      }
    }
  }

  /**
   * No error is reported twice; with `LoginErrorIff`, each failing check is
   * reported exactly once.
   */
  lemma LoginErrorsDistinct(x: LoginUser)
    ensures Validation.Distinct(ValidateLogin(x))
  {
    assert Validation.Distinct(LoginRules);
    Validation.FailuresDistinct(LoginRules, Checks(x));
  }

  /**
   * Two failing checks are reported in declaration order; in particular
   * (i < 4 <= j) every user-name error comes before every password error.
   */
  lemma LoginErrorsInChainOrder(x: LoginUser, i: nat, j: nat)
    requires i < j < |LoginRules|
    requires !Holds(x, LoginRules[i]) && !Holds(x, LoginRules[j])
    ensures Validation.Before(ValidateLogin(x), LoginRules[i], LoginRules[j])
  {
    Validation.FailuresKeepOrder(LoginRules, Checks(x), i, j);
  }

  /** User-name errors precede password errors in every result. */
  lemma UsernameErrorsFirst(x: LoginUser, a: nat, b: nat)
    requires a < b < |ValidateLogin(x)|
    requires !ValidateLogin(x)[a].IsUsernameError()
    ensures !ValidateLogin(x)[b].IsUsernameError()
  {
    LoginSplit(x);
    Validation.Separated(UsernameErrors(x), PasswordErrors(x), (e: LoginError) => e.IsUsernameError(), a, b);
  }

  /** The errors of the Username chain. */
  function UsernameErrors(x: LoginUser): (errs: seq<LoginError>)
    ensures forall e :: e in errs ==> e.IsUsernameError()
  {
    Validation.Failures(UsernameRules, Checks(x))
  }

  /** The errors of the Password chain. */
  function PasswordErrors(x: LoginUser): (errs: seq<LoginError>)
    ensures forall e :: e in errs ==> !e.IsUsernameError()
  {
    Validation.Failures(PasswordRules, Checks(x))
  }

  /** The result is the Username chain's errors followed by the Password chain's. */
  lemma LoginSplit(x: LoginUser)
    ensures ValidateLogin(x) == UsernameErrors(x) + PasswordErrors(x)
  {
    Validation.FailuresAppend(UsernameRules, PasswordRules, Checks(x));
  }

  /**
   * The trailing-newline case of `$`: a user name of 2 to 49 characters of
   * `[a-zA-Z0-9_]` followed by '\n' passes every user-name check, the line
   * feed counting as its third to fiftieth character.
   */
  lemma UsernameTrailingNewlineAccepted(u: string, p: string)
    requires 2 <= |u| < UsernameMaxLength && AllIn(u, IsUsernameChar)
    ensures forall e :: e in ValidateLogin(LoginUser(u + "\n", p)) ==> !e.IsUsernameError()
    ensures ValidUsername(u + "\n")
  {
    var v := u + "\n";
    assert v[..|v| - 1] == u;
    NotBlank(v, 0);
  }

  /** An empty user name fails `NotEmpty`, `MinimumLength(3)` and `Matches`, and only those. */
  lemma EmptyUsernameErrors(p: string)
    ensures var errs := ValidateLogin(LoginUser("", p));
      UsernameRequired in errs && UsernameTooShort in errs && UsernameInvalidChars in errs
      && UsernameTooLong !in errs
  {
    var x := LoginUser("", p);
    LoginErrorIff(x, UsernameRequired);
    LoginErrorIff(x, UsernameTooShort);
    LoginErrorIff(x, UsernameInvalidChars);
  }

  /** There is no longest password: appending to an accepted password keeps it accepted. */
  lemma {:induction false} PasswordHasNoMaximum(p: string, q: string)
    requires ValidPassword(p)
    ensures ValidPassword(p + q)
  {
    var i :| 0 <= i < |p| && 'A' <= p[i] <= 'Z';
    var j :| 0 <= j < |p| && 'a' <= p[j] <= 'z';
    var k :| 0 <= k < |p| && '0' <= p[k] <= '9';
    assert (p + q)[i] == p[i] && (p + q)[j] == p[j] && (p + q)[k] == p[k];
  }

  /** A failing check puts its message into the reported messages. */
  lemma FailedCheckReported(x: LoginUser, e: LoginError)
    requires !Holds(x, e)
    ensures e.Message() in LoginMessages(x)
  {
    LoginErrorIff(x, e);
    Validation.MappedMember(ValidateLogin(x), LoginMessages(x), (e: LoginError) => e.Message(), e);
  }

  /** An empty user name is reported as required. */
  lemma EmptyUsernameMessage(p: string)
    ensures "Имя пользователя обязательно" in LoginMessages(LoginUser("", p))
  {
    FailedCheckReported(LoginUser("", p), UsernameRequired);
  }

  /** A user name shorter than 3 characters is reported with the minimum message. */
  lemma ShortUsernameMessage(x: LoginUser)
    requires |x.username| < UsernameMinLength
    ensures "Имя пользователя должно содержать минимум 3 символа" in LoginMessages(x)
  {
    FailedCheckReported(x, UsernameTooShort);
  }

  /** A user name longer than 50 characters is reported with the maximum message. */
  lemma LongUsernameMessage(x: LoginUser)
    requires |x.username| > UsernameMaxLength
    ensures "Имя пользователя должно содержать максимум 50 символов" in LoginMessages(x)
  {
    FailedCheckReported(x, UsernameTooLong);
  }

  /** A password shorter than 6 characters is reported with the minimum message. */
  lemma ShortPasswordMessage(x: LoginUser)
    requires |x.password| < PasswordMinLength
    ensures "Пароль должен содержать минимум 6 символов" in LoginMessages(x)
  {
    FailedCheckReported(x, PasswordTooShort);
  }
}
