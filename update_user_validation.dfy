/**
 * The validator of user updates: a `Name` chain and an `Email` chain of
 * FluentValidation checks, run in that order.
 */
module UpdateUserValidation {
  import opened Text
  import Validation

  /** The request body of a user update. */
  datatype UpdateUserDto = UpdateUserDto(name: string, email: string)

  /** One error per check of the two chains; `Message` is the text reported. */
  datatype UpdateUserError =
    | NameRequired | NameTooShort | NameTooLong | NameInvalidChars
    | EmailRequired | EmailInvalidFormat | EmailTooLong
  {
    predicate IsNameError()
    {
      NameRequired? || NameTooShort? || NameTooLong? || NameInvalidChars?
    }

    function Message(): string
    {
      match this
      case NameRequired => "Имя обязательно"
      case NameTooShort => "Имя должно содержать минимум 2 символа"
      case NameTooLong => "Имя должно содержать максимум 100 символов"
      case NameInvalidChars => "Имя может содержать только буквы и пробелы"
      case EmailRequired => "Email обязателен"
      case EmailInvalidFormat => "Некорректный формат email"
      case EmailTooLong => "Email должен содержать максимум 100 символов"
    }
  }

  const NameMinLength: nat := 2
  const NameMaxLength: nat := 100
  const EmailMaxLength: nat := 100

  /** The checks of the Name chain, in declaration order. */
  const NameRules: seq<UpdateUserError> := [NameRequired, NameTooShort, NameTooLong, NameInvalidChars]

  /** The checks of the Email chain, in declaration order. */
  const EmailRules: seq<UpdateUserError> := [EmailRequired, EmailInvalidFormat, EmailTooLong]

  /** All checks, in the order the validator runs them. */
  const UpdateRules: seq<UpdateUserError> := NameRules + EmailRules

  /**
   * The class `[a-zA-Zа-яА-ЯёЁ\s]`: Latin letters, the Cyrillic ranges
   * U+0430..U+044F and U+0410..U+042F, the letters ё (U+0451) and Ё (U+0401),
   * which lie outside those ranges, and white space.
   */
  predicate IsNameChar(c: char)
  {
    || ('a' <= c <= 'z') || ('A' <= c <= 'Z')
    || ('а' <= c <= 'я') || ('А' <= c <= 'Я') || c == 'ё' || c == 'Ё'
    || IsWhiteSpace(c)
  }

  /**
   * Whether the check that reports `e` passes on `d`; `isEmailAddress` is
   * the `EmailAddress()` check of the validation library, taken as given.
   */
  predicate Holds(d: UpdateUserDto, isEmailAddress: string -> bool, e: UpdateUserError)
  {
    match e
    case NameRequired => !IsNullOrWhiteSpace(d.name)
    case NameTooShort => |d.name| >= NameMinLength
    case NameTooLong => |d.name| <= NameMaxLength
    case NameInvalidChars => MatchesWhole(d.name, IsNameChar)
    case EmailRequired => !IsNullOrWhiteSpace(d.email)
    case EmailInvalidFormat => isEmailAddress(d.email)
    case EmailTooLong => |d.email| <= EmailMaxLength
  }

  /** The checks of the validator, applied to `d`. */
  function Checks(d: UpdateUserDto, isEmailAddress: string -> bool): UpdateUserError -> bool
  {
    e => Holds(d, isEmailAddress, e)
  }

  /** The errors the validator reports for `d`, in the order it reports them. */
  function ValidateUpdate(d: UpdateUserDto, isEmailAddress: string -> bool): (errs: seq<UpdateUserError>)
    ensures |errs| <= |UpdateRules|
  {
    Validation.Failures(UpdateRules, Checks(d, isEmailAddress))
  }

  /** The messages the validator reports for `d`, one per failed check, in order. */
  function UpdateMessages(d: UpdateUserDto, isEmailAddress: string -> bool): (msgs: seq<string>)
    ensures |msgs| == |ValidateUpdate(d, isEmailAddress)|
    ensures forall i :: 0 <= i < |msgs| ==> msgs[i] == ValidateUpdate(d, isEmailAddress)[i].Message()
  {
    var errs := ValidateUpdate(d, isEmailAddress);
    seq(|errs|, i requires 0 <= i < |errs| => errs[i].Message())
  }

  /** The errors of the Name chain. */
  function NameErrors(d: UpdateUserDto, isEmailAddress: string -> bool): (errs: seq<UpdateUserError>)
    ensures forall e :: e in errs ==> e.IsNameError()
  {
    Validation.Failures(NameRules, Checks(d, isEmailAddress))
  }

  /** The errors of the Email chain. */
  function EmailErrors(d: UpdateUserDto, isEmailAddress: string -> bool): (errs: seq<UpdateUserError>)
    ensures forall e :: e in errs ==> !e.IsNameError()
  {
    Validation.Failures(EmailRules, Checks(d, isEmailAddress))
  }

  /**
   * An acceptable name: 2 to 100 characters, each a letter of the class or
   * white space, at least one of them not white space.
   */
  predicate ValidName(n: string)
  {
    && NameMinLength <= |n| <= NameMaxLength
    && (forall i :: 0 <= i < |n| ==> IsNameChar(n[i]))
    && (exists i :: 0 <= i < |n| && !IsWhiteSpace(n[i]))
  }

  /**
   * An acceptable e-mail address: at most 100 characters, not all white
   * space, and accepted by the library's e-mail check.
   */
  predicate ValidEmail(m: string, isEmailAddress: string -> bool)
  {
    && |m| <= EmailMaxLength
    && (exists i :: 0 <= i < |m| && !IsWhiteSpace(m[i]))
    && isEmailAddress(m)
  }

  /** Each error is reported exactly when its check fails. */
  lemma UpdateErrorIff(d: UpdateUserDto, isEmailAddress: string -> bool, e: UpdateUserError)
    ensures e in ValidateUpdate(d, isEmailAddress) <==> !Holds(d, isEmailAddress, e)
  {
    if !Holds(d, isEmailAddress, e) {
      assert e in UpdateRules;
      Validation.FailuresComplete(UpdateRules, Checks(d, isEmailAddress), e);
    }
  }

  /**
   * Since '\n' is white space and so in the name class, the trailing-newline
   * case of `$` adds nothing: the name pattern matches exactly the non-empty
   * strings of class characters.
   */
  lemma NamePatternIff(n: string)
    ensures MatchesWhole(n, IsNameChar) <==> |n| > 0 && AllIn(n, IsNameChar)
  {
    if |n| > 1 && n[|n| - 1] == '\n' && AllIn(n[..|n| - 1], IsNameChar) {
      forall i | 0 <= i < |n| ensures IsNameChar(n[i]) {
        if i < |n| - 1 {
          assert n[i] == n[..|n| - 1][i];
        }
      }
    }
  }

  /** The four name checks pass exactly when the name is acceptable. */
  lemma NameChecksIff(d: UpdateUserDto, isEmailAddress: string -> bool)
    ensures ValidName(d.name) <==>
      Holds(d, isEmailAddress, NameRequired) && Holds(d, isEmailAddress, NameTooShort)
      && Holds(d, isEmailAddress, NameTooLong) && Holds(d, isEmailAddress, NameInvalidChars)
  {
    NamePatternIff(d.name);
    if ValidName(d.name) {
      var i :| 0 <= i < |d.name| && !IsWhiteSpace(d.name[i]);
      NotBlank(d.name, i);
    }
  }

  /** The three e-mail checks pass exactly when the address is acceptable. */
  lemma EmailChecksIff(d: UpdateUserDto, isEmailAddress: string -> bool)
    ensures ValidEmail(d.email, isEmailAddress) <==>
      Holds(d, isEmailAddress, EmailRequired) && Holds(d, isEmailAddress, EmailInvalidFormat)
      && Holds(d, isEmailAddress, EmailTooLong)
  {
    if ValidEmail(d.email, isEmailAddress) {
      var i :| 0 <= i < |d.email| && !IsWhiteSpace(d.email[i]);
      NotBlank(d.email, i);
    }
  }

  /** An update is accepted (no error) exactly when its name and its e-mail address are acceptable. */
  lemma UpdateValidIff(d: UpdateUserDto, isEmailAddress: string -> bool)
    ensures ValidateUpdate(d, isEmailAddress) == [] <==>
      ValidName(d.name) && ValidEmail(d.email, isEmailAddress)
  {
    var holds := Checks(d, isEmailAddress);
    Validation.FailuresEmptyIff(UpdateRules, holds);
    NameChecksIff(d, isEmailAddress);
    EmailChecksIff(d, isEmailAddress);
    if ValidateUpdate(d, isEmailAddress) == [] {
      forall e | e in [NameRequired, NameTooShort, NameTooLong, NameInvalidChars,
                       EmailRequired, EmailInvalidFormat, EmailTooLong]
        ensures Holds(d, isEmailAddress, e)
      {
        assert e in UpdateRules;
        assert holds(e);
      }
    }
    if ValidName(d.name) && ValidEmail(d.email, isEmailAddress) {
      forall e | e in UpdateRules ensures holds(e) {
        match e
        case NameRequired =>
        case NameTooShort =>
        case NameTooLong =>
        case NameInvalidChars =>
        case EmailRequired =>
        case EmailInvalidFormat =>
        case EmailTooLong =>
      }
    }
  }

  /** The result is the Name chain's errors followed by the Email chain's. */
  lemma UpdateSplit(d: UpdateUserDto, isEmailAddress: string -> bool)
    ensures ValidateUpdate(d, isEmailAddress) == NameErrors(d, isEmailAddress) + EmailErrors(d, isEmailAddress)
  {
    Validation.FailuresAppend(NameRules, EmailRules, Checks(d, isEmailAddress));
  }

  /**
   * No error is reported twice; with `UpdateErrorIff`, each failing check is
   * reported exactly once.
   */
  lemma UpdateErrorsDistinct(d: UpdateUserDto, isEmailAddress: string -> bool)
    ensures Validation.Distinct(ValidateUpdate(d, isEmailAddress))
  {
    assert Validation.Distinct(UpdateRules);
    Validation.FailuresDistinct(UpdateRules, Checks(d, isEmailAddress));
  }

  /** Two failing checks are reported in declaration order. */
  lemma UpdateErrorsInChainOrder(d: UpdateUserDto, isEmailAddress: string -> bool, i: nat, j: nat)
    requires i < j < |UpdateRules|
    requires !Holds(d, isEmailAddress, UpdateRules[i]) && !Holds(d, isEmailAddress, UpdateRules[j])
    ensures Validation.Before(ValidateUpdate(d, isEmailAddress), UpdateRules[i], UpdateRules[j])
  {
    Validation.FailuresKeepOrder(UpdateRules, Checks(d, isEmailAddress), i, j);
  }

  /** Name errors precede e-mail errors in every result. */
  lemma NameErrorsFirst(d: UpdateUserDto, isEmailAddress: string -> bool, a: nat, b: nat)
    requires a < b < |ValidateUpdate(d, isEmailAddress)|
    requires !ValidateUpdate(d, isEmailAddress)[a].IsNameError()
    ensures !ValidateUpdate(d, isEmailAddress)[b].IsNameError()
  {
    UpdateSplit(d, isEmailAddress);
    Validation.Separated(NameErrors(d, isEmailAddress), EmailErrors(d, isEmailAddress),
      (e: UpdateUserError) => e.IsNameError(), a, b);
  }

  /**
   * A name of white space only, two to a hundred characters long, passes the
   * length checks and the pattern but is still rejected by `NotEmpty`.
   */
  lemma BlankNameRejected(d: UpdateUserDto, isEmailAddress: string -> bool)
    requires NameMinLength <= |d.name| <= NameMaxLength && IsNullOrWhiteSpace(d.name)
    ensures NameErrors(d, isEmailAddress) == [NameRequired]
  {
    var holds := Checks(d, isEmailAddress);
    assert IsNameChar(d.name[0]);
    assert !holds(NameRequired) && holds(NameTooShort) && holds(NameTooLong) && holds(NameInvalidChars);
    assert NameRules[1..][1..][1..][1..] == [];
  }

  /** A failing check puts its message into the reported messages. */
  lemma FailedCheckReported(d: UpdateUserDto, isEmailAddress: string -> bool, e: UpdateUserError)
    requires !Holds(d, isEmailAddress, e)
    ensures e.Message() in UpdateMessages(d, isEmailAddress)
  {
    UpdateErrorIff(d, isEmailAddress, e);
    Validation.MappedMember(ValidateUpdate(d, isEmailAddress), UpdateMessages(d, isEmailAddress),
      (e: UpdateUserError) => e.Message(), e);
  }

  /** A name shorter than 2 characters is reported with the minimum message. */
  lemma ShortNameMessage(d: UpdateUserDto, isEmailAddress: string -> bool)
    requires |d.name| < NameMinLength
    ensures "Имя должно содержать минимум 2 символа" in UpdateMessages(d, isEmailAddress)
  {
    FailedCheckReported(d, isEmailAddress, NameTooShort);
  }

  /** A name longer than 100 characters is reported with the maximum message. */
  lemma LongNameMessage(d: UpdateUserDto, isEmailAddress: string -> bool)
    requires |d.name| > NameMaxLength
    ensures "Имя должно содержать максимум 100 символов" in UpdateMessages(d, isEmailAddress)
  {
    FailedCheckReported(d, isEmailAddress, NameTooLong);
  }

  /** An empty e-mail address is reported as required. */
  lemma EmptyEmailMessage(d: UpdateUserDto, isEmailAddress: string -> bool)
    requires d.email == ""
    ensures "Email обязателен" in UpdateMessages(d, isEmailAddress)
  {
    FailedCheckReported(d, isEmailAddress, EmailRequired);
  }

  /** An address the e-mail check rejects is reported with the format message. */
  lemma MalformedEmailMessage(d: UpdateUserDto, isEmailAddress: string -> bool)
    requires !isEmailAddress(d.email)
    ensures "Некорректный формат email" in UpdateMessages(d, isEmailAddress)
  {
    FailedCheckReported(d, isEmailAddress, EmailInvalidFormat);
  }

  /** An e-mail address longer than 100 characters is reported with the maximum message. */
  lemma LongEmailMessage(d: UpdateUserDto, isEmailAddress: string -> bool)
    requires |d.email| > EmailMaxLength
    ensures "Email должен содержать максимум 100 символов" in UpdateMessages(d, isEmailAddress)
  {
    FailedCheckReported(d, isEmailAddress, EmailTooLong);
  }
}
