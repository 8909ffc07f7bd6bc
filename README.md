# MinimalApiDemo start-up, validators and password hasher in Dafny

MinimalApiDemo is an ASP.NET Core minimal API over PostgreSQL. This project
models and proves the parts of it that hold logic of their own:

- **Start-up** (`Program.cs`). Database migrations are applied under a bounded
  retry loop that makes at most ten attempts, five seconds apart. If the tenth
  attempt fails, its exception is rethrown. The listening port is read from the
  `PORT` environment variable, with `"8080"` as the default. Module `Startup`
  (`startup.dfy`).
- **Login validator** (`Validators/LoginUserValidator.cs`). It has two
  FluentValidation rule chains, one for `Username` and one for `Password`.
  Module `LoginValidation` (`login_validation.dfy`).
- **Update-user validator** (`Validators/UpdateUserDtoValidator.cs`). It has a
  `Name` chain and an `Email` chain. Module `UpdateUserValidation`
  (`update_user_validation.dfy`).
- **Password hasher** (`Services/PasswordHasher.cs`). A password is stored as
  the Base64 text of the SHA-256 digest of its UTF-8 bytes. It is checked by
  hashing again and comparing the texts. Module `PasswordHashing`
  (`password_hashing.dfy`). It relies on a concrete Base64 encoder and decoder
  following section 4 of RFC 4648, in module `Base64` (`base64.dfy`).

Shared pieces:

- Module `Validation` (`validation.dfy`) models a rule chain under
  FluentValidation's default cascade mode. Every check runs, and each failing
  check contributes its error, in declaration order.
- Module `Text` (`text.dfy`) models the .NET string tests the rules use:
  - `string.IsNullOrWhiteSpace`, with the full `char.IsWhiteSpace` set.
  - Whole-string `Regex.IsMatch` for an anchored class pattern. Under default
    options, `$` also matches just before a final line feed.
  - Unanchored "contains" patterns.
- Module `Wrappers` (`wrappers.dfy`) holds `Option`.

How the model represents the parts it does not interpret:

- **Migrations.** `Migrate()` is a parameter `migrate: nat -> Outcome`, the
  outcome of call number `i`. `Thread.Sleep(5000)` is not performed. Each call
  and each sleep is recorded in a trace instead. The loop is a `while` loop over
  the same `retries` counter as the source. It is proved equal to the policy
  functions `RetryTrace` and `RetryResult`. `RetryPolicy` and the `Schedule`
  lemmas prove what the policy implies.
- **Validators.** Each validator returns the error kinds it reports, in order.
  `LoginMessages` and `UpdateMessages` map those kinds to the Russian message
  texts. `EmailAddress()` is a parameter `isEmailAddress`, because its rule
  belongs to the library.
- **Hashing.** SHA-256 and UTF-8 encoding are parameters, `sha256` and `utf8`.
  The model only assumes that `sha256` returns 32 bytes, the `Digest` type.

The retry loop in `Program.cs` has one policy. Each failing `Migrate()` call
uses up one of the ten attempts. When the tenth call fails, its exception is
rethrown and start-up stops.

## Model

| member | source | states |
|---|---|---|
| Startup.MigrateWithRetries | Program.cs:27-44 | The loop produces exactly the trace and the outcome of the retry policy (`RetryTrace`, `RetryResult`). It stops right after the first successful call. Before each call it records the counter's value. After each failure it decrements the counter, then either rethrows (when the counter reaches 0) or sleeps 5000 ms. |
| Startup.RetryPolicy | Program.cs:27-44 | Start-up proceeds exactly when one of the first ten calls succeeds. There are 1 to 10 calls, with one sleep between each pair of consecutive calls and none after the last. Sleeping totals sleeps × 5000 ms. A first success at call k (counting from 0) means k+1 calls. Ten failures mean ten calls, nine sleeps and the tenth call's exception rethrown. |
| Startup.ScheduleShape | Program.cs:27-28 | Calls and sleeps alternate. The m-th call (from 0) sees the counter at 10 − m, so it starts at 10 and drops by exactly one per failure. Every sleep is 5000 ms, and the trace ends with a call. |
| Startup.ScheduleCounts | Program.cs:39-42 | A trace of n calls has n − 1 sleeps and (n − 1) × 5000 ms of sleeping. |
| Startup.RetryTrace | Program.cs:27-44 | The prescribed trace is k+1 calls when call k is the first to succeed, and ten calls when none does. |
| Startup.RetryResult | Program.cs:27-44 | The outcome is "applied" when some call succeeds. Otherwise it is the tenth call's exception, rethrown. |
| Startup.FirstApplied | Program.cs:33-35 | The first successful call among calls 0 to 9: it succeeded and every earlier call failed. None means all ten failed. |
| Startup.ListenPort | Program.cs:125 | The port is the `PORT` value when the variable is set. When it is not, the port is "8080". It can be empty only when `PORT` is set to the empty text. |
| Validation.Failures | Validators/LoginUserValidator.cs:10-21 | Every reported error belongs to a check that failed, and there are no more errors than checks. |
| Validation.FailuresDistinct | Validators/LoginUserValidator.cs:10-21 | When the checks are distinct, no error is reported twice. |
| Validation.FailuresComplete | Validators/LoginUserValidator.cs:10-21 | Every failing check is reported; a failure does not stop the chain. |
| Validation.FailuresEmptyIff | Validators/UpdateUserDtoValidator.cs:10-19 | A chain reports nothing exactly when all of its checks pass. |
| Validation.FailuresKeepOrder | Validators/LoginUserValidator.cs:10-21 | Two failing checks are reported in the order they are declared. |
| Validation.FailuresAppend | Validators/LoginUserValidator.cs:10-21 | The result for two successive rule chains is the first chain's errors followed by the second's. |
| LoginValidation.ValidateLogin | Validators/LoginUserValidator.cs:10-21 | The login validator: at most nine errors, that is, no more than there are checks. |
| LoginValidation.LoginErrorsDistinct | Validators/LoginUserValidator.cs:10-21 | No error is reported twice. Together with `LoginErrorIff`, each failing check is reported exactly once. |
| LoginValidation.Holds | Validators/LoginUserValidator.cs:11-21 | The nine checks: `NotEmpty` (not blank), `MinimumLength(3)`, `MaximumLength(50)`, the anchored `[a-zA-Z0-9_]` pattern, then `NotEmpty`, `MinimumLength(6)` and the three unanchored "contains" patterns. |
| LoginValidation.IsUsernameChar | Validators/LoginUserValidator.cs:14 | The class `[a-zA-Z0-9_]`. |
| LoginValidation.IsUpper | Validators/LoginUserValidator.cs:19 | The class `[A-Z]`. |
| LoginValidation.IsLower | Validators/LoginUserValidator.cs:20 | The class `[a-z]`. |
| LoginValidation.IsDigit | Validators/LoginUserValidator.cs:21 | The class `[0-9]`. |
| LoginValidation.LoginError.Message | Validators/LoginUserValidator.cs:11-21 | Each error kind's text is the `.WithMessage` argument of its check. |
| LoginValidation.UsernameRules | Validators/LoginUserValidator.cs:10-14 | The Username chain's four checks, in declaration order. |
| LoginValidation.PasswordRules | Validators/LoginUserValidator.cs:16-21 | The Password chain's five checks, in declaration order. |
| LoginValidation.LoginRules | Validators/LoginUserValidator.cs:10-21 | The Username chain followed by the Password chain, as the constructor declares them. |
| LoginValidation.LoginMessages | Validators/LoginUserValidator.cs:10-21 | One message per reported error, in order, each being that error's text. |
| LoginValidation.LoginErrorIff | Validators/LoginUserValidator.cs:10-21 | Each error is reported if and only if its check fails. |
| LoginValidation.UsernameChecksIff | Validators/LoginUserValidator.cs:10-14 | The four user-name checks pass if and only if the name has 3 to 50 characters of `[a-zA-Z0-9_]`, except that a final line feed is also allowed. |
| LoginValidation.PasswordChecksIff | Validators/LoginUserValidator.cs:16-21 | The five password checks pass if and only if the password has at least 6 characters and contains an A-Z, an a-z and a 0-9, anywhere. |
| LoginValidation.LoginValidIff | Validators/LoginUserValidator.cs:10-21 | No error if and only if both the user name and the password are acceptable. |
| LoginValidation.LoginErrorsInChainOrder | Validators/LoginUserValidator.cs:10-21 | Failing checks are reported in declaration order. |
| LoginValidation.UsernameErrors | Validators/LoginUserValidator.cs:10-14 | The Username chain reports only user-name errors. |
| LoginValidation.PasswordErrors | Validators/LoginUserValidator.cs:16-21 | The Password chain reports only password errors. |
| LoginValidation.LoginSplit | Validators/LoginUserValidator.cs:10-21 | The result is the Username chain's errors followed by the Password chain's. |
| LoginValidation.UsernameErrorsFirst | Validators/LoginUserValidator.cs:10-21 | No user-name error follows a password error. |
| LoginValidation.UsernameTrailingNewlineAccepted | Validators/LoginUserValidator.cs:14 | 2 to 49 characters of `[a-zA-Z0-9_]` followed by "\n" pass every user-name check. The line feed counts towards the length. |
| LoginValidation.EmptyUsernameErrors | Validators/LoginUserValidator.cs:11-14 | An empty user name fails `NotEmpty`, `MinimumLength(3)` and `Matches`, but not `MaximumLength(50)`. |
| LoginValidation.PasswordHasNoMaximum | Validators/LoginUserValidator.cs:16-21 | Appending characters to an acceptable password keeps it acceptable. There is no maximum length. |
| LoginValidation.FailedCheckReported | Validators/LoginUserValidator.cs:10-21 | The message of every failing check appears in the result. |
| LoginValidation.EmptyUsernameMessage | Validators/LoginUserValidator.cs:11 | An empty user name is reported with "Имя пользователя обязательно". |
| LoginValidation.ShortUsernameMessage | Validators/LoginUserValidator.cs:12 | A user name under 3 characters is reported with the minimum-length message. |
| LoginValidation.LongUsernameMessage | Validators/LoginUserValidator.cs:13 | A user name over 50 characters is reported with the maximum-length message. |
| LoginValidation.ShortPasswordMessage | Validators/LoginUserValidator.cs:18 | A password under 6 characters is reported with the minimum-length message. |
| UpdateUserValidation.ValidateUpdate | Validators/UpdateUserDtoValidator.cs:10-19 | The update validator: at most seven errors, that is, no more than there are checks. |
| UpdateUserValidation.UpdateErrorsDistinct | Validators/UpdateUserDtoValidator.cs:10-19 | No error is reported twice. Together with `UpdateErrorIff`, each failing check is reported exactly once. |
| UpdateUserValidation.Holds | Validators/UpdateUserDtoValidator.cs:11-19 | The seven checks: `NotEmpty`, `MinimumLength(2)`, `MaximumLength(100)`, the anchored name pattern, then `NotEmpty`, the e-mail check and `MaximumLength(100)`. |
| UpdateUserValidation.IsNameChar | Validators/UpdateUserDtoValidator.cs:14 | The class `[a-zA-Zа-яА-ЯёЁ\\s]`: Latin letters, the Cyrillic ranges U+0430-U+044F and U+0410-U+042F, ё (U+0451), Ё (U+0401) and white space. |
| UpdateUserValidation.UpdateUserError.Message | Validators/UpdateUserDtoValidator.cs:11-19 | Each error kind's text is the `.WithMessage` argument of its check. |
| UpdateUserValidation.NameRules | Validators/UpdateUserDtoValidator.cs:10-14 | The Name chain's four checks, in declaration order. |
| UpdateUserValidation.EmailRules | Validators/UpdateUserDtoValidator.cs:16-19 | The Email chain's three checks, in declaration order. |
| UpdateUserValidation.UpdateRules | Validators/UpdateUserDtoValidator.cs:10-19 | The Name chain followed by the Email chain, as the constructor declares them. |
| UpdateUserValidation.UpdateMessages | Validators/UpdateUserDtoValidator.cs:10-19 | One message per reported error, in order, each being that error's text. |
| UpdateUserValidation.UpdateErrorIff | Validators/UpdateUserDtoValidator.cs:10-19 | Each error is reported if and only if its check fails. |
| UpdateUserValidation.NamePatternIff | Validators/UpdateUserDtoValidator.cs:14 | The name pattern matches exactly the non-empty strings of class characters. A final line feed is white space, so it is in the class already. |
| UpdateUserValidation.NameChecksIff | Validators/UpdateUserDtoValidator.cs:10-14 | The four name checks pass if and only if the name has 2 to 100 characters. Each must be a Latin letter, а-я, А-Я, ё, Ё or white space, and at least one must not be white space. |
| UpdateUserValidation.EmailChecksIff | Validators/UpdateUserDtoValidator.cs:16-19 | The three e-mail checks pass if and only if the address has at most 100 characters, is not blank, and passes the e-mail check. |
| UpdateUserValidation.UpdateValidIff | Validators/UpdateUserDtoValidator.cs:10-19 | No error if and only if both the name and the address are acceptable. |
| UpdateUserValidation.NameErrors | Validators/UpdateUserDtoValidator.cs:10-14 | The Name chain reports only name errors. |
| UpdateUserValidation.EmailErrors | Validators/UpdateUserDtoValidator.cs:16-19 | The Email chain reports only e-mail errors. |
| UpdateUserValidation.UpdateSplit | Validators/UpdateUserDtoValidator.cs:10-19 | The result is the Name chain's errors followed by the Email chain's. |
| UpdateUserValidation.UpdateErrorsInChainOrder | Validators/UpdateUserDtoValidator.cs:10-19 | Failing checks are reported in declaration order. |
| UpdateUserValidation.NameErrorsFirst | Validators/UpdateUserDtoValidator.cs:10-19 | No name error follows an e-mail error. |
| UpdateUserValidation.BlankNameRejected | Validators/UpdateUserDtoValidator.cs:11-14 | A white-space-only name of 2 to 100 characters passes the length and pattern checks. It is rejected by `NotEmpty` alone. |
| UpdateUserValidation.FailedCheckReported | Validators/UpdateUserDtoValidator.cs:10-19 | The message of every failing check appears in the result. |
| UpdateUserValidation.ShortNameMessage | Validators/UpdateUserDtoValidator.cs:12 | A name under 2 characters is reported with the minimum-length message. |
| UpdateUserValidation.LongNameMessage | Validators/UpdateUserDtoValidator.cs:13 | A name over 100 characters is reported with the maximum-length message. |
| UpdateUserValidation.EmptyEmailMessage | Validators/UpdateUserDtoValidator.cs:17 | An empty address is reported with "Email обязателен". |
| UpdateUserValidation.MalformedEmailMessage | Validators/UpdateUserDtoValidator.cs:18 | An address the e-mail check rejects is reported with "Некорректный формат email". |
| UpdateUserValidation.LongEmailMessage | Validators/UpdateUserDtoValidator.cs:19 | An address over 100 characters is reported with the maximum-length message. |
| Text.IsWhiteSpace | Validators/LoginUserValidator.cs:11 | `char.IsWhiteSpace`: U+0009-U+000D, U+0020, U+0085, U+00A0, U+1680, U+2000-U+200A, U+2028, U+2029, U+202F, U+205F and U+3000. This is also the regex class `\s`. |
| Text.IsNullOrWhiteSpace | Validators/LoginUserValidator.cs:11 | What `NotEmpty` rejects in a string: the empty text or white space only. |
| Text.MatchesWhole | Validators/LoginUserValidator.cs:14 | `Regex.IsMatch` with `^[class]+$`: one or more class characters, optionally followed by a single final line feed. |
| Text.ContainsAny | Validators/LoginUserValidator.cs:19-21 | `Regex.IsMatch` with an unanchored `[class]`: some character of the text is in the class. |
| Base64.CharOf | Services/PasswordHasher.cs:13 | Every 6-bit value maps to a character of the Base64 alphabet. |
| Base64.CharOfIsTable | Services/PasswordHasher.cs:13 | Value v encodes as the character at position v of the RFC 4648 table "A"–"Z", "a"–"z", "0"–"9", "+", "/". |
| Base64.ValueOfCharOf | Services/PasswordHasher.cs:13 | Reading a character back gives the 6-bit value it encodes. |
| Base64.CharOfValueOf | Services/PasswordHasher.cs:13 | Every alphabet character is the encoding of its value, so the mapping is a bijection. |
| Base64.EncodeGroup | Services/PasswordHasher.cs:13 | Three bytes become four alphabet characters. |
| Base64.Encode | Services/PasswordHasher.cs:13 | `Convert.ToBase64String`: n bytes give 4·⌈n/3⌉ characters. |
| Base64.EncodeLast | Services/PasswordHasher.cs:13 | One or two final bytes become four characters, ending in two or one '='. |
| Base64.EncodeAlphabet | Services/PasswordHasher.cs:13 | The encoding is alphabet characters followed by exactly (3 − n mod 3) mod 3 '=' characters. |
| Base64.DecodeEncode | Services/PasswordHasher.cs:13 | Decoding the encoding gives back the bytes. |
| Base64.EncodeInjective | Services/PasswordHasher.cs:13 | Two byte strings have the same encoding if and only if they are equal. |
| Base64.KnownAnswerF | Services/PasswordHasher.cs:13 | The byte of "f" encodes as "Zg==", the test vector of section 10 of RFC 4648. |
| Base64.KnownAnswerFo | Services/PasswordHasher.cs:13 | The bytes of "fo" encode as "Zm8=", the test vector of section 10 of RFC 4648. |
| Base64.KnownAnswerFoo | Services/PasswordHasher.cs:13 | The bytes of "foo" encode as "Zm9v", the test vector of section 10 of RFC 4648. |
| Base64.KnownAnswerFoob | Services/PasswordHasher.cs:13 | The bytes of "foob" encode as "Zm9vYg==", the test vector of section 10 of RFC 4648. |
| PasswordHashing.HashPassword | Services/PasswordHasher.cs:8-14 | The stored hash is 44 characters: 43 from the Base64 alphabet and one final '='. It decodes to the SHA-256 digest of the password's UTF-8 bytes. |
| PasswordHashing.DigestEncoding | Services/PasswordHasher.cs:12-13 | The Base64 text of any 32-byte digest is 44 characters, ends in exactly one '=', and decodes back to the digest. |
| PasswordHashing.VerifyPassword | Services/PasswordHasher.cs:16-20 | Acceptance implies the stored text is 44 characters long and decodes to the password's digest. |
| PasswordHashing.VerifyOwnHash | Services/PasswordHasher.cs:16-19 | A password is accepted against its own hash. |
| PasswordHashing.VerifyIffSameDigest | Services/PasswordHasher.cs:16-19 | A password is accepted against another's hash if and only if their digests are equal, that is, only when their UTF-8 bytes or their SHA-256 digests coincide. |
| PasswordHashing.SameBytesAccepted | Services/PasswordHasher.cs:11-19 | Two passwords with the same UTF-8 bytes share one hash, so each is accepted against the other's, whether or not they are equal strings. |
| PasswordHashing.VerifyRejectsWrongLength | Services/PasswordHasher.cs:13-19 | A stored text whose length is not 44, including "", is never accepted. |

## Left out

- The user endpoints, `/` and `/hello/{name}` (`Program.cs` lines 58-122). They are persistence plumbing whose behaviour lives in EF Core and PostgreSQL.
- Configuration, service registration, Swagger, HTTPS redirection and `app.Run` (`Program.cs` lines 6-19, 48-55, 126) are framework wiring. The URL `http://*:{port}` is not built.
- Logging, real sleeping and exception types. Sleeps and calls are trace events, and an exception is represented only by its message.
- SHA-256 and UTF-8 encoding are parameters. The model knows only that a digest has 32 bytes.
- Unpaired surrogates cannot occur in Dafny strings. `Encoding.UTF8` replaces each of them with U+FFFD (bytes EF BF BD), so distinct .NET passwords such as "\uD800" and "\uFFFD" share one hash and are accepted against each other. The model states this only through `SameBytesAccepted`, for a `utf8` parameter that maps two strings to the same bytes.
- FluentValidation's `EmailAddress()` rule is a parameter.
- Null strings are not modelled. `LoginUser` initialises its strings to `string.Empty` (Models/LoginUser.cs), and no file of the repository in this model declares the C# `UpdateUserDto` class, so its defaults are unknown. A null value, for instance one sent explicitly in JSON, would fail only `NotEmpty`, because FluentValidation's length, pattern and e-mail checks pass on null.
- Strings with characters outside the Basic Multilingual Plane, such as emoji. .NET stores such a character as two UTF-16 code units, so `String.Length` counts it twice. A Dafny `char` is a whole Unicode scalar value, so `|s|` counts it once. The model's length checks therefore match the source only on text made of Basic Multilingual Plane characters other than the surrogates U+D800–U+DFFF, which are not Dafny characters. For other text they can disagree with the source. The checks affected are `MinimumLength`/`MaximumLength` for the user name, the password minimum, and the name and e-mail lengths. For example, "Aa1" followed by two emoji has `String.Length` 7 and passes `MinimumLength(6)`, while the model counts 5 characters.
- Data/AppDbContext.cs and the request and response models are not part of this model beyond the `LoginUser` and `UpdateUserDto` datatypes.
- Token issuance and verification, the registration and login flow, and administrator seeding do not appear in these files.
- PasswordHashing.HashPassword: determinism needs no lemma, because a Dafny function gives equal results for equal arguments.
- PasswordHashing.VerifyPassword: its "accepted if and only if the texts are equal" is its body. The contract states what acceptance implies instead, and `VerifyIffSameDigest` states the if-and-only-if in terms of digests.
- Base64 decoding exists only to state what encoding preserves. Whether `Decode` accepts non-canonical text (non-zero filler bits) is not examined.
- Startup.MigrateWithRetries: the loop's termination is proved by Dafny's termination check on `retries`, not stated as a separate lemma.
