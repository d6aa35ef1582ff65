# pg_passwordguard password policy, modelled in Dafny

pg_passwordguard is a PostgreSQL extension that installs a `check_password_hook`.
Whenever a role's password is set or changed, the hook inspects the new
plaintext password and applies up to six rules in a fixed order: minimum length,
at least one upper-case letter, lower-case letter, digit and special character,
and "must not contain the username" (case-insensitive). Seven settings
(`pg_passwordguard.min_length`, `require_upper`, `require_lower`,
`require_digit`, `require_special`, `reject_username`, `log_only`) switch the
rules on and off. In enforcing mode the first broken rule raises an ERROR,
which aborts the call. In log-only mode the password is always accepted: a
too-short password gets only the length warning, and a password of sufficient
length gets one WARNING for every broken rule after the length rule.

The project has five modules:

- `Optional` (`ascii.dfy`): the `Option` type for nullable pointers and the
  result of `strstr`.
- `Ascii` (`ascii.dfy`): bytes of a C string, the C-locale `isupper`,
  `islower`, `isdigit`, `tolower`, the class cascade of the scan, `strstr` as a
  function returning the first match, and a byte-by-byte definition of
  case-insensitive containment it is proved against.
- `PasswordGuard` (`password_guard.dfy`): the settings record with its
  defaults, the violations, the outcome of one call
  (`Rejected(v)` for an ERROR, `Accepted(warnings)` otherwise), the
  specification function `Evaluate`, and the imperative hook `Check` with its
  scan loop, the `pstrdup` copies and the in-place `tolower` loops, proved equal
  to `Evaluate`.
- `GuardProperties` (`properties.dfy`): the properties of one call, stated
  against `Violated`, a rule-by-rule reading of the policy on the raw bytes that
  does not depend on the rule order, the class scan or `strstr`.
- `Scenarios` (`scenarios.dfy`): single calls on concrete passwords.

Two behaviours of the code are easy to miss:

- A too-short password ends the call at once in both modes
  (pg_passwordguard.c:193): in log-only mode it gets the length warning and no
  class or username warnings.
- An empty but non-NULL username is found in every password, because `strstr`
  finds an empty needle (pg_passwordguard.c:260,270).

## Model

| member | source | states |
|---|---|---|
| `Ascii.ClassOf` | pg_passwordguard.c:199-208 | the isupper/islower/isdigit/else cascade puts each byte in exactly one class; each class holds exactly its own bytes, and "special" holds exactly the bytes that are not ASCII letters or digits (whitespace and bytes >= 128 included) |
| `Ascii.ToLower` | pg_passwordguard.c:266 | tolower never yields an upper-case byte, maps each upper-case letter to the same letter in lower case, and keeps every other byte |
| `Ascii.ToLowerEqual` | pg_passwordguard.c:265-268 | two bytes lower to the same byte exactly when they are the same letter in either case or the same byte |
| `Ascii.LoweredIdempotent` | pg_passwordguard.c:265-268 | lowering a lowered string changes nothing, and a lowered string has no upper-case byte |
| `Ascii.StrStr` | pg_passwordguard.c:270 | strstr returns the leftmost position where the needle occurs, NULL exactly when it occurs nowhere, and position 0 for an empty needle |
| `Ascii.LoweredMatchAt` | pg_passwordguard.c:262-270 | an exact match of the lowered username in the lowered password at a position is a case-insensitive match of the originals there, both ways |
| `Ascii.LoweredContains` | pg_passwordguard.c:262-270 | strstr on the lowercased copies finds a match exactly when the username occurs in the password ignoring case |
| `Ascii.ContainsIgnoringCaseInvariant` | pg_passwordguard.c:259-270 | two usernames that differ only in letter case are contained in the same passwords |
| `Ascii.EmptyNeedleContained` | pg_passwordguard.c:270 | an empty username is contained in every password |
| `Ascii.OccursByPredicate` | pg_passwordguard.c:197-209 | the scan sees an upper, lower, digit or special byte exactly when some byte satisfies isupper, islower, isdigit or is not alphanumeric |
| `PasswordGuard.Dup` | pg_passwordguard.c:262-263 | pstrdup returns a fresh buffer with the same bytes |
| `PasswordGuard.LowerInPlace` | pg_passwordguard.c:265-268 | the loop leaves the buffer holding tolower of each of its old bytes |
| `PasswordGuard.Classify` | pg_passwordguard.c:196-209 | after the scan loop each of has_upper, has_lower, has_digit, has_special is true exactly when a byte of that class occurs in the password |
| `PasswordGuard.ContainsFolded` | pg_passwordguard.c:259-270 | strstr on lowercased copies finds the username exactly when it occurs in the password ignoring case; the method has no modifies clause, so the password and username buffers are left as they were |
| `PasswordGuard.Check` | pg_passwordguard.c:133-291 | the hook, with its early returns and ERROR exits, produces exactly the outcome `Evaluate` gives for its inputs and settings |
| `GuardProperties.UncheckedAccepted` | pg_passwordguard.c:161-171 | a non-plaintext password or a NULL password is accepted with no warning |
| `GuardProperties.TooShortStops` | pg_passwordguard.c:176-194 | when the length is below min_length the only report is TooShort(length, min_length), in both modes; only log-only mode accepts |
| `GuardProperties.ClassRuleIff` | pg_passwordguard.c:211-257 | the gate of each class rule, decided from the scan, fires exactly when its flag is set and no byte of the class occurs |
| `GuardProperties.UsernameGateIff` | pg_passwordguard.c:259-284 | the username gate fires exactly when reject_username is set, the username is not NULL and it occurs in the password ignoring case |
| `GuardProperties.RuleViolationsAsRules` | pg_passwordguard.c:211-284 | the rules checked after the length rule are exactly the rules broken on the bytes, each gated in the hook's order |
| `GuardProperties.RuleViolationsExact` | pg_passwordguard.c:211-284 | after the length rule, a violation is listed exactly when that rule is broken, and the list is in rule order with no repeats |
| `GuardProperties.MissingClassIff` | pg_passwordguard.c:211-257 | MissingX is listed exactly when require_X is set and no byte of class X occurs |
| `GuardProperties.UsernameRuleIff` | pg_passwordguard.c:259-284 | ContainsUsername is listed exactly when reject_username is set, the username is non-NULL and it occurs in the password ignoring case |
| `GuardProperties.EmptyUsernameMatches` | pg_passwordguard.c:260-270 | with reject_username set, an empty non-NULL username is listed as ContainsUsername among the rules checked once the length rule passes |
| `GuardProperties.UsernameCaseInsensitive` | pg_passwordguard.c:259-270 | changing the letter case of the username never changes the outcome of a call |
| `GuardProperties.DisableRemovesOnly` | pg_passwordguard.c:211-257 | switching off one require_X flag removes MissingX from the rule list and leaves every other entry, in order |
| `GuardProperties.DisableLogOnly` | pg_passwordguard.c:211-257 | in log-only mode, switching off one require_X flag removes exactly the MissingX warning from what a call reports, for every password |
| `GuardProperties.EnforcingFirstViolation` | pg_passwordguard.c:176-284 | in enforcing mode a call is rejected with a broken rule that comes first among all broken rules in the order length, upper, lower, digit, special, username, and is accepted without warnings only when no rule is broken |
| `GuardProperties.LogOnlyWarnings` | pg_passwordguard.c:176-284 | log-only mode always accepts; once the length rule passes, the warnings are exactly the broken rules, in rule order |
| `GuardProperties.CleanPasswordAccepted` | pg_passwordguard.c:290 | a plaintext password that breaks no rule is accepted with no warning, in both modes |
| `Scenarios.ShortPasswordRejected` | pg_passwordguard.c:176-194 | a four-byte password under min_length 8 is rejected as TooShort(4, 8), and in log-only mode accepted with only that warning |
| `Scenarios.NoUpperRejected` | pg_passwordguard.c:211-221 | "abc12345!" is rejected for a missing upper-case letter |
| `Scenarios.NoLowerRejected` | pg_passwordguard.c:223-233 | "ABC12345!" is rejected for a missing lower-case letter |
| `Scenarios.NoDigitRejected` | pg_passwordguard.c:235-245 | "Abcdefg!" is rejected for a missing digit |
| `Scenarios.NoSpecialRejected` | pg_passwordguard.c:247-257 | "Abcdefg1" is rejected for a missing special character |
| `Scenarios.LogOnlyAllWarnings` | pg_passwordguard.c:211-257 | in log-only mode "abcdefgh" gets the upper, digit and special warnings, in that order, and is accepted |
| `Scenarios.UsernameRejected` | pg_passwordguard.c:259-284 | "Spuser1!" is rejected for containing the username "spuser" |
| `Scenarios.CompliantAccepted` | pg_passwordguard.c:290 | "Abc12345!" with username "sp_ok" is accepted |

## Left out

- Setting registration (`DefineCustomIntVariable`, `DefineCustomBoolVariable`, `MarkGUCPrefixReserved`) and hook installation in `_PG_init` (pg_passwordguard.c:51-130): host-server plumbing. The settings are a `Config` value passed to `Check` instead of process globals; only their defaults (the constant `PasswordGuard.Defaults`) and the lower bound 0 of min_length (a natural number) are kept.
- The call to a previously installed hook (pg_passwordguard.c:154-159): it is an opaque function pointer; the model assumes it returns normally.
- Message texts, error codes and the DEBUG1 message for non-plaintext passwords (pg_passwordguard.c:164-165): the outcome carries the violation, not the formatted text.
- `pfree` of the copies (pg_passwordguard.c:286-287): memory management; the copies are fresh arrays.
- Locale-dependent `isupper`, `islower`, `isdigit` and `tolower`: the model uses the C locale, so every byte >= 128 is special and is never case-folded.
- The range 0..INT_MAX that the registration puts on min_length (pg_passwordguard.c:59): min_length is a natural number with no upper bound, since no rule depends on the bound; the default values of lines 35-41 are the constant `PasswordGuard.Defaults`.
- The unused `validuntil_time` and `validuntil_null` parameters (pg_passwordguard.c:150-151).
- PasswordGuard.Check: the password length is an unbounded natural number, so the truncation of `strlen`'s result to a 32-bit `int` for passwords of 2^31 bytes or more is not modelled; PostgreSQL values cannot reach that size.
- PasswordGuard.Check: a C string is modelled by the bytes before its terminating NUL; an input array that itself holds a 0 byte has no C counterpart and is not given the `strlen` cut-off.
