/**
 * The password-policy hook of pg_passwordguard: the settings it reads, the
 * rules it applies in a fixed order, and the outcome of one call.
 *
 * In enforcing mode the first violated rule raises an ERROR, which aborts
 * the call; that is the outcome Rejected(v). In log-only mode the password is
 * accepted, with one WARNING for a too-short password or else one for every
 * violated rule after the length rule; that is the outcome Accepted(warnings).
 */
module PasswordGuard {
  import opened Optional
  import opened Ascii

  /** The kinds of password the server hands to the hook. */
  datatype PasswordType = Plaintext | Md5 | ScramSha256

  /** The seven pg_passwordguard.* settings. */
  datatype Config = Config(
    minLength: nat,
    requireUpper: bool,
    requireLower: bool,
    requireDigit: bool,
    requireSpecial: bool,
    rejectUsername: bool,
    logOnly: bool)

  /** The values the settings have before any configuration (pg_passwordguard.c:35-41). */
  const Defaults: Config := Config(12, true, true, true, true, true, false)

  datatype Violation =
    | TooShort(actual: nat, required: nat)
    | MissingUppercase
    | MissingLowercase
    | MissingDigit
    | MissingSpecial
    | ContainsUsername

  /** The position of each rule in the order the hook checks them. */
  function Rank(v: Violation): nat
  {
    match v
    case TooShort(_, _) => 0
    case MissingUppercase => 1
    case MissingLowercase => 2
    case MissingDigit => 3
    case MissingSpecial => 4
    case ContainsUsername => 5
  }

  datatype Outcome = Accepted(warnings: seq<Violation>) | Rejected(violation: Violation)

  /** Everything one call reports: its warnings, or the one error. */
  function Reported(o: Outcome): seq<Violation>
  {
    match o
    case Accepted(ws) => ws
    case Rejected(v) => [v]
  }

  /** A rule that contributes its violation when it fires. */
  function Gate(fires: bool, v: Violation): seq<Violation>
  {
    if fires then [v] else []
  }

  /** The four class rules, decided from the classes the scan saw. */
  function ClassViolations(c: Config, pwd: seq<byte>): seq<Violation>
  {
    Gate(c.requireUpper && !Occurs(pwd, Upper), MissingUppercase)
    + Gate(c.requireLower && !Occurs(pwd, Lower), MissingLowercase)
    + Gate(c.requireDigit && !Occurs(pwd, Digit), MissingDigit)
    + Gate(c.requireSpecial && !Occurs(pwd, Special), MissingSpecial)
  }

  /** The username rule: strstr on lowercased copies of password and username. */
  function UsernameViolations(c: Config, user: Option<seq<byte>>, pwd: seq<byte>): seq<Violation>
  {
    Gate(c.rejectUsername && user.Some? && StrStr(Lowered(pwd), Lowered(user.value)).Some?, ContainsUsername)
  }

  /** The rules checked once the length rule has passed, in the hook's order. */
  function RuleViolations(c: Config, user: Option<seq<byte>>, pwd: seq<byte>): seq<Violation>
  {
    ClassViolations(c, pwd) + UsernameViolations(c, user, pwd)
  }

  /** How the mode turns the violations found into an outcome. */
  function Verdict(c: Config, vs: seq<Violation>): Outcome
  {
    if c.logOnly then Accepted(vs)
    else if vs == [] then Accepted([])
    else Rejected(vs[0])
  }

  /**
   * One call of the hook: non-plaintext passwords and a NULL password are not
   * checked; a too-short password stops evaluation in both modes; otherwise
   * the class and username rules are applied in order.
   */
  function Evaluate(c: Config, ptype: PasswordType, user: Option<seq<byte>>, pwd: Option<seq<byte>>): Outcome
  {
    if ptype != Plaintext || pwd.None? then Accepted([])
    else if |pwd.value| < c.minLength then Verdict(c, [TooShort(|pwd.value|, c.minLength)])
    else Verdict(c, RuleViolations(c, user, pwd.value))
  }

  /** The string behind a nullable C string pointer. */
  function Content(a: array?<byte>): Option<seq<byte>>
    reads a
  {
    if a == null then None else Some(a[..])
  }

  /** pstrdup: a fresh copy of a string. */
  method Dup(s: array<byte>) returns (d: array<byte>)
    ensures fresh(d)
    ensures d[..] == s[..]
  {
    d := new byte[s.Length];
    var i := 0;
    while i < s.Length
      invariant 0 <= i <= s.Length
      invariant forall j | 0 <= j < i :: d[j] == s[j]
    {
      d[i] := s[i];
      i := i + 1;
    }
  }

  /** The loop that lowercases a copied buffer in place with tolower. */
  method LowerInPlace(a: array<byte>)
    modifies a
    ensures a[..] == Lowered(old(a[..]))
  {
    var i := 0;
    while i < a.Length
      invariant 0 <= i <= a.Length
      invariant forall j | 0 <= j < i :: a[j] == ToLower(old(a[j]))
      invariant forall j | i <= j < a.Length :: a[j] == old(a[j])
    {
      a[i] := ToLower(a[i]);
      i := i + 1;
    }
  }

  /**
   * The classification loop: one pass over the password that records which
   * of the four classes occur.
   */
  method Classify(password: array<byte>) returns (hasUpper: bool, hasLower: bool, hasDigit: bool, hasSpecial: bool)
    ensures hasUpper == Occurs(password[..], Upper)
    ensures hasLower == Occurs(password[..], Lower)
    ensures hasDigit == Occurs(password[..], Digit)
    ensures hasSpecial == Occurs(password[..], Special)
  {
    hasUpper, hasLower, hasDigit, hasSpecial := false, false, false, false;
    var i := 0;
    while i < password.Length
      invariant 0 <= i <= password.Length
      invariant hasUpper <==> exists j | 0 <= j < i :: ClassOf(password[j]) == Upper
      invariant hasLower <==> exists j | 0 <= j < i :: ClassOf(password[j]) == Lower
      invariant hasDigit <==> exists j | 0 <= j < i :: ClassOf(password[j]) == Digit
      invariant hasSpecial <==> exists j | 0 <= j < i :: ClassOf(password[j]) == Special
    {
      var c := password[i];
      if IsUpper(c) {
        hasUpper := true;
      } else if IsLower(c) {
        hasLower := true;
      } else if IsDigit(c) {
        hasDigit := true;
      } else {
        hasSpecial := true;
      }
      i := i + 1;
    }
    assert password[..] == password[..password.Length];
  }

  /**
   * The username search: both strings are copied, the copies lowercased in
   * place, and strstr run on them. The inputs themselves are not written.
   */
  method ContainsFolded(password: array<byte>, username: array<byte>) returns (found: bool)
    ensures found == StrStr(Lowered(password[..]), Lowered(username[..])).Some?
    ensures found <==> ContainsIgnoringCase(password[..], username[..])
  {
    var lowerPwd := Dup(password);
    var lowerUser := Dup(username);
    LowerInPlace(lowerPwd);
    LowerInPlace(lowerUser);
    found := StrStr(lowerPwd[..], lowerUser[..]).Some?;
    LoweredContains(password[..], username[..]);
  }

  /**
   * pg_passwordguard_check with the settings passed in. A NULL pointer is a
   * null array. The inputs are only read: lowering happens on fresh copies.
   */
  method Check(username: array?<byte>, shadowPass: array?<byte>, passwordType: PasswordType, settings: Config)
    returns (outcome: Outcome)
    ensures outcome == Evaluate(settings, passwordType, Content(username), Content(shadowPass))
  {
    outcome := Accepted([]);
    if passwordType != Plaintext {
      return;
    }
    if shadowPass == null {
      return;
    }
    var password := shadowPass;
    var len := password.Length;

    if len < settings.minLength {
      var tooShort := TooShort(len, settings.minLength);
      if settings.logOnly {
        outcome := Accepted([tooShort]);
      } else {
        outcome := Rejected(tooShort);
      }
      return;
    }

    var hasUpper, hasLower, hasDigit, hasSpecial := Classify(password);

    // In log-only mode the warnings so far are the rules checked so far that fired.
    var warnings: seq<Violation> := [];
    if settings.requireUpper && !hasUpper {
      if settings.logOnly {
        warnings := warnings + [MissingUppercase];
      } else {
        outcome := Rejected(MissingUppercase);
        return;
      }
    }
    if settings.requireLower && !hasLower {
      if settings.logOnly {
        warnings := warnings + [MissingLowercase];
      } else {
        outcome := Rejected(MissingLowercase);
        return;
      }
    }
    if settings.requireDigit && !hasDigit {
      if settings.logOnly {
        warnings := warnings + [MissingDigit];
      } else {
        outcome := Rejected(MissingDigit);
        return;
      }
    }
    if settings.requireSpecial && !hasSpecial {
      if settings.logOnly {
        warnings := warnings + [MissingSpecial];
      } else {
        outcome := Rejected(MissingSpecial);
        return;
      }
    }
    assert warnings == (if settings.logOnly then ClassViolations(settings, password[..]) else []);

    if settings.rejectUsername && username != null {
      var found := ContainsFolded(password, username);
      if found {
        if settings.logOnly {
          warnings := warnings + [ContainsUsername];
        } else {
          outcome := Rejected(ContainsUsername);
          return;
        }
      }
    }
    outcome := Accepted(warnings);
  }
}
