/**
 * What one call of the password hook promises, stated against a rule-by-rule
 * reading of the policy (Violated) that is independent of the order in which
 * the hook evaluates the rules and of how it classifies and searches.
 */
module GuardProperties {
  import opened Optional
  import opened Ascii
  import opened PasswordGuard

  /** Rule v is broken by this password, each rule stated directly on the bytes. */
  predicate Violated(c: Config, user: Option<seq<byte>>, pwd: seq<byte>, v: Violation)
  {
    match v
    case TooShort(actual, required) => |pwd| < c.minLength && actual == |pwd| && required == c.minLength
    case MissingUppercase => c.requireUpper && forall i | 0 <= i < |pwd| :: !IsUpper(pwd[i])
    case MissingLowercase => c.requireLower && forall i | 0 <= i < |pwd| :: !IsLower(pwd[i])
    case MissingDigit => c.requireDigit && forall i | 0 <= i < |pwd| :: !IsDigit(pwd[i])
    case MissingSpecial => c.requireSpecial && forall i | 0 <= i < |pwd| :: IsAlnum(pwd[i])
    case ContainsUsername => c.rejectUsername && user.Some? && ContainsIgnoringCase(pwd, user.value)
  }

  /** Violations listed in the hook's rule order, none twice. */
  predicate Ranked(vs: seq<Violation>)
  {
    forall i, j | 0 <= i < j < |vs| :: Rank(vs[i]) < Rank(vs[j])
  }

  /** The require_* flag that governs a character class. */
  function Requires(c: Config, k: CharClass): bool
  {
    match k
    case Upper => c.requireUpper
    case Lower => c.requireLower
    case Digit => c.requireDigit
    case Special => c.requireSpecial
  }

  /** The settings with the require_* flag of class k switched off. */
  function Disable(c: Config, k: CharClass): Config
  {
    match k
    case Upper => c.(requireUpper := false)
    case Lower => c.(requireLower := false)
    case Digit => c.(requireDigit := false)
    case Special => c.(requireSpecial := false)
  }

  /** The violation reported when class k is required and absent. */
  function MissingOf(k: CharClass): Violation
  {
    match k
    case Upper => MissingUppercase
    case Lower => MissingLowercase
    case Digit => MissingDigit
    case Special => MissingSpecial
  }

  /** vs with every occurrence of v removed. */
  function Without(vs: seq<Violation>, v: Violation): seq<Violation>
  {
    if vs == [] then [] else Gate(vs[0] != v, vs[0]) + Without(vs[1..], v)
  }

  lemma {:induction false} WithoutConcat(a: seq<Violation>, b: seq<Violation>, v: Violation)
    ensures Without(a + b, v) == Without(a, v) + Without(b, v)
  {
    if a == [] {
      assert a + b == b;
    } else {
      assert (a + b)[1..] == a[1..] + b;
      WithoutConcat(a[1..], b, v);
    }
  }

  lemma WithoutSingleton(w: Violation, v: Violation)
    ensures Without([w], v) == Gate(w != v, w)
  {
  }

  /** A password that is not plaintext, or a NULL password, is accepted without any report. */
  lemma UncheckedAccepted(c: Config, ptype: PasswordType, user: Option<seq<byte>>, pwd: Option<seq<byte>>)
    requires ptype != Plaintext || pwd.None?
    ensures Evaluate(c, ptype, user, pwd) == Accepted([])
  {
  }

  /**
   * A password shorter than min_length is reported as too short and nothing
   * else, in log-only and enforcing mode alike; only log-only mode accepts it.
   */
  lemma TooShortStops(c: Config, user: Option<seq<byte>>, pwd: seq<byte>)
    requires |pwd| < c.minLength
    ensures Reported(Evaluate(c, Plaintext, user, Some(pwd))) == [TooShort(|pwd|, c.minLength)]
    ensures Evaluate(c, Plaintext, user, Some(pwd)).Accepted? <==> c.logOnly
  {
  }

  /**
   * Once the length rule passes, the rules the hook reports are exactly the
   * violated rules other than the length rule, in rule order.
   */
  lemma RuleViolationsExact(c: Config, user: Option<seq<byte>>, pwd: seq<byte>)
    ensures forall v :: v in RuleViolations(c, user, pwd) <==> !v.TooShort? && Violated(c, user, pwd, v)
    ensures Ranked(RuleViolations(c, user, pwd))
  {
    RuleViolationsAsRules(c, user, pwd);
    GatesInOrder(
      Violated(c, user, pwd, MissingUppercase), Violated(c, user, pwd, MissingLowercase),
      Violated(c, user, pwd, MissingDigit), Violated(c, user, pwd, MissingSpecial),
      Violated(c, user, pwd, ContainsUsername));
  }

  /**
   * The hook's rules, decided by the classification scan and by strstr on
   * lowercased copies, fire exactly when the rules stated on the bytes are broken.
   */
  lemma RuleViolationsAsRules(c: Config, user: Option<seq<byte>>, pwd: seq<byte>)
    ensures RuleViolations(c, user, pwd) == Gates(
      Violated(c, user, pwd, MissingUppercase), Violated(c, user, pwd, MissingLowercase),
      Violated(c, user, pwd, MissingDigit), Violated(c, user, pwd, MissingSpecial),
      Violated(c, user, pwd, ContainsUsername))
  {
    ClassRuleIff(c, user, pwd, Upper);
    ClassRuleIff(c, user, pwd, Lower);
    ClassRuleIff(c, user, pwd, Digit);
    ClassRuleIff(c, user, pwd, Special);
    UsernameGateIff(c, user, pwd);
  }

  /** The five rules after the length rule, each contributing its violation when it fires. */
  function Gates(up: bool, lo: bool, di: bool, sp: bool, un: bool): seq<Violation>
  {
    Gate(up, MissingUppercase) + Gate(lo, MissingLowercase) + Gate(di, MissingDigit)
    + Gate(sp, MissingSpecial) + Gate(un, ContainsUsername)
  }

  /** The gated rules list exactly the rules that fire, in rule order. */
  lemma GatesInOrder(up: bool, lo: bool, di: bool, sp: bool, un: bool)
    ensures Ranked(Gates(up, lo, di, sp, un))
    ensures forall v :: v in Gates(up, lo, di, sp, un) <==>
      (v == MissingUppercase && up) || (v == MissingLowercase && lo) || (v == MissingDigit && di)
      || (v == MissingSpecial && sp) || (v == ContainsUsername && un)
  {
  }

  /** The classification-based gate of class k agrees with the rule stated on the bytes. */
  lemma ClassRuleIff(c: Config, user: Option<seq<byte>>, pwd: seq<byte>, k: CharClass)
    ensures Requires(c, k) && !Occurs(pwd, k) <==> Violated(c, user, pwd, MissingOf(k))
  {
  }

  /** The strstr-based username gate agrees with case-insensitive containment. */
  lemma UsernameGateIff(c: Config, user: Option<seq<byte>>, pwd: seq<byte>)
    ensures UsernameViolations(c, user, pwd) == Gate(Violated(c, user, pwd, ContainsUsername), ContainsUsername)
  {
    if user.Some? {
      LoweredContains(pwd, user.value);
    }
  }

  /** A class rule fires exactly when its flag is set and no byte of the class occurs. */
  lemma MissingClassIff(c: Config, user: Option<seq<byte>>, pwd: seq<byte>, k: CharClass)
    ensures MissingOf(k) in RuleViolations(c, user, pwd) <==> Requires(c, k) && !Occurs(pwd, k)
  {
  }

  /**
   * The username rule fires exactly when it is enabled, the username is not
   * NULL, and the username occurs in the password with case ignored.
   */
  lemma UsernameRuleIff(c: Config, user: Option<seq<byte>>, pwd: seq<byte>)
    ensures ContainsUsername in RuleViolations(c, user, pwd)
        <==> c.rejectUsername && user.Some? && ContainsIgnoringCase(pwd, user.value)
  {
    RuleViolationsExact(c, user, pwd);
  }

  /** An empty, non-NULL username is found in every password that passes the length rule. */
  lemma EmptyUsernameMatches(c: Config, pwd: seq<byte>)
    requires c.rejectUsername
    ensures ContainsUsername in RuleViolations(c, Some([]), pwd)
  {
  }

  /** Changing the case of letters in the username never changes the outcome. */
  lemma UsernameCaseInsensitive(c: Config, ptype: PasswordType, u: seq<byte>, v: seq<byte>, pwd: Option<seq<byte>>)
    requires Lowered(u) == Lowered(v)
    ensures Evaluate(c, ptype, Some(u), pwd) == Evaluate(c, ptype, Some(v), pwd)
  {
  }

  /** Switching off one require_* flag removes that class's violation and nothing else. */
  lemma DisableRemovesOnly(c: Config, k: CharClass, user: Option<seq<byte>>, pwd: seq<byte>)
    ensures RuleViolations(Disable(c, k), user, pwd) == Without(RuleViolations(c, user, pwd), MissingOf(k))
  {
    RuleViolationsAsRules(c, user, pwd);
    RuleViolationsAsRules(Disable(c, k), user, pwd);
    WithoutGates(
      Violated(c, user, pwd, MissingUppercase), Violated(c, user, pwd, MissingLowercase),
      Violated(c, user, pwd, MissingDigit), Violated(c, user, pwd, MissingSpecial),
      Violated(c, user, pwd, ContainsUsername), k);
  }

  /** Removing one class's violation from the gated rules is switching that gate off. */
  lemma WithoutGates(up: bool, lo: bool, di: bool, sp: bool, un: bool, k: CharClass)
    ensures Without(Gates(up, lo, di, sp, un), MissingOf(k))
         == Gates(up && k != Upper, lo && k != Lower, di && k != Digit, sp && k != Special, un)
  {
    var m := MissingOf(k);
    var a, b, d, e := Gate(up, MissingUppercase), Gate(lo, MissingLowercase), Gate(di, MissingDigit), Gate(sp, MissingSpecial);
    var f := Gate(un, ContainsUsername);
    WithoutConcat(a + b + d + e, f, m);
    WithoutConcat(a + b + d, e, m);
    WithoutConcat(a + b, d, m);
    WithoutConcat(a, b, m);
    WithoutGate(up, MissingUppercase, m);
    WithoutGate(lo, MissingLowercase, m);
    WithoutGate(di, MissingDigit, m);
    WithoutGate(sp, MissingSpecial, m);
    WithoutGate(un, ContainsUsername, m);
  }

  lemma WithoutGate(fires: bool, w: Violation, v: Violation)
    ensures Without(Gate(fires, w), v) == Gate(fires && w != v, w)
  {
  }

  /**
   * In log-only mode, switching off one require_* flag removes exactly that
   * class's warning from what one call reports.
   */
  lemma DisableLogOnly(c: Config, k: CharClass, ptype: PasswordType, user: Option<seq<byte>>, pwd: Option<seq<byte>>)
    requires c.logOnly
    ensures Reported(Evaluate(Disable(c, k), ptype, user, pwd))
         == Without(Reported(Evaluate(c, ptype, user, pwd)), MissingOf(k))
  {
    if ptype == Plaintext && pwd.Some? {
      if |pwd.value| < c.minLength {
        WithoutSingleton(TooShort(|pwd.value|, c.minLength), MissingOf(k));
      } else {
        DisableRemovesOnly(c, k, user, pwd.value);
      }
    } else {
      assert Without([], MissingOf(k)) == [];
    }
  }

  /**
   * Enforcing mode rejects with the first violated rule in the order length,
   * upper, lower, digit, special, username, and accepts only a password that
   * violates no rule.
   */
  lemma EnforcingFirstViolation(c: Config, user: Option<seq<byte>>, pwd: seq<byte>)
    requires !c.logOnly
    ensures Evaluate(c, Plaintext, user, Some(pwd)).Accepted? ==>
      Evaluate(c, Plaintext, user, Some(pwd)).warnings == [] && forall v :: !Violated(c, user, pwd, v)
    ensures Evaluate(c, Plaintext, user, Some(pwd)).Rejected? ==>
      var first := Evaluate(c, Plaintext, user, Some(pwd)).violation;
      Violated(c, user, pwd, first) && forall v :: Violated(c, user, pwd, v) ==> Rank(first) <= Rank(v)
  {
    if |pwd| >= c.minLength {
      var vs := RuleViolations(c, user, pwd);
      RuleViolationsExact(c, user, pwd);
      forall v | Violated(c, user, pwd, v) ensures vs != [] && Rank(vs[0]) <= Rank(v) {
        assert v in vs;
        var i :| 0 <= i < |vs| && vs[i] == v;
        assert i == 0 || Rank(vs[0]) < Rank(vs[i]);
      }
      if vs != [] {
        assert vs[0] in vs;
      }
    }
  }

  /**
   * Log-only mode always accepts; once the length rule passes, the warnings
   * are exactly the violated rules, in rule order.
   */
  lemma LogOnlyWarnings(c: Config, user: Option<seq<byte>>, pwd: seq<byte>)
    requires c.logOnly
    ensures Evaluate(c, Plaintext, user, Some(pwd)).Accepted?
    ensures |pwd| >= c.minLength ==>
      var ws := Evaluate(c, Plaintext, user, Some(pwd)).warnings;
      Ranked(ws) && forall v :: v in ws <==> Violated(c, user, pwd, v)
  {
    RuleViolationsExact(c, user, pwd);
  }

  /** A password that violates no rule is accepted without warnings in either mode. */
  lemma CleanPasswordAccepted(c: Config, user: Option<seq<byte>>, pwd: seq<byte>)
    requires forall v :: !Violated(c, user, pwd, v)
    ensures Evaluate(c, Plaintext, user, Some(pwd)) == Accepted([])
  {
    assert !Violated(c, user, pwd, TooShort(|pwd|, c.minLength));
    RuleViolationsAsRules(c, user, pwd);
  }
}
