/**
 * Worked examples of single calls of the hook, with min_length lowered to 8
 * and every other setting at its default (enforcing mode).
 */
module Scenarios {
  import opened Optional
  import opened Ascii
  import opened PasswordGuard

  /** The bytes of an ASCII string literal. */
  function Bytes(s: string): (b: seq<byte>)
    requires forall i | 0 <= i < |s| :: s[i] as int < 256
    ensures |b| == |s|
    ensures forall i | 0 <= i < |s| :: b[i] as int == s[i] as int
  {
    seq(|s|, i requires 0 <= i < |s| => s[i] as int as byte)
  }

  const Strict: Config := Defaults.(minLength := 8)

  /** A four-byte password is too short, whatever classes it has. */
  lemma ShortPasswordRejected()
    ensures Evaluate(Strict, Plaintext, Some(Bytes("sp_short")), Some(Bytes("Aa1!"))) == Rejected(TooShort(4, 8))
    ensures Evaluate(Strict.(logOnly := true), Plaintext, Some(Bytes("sp_short")), Some(Bytes("Aa1!")))
         == Accepted([TooShort(4, 8)])
  {
  }

  /** No upper-case letter: the upper-case rule is the one reported. */
  lemma NoUpperRejected()
    ensures Evaluate(Strict, Plaintext, Some(Bytes("sp_noupper")), Some(Bytes("abc12345!"))) == Rejected(MissingUppercase)
  {
    var p := Bytes("abc12345!");
    assert !Occurs(p, Upper);
  }

  /** No lower-case letter. */
  lemma NoLowerRejected()
    ensures Evaluate(Strict, Plaintext, Some(Bytes("sp_nolower")), Some(Bytes("ABC12345!"))) == Rejected(MissingLowercase)
  {
    var p := Bytes("ABC12345!");
    assert ClassOf(p[0]) == Upper;
    assert !Occurs(p, Lower);
  }

  /** No digit. */
  lemma NoDigitRejected()
    ensures Evaluate(Strict, Plaintext, Some(Bytes("sp_nodigit")), Some(Bytes("Abcdefg!"))) == Rejected(MissingDigit)
  {
    var p := Bytes("Abcdefg!");
    assert ClassOf(p[0]) == Upper && ClassOf(p[1]) == Lower;
    assert !Occurs(p, Digit);
  }

  /** No special character. */
  lemma NoSpecialRejected()
    ensures Evaluate(Strict, Plaintext, Some(Bytes("sp_nospecial")), Some(Bytes("Abcdefg1"))) == Rejected(MissingSpecial)
  {
    var p := Bytes("Abcdefg1");
    assert ClassOf(p[0]) == Upper && ClassOf(p[1]) == Lower && ClassOf(p[7]) == Digit;
    assert !Occurs(p, Special);
  }

  /** In log-only mode a password missing three classes gets three warnings, in rule order. */
  lemma LogOnlyAllWarnings()
    ensures Evaluate(Strict.(logOnly := true), Plaintext, None, Some(Bytes("abcdefgh")))
         == Accepted([MissingUppercase, MissingDigit, MissingSpecial])
  {
    var p := Bytes("abcdefgh");
    assert ClassOf(p[0]) == Lower;
    assert !Occurs(p, Upper) && !Occurs(p, Digit) && !Occurs(p, Special);
  }

  /** The username occurs in the password with its first letter capitalised. */
  lemma UsernameRejected()
    ensures Evaluate(Strict, Plaintext, Some(Bytes("spuser")), Some(Bytes("Spuser1!"))) == Rejected(ContainsUsername)
  {
    var p := Bytes("Spuser1!");
    assert ClassOf(p[0]) == Upper && ClassOf(p[1]) == Lower && ClassOf(p[6]) == Digit && ClassOf(p[7]) == Special;
    assert MatchAt(Lowered(p), Lowered(Bytes("spuser")), 0);
  }

  /** A password that meets every rule is accepted. */
  lemma CompliantAccepted()
    ensures Evaluate(Strict, Plaintext, Some(Bytes("sp_ok")), Some(Bytes("Abc12345!"))) == Accepted([])
  {
    var p := Bytes("Abc12345!");
    var u := Bytes("sp_ok");
    assert ClassOf(p[0]) == Upper && ClassOf(p[1]) == Lower && ClassOf(p[3]) == Digit && ClassOf(p[8]) == Special;
    forall i: nat | i <= |p| ensures !MatchAt(Lowered(p), Lowered(u), i) {
      if i + |u| <= |p| {
        assert Lowered(p)[i..i + |u|][0] != Lowered(u)[0];
      }
    }
  }
}
