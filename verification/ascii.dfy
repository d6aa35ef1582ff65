/** A small Option type for the nullable pointers and the search result of strstr. */
module Optional {
  datatype Option<+T> = None | Some(value: T)
}

/**
 * Bytes of a C string and the C-locale character functions the password
 * check uses: isupper, islower, isdigit, tolower and strstr.
 * A C string is modelled by the bytes before its terminating NUL.
 */
module Ascii {
  import opened Optional

  newtype byte = b: int | 0 <= b < 256

  /** isupper in the C locale: 'A'..'Z'. */
  predicate IsUpper(b: byte) { 65 <= b <= 90 }

  /** islower in the C locale: 'a'..'z'. */
  predicate IsLower(b: byte) { 97 <= b <= 122 }

  /** isdigit: '0'..'9'. */
  predicate IsDigit(b: byte) { 48 <= b <= 57 }

  /** isalnum in the C locale, stated on its own ranges. */
  predicate IsAlnum(b: byte) { 48 <= b <= 57 || 65 <= b <= 90 || 97 <= b <= 122 }

  datatype CharClass = Upper | Lower | Digit | Special

  /**
   * The class that the cascade isupper / else islower / else isdigit / else
   * "special" gives a byte: every byte lands in exactly one class, and
   * "special" is exactly "not an ASCII letter or digit" (whitespace,
   * punctuation, control bytes and every byte >= 128).
   */
  function ClassOf(b: byte): (k: CharClass)
    ensures k == Upper <==> IsUpper(b)
    ensures k == Lower <==> IsLower(b)
    ensures k == Digit <==> IsDigit(b)
    ensures k == Special <==> !IsAlnum(b)
  {
    if IsUpper(b) then Upper
    else if IsLower(b) then Lower
    else if IsDigit(b) then Digit
    else Special
  }

  /** Some byte of s falls in class k. */
  predicate Occurs(s: seq<byte>, k: CharClass)
  {
    exists i | 0 <= i < |s| :: ClassOf(s[i]) == k
  }

  /** tolower in the C locale: upper-case letters become lower case, every other byte is kept. */
  function ToLower(b: byte): (r: byte)
    ensures !IsUpper(r)
    ensures IsUpper(b) ==> IsLower(r) && SameIgnoringCase(b, r)
    ensures !IsUpper(b) ==> r == b
  {
    if IsUpper(b) then b + 32 else b
  }

  /** The string with tolower applied to every byte. */
  function Lowered(s: seq<byte>): seq<byte>
  {
    seq(|s|, i requires 0 <= i < |s| => ToLower(s[i]))
  }

  /** Two bytes are the same letter in either case, or the same byte. */
  predicate SameIgnoringCase(a: byte, b: byte)
  {
    a == b || (IsUpper(a) && a as int + 32 == b as int) || (IsUpper(b) && b as int + 32 == a as int)
  }

  /** needle occurs in hay starting at position i. */
  predicate MatchAt(hay: seq<byte>, needle: seq<byte>, i: nat)
  {
    i + |needle| <= |hay| && hay[i..i + |needle|] == needle
  }

  predicate Contains(hay: seq<byte>, needle: seq<byte>)
  {
    exists i: nat | i <= |hay| :: MatchAt(hay, needle, i)
  }

  /** needle occurs in hay at position i when case is ignored byte by byte. */
  predicate MatchAtIgnoringCase(hay: seq<byte>, needle: seq<byte>, i: nat)
  {
    i + |needle| <= |hay| && forall j | 0 <= j < |needle| :: SameIgnoringCase(hay[i + j], needle[j])
  }

  predicate ContainsIgnoringCase(hay: seq<byte>, needle: seq<byte>)
  {
    exists i: nat | i <= |hay| :: MatchAtIgnoringCase(hay, needle, i)
  }

  /** The leftmost position at or after from where needle occurs in hay. */
  function FindFrom(hay: seq<byte>, needle: seq<byte>, from: nat): (r: Option<nat>)
    ensures r.Some? ==> from <= r.value && MatchAt(hay, needle, r.value)
    ensures r.Some? ==> forall j: nat | from <= j < r.value :: !MatchAt(hay, needle, j)
    ensures r.None? ==> forall j: nat | from <= j :: !MatchAt(hay, needle, j)
    decreases |hay| - from
  {
    if from + |needle| > |hay| then None
    else if hay[from..from + |needle|] == needle then Some(from)
    else FindFrom(hay, needle, from + 1)
  }

  /**
   * strstr: the first occurrence of needle in hay, or None (NULL) when there is
   * none. An empty needle is found at position 0.
   */
  function StrStr(hay: seq<byte>, needle: seq<byte>): (r: Option<nat>)
    ensures r.None? <==> !Contains(hay, needle)
    ensures r.Some? ==> MatchAt(hay, needle, r.value)
    ensures r.Some? ==> forall j: nat | j < r.value :: !MatchAt(hay, needle, j)
    ensures needle == [] ==> r == Some(0)
  {
    FindFrom(hay, needle, 0)
  }

  /** tolower agrees on two bytes exactly when they are the same ignoring case. */
  lemma ToLowerEqual(a: byte, b: byte)
    ensures ToLower(a) == ToLower(b) <==> SameIgnoringCase(a, b)
  {
  }

  /** Lowering is idempotent and leaves no upper-case byte. */
  lemma LoweredIdempotent(s: seq<byte>)
    ensures Lowered(Lowered(s)) == Lowered(s)
    ensures !Occurs(Lowered(s), Upper)
  {
  }

  /** Exact matching on lowered copies is case-insensitive matching on the originals. */
  lemma LoweredMatchAt(hay: seq<byte>, needle: seq<byte>, i: nat)
    ensures MatchAt(Lowered(hay), Lowered(needle), i) <==> MatchAtIgnoringCase(hay, needle, i)
  {
    if i + |needle| <= |hay| {
      var lh, ln := Lowered(hay), Lowered(needle);
      if MatchAt(lh, ln, i) {
        forall j | 0 <= j < |needle| ensures SameIgnoringCase(hay[i + j], needle[j]) {
          assert lh[i..i + |needle|][j] == ln[j];
          ToLowerEqual(hay[i + j], needle[j]);
        }
      }
      if MatchAtIgnoringCase(hay, needle, i) {
        forall j | 0 <= j < |needle| ensures lh[i..i + |needle|][j] == ln[j] {
          ToLowerEqual(hay[i + j], needle[j]);
        }
        assert lh[i..i + |needle|] == ln;
      }
    }
  }

  /**
   * strstr on the lowered copies finds a match exactly when the username
   * occurs in the password with case ignored.
   */
  lemma LoweredContains(hay: seq<byte>, needle: seq<byte>)
    ensures StrStr(Lowered(hay), Lowered(needle)).Some? <==> ContainsIgnoringCase(hay, needle)
  {
    if ContainsIgnoringCase(hay, needle) {
      var i: nat :| MatchAtIgnoringCase(hay, needle, i);
      LoweredMatchAt(hay, needle, i);
    }
    if Contains(Lowered(hay), Lowered(needle)) {
      var i: nat :| MatchAt(Lowered(hay), Lowered(needle), i);
      LoweredMatchAt(hay, needle, i);
    }
  }

  /** Replacing the needle by one that differs only in case changes no answer. */
  lemma ContainsIgnoringCaseInvariant(hay: seq<byte>, u: seq<byte>, v: seq<byte>)
    requires Lowered(u) == Lowered(v)
    ensures ContainsIgnoringCase(hay, u) <==> ContainsIgnoringCase(hay, v)
  {
    LoweredContains(hay, u);
    LoweredContains(hay, v);
  }

  /** An empty needle is contained in every string, the way strstr finds "" at position 0. */
  lemma EmptyNeedleContained(hay: seq<byte>)
    ensures ContainsIgnoringCase(hay, [])
  {
    assert MatchAtIgnoringCase(hay, [], 0);
  }

  /** Which classes occur, restated with the character functions themselves. */
  lemma OccursByPredicate(s: seq<byte>)
    ensures Occurs(s, Upper) <==> exists i | 0 <= i < |s| :: IsUpper(s[i])
    ensures Occurs(s, Lower) <==> exists i | 0 <= i < |s| :: IsLower(s[i])
    ensures Occurs(s, Digit) <==> exists i | 0 <= i < |s| :: IsDigit(s[i])
    ensures Occurs(s, Special) <==> exists i | 0 <= i < |s| :: !IsAlnum(s[i])
  {
  }
}
