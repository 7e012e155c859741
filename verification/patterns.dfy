/**
 The three regular expressions of the registration form, each written as the
 set of strings it matches (a direct reading of the pattern's structure) and
 decided by a single-pass scanner proved equivalent to it. The email and
 password patterns also get the characterisation a reader of the form would
 state instead, with a lemma joining the two; the letters pattern is already
 stated in those terms.

 All three patterns carry the `i` flag; none of them is changed by it (see
 `Chars.IsAsciiLetter`).
 */
module Patterns {
  import opened Chars

  // ---------------------------------------------------------------------------
  // `^[A-Za-z]+$` (first name and surname)
  // ---------------------------------------------------------------------------

  /** One or more ASCII letters and nothing else. */
  predicate LettersRegex(s: string) {
    |s| >= 1 && forall i | 0 <= i < |s| :: IsAsciiLetter(s[i])
  }

  /** Decides the letters pattern, stopping at the first non-letter. */
  method MatchLetters(s: string) returns (ok: bool)
    ensures ok <==> LettersRegex(s)
  {
    if |s| == 0 {
      return false;
    }
    var i := 0;
    while i < |s|
      invariant 0 <= i <= |s|
      invariant forall j | 0 <= j < i :: IsAsciiLetter(s[j])
    {
      if !IsAsciiLetter(s[i]) {
        return false;
      }
      i := i + 1;
    }
    ok := true;
  }

  // ---------------------------------------------------------------------------
  // `^[^@\s]+@[^@\s]+\.[^@\s]+$` (email)
  // ---------------------------------------------------------------------------

  /** `[^@\s]`: anything but `@` and white space. */
  predicate EmailAtom(c: char) {
    c != '@' && !IsWhitespace(c)
  }

  /** Every position in `lo .. hi-1` holds an email atom. */
  predicate AtomsIn(s: string, lo: int, hi: int)
    requires 0 <= lo <= hi <= |s|
  {
    forall i | lo <= i < hi :: EmailAtom(s[i])
  }

  /** The pattern read structurally: `a` is the index of the `@`, `d` the index
      of the `.` matched by `\.`; the three `[^@\s]+` runs lie before `a`,
      strictly between `a` and `d`, and after `d`. */
  predicate EmailRegex(s: string) {
    exists a, d | 0 < a < |s| && 0 < d < |s| ::
      && a + 1 < d < |s| - 1
      && s[a] == '@' && s[d] == '.'
      && AtomsIn(s, 0, a) && AtomsIn(s, a + 1, d) && AtomsIn(s, d + 1, |s|)
  }

  /** The domain that starts after index `a` holds a `.` with at least one
      character of the domain on each side. */
  predicate DomainDot(s: string, a: int) {
    exists d | 0 <= d < |s| :: a + 1 < d < |s| - 1 && s[d] == '.'
  }

  predicate NoWhitespace(s: string) {
    forall i | 0 <= i < |s| :: !IsWhitespace(s[i])
  }

  /** An address as a reader would describe it: no white space, exactly one
      `@`, a non-empty local part before it, and a dot inside the domain. */
  predicate EmailShape(s: string) {
    && NoWhitespace(s)
    && multiset(s)['@'] == 1
    && exists a | 0 < a < |s| :: s[a] == '@' && DomainDot(s, a)
  }

  /** When `a` is the first index that is not an atom, the pattern matches iff
      that index holds the `@`, the local part is non-empty, and the rest is an
      atom run containing an inner dot. */
  lemma EmailRegexAtFirstNonAtom(s: string, a: int)
    requires 0 <= a <= |s| && AtomsIn(s, 0, a)
    requires a == |s| || !EmailAtom(s[a])
    ensures EmailRegex(s) <==>
              0 < a < |s| && s[a] == '@' && AtomsIn(s, a + 1, |s|) && DomainDot(s, a)
  {
    if EmailRegex(s) {
      var a', d :| 0 < a' < |s| && 0 < d < |s| && a' + 1 < d < |s| - 1
                   && s[a'] == '@' && s[d] == '.'
                   && AtomsIn(s, 0, a') && AtomsIn(s, a' + 1, d) && AtomsIn(s, d + 1, |s|);
      assert a <= a' by {
        assert !EmailAtom(s[a']);
      }
      assert a' <= a by {
        assert AtomsIn(s, 0, a');
      }
      assert DomainDot(s, a) by {
        assert a + 1 < d < |s| - 1 && s[d] == '.';
      }
      assert AtomsIn(s, a + 1, |s|) by {
        forall i | a + 1 <= i < |s| ensures EmailAtom(s[i]) {
          if i < d {
            assert AtomsIn(s, a' + 1, d);
          } else if i > d {
            assert AtomsIn(s, d + 1, |s|);
          }
        }
      }
    }
    if 0 < a < |s| && s[a] == '@' && AtomsIn(s, a + 1, |s|) && DomainDot(s, a) {
      var d :| 0 <= d < |s| && a + 1 < d < |s| - 1 && s[d] == '.';
      assert AtomsIn(s, a + 1, d);
      assert AtomsIn(s, d + 1, |s|);
    }
  }

  /** Atoms exclude `@`, so an atom run contributes no `@` to the count. */
  lemma AtomsHaveNoAt(s: string, lo: int, hi: int)
    requires 0 <= lo <= hi <= |s| && AtomsIn(s, lo, hi)
    ensures multiset(s[lo..hi])['@'] == 0
  {
    assert '@' !in s[lo..hi] by {
      forall i | 0 <= i < hi - lo ensures s[lo..hi][i] != '@' {
        assert s[lo..hi][i] == s[lo + i];
      }
    }
  }

  /** Splitting at index `a` splits the count of `@`. */
  lemma AtCountSplit(s: string, a: int)
    requires 0 <= a < |s|
    ensures multiset(s)['@'] ==
              multiset(s[..a])['@'] + (if s[a] == '@' then 1 else 0) + multiset(s[a + 1..])['@']
  {
    assert s == s[..a] + [s[a]] + s[a + 1..];
    assert multiset(s) == multiset(s[..a]) + multiset{s[a]} + multiset(s[a + 1..]);
  }

  /** A string with exactly one `@`, found at `a`, has no other `@`. */
  lemma SingleAtElsewhereAbsent(s: string, a: int)
    requires 0 <= a < |s| && s[a] == '@' && multiset(s)['@'] == 1
    ensures forall i | 0 <= i < |s| && i != a :: s[i] != '@'
  {
    AtCountSplit(s, a);
    forall i | 0 <= i < |s| && i != a ensures s[i] != '@' {
      if i < a {
        assert s[..a][i] == s[i];
        assert s[i] in multiset(s[..a]);
      } else {
        assert s[a + 1..][i - a - 1] == s[i];
        assert s[i] in multiset(s[a + 1..]);
      }
    }
  }

  /** Every address the pattern matches has the shape of `EmailShape`. */
  lemma EmailRegexHasShape(s: string)
    requires EmailRegex(s)
    ensures EmailShape(s)
  {
    var a, d :| 0 < a < |s| && 0 < d < |s| && a + 1 < d < |s| - 1
                && s[a] == '@' && s[d] == '.'
                && AtomsIn(s, 0, a) && AtomsIn(s, a + 1, d) && AtomsIn(s, d + 1, |s|);
    EmailRegexAtFirstNonAtom(s, a);
    assert NoWhitespace(s) by {
      forall i | 0 <= i < |s| ensures !IsWhitespace(s[i]) {
        if i < a {
          assert AtomsIn(s, 0, a);
        } else if a < i {
          assert AtomsIn(s, a + 1, |s|);
        }
      }
    }
    AtomsHaveNoAt(s, 0, a);
    AtomsHaveNoAt(s, a + 1, |s|);
    assert s[..a] == s[0..a];
    assert s[a + 1..] == s[a + 1..|s|];
    AtCountSplit(s, a);
  }

  /** Every string of the shape of `EmailShape` is matched by the pattern. */
  lemma ShapeMatchesEmailRegex(s: string)
    requires EmailShape(s)
    ensures EmailRegex(s)
  {
    var a :| 0 < a < |s| && s[a] == '@' && DomainDot(s, a);
    var d :| 0 <= d < |s| && a + 1 < d < |s| - 1 && s[d] == '.';
    SingleAtElsewhereAbsent(s, a);
    assert AtomsIn(s, 0, a) && AtomsIn(s, a + 1, d) && AtomsIn(s, d + 1, |s|);
  }

  /** The pattern matches exactly the addresses of `EmailShape`. */
  lemma EmailRegexCharacterized(s: string)
    ensures EmailRegex(s) <==> EmailShape(s)
  {
    if EmailRegex(s) {
      EmailRegexHasShape(s);
    }
    if EmailShape(s) {
      ShapeMatchesEmailRegex(s);
    }
  }

  /** Decides the email pattern in one left-to-right pass. */
  method MatchEmail(s: string) returns (ok: bool)
    ensures ok <==> EmailRegex(s)
    ensures ok <==> EmailShape(s)
  {
    EmailRegexCharacterized(s);
    var a := 0;
    while a < |s| && EmailAtom(s[a])
      invariant 0 <= a <= |s|
      invariant AtomsIn(s, 0, a)
    {
      a := a + 1;
    }
    EmailRegexAtFirstNonAtom(s, a);
    if a == 0 || a == |s| || s[a] != '@' {
      return false;
    }
    var k := a + 1;
    var dot := false;
    while k < |s|
      invariant a + 1 <= k <= |s|
      invariant AtomsIn(s, a + 1, k)
      invariant dot <==> exists d | 0 <= d < |s| :: a + 1 < d && d + 1 < k && s[d] == '.'
    {
      if !EmailAtom(s[k]) {
        return false;
      }
      if a + 1 < k - 1 && s[k - 1] == '.' {
        dot := true;
      }
      k := k + 1;
    }
    ok := dot;
  }

  // ---------------------------------------------------------------------------
  // `^(?=.*\d{2,})(?=.*[!@#$%^&*]{3,}).*$` (password)
  // ---------------------------------------------------------------------------

  /** The two character classes the lookaheads look for. */
  datatype CharClass = Digit | Special

  predicate InClass(k: CharClass, c: char) {
    match k
    case Digit => IsDigit(c)
    case Special => IsSpecial(c)
  }

  /** `n` adjacent characters of class `k` start at index `i`. */
  predicate RunAt(s: string, k: CharClass, i: nat, n: nat) {
    i + n <= |s| && forall j | i <= j < i + n :: InClass(k, s[j])
  }

  /** `n` adjacent characters of class `k` occur somewhere in `s`. */
  predicate HasRun(s: string, k: CharClass, n: nat) {
    exists i | 0 <= i <= |s| :: RunAt(s, k, i, n)
  }

  /** No line terminator occurs before index `p`. */
  predicate LineFreeBefore(s: string, p: int)
    requires 0 <= p <= |s|
  {
    forall i | 0 <= i < p :: !IsLineTerminator(s[i])
  }

  predicate SingleLine(s: string) {
    LineFreeBefore(s, |s|)
  }

  /** `(?=.*X{n,})` tried at the start of the input: `.*` consumes a prefix free
      of line terminators, then `n` characters of class `k` follow. */
  predicate LookaheadRun(s: string, k: CharClass, n: nat) {
    exists p | 0 <= p <= |s| :: LineFreeBefore(s, p) && RunAt(s, k, p, n)
  }

  /** The whole pattern: both lookaheads succeed at index 0 and the trailing
      `.*$` consumes the whole input. */
  predicate PasswordRegex(s: string) {
    LookaheadRun(s, Digit, 2) && LookaheadRun(s, Special, 3) && SingleLine(s)
  }

  /** The two lookaheads are independent: the pattern holds iff the input is
      one line, has two adjacent digits somewhere and three adjacent special
      characters somewhere, in either order. */
  lemma PasswordRegexCharacterized(s: string)
    ensures PasswordRegex(s) <==>
              SingleLine(s) && HasRun(s, Digit, 2) && HasRun(s, Special, 3)
  {
    if SingleLine(s) && HasRun(s, Digit, 2) && HasRun(s, Special, 3) {
      var i :| 0 <= i <= |s| && RunAt(s, Digit, i, 2);
      var j :| 0 <= j <= |s| && RunAt(s, Special, j, 3);
      assert LineFreeBefore(s, i) && LineFreeBefore(s, j);
    }
  }

  /** A run keeps its class wherever the string it sits in is placed. */
  lemma RunInConcat(u: string, v: string, k: CharClass, n: nat)
    ensures HasRun(u, k, n) ==> HasRun(u + v, k, n)
    ensures HasRun(v, k, n) ==> HasRun(u + v, k, n)
  {
    if HasRun(u, k, n) {
      var i :| 0 <= i <= |u| && RunAt(u, k, i, n);
      assert forall j | i <= j < i + n :: (u + v)[j] == u[j];
      assert RunAt(u + v, k, i, n);
    }
    if HasRun(v, k, n) {
      var i :| 0 <= i <= |v| && RunAt(v, k, i, n);
      assert forall j | |u| + i <= j < |u| + i + n :: (u + v)[j] == v[j - |u|];
      assert RunAt(u + v, k, |u| + i, n);
    }
  }

  /** No ordering is imposed: digits first or special characters first, the
      pattern accepts the one-line concatenation either way. */
  lemma PasswordRunsInEitherOrder(u: string, v: string)
    requires SingleLine(u + v)
    requires (HasRun(u, Digit, 2) && HasRun(v, Special, 3))
          || (HasRun(u, Special, 3) && HasRun(v, Digit, 2))
    ensures PasswordRegex(u + v)
  {
    RunInConcat(u, v, Digit, 2);
    RunInConcat(u, v, Special, 3);
    PasswordRegexCharacterized(u + v);
  }

  /** Decides `HasRun` in one pass, keeping the length of the current run. */
  method ScanRun(s: string, k: CharClass, n: nat) returns (found: bool)
    ensures found <==> HasRun(s, k, n)
  {
    found := n == 0;
    if found {
      assert RunAt(s, k, 0, 0);
      return;
    }
    var run := 0;
    var i := 0;
    while i < |s| && !found
      invariant 0 <= i <= |s|
      invariant 0 <= run <= i
      invariant forall j | i - run <= j < i :: InClass(k, s[j])
      invariant run < i ==> !InClass(k, s[i - run - 1])
      invariant found ==> HasRun(s, k, n)
      invariant !found ==> forall p | 0 <= p <= |s| :: p + n <= i ==> !RunAt(s, k, p, n)
    {
      if InClass(k, s[i]) {
        run := run + 1;
      } else {
        run := 0;
      }
      i := i + 1;
      if run >= n {
        assert RunAt(s, k, i - n, n);
        found := true;
      } else {
        forall p | 0 <= p <= |s| && p + n == i ensures !RunAt(s, k, p, n) {
          assert p <= i - run - 1 && !InClass(k, s[i - run - 1]);
        }
      }
    }
  }

  /** Decides the password pattern: one scan for line terminators, one for
      each lookahead. */
  method MatchPassword(s: string) returns (ok: bool)
    ensures ok <==> PasswordRegex(s)
    ensures ok <==> SingleLine(s) && HasRun(s, Digit, 2) && HasRun(s, Special, 3)
  {
    PasswordRegexCharacterized(s);
    var i := 0;
    while i < |s|
      invariant 0 <= i <= |s|
      invariant LineFreeBefore(s, i)
    {
      if IsLineTerminator(s[i]) {
        return false;
      }
      i := i + 1;
    }
    var digits := ScanRun(s, Digit, 2);
    var specials := ScanRun(s, Special, 3);
    ok := digits && specials;
  }
}
