/**
  The password rules of the sign-in and sign-up form: at least 8 characters, a
  capital letter, a digit and a character that is neither an ASCII letter nor a
  digit. Every rule is checked and each failed rule contributes its own message.
*/
module AuthSchema {

  const MinLength: nat := 8

  const TooShort: string := "Password must be at least 8 characters"
  const NoUppercase: string := "Must include at least one uppercase letter"
  const NoNumber: string := "Must include at least one number"
  const NoSpecial: string := "Must include at least one special character"

  /** The four messages, in the order the schema lists the rules. */
  const Messages: seq<string> := [TooShort, NoUppercase, NoNumber, NoSpecial]

  /** The position of a message's rule in the schema. */
  function Rank(m: string): nat {
    if m == TooShort then 0 else if m == NoUppercase then 1 else if m == NoNumber then 2 else 3
  }

  predicate IsUpper(c: char) {
    'A' <= c <= 'Z'
  }

  predicate IsDigit(c: char) {
    '0' <= c <= '9'
  }

  /** The class `[a-zA-Z0-9]`. */
  predicate IsAsciiAlnum(c: char) {
    'a' <= c <= 'z' || 'A' <= c <= 'Z' || '0' <= c <= '9'
  }

  /** `/[A-Z]/` finds a match somewhere in the password. */
  predicate HasUpper(p: string) {
    exists i :: 0 <= i < |p| && IsUpper(p[i])
  }

  /** `/[0-9]/`. */
  predicate HasDigit(p: string) {
    exists i :: 0 <= i < |p| && IsDigit(p[i])
  }

  /** `/[^a-zA-Z0-9]/`: a space or a non-ASCII letter counts. */
  predicate HasSpecial(p: string) {
    exists i :: 0 <= i < |p| && !IsAsciiAlnum(p[i])
  }

  /** The messages of the failed rules, in the order the schema lists the rules. */
  function PasswordIssues(p: string): (issues: seq<string>)
    ensures issues == [] <==> |p| >= MinLength && HasUpper(p) && HasDigit(p) && HasSpecial(p)
    ensures TooShort in issues <==> |p| < MinLength
    ensures NoUppercase in issues <==> !HasUpper(p)
    ensures NoNumber in issues <==> !HasDigit(p)
    ensures NoSpecial in issues <==> !HasSpecial(p)
    ensures |issues| <= 4
    ensures forall m :: m in issues ==> m in Messages
    ensures forall i, j :: 0 <= i < j < |issues| ==> Rank(issues[i]) < Rank(issues[j])
  {
    var short, noUpper, noDigit, noSpecial := |p| < MinLength, !HasUpper(p), !HasDigit(p), !HasSpecial(p);
    MessagesDistinct();
    ReportsOfRules(short, noUpper, noDigit, noSpecial, TooShort, NoUppercase, NoNumber, NoSpecial);
    ReportsRanked(short, noUpper, noDigit, noSpecial, TooShort, NoUppercase, NoNumber, NoSpecial, Rank);
    Reports(short, noUpper, noDigit, noSpecial, TooShort, NoUppercase, NoNumber, NoSpecial)
  }

  /** The four messages differ (their lengths already do), and each has its own rank. */
  lemma MessagesDistinct()
    ensures TooShort != NoUppercase && TooShort != NoNumber && TooShort != NoSpecial
    ensures NoUppercase != NoNumber && NoUppercase != NoSpecial && NoNumber != NoSpecial
    ensures Rank(TooShort) == 0 && Rank(NoUppercase) == 1 && Rank(NoNumber) == 2 && Rank(NoSpecial) == 3
    ensures Messages == [TooShort, NoUppercase, NoNumber, NoSpecial]
  {
    assert |TooShort| == 38 && |NoUppercase| == 42 && |NoNumber| == 32 && |NoSpecial| == 43;
  }

  /** A rule's message when it fails, nothing when it holds. */
  function Report<T>(fails: bool, m: T): seq<T> {
    if fails then [m] else []
  }

  /** The message of each of four rules that fails, rule by rule. */
  function Reports<T>(f0: bool, f1: bool, f2: bool, f3: bool, m0: T, m1: T, m2: T, m3: T): seq<T> {
    Report(f0, m0) + (Report(f1, m1) + (Report(f2, m2) + Report(f3, m3)))
  }

  /** The messages appear in strictly increasing rank. */
  predicate Ranked<T>(ms: seq<T>, rank: T -> nat) {
    forall i, j :: 0 <= i < j < |ms| ==> rank(ms[i]) < rank(ms[j])
  }

  /**
    For four distinct messages, each appears exactly when its rule fails and
    nothing else appears.
  */
  lemma ReportsOfRules<T>(f0: bool, f1: bool, f2: bool, f3: bool, m0: T, m1: T, m2: T, m3: T)
    requires m0 != m1 && m0 != m2 && m0 != m3 && m1 != m2 && m1 != m3 && m2 != m3
    ensures var ms := Reports(f0, f1, f2, f3, m0, m1, m2, m3);
      && (ms == [] <==> !f0 && !f1 && !f2 && !f3)
      && (m0 in ms <==> f0)
      && (m1 in ms <==> f1)
      && (m2 in ms <==> f2)
      && (m3 in ms <==> f3)
      && |ms| <= 4
      && (forall m :: m in ms ==> m in [m0, m1, m2, m3])
  {
    forall m | m in Reports(f0, f1, f2, f3, m0, m1, m2, m3) ensures m in [m0, m1, m2, m3] {
      InReports(m, f0, f1, f2, f3, m0, m1, m2, m3);
    }
    InReports(m0, f0, f1, f2, f3, m0, m1, m2, m3);
    InReports(m1, f0, f1, f2, f3, m0, m1, m2, m3);
    InReports(m2, f0, f1, f2, f3, m0, m1, m2, m3);
    InReports(m3, f0, f1, f2, f3, m0, m1, m2, m3);
  }

  /** A message is reported exactly when it is the message of a failed rule. */
  lemma InReports<T>(x: T, f0: bool, f1: bool, f2: bool, f3: bool, m0: T, m1: T, m2: T, m3: T)
    ensures x in Reports(f0, f1, f2, f3, m0, m1, m2, m3) <==> (f0 && x == m0) || (f1 && x == m1) || (f2 && x == m2) || (f3 && x == m3)
  {
  }

  /** Messages of increasing rank are reported in that order. */
  lemma ReportsRanked<T>(f0: bool, f1: bool, f2: bool, f3: bool, m0: T, m1: T, m2: T, m3: T, rank: T -> nat)
    requires rank(m0) < rank(m1) < rank(m2) < rank(m3)
    ensures Ranked(Reports(f0, f1, f2, f3, m0, m1, m2, m3), rank)
  {
    var tail2 := Report(f2, m2) + Report(f3, m3);
    var tail1 := Report(f1, m1) + tail2;
    RankFirst(f2, m2, Report(f3, m3), rank);
    RankFirst(f1, m1, tail2, rank);
    RankFirst(f0, m0, tail1, rank);
  }

  /** A message ranked below everything after it keeps the order. */
  lemma RankFirst<T>(fails: bool, m: T, rest: seq<T>, rank: T -> nat)
    requires Ranked(rest, rank)
    requires forall x :: x in rest ==> rank(m) < rank(x)
    ensures Ranked(Report(fails, m) + rest, rank)
  {
    var ms := Report(fails, m) + rest;
    if fails {
      forall i, j | 0 <= i < j < |ms| ensures rank(ms[i]) < rank(ms[j]) {
        assert ms[j] == rest[j - 1];
        if i > 0 {
          assert ms[i] == rest[i - 1];
        }
      }
    } else {
      assert ms == rest;
    }
  }

  /** The password is accepted exactly when no rule reports a problem. */
  predicate Accepted(p: string) {
    PasswordIssues(p) == []
  }

  /** Adding characters never breaks a rule that already held. */
  lemma AcceptedExtends(p: string, q: string)
    requires Accepted(p)
    ensures Accepted(p + q)
  {
    var i :| 0 <= i < |p| && IsUpper(p[i]);
    var j :| 0 <= j < |p| && IsDigit(p[j]);
    var k :| 0 <= k < |p| && !IsAsciiAlnum(p[k]);
    assert (p + q)[i] == p[i] && (p + q)[j] == p[j] && (p + q)[k] == p[k];
  }

  /** No password made only of ASCII letters and digits is accepted, however long. */
  lemma AlnumRejected(p: string)
    requires forall i :: 0 <= i < |p| ==> IsAsciiAlnum(p[i])
    ensures !Accepted(p)
    ensures NoSpecial in PasswordIssues(p)
  {
  }
}
