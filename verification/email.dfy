/** The email check of the record service: the pattern `^[^\s@]+@[^\s@]+\.[^\s@]+$`,
    stated once as a reference predicate read off the pattern (EmailShape) and
    once as a left-to-right matcher (ValidarEmail), and proved equal. */
module EmailPattern {
  import opened JsText

  /** One character of the class `[^\s@]`. */
  predicate NotSpaceOrAt(c: char) {
    !IsSpace(c) && c != '@'
  }

  predicate AllNotSpaceOrAt(s: string) {
    forall k :: 0 <= k < |s| ==> NotSpaceOrAt(s[k])
  }

  /** A match of `[^\s@]+`. */
  predicate Word(s: string) {
    s != [] && AllNotSpaceOrAt(s)
  }

  /** `e` splits as word, '@' at `i`, word, '.' at `j`, word. */
  ghost predicate SplitAt(e: string, i: int, j: int) {
    0 <= i < j < |e| && e[i] == '@' && e[j] == '.' &&
    Word(e[..i]) && Word(e[i + 1..j]) && Word(e[j + 1..])
  }

  /** The whole of `e` matches the pattern. */
  ghost predicate EmailShape(e: string) {
    exists i, j :: SplitAt(e, i, j)
  }

  // ---------------------------------------------------------------------------
  // The matcher

  /** How much of the pattern the characters read so far have matched. */
  datatype MatchState =
    | Start    // nothing read
    | Local    // a nonempty run before the '@'
    | AfterAt  // the '@'
    | Domain   // a nonempty run after the '@'; no '.' usable as the separator yet
    | Dot      // a '.' with a nonempty run before it; one more character needed
    | Tld      // a '.' with nonempty runs on both sides: accepting
    | Dead     // no continuation can match

  function Step(st: MatchState, c: char): MatchState {
    if !NotSpaceOrAt(c) then
      if st == Local && c == '@' then AfterAt else Dead
    else
      match st
      case Start => Local
      case Local => Local
      case AfterAt => Domain
      case Domain => if c == '.' then Dot else Domain
      case Dot => Tld
      case Tld => Tld
      case Dead => Dead
  }

  function Run(st: MatchState, s: string): MatchState
    decreases |s|
  {
    if s == [] then st else Run(Step(st, s[0]), s[1..])
  }

  /** The email check: true exactly when `e` matches the pattern. */
  function ValidarEmail(e: string): (ok: bool)
    ensures ok <==> EmailShape(e)
  {
    RunAccepts(Start, e);
    Run(Start, e) == Tld
  }

  // ---------------------------------------------------------------------------
  // What each state still accepts

  /** A '.' at `j` (at or after `min`) with no white space or '@' before it and
      a word after it. */
  ghost predicate DotAt(s: string, j: int, min: nat) {
    min <= j < |s| && s[j] == '.' && AllNotSpaceOrAt(s[..j]) && Word(s[j + 1..])
  }

  ghost predicate DomainFrom(s: string, min: nat) {
    exists j :: DotAt(s, j, min)
  }

  /** An '@' at `i` (at or after `min`), no white space or '@' before it, and a
      domain after it. */
  ghost predicate AtAt(s: string, i: int, min: nat) {
    min <= i < |s| && s[i] == '@' && AllNotSpaceOrAt(s[..i]) && DomainFrom(s[i + 1..], 1)
  }

  ghost predicate AddressFrom(s: string, min: nat) {
    exists i :: AtAt(s, i, min)
  }

  /** The language of the rest of the input that takes state `st` to Tld. */
  ghost predicate Accepts(st: MatchState, s: string) {
    match st
    case Start => EmailShape(s)
    case Local => AddressFrom(s, 0)
    case AfterAt => DomainFrom(s, 1)
    case Domain => DomainFrom(s, 0)
    case Dot => Word(s)
    case Tld => AllNotSpaceOrAt(s)
    case Dead => false
  }

  lemma AllCons(c: char, s: string)
    ensures AllNotSpaceOrAt([c] + s) <==> NotSpaceOrAt(c) && AllNotSpaceOrAt(s)
  {
    var t := [c] + s;
    if NotSpaceOrAt(c) && AllNotSpaceOrAt(s) {
      forall k | 0 <= k < |t| ensures NotSpaceOrAt(t[k]) {
        if k > 0 { assert t[k] == s[k - 1]; }
      }
    }
    if AllNotSpaceOrAt(t) {
      assert t[0] == c;
      forall k | 0 <= k < |s| ensures NotSpaceOrAt(s[k]) {
        assert s[k] == t[k + 1];
      }
    }
  }

  lemma StartStepForward(c: char, s: string)
    requires EmailShape([c] + s)
    ensures NotSpaceOrAt(c) && AddressFrom(s, 0)
  {
    var t := [c] + s;
    var i, j :| SplitAt(t, i, j);
    assert t[..i] == [c] + s[..i - 1];
    AllCons(c, s[..i - 1]);
    var d := s[i..];
    assert d == t[i + 1..];
    assert d[..j - i - 1] == t[i + 1..j];
    assert d[j - i..] == t[j + 1..];
    assert DotAt(d, j - i - 1, 1);
    assert AtAt(s, i - 1, 0);
  }

  lemma StartStepBackward(c: char, s: string)
    requires NotSpaceOrAt(c) && AddressFrom(s, 0)
    ensures EmailShape([c] + s)
  {
    var t := [c] + s;
    var i :| AtAt(s, i, 0);
    var d := s[i + 1..];
    var j :| DotAt(d, j, 1);
    assert t[..i + 1] == [c] + s[..i];
    AllCons(c, s[..i]);
    assert t[i + 2..i + 2 + j] == d[..j];
    assert t[i + 3 + j..] == d[j + 1..];
    assert SplitAt(t, i + 1, i + 2 + j);
  }

  lemma StartStep(c: char, s: string)
    ensures EmailShape([c] + s) <==> NotSpaceOrAt(c) && AddressFrom(s, 0)
  {
    if EmailShape([c] + s) {
      StartStepForward(c, s);
    }
    if NotSpaceOrAt(c) && AddressFrom(s, 0) {
      StartStepBackward(c, s);
    }
  }

  lemma LocalStep(c: char, s: string)
    ensures AddressFrom([c] + s, 0) <==>
            (c == '@' && DomainFrom(s, 1)) || (NotSpaceOrAt(c) && AddressFrom(s, 0))
  {
    var t := [c] + s;
    if AddressFrom(t, 0) {
      var i :| AtAt(t, i, 0);
      if i == 0 {
        assert t[1..] == s;
      } else {
        assert t[..i] == [c] + s[..i - 1];
        AllCons(c, s[..i - 1]);
        assert t[i + 1..] == s[i..];
        assert AtAt(s, i - 1, 0);
      }
    }
    if c == '@' && DomainFrom(s, 1) {
      assert t[1..] == s;
      assert AtAt(t, 0, 0);
    }
    if NotSpaceOrAt(c) && AddressFrom(s, 0) {
      var i :| AtAt(s, i, 0);
      assert t[..i + 1] == [c] + s[..i];
      AllCons(c, s[..i]);
      assert t[i + 2..] == s[i + 1..];
      assert AtAt(t, i + 1, 0);
    }
  }

  lemma AfterAtStep(c: char, s: string)
    ensures DomainFrom([c] + s, 1) <==> NotSpaceOrAt(c) && DomainFrom(s, 0)
  {
    var t := [c] + s;
    if DomainFrom(t, 1) {
      var j :| DotAt(t, j, 1);
      assert t[..j] == [c] + s[..j - 1];
      AllCons(c, s[..j - 1]);
      assert t[j + 1..] == s[j..];
      assert DotAt(s, j - 1, 0);
    }
    if NotSpaceOrAt(c) && DomainFrom(s, 0) {
      var j :| DotAt(s, j, 0);
      assert t[..j + 1] == [c] + s[..j];
      AllCons(c, s[..j]);
      assert t[j + 2..] == s[j + 1..];
      assert DotAt(t, j + 1, 1);
    }
  }

  lemma DomainStep(c: char, s: string)
    ensures DomainFrom([c] + s, 0) <==>
            NotSpaceOrAt(c) && (if c == '.' then Word(s) else DomainFrom(s, 0))
  {
    var t := [c] + s;
    if DomainFrom(t, 0) {
      var j :| DotAt(t, j, 0);
      if j == 0 {
        assert t[1..] == s;
      } else {
        assert t[..j] == [c] + s[..j - 1];
        AllCons(c, s[..j - 1]);
        assert t[j + 1..] == s[j..];
        assert DotAt(s, j - 1, 0);
        if c == '.' {
          assert s == s[..j - 1] + ['.'] + s[j..];
          forall k | 0 <= k < |s| ensures NotSpaceOrAt(s[k]) {
            if k < j - 1 {
              assert s[k] == s[..j - 1][k];
            } else if k > j - 1 {
              assert s[k] == s[j..][k - j];
            }
          }
        }
      }
    }
    if NotSpaceOrAt(c) && c == '.' && Word(s) {
      assert t[1..] == s;
      assert DotAt(t, 0, 0);
    }
    if NotSpaceOrAt(c) && c != '.' && DomainFrom(s, 0) {
      var j :| DotAt(s, j, 0);
      assert t[..j + 1] == [c] + s[..j];
      AllCons(c, s[..j]);
      assert t[j + 2..] == s[j + 1..];
      assert DotAt(t, j + 1, 0);
    }
  }

  /** Reading one character moves the matcher to the state whose language is
      the rest of the input. */
  lemma StepSound(st: MatchState, c: char, s: string)
    ensures Accepts(st, [c] + s) <==> Accepts(Step(st, c), s)
  {
    match st
    case Start => StartStep(c, s);
    case Local => LocalStep(c, s);
    case AfterAt => AfterAtStep(c, s);
    case Domain => DomainStep(c, s);
    case Dot => AllCons(c, s);
    case Tld => AllCons(c, s);
    case Dead =>
  }

  /** The matcher ends in Tld exactly on the inputs its start state accepts. */
  lemma {:induction false} RunAccepts(st: MatchState, s: string)
    ensures Run(st, s) == Tld <==> Accepts(st, s)
    decreases |s|
  {
    if s != [] {
      assert [s[0]] + s[1..] == s;
      StepSound(st, s[0], s[1..]);
      RunAccepts(Step(st, s[0]), s[1..]);
    }
  }

  // ---------------------------------------------------------------------------
  // Consequences of a valid email

  /** A valid email holds no white space (so trimming leaves it as it is). */
  lemma ValidEmailHasNoSpace(e: string)
    requires EmailShape(e)
    ensures NoSpace(e)
  {
    var i, j :| SplitAt(e, i, j);
    forall k | 0 <= k < |e| ensures !IsSpace(e[k]) {
      if k < i {
        assert e[k] == e[..i][k];
      } else if i < k < j {
        assert e[k] == e[i + 1..j][k - i - 1];
      } else if j < k {
        assert e[k] == e[j + 1..][k - j - 1];
      }
    }
  }

  /** Trimming leaves a valid email as it is, so the email stored is the one checked. */
  lemma ValidEmailIsTrimmed(e: string)
    requires EmailShape(e)
    ensures Trim(e) == e
  {
    ValidEmailHasNoSpace(e);
  }

  lemma NoAtIn(s: string)
    requires AllNotSpaceOrAt(s)
    ensures multiset(s)['@'] == 0
  {
    forall k | 0 <= k < |s| ensures s[k] != '@' {
      assert NotSpaceOrAt(s[k]);
    }
    assert '@' !in s;
  }

  /** A valid email holds exactly one '@', neither first nor last. */
  lemma ValidEmailHasOneAt(e: string)
    requires EmailShape(e)
    ensures multiset(e)['@'] == 1
    ensures e[0] != '@' && e[|e| - 1] != '@'
  {
    var i, j :| SplitAt(e, i, j);
    var a, b := e[..i], e[i + 1..];
    assert e == a + ['@'] + b;
    NoAtIn(a);
    assert b == e[i + 1..j] + ['.'] + e[j + 1..];
    AllCons('.', e[j + 1..]);
    forall k | 0 <= k < |b| ensures NotSpaceOrAt(b[k]) {
      if k < j - i - 1 {
        assert b[k] == e[i + 1..j][k];
      } else if k > j - i - 1 {
        assert b[k] == (['.'] + e[j + 1..])[k - (j - i - 1)];
      }
    }
    NoAtIn(b);
    assert multiset(e) == multiset(a) + multiset(['@']) + multiset(b);
    assert e[0] == a[0];
    assert e[|e| - 1] == e[j + 1..][|e| - j - 2];
  }
}
