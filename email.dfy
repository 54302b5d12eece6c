/**
 * The e-mail test of the contact form, the regular expression
 * `^[^\s@]+@[^\s@]+\.[^\s@]+$`: its meaning as a pattern and a direct check
 * of that meaning, proved to agree.
 */
module Email {
  import opened JsStrings

  /** A character the class `[^\s@]` admits. */
  predicate EmailChar(c: char) {
    c != '@' && !IsSpace(c)
  }

  /** Every character of `x` is admitted by `[^\s@]`. */
  predicate EmailChars(x: string) {
    forall k | 0 <= k < |x| :: EmailChar(x[k])
  }

  /**
   * The pattern matches `s` with its `@` at index `i` and its literal `.` at
   * index `j`: the three `[^\s@]+` runs are `s[..i]`, `s[i+1..j]` and `s[j+1..]`.
   */
  ghost predicate SplitsAt(s: string, i: int, j: int) {
    0 < i && i + 1 < j && j + 1 < |s| &&
    s[i] == '@' && s[j] == '.' &&
    EmailChars(s[..i]) && EmailChars(s[i + 1..j]) && EmailChars(s[j + 1..])
  }

  /** What `/^[^\s@]+@[^\s@]+\.[^\s@]+$/.test(s)` decides. */
  ghost predicate MatchesEmailRegex(s: string) {
    exists i, j :: SplitsAt(s, i, j)
  }

  /** Index of the first `@` of `s`, or `|s|` when there is none. */
  function AtIndex(s: string): (i: nat)
    ensures i <= |s|
    ensures i < |s| ==> s[i] == '@'
    ensures forall k | 0 <= k < i :: s[k] != '@'
  {
    if s == [] || s[0] == '@' then 0 else 1 + AtIndex(s[1..])
  }

  /** `d` has a `.` with at least one character on each side. */
  predicate HasInnerDot(d: string) {
    exists k | 0 < k < |d| - 1 :: d[k] == '.'
  }

  /**
   * The check the form performs on the trimmed e-mail: no white space,
   * exactly one `@`, a non-empty part before it, and a domain after it with
   * a `.` that has text on both sides.
   */
  predicate IsEmail(s: string) {
    NoSpace(s) && multiset(s)['@'] == 1 &&
    var i := AtIndex(s);
    0 < i < |s| && HasInnerDot(s[i + 1..])
  }

  /** A string in which `@` occurs once has no `@` other than the one at `i`. */
  lemma SingleAt(s: string, i: nat)
    requires i < |s| && s[i] == '@' && multiset(s)['@'] == 1
    ensures forall k | 0 <= k < |s| && k != i :: s[k] != '@'
  {
    var before, after := s[..i], s[i + 1..];
    assert s == before + [s[i]] + after;
    assert multiset(s) == multiset(before) + multiset([s[i]]) + multiset(after);
    assert '@' !in before && '@' !in after;
    forall k | 0 <= k < |s| && k != i
      ensures s[k] != '@'
    {
      if k < i {
        assert s[k] == before[k];
      } else {
        assert s[k] == after[k - i - 1];
      }
    }
  }

  /** The slice `s[lo..hi]` is a `[^\s@]` run when every character in that range is admitted. */
  lemma EmailCharsSlice(s: string, lo: nat, hi: nat)
    requires lo <= hi <= |s|
    requires forall k | lo <= k < hi :: EmailChar(s[k])
    ensures EmailChars(s[lo..hi])
  {
    var x := s[lo..hi];
    forall m | 0 <= m < |x| ensures EmailChar(x[m]) {
      assert x[m] == s[lo + m];
    }
  }

  /** A string none of whose characters is `@` contains `@` zero times. */
  lemma NoAt(x: string)
    requires forall k | 0 <= k < |x| :: x[k] != '@'
    ensures multiset(x)['@'] == 0
  {
  }

  /** Every string the direct check accepts is matched by the regular expression. */
  lemma IsEmailMatches(s: string)
    requires IsEmail(s)
    ensures MatchesEmailRegex(s)
  {
    var i := AtIndex(s);
    var d := s[i + 1..];
    var k :| 0 < k < |d| - 1 && d[k] == '.';
    var j := i + 1 + k;
    SingleAt(s, i);
    assert s[j] == d[k];
    EmailCharsSlice(s, i + 1, j);
    EmailCharsSlice(s, j + 1, |s|);
    assert s[j + 1..] == s[j + 1..|s|];
    assert SplitsAt(s, i, j);
  }

  /** Off the `@` and the `.` of a split, every character is admitted by `[^\s@]`. */
  lemma SplitRuns(s: string, i: int, j: int)
    requires SplitsAt(s, i, j)
    ensures forall k | 0 <= k < |s| && k != i && k != j :: EmailChar(s[k])
  {
    forall k | 0 <= k < |s| && k != i && k != j
      ensures EmailChar(s[k])
    {
      if k < i {
        assert s[..i][k] == s[k];
      } else if k < j {
        assert s[i + 1..j][k - i - 1] == s[k];
      } else {
        assert s[j + 1..][k - j - 1] == s[k];
      }
    }
  }

  /** An `@` at `i` that is the only one is counted once and is the first. */
  lemma OnlyAt(s: string, i: nat)
    requires i < |s| && s[i] == '@'
    requires forall k | 0 <= k < |s| && k != i :: s[k] != '@'
    ensures multiset(s)['@'] == 1 && AtIndex(s) == i
  {
    assert s == s[..i] + [s[i]] + s[i + 1..];
    NoAt(s[..i]);
    NoAt(s[i + 1..]);
  }

  /** Every string the regular expression matches passes the direct check. */
  lemma MatchesIsEmail(s: string)
    requires MatchesEmailRegex(s)
    ensures IsEmail(s)
  {
    var i, j :| SplitsAt(s, i, j);
    SplitRuns(s, i, j);
    assert NoSpace(s);
    OnlyAt(s, i);
    assert s[i + 1..][j - i - 1] == '.';
  }

  /** The direct check accepts exactly the strings the regular expression matches. */
  lemma IsEmailIffRegex(s: string)
    ensures IsEmail(s) <==> MatchesEmailRegex(s)
  {
    if IsEmail(s) {
      IsEmailMatches(s);
    }
    if MatchesEmailRegex(s) {
      MatchesIsEmail(s);
    }
  }

  /** `a@b.com` is an address: the pattern splits it into `a`, `b` and `com`. */
  lemma ExampleAddress(s: string)
    requires s == "a@b.com"
    ensures IsEmail(s) && MatchesEmailRegex(s)
  {
    assert s[..1] == "a" && s[2..3] == "b" && s[4..] == "com";
    assert SplitsAt(s, 1, 3);
    IsEmailIffRegex(s);
  }

  /** `bad`, which has no `@`, is not an address. */
  lemma ExampleNotAnAddress(s: string)
    requires s == "bad"
    ensures !IsEmail(s) && !MatchesEmailRegex(s)
  {
    IsEmailIffRegex(s);
  }
}
