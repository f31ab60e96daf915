/**
 * `EMAIL_REGEX = ^[\w\.-]+@[\w\.-]+\.\w+$` applied with Python's `re.match`
 * (app/controllers/api/auth_controller.py:22).
 *
 * `IsValidEmail` decides the pattern by locating the `@` and the last dot;
 * `PatternMatches` states it as "some split of the string into local part,
 * `@`, domain prefix, `.`, suffix exists". `IsValidEmailIff` proves the two
 * agree. Python's `$` also matches just before a final newline, so one
 * trailing "\n" is accepted.
 */
module EmailPattern {

  /** `\w`, restricted to ASCII letters, digits and `_`. */
  predicate IsWordChar(c: char)
  {
    'a' <= c <= 'z' || 'A' <= c <= 'Z' || '0' <= c <= '9' || c == '_'
  }

  /** The character class `[\w\.-]`. */
  predicate IsPartChar(c: char)
  {
    IsWordChar(c) || c == '.' || c == '-'
  }

  predicate AllWord(s: string)
  {
    forall i | 0 <= i < |s| :: IsWordChar(s[i])
  }

  predicate AllPart(s: string)
  {
    forall i | 0 <= i < |s| :: IsPartChar(s[i])
  }

  /** The first index of `c` in `s`, or -1 when `c` does not occur. */
  function IndexOf(s: string, c: char): (i: int)
    ensures -1 <= i < |s|
    ensures i >= 0 ==> s[i] == c
    ensures forall k | 0 <= k < |s| && (i < 0 || k < i) :: s[k] != c
  {
    if |s| == 0 then -1
    else if s[0] == c then 0
    else
      var j := IndexOf(s[1..], c);
      if j < 0 then -1 else j + 1
  }

  /** The last index of `c` in `s`, or -1 when `c` does not occur. */
  function LastIndexOf(s: string, c: char): (i: int)
    ensures -1 <= i < |s|
    ensures i >= 0 ==> s[i] == c
    ensures forall k | i < k < |s| :: s[k] != c
  {
    if |s| == 0 then -1
    else if s[|s| - 1] == c then |s| - 1
    else LastIndexOf(s[..|s| - 1], c)
  }

  /** `[\w\.-]+@[\w\.-]+\.\w+` matched against the whole of `t`, decided by position. */
  predicate CoreMatch(t: string)
  {
    var at := IndexOf(t, '@');
    at > 0 && AllPart(t[..at]) &&
    var d := t[at + 1..];
    AllPart(d) &&
    var dot := LastIndexOf(d, '.');
    0 < dot < |d| - 1 && AllWord(d[dot + 1..])
  }

  /** `EMAIL_REGEX.match(s)` succeeds: the core pattern, optionally followed by one "\n". */
  predicate IsValidEmail(s: string)
  {
    CoreMatch(s) || (|s| > 0 && s[|s| - 1] == '\n' && CoreMatch(s[..|s| - 1]))
  }

  /**
   * The core pattern as a shape: an `@` at `at` and a `.` at `dot` such that
   * the local part t[..at], the domain prefix t[at+1..dot] and the suffix
   * t[dot+1..] are non-empty, the first two over `[\w\.-]` and the last over `\w`.
   */
  ghost predicate SplitAt(t: string, at: int, dot: int)
  {
    0 < at && at + 1 < dot < |t| - 1 && t[at] == '@' && t[dot] == '.' &&
    AllPart(t[..at]) && AllPart(t[at + 1..dot]) && AllWord(t[dot + 1..])
  }

  ghost predicate CoreShape(t: string)
  {
    exists at, dot :: SplitAt(t, at, dot)
  }

  ghost predicate PatternMatches(s: string)
  {
    CoreShape(s) || (|s| > 0 && s[|s| - 1] == '\n' && CoreShape(s[..|s| - 1]))
  }

  /** Any split that fits the shape is found by the decision procedure, and it finds only such splits. */
  lemma CoreMatchIff(t: string)
    ensures CoreMatch(t) <==> CoreShape(t)
  {
    var at := IndexOf(t, '@');
    if CoreMatch(t) {
      var d := t[at + 1..];
      var dot := LastIndexOf(d, '.');
      assert t[at + 1..at + 1 + dot] == d[..dot];
      assert t[at + 1 + dot + 1..] == d[dot + 1..];
      assert SplitAt(t, at, at + 1 + dot);
    }
    if CoreShape(t) {
      var a, p :| SplitAt(t, a, p);
      // `@` is not in [\w\.-], so the `@` at `a` is the first one.
      assert forall k | 0 <= k < a :: t[k] == t[..a][k];
      assert at == a;
      var d := t[at + 1..];
      assert forall k | 0 <= k < |d| && k != p - at - 1 :: IsPartChar(d[k]) by {
        forall k | 0 <= k < |d| && k != p - at - 1 ensures IsPartChar(d[k]) {
          if k < p - at - 1 {
            assert d[k] == t[at + 1..p][k];
          } else {
            assert d[k] == t[p + 1..][k - (p - at)];
          }
        }
      }
      assert AllPart(d);
      // No dot follows `p`, so `p` is the last dot of the domain.
      var dot := LastIndexOf(d, '.');
      assert d[p - at - 1] == '.';
      assert dot >= p - at - 1;
      assert dot == p - at - 1;
      assert d[dot + 1..] == t[p + 1..];
    }
  }

  lemma IsValidEmailIff(s: string)
    ensures IsValidEmail(s) <==> PatternMatches(s)
  {
    CoreMatchIff(s);
    if |s| > 0 {
      CoreMatchIff(s[..|s| - 1]);
    }
  }

  /** Every local part, domain prefix and suffix of the right alphabets makes an accepted address, with or without one final newline. */
  lemma AcceptsParts(local: string, prefix: string, suffix: string)
    requires |local| > 0 && AllPart(local)
    requires |prefix| > 0 && AllPart(prefix)
    requires |suffix| > 0 && AllWord(suffix)
    ensures IsValidEmail(local + "@" + prefix + "." + suffix)
    ensures IsValidEmail(local + "@" + prefix + "." + suffix + "\n")
  {
    var t := local + "@" + prefix + "." + suffix;
    var at, dot := |local|, |local| + 1 + |prefix|;
    assert t[..at] == local;
    assert t[at + 1..dot] == prefix;
    assert t[dot + 1..] == suffix;
    assert SplitAt(t, at, dot);
    CoreMatchIff(t);
    assert (t + "\n")[..|t + "\n"| - 1] == t;
  }

  lemma ExampleAccepted()
    ensures IsValidEmail("hanzo@example.com")
  {
    var t := "hanzo@example.com";
    assert t[..5] == "hanzo" && t[6..13] == "example" && t[14..] == "com";
    assert SplitAt(t, 5, 13);
    CoreMatchIff(t);
  }

  lemma OtherExampleAccepted()
    ensures IsValidEmail("nobody@x.com")
  {
    var t := "nobody@x.com";
    assert t[..6] == "nobody" && t[7..8] == "x" && t[9..] == "com";
    assert SplitAt(t, 6, 8);
    CoreMatchIff(t);
  }

  /** The split points of a matched core; every character is in `[\w\.-]` except the one `@`. */
  lemma SplitFacts(t: string, at: int, dot: int)
    requires SplitAt(t, at, dot)
    ensures forall k | 0 <= k < |t| && k != at :: IsPartChar(t[k])
    ensures IsWordChar(t[|t| - 1])
    ensures t[at] == '@' && at + 1 < dot < |t| && t[dot] == '.'
  {
    forall k | 0 <= k < |t| && k != at ensures IsPartChar(t[k]) {
      if k < at {
        assert t[k] == t[..at][k];
      } else if k < dot {
        assert t[k] == t[at + 1..dot][k - at - 1];
      } else if k > dot {
        assert t[k] == t[dot + 1..][k - dot - 1];
      }
    }
    assert t[|t| - 1] == t[dot + 1..][|t| - dot - 2];
  }

  /** An accepted address without its optional final newline: a core match. */
  function Core(s: string): (t: string)
    requires IsValidEmail(s)
    ensures CoreMatch(t) && t <= s && |s| - 1 <= |t|
  {
    if CoreMatch(s) then s else s[..|s| - 1]
  }

  /**
   * What an accepted address looks like: exactly one `@`, a `.` somewhere after
   * it, a word character at the end of the core, and no character outside
   * `[\w\.-]` and `@` except one final newline.
   */
  lemma AcceptedShape(s: string)
    requires IsValidEmail(s)
    ensures var t := Core(s);
      exists at, dot :: 0 < at < dot < |t| && s[at] == '@' && s[dot] == '.' &&
        (forall k | 0 <= k < |s| && k != at :: s[k] != '@')
    ensures forall k | 0 <= k < |s| :: IsPartChar(s[k]) || s[k] == '@' || (k == |s| - 1 && s[k] == '\n')
    ensures IsWordChar(Core(s)[|Core(s)| - 1])
  {
    var t := Core(s);
    CoreMatchIff(t);
    var at, dot :| SplitAt(t, at, dot);
    SplitFacts(t, at, dot);
    assert forall k | 0 <= k < |t| :: s[k] == t[k];
    assert s[at] == '@' && s[dot] == '.';
  }

  lemma RejectsWithoutAt(s: string)
    requires '@' !in s
    ensures !IsValidEmail(s)
  {
    if IsValidEmail(s) {
      AcceptedShape(s);
    }
  }

  /** An `@` with no `.` anywhere after it is rejected. */
  lemma RejectsWithoutDotAfterAt(s: string, at: int)
    requires 0 <= at < |s| && s[at] == '@'
    requires forall k | at < k < |s| :: s[k] != '.'
    ensures !IsValidEmail(s)
  {
    if IsValidEmail(s) {
      AcceptedShape(s);
    }
  }

  /** A core match followed by one newline is accepted; followed by two, it is not. */
  lemma TrailingNewline(t: string)
    requires CoreMatch(t)
    ensures IsValidEmail(t + "\n")
    ensures !IsValidEmail(t + "\n\n")
  {
    assert (t + "\n")[..|t + "\n"| - 1] == t;
    var u := t + "\n\n";
    assert u[|u| - 2] == '\n';
    if IsValidEmail(u) {
      AcceptedShape(u);
    }
  }
}
