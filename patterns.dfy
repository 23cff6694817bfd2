/**
 * The two regular expressions of the user cleaner: the email pattern
 * `^[\w.-]+@[\w.-]+\.\w+$` tested with `re.search`, and the `\D`
 * substitution that strips a phone number down to its digits.
 * Character classes are the ASCII ones.
 */
module Patterns {
  /** `\d` */
  predicate IsDigit(c: char) {
    '0' <= c <= '9'
  }

  /** `\w` */
  predicate IsWordChar(c: char) {
    'a' <= c <= 'z' || 'A' <= c <= 'Z' || IsDigit(c) || c == '_'
  }

  /** `[\w.-]` */
  predicate IsEmailChar(c: char) {
    IsWordChar(c) || c == '.' || c == '-'
  }

  predicate AllDigits(s: string) {
    forall i :: 0 <= i < |s| ==> IsDigit(s[i])
  }

  /** `re.sub(r'\D', '', s)`: the digits of `s` and nothing else. */
  function DigitsOnly(s: string): (r: string)
    ensures AllDigits(r)
    ensures |r| <= |s|
  {
    if s == [] then []
    else DigitsOnly(s[..|s| - 1]) + (if IsDigit(s[|s| - 1]) then [s[|s| - 1]] else [])
  }

  /** Every digit of `s` survives, as often as it occurs in `s`. */
  lemma {:induction false} DigitsOnlyCounts(s: string)
    ensures forall c :: IsDigit(c) ==> multiset(DigitsOnly(s))[c] == multiset(s)[c]
    decreases |s|
  {
    if s != [] {
      var init, last := s[..|s| - 1], s[|s| - 1];
      assert s == init + [last];
      DigitsOnlyCounts(init);
    }
  }

  /** Removing non-digits works piece by piece, so the digits keep their order. */
  lemma {:induction false} DigitsOnlyAppend(a: string, b: string)
    ensures DigitsOnly(a + b) == DigitsOnly(a) + DigitsOnly(b)
    decreases |b|
  {
    if b == [] {
      assert a + b == a;
    } else {
      var b' := b[..|b| - 1];
      assert (a + b)[..|a + b| - 1] == a + b';
      DigitsOnlyAppend(a, b');
    }
  }

  /** A string of digits only is left as it is, so stripping twice strips once. */
  lemma {:induction false} DigitsOnlyOfDigits(s: string)
    requires AllDigits(s)
    ensures DigitsOnly(s) == s
    decreases |s|
  {
    if s != [] {
      var init := s[..|s| - 1];
      DigitsOnlyOfDigits(init);
      assert DigitsOnly(s) == DigitsOnly(init) + [s[|s| - 1]];
      assert s == init + [s[|s| - 1]];
    }
  }

  /**
   * `s` splits as `s[..at] + "@" + s[at+1..dot] + "." + s[dot+1..]` with the
   * three pieces in `[\w.-]+`, `[\w.-]+` and `\w+`: the ways the body of
   * the email pattern can match the whole of `s`.
   */
  predicate EmailSplit(s: string, at: int, dot: int) {
    && 0 < at && at + 1 < dot && dot + 1 < |s|
    && s[at] == '@' && s[dot] == '.'
    && (forall i :: 0 <= i < at ==> IsEmailChar(s[i]))
    && (forall i :: at < i < dot ==> IsEmailChar(s[i]))
    && (forall i :: dot < i < |s| ==> IsWordChar(s[i]))
  }

  /** `[\w.-]+@[\w.-]+\.\w+` matches all of `s`. */
  ghost predicate FullMatch(s: string) {
    exists at, dot :: EmailSplit(s, at, dot)
  }

  /**
   * `re.search(r'^[\w.-]+@[\w.-]+\.\w+$', s)` succeeds. Without MULTILINE,
   * `$` matches at the end of the string or just before a final newline.
   */
  ghost predicate EmailPattern(s: string) {
    FullMatch(s) || (|s| > 0 && s[|s| - 1] == '\n' && FullMatch(s[..|s| - 1]))
  }

  /** The first position of `c` in `s`, or `|s|` when there is none. */
  function IndexOf(s: string, c: char): (i: nat)
    ensures i <= |s|
    ensures i < |s| ==> s[i] == c
    ensures forall k :: 0 <= k < i ==> s[k] != c
  {
    if s == [] then 0
    else if s[0] == c then 0
    else 1 + IndexOf(s[1..], c)
  }

  /** The last position of `c` in `s`, or -1 when there is none. */
  function LastIndexOf(s: string, c: char): (i: int)
    ensures -1 <= i < |s|
    ensures 0 <= i ==> s[i] == c
    ensures forall k :: i < k < |s| ==> s[k] != c
  {
    if s == [] then -1
    else if s[|s| - 1] == c then |s| - 1
    else LastIndexOf(s[..|s| - 1], c)
  }

  /**
   * A match has only one way to split: the '@' is the first one in the
   * string (no '@' is in `[\w.-]`) and the '.' is the last one (no '.' is
   * in `\w`).
   */
  lemma SplitIsCanonical(s: string, at: int, dot: int)
    requires EmailSplit(s, at, dot)
    ensures at == IndexOf(s, '@') && dot == LastIndexOf(s, '.')
  {
    assert forall k :: 0 <= k < at ==> s[k] != '@' by {
      forall k | 0 <= k < at ensures s[k] != '@' { assert IsEmailChar(s[k]); }
    }
    assert forall k :: dot < k < |s| ==> s[k] != '.' by {
      forall k | dot < k < |s| ensures s[k] != '.' { assert IsWordChar(s[k]); }
    }
  }

  /** Decides whether the body of the email pattern matches all of `s`. */
  function MatchesWhole(s: string): (b: bool)
    ensures b <==> FullMatch(s)
  {
    var at, dot := IndexOf(s, '@'), LastIndexOf(s, '.');
    if EmailSplit(s, at, dot) then true
    else
      assert !FullMatch(s) by {
        forall a, d | EmailSplit(s, a, d) ensures false {
          SplitIsCanonical(s, a, d);
        }
      }
      false
  }

  /** Decides `re.search(r'^[\w.-]+@[\w.-]+\.\w+$', s)`. */
  function MatchesEmail(s: string): (b: bool)
    ensures b <==> EmailPattern(s)
  {
    MatchesWhole(s) || (|s| > 0 && s[|s| - 1] == '\n' && MatchesWhole(s[..|s| - 1]))
  }

  /** The last piece of a match is `\w+`, so a match ends in a word character. */
  lemma MatchEndsInWordChar(s: string)
    ensures FullMatch(s) ==> |s| > 0 && IsWordChar(s[|s| - 1])
  {
    if FullMatch(s) {
      var a, d :| EmailSplit(s, a, d);
      assert IsWordChar(s[|s| - 1]);
    }
  }

  /**
   * The anchors let one trailing newline through: an address followed by
   * "\n" passes the email check, although the body of the pattern does not
   * match it.
   */
  lemma {:induction false} FinalNewlinePasses(s: string)
    requires FullMatch(s)
    ensures EmailPattern(s + "\n")
    ensures !FullMatch(s + "\n")
  {
    var t := s + "\n";
    assert t[..|s|] == s;
    MatchEndsInWordChar(t);
  }

  /** Every accepted address holds exactly one '@', with text on both sides. */
  lemma EmailHasOneAt(s: string)
    requires EmailPattern(s)
    ensures 0 < IndexOf(s, '@') < |s| - 1
    ensures forall k :: IndexOf(s, '@') < k < |s| ==> s[k] != '@'
  {
    if FullMatch(s) {
      OneAtPastMatch(s, s);
    } else {
      OneAtPastMatch(s, s[..|s| - 1]);
    }
  }

  /** A whole match `t` followed by at most a newline holds exactly one '@'. */
  lemma OneAtPastMatch(s: string, t: string)
    requires FullMatch(t) && |t| <= |s| <= |t| + 1 && t == s[..|t|]
    requires |s| > |t| ==> s[|t|] == '\n'
    ensures 0 < IndexOf(s, '@') < |s| - 1
    ensures forall k :: IndexOf(s, '@') < k < |s| ==> s[k] != '@'
  {
    var a, d :| EmailSplit(t, a, d);
    SplitIsCanonical(t, a, d);
    assert IndexOf(s, '@') == a by {
      forall k | 0 <= k < a ensures s[k] != '@' {
        assert s[k] == t[k] && IsEmailChar(t[k]);
      }
      assert s[a] == t[a];
    }
    assert !IsEmailChar('@') && !IsWordChar('@');
    forall k | a < k < |s| ensures s[k] != '@' {
      if k == |t| {
        assert s[k] == '\n';
      } else if k < d {
        assert s[k] == t[k] && IsEmailChar(t[k]);
      } else if k == d {
        assert s[k] == t[k] == '.';
      } else {
        assert s[k] == t[k] && IsWordChar(t[k]);
      }
    }
  }
}
