/** The email-shape classifier of the send-email route: the regular expression
    `/^[^\s@]+@[^\s@]+\.[^\s@]+$/` applied to the contact string.

    The pattern is given three ways:
    - `MatchesPattern`, the language of the regular expression, as a split of the
      string into local part, '@', first domain part, '.', last domain part;
    - `SimpleShape`, a characterisation a person would write down: no whitespace,
      exactly one '@', something before it, and a '.' inside the domain;
    - `Scan`, a single left-to-right pass over the string.
    `ShapeIff` and the contract of `Scan` prove the three agree on every string. */
module EmailShape {

  /** The characters JavaScript's `\s` class matches: the ECMAScript WhiteSpace
      and LineTerminator code points. */
  predicate IsSpace(c: char)
  {
    || c == '\t' || c == '\n' || c == '\U{B}' || c == '\U{C}' || c == '\r' || c == ' '
    || c == '\U{A0}' || c == '\U{1680}' || ('\U{2000}' <= c <= '\U{200A}')
    || c == '\U{2028}' || c == '\U{2029}' || c == '\U{202F}' || c == '\U{205F}'
    || c == '\U{3000}' || c == '\U{FEFF}'
  }

  /** A character of the class `[^\s@]`. */
  predicate Plain(c: char)
  {
    !IsSpace(c) && c != '@'
  }

  /** A string of `[^\s@]` characters (possibly empty; the `+` is checked by the caller). */
  predicate AllPlain(s: string)
  {
    forall i :: 0 <= i < |s| ==> Plain(s[i])
  }

  predicate NoSpace(s: string)
  {
    forall i :: 0 <= i < |s| ==> !IsSpace(s[i])
  }

  /** `s` is L + "@" + D1 + "." + D2 with the '@' at index `at` and the '.' at
      index `dot`, and L, D1, D2 each one or more characters of `[^\s@]`. */
  predicate IsSplit(s: string, at: int, dot: int)
  {
    && 0 < at && at + 1 < dot && dot + 1 < |s|
    && s[at] == '@' && s[dot] == '.'
    && AllPlain(s[..at]) && AllPlain(s[at + 1..dot]) && AllPlain(s[dot + 1..])
  }

  /** The language of `/^[^\s@]+@[^\s@]+\.[^\s@]+$/`. The regular expression has no
      multiline flag, so `^` and `$` anchor at the ends of the whole string. */
  ghost predicate MatchesPattern(s: string)
  {
    exists at, dot :: IsSplit(s, at, dot)
  }

  /** Any three non-empty `[^\s@]` strings joined as L + "@" + D1 + "." + D2 match. */
  lemma Compose(l: string, d1: string, d2: string)
    requires |l| > 0 && |d1| > 0 && |d2| > 0
    requires AllPlain(l) && AllPlain(d1) && AllPlain(d2)
    ensures MatchesPattern(l + "@" + d1 + "." + d2)
  {
    var s := l + "@" + d1 + "." + d2;
    var at, dot := |l|, |l| + 1 + |d1|;
    assert s[..at] == l;
    assert s[at + 1..dot] == d1;
    assert s[dot + 1..] == d2;
    assert IsSplit(s, at, dot);
  }

  /** Every match is such a join: the parts a split names put the string back together. */
  lemma Decompose(s: string, at: int, dot: int)
    requires IsSplit(s, at, dot)
    ensures s == s[..at] + "@" + s[at + 1..dot] + "." + s[dot + 1..]
    ensures |s[..at]| > 0 && |s[at + 1..dot]| > 0 && |s[dot + 1..]| > 0
  {
  }

  /** Number of occurrences of `c` in `s`. */
  function Count(s: string, c: char): nat
  {
    if |s| == 0 then 0 else (if s[0] == c then 1 else 0) + Count(s[1..], c)
  }

  /** Index of the first `c` in `s`, or |s| when there is none. */
  function Find(s: string, c: char): (k: nat)
    ensures k <= |s|
    ensures k < |s| ==> s[k] == c
    ensures forall j :: 0 <= j < k ==> s[j] != c
  {
    if |s| == 0 then 0 else if s[0] == c then 0 else 1 + Find(s[1..], c)
  }

  /** The characterisation: no whitespace, exactly one '@', a non-empty part before
      it, and a '.' in the domain after it that is neither the domain's first nor
      its last character. */
  predicate SimpleShape(s: string)
  {
    && NoSpace(s)
    && Count(s, '@') == 1
    && var at := Find(s, '@');
       && 0 < at < |s|
       && var domain := s[at + 1..];
          && |domain| >= 2
          && '.' in domain[1..|domain| - 1]
  }

  lemma {:induction false} CountZero(s: string, c: char)
    ensures Count(s, c) == 0 <==> forall j :: 0 <= j < |s| ==> s[j] != c
  {
    if |s| > 0 {
      CountZero(s[1..], c);
      assert forall j :: 1 <= j < |s| ==> s[j] == s[1..][j - 1];
    }
  }

  /** `c` occurs exactly once iff its first occurrence is its only one. */
  lemma {:induction false} CountOne(s: string, c: char)
    ensures Count(s, c) == 1 <==>
      (Find(s, c) < |s| && forall j :: 0 <= j < |s| && j != Find(s, c) ==> s[j] != c)
  {
    if |s| > 0 {
      assert forall j :: 1 <= j < |s| ==> s[j] == s[1..][j - 1];
      if s[0] == c {
        CountZero(s[1..], c);
      } else {
        CountOne(s[1..], c);
      }
    }
  }

  /** A split, read character by character: the '@' at `at` is the only '@', the
      '.' sits at `dot`, and no character is whitespace. */
  lemma SplitPointwise(s: string, at: int, dot: int)
    ensures IsSplit(s, at, dot) <==>
      && 0 < at && at + 1 < dot && dot + 1 < |s|
      && s[at] == '@' && s[dot] == '.'
      && forall j :: 0 <= j < |s| && j != at ==> Plain(s[j])
  {
    if 0 < at && at + 1 < dot && dot + 1 < |s| && s[at] == '@' && s[dot] == '.' {
      if IsSplit(s, at, dot) {
        forall j | 0 <= j < |s| && j != at
          ensures Plain(s[j])
        {
          if j < at {
            assert s[..at][j] == s[j];
          } else if j < dot {
            assert s[at + 1..dot][j - at - 1] == s[j];
          } else if dot < j {
            assert s[dot + 1..][j - dot - 1] == s[j];
          }
        }
      }
    }
  }

  lemma MatchIsSimple(s: string)
    requires MatchesPattern(s)
    ensures SimpleShape(s)
  {
    var a, d :| IsSplit(s, a, d);
    SplitPointwise(s, a, d);
    var at := Find(s, '@');
    assert at == a;
    CountOne(s, '@');
    var domain := s[at + 1..];
    assert domain[1..|domain| - 1][d - at - 2] == '.';
  }

  lemma SimpleIsMatch(s: string)
    requires SimpleShape(s)
    ensures MatchesPattern(s)
  {
    var at := Find(s, '@');
    CountOne(s, '@');
    var domain := s[at + 1..];
    var inner := domain[1..|domain| - 1];
    var k :| 0 <= k < |inner| && inner[k] == '.';
    assert inner[k] == domain[k + 1];
    assert domain[k + 1] == s[at + 2 + k];
    var d := at + 2 + k;
    SplitPointwise(s, at, d);
    assert IsSplit(s, at, d);
  }

  lemma ShapeIff(s: string)
    ensures MatchesPattern(s) <==> SimpleShape(s)
  {
    if MatchesPattern(s) {
      MatchIsSimple(s);
    }
    if SimpleShape(s) {
      SimpleIsMatch(s);
    }
  }

  /** The classifier the route calls. */
  function IsEmail(s: string): (r: bool)
    ensures r <==> MatchesPattern(s)
  {
    ShapeIff(s);
    SimpleShape(s)
  }

  /** One left-to-right pass: stop at the first whitespace or second '@', remember
      the '@' and the first '.' at least two places after it, and decide at the end. */
  method Scan(s: string) returns (b: bool)
    ensures b <==> MatchesPattern(s)
    ensures b == IsEmail(s)
  {
    var at := -1;
    var dot := -1;
    var i := 0;
    while i < |s|
      invariant 0 <= i <= |s|
      invariant forall j :: 0 <= j < i ==> !IsSpace(s[j])
      invariant -1 <= at < i
      invariant at == -1 ==> forall j :: 0 <= j < i ==> s[j] != '@'
      invariant at >= 0 ==> s[at] == '@' && forall j :: 0 <= j < i && j != at ==> s[j] != '@'
      invariant dot == -1 && at >= 0 ==> forall j :: at + 2 <= j < i ==> s[j] != '.'
      invariant dot >= 0 ==> 0 <= at && at + 2 <= dot < i && s[dot] == '.'
      invariant dot >= 0 ==> forall j :: at + 2 <= j < dot ==> s[j] != '.'
    {
      var c := s[i];
      if IsSpace(c) {
        forall a, d ensures !IsSplit(s, a, d) {
          SplitPointwise(s, a, d);
        }
        return false;
      }
      if c == '@' {
        if at >= 0 {
          forall a, d ensures !IsSplit(s, a, d) {
            SplitPointwise(s, a, d);
          }
          return false;
        }
        at := i;
      } else if c == '.' && at >= 0 && dot == -1 && at + 2 <= i {
        dot := i;
      }
      i := i + 1;
    }
    b := 0 < at && 0 <= dot && dot + 1 < |s|;
    if b {
      SplitPointwise(s, at, dot);
      assert IsSplit(s, at, dot);
    } else {
      forall a, d ensures !IsSplit(s, a, d) {
        SplitPointwise(s, a, d);
      }
    }
  }

  // The classifier on sample contacts: email addresses, phone numbers, a plain word.

  /** The shortest email shape. */
  lemma MinimalAccepted()
    ensures IsEmail("a@b.c")
  {
    assert AllPlain("a") && AllPlain("b") && AllPlain("c");
    Compose("a", "b", "c");
    assert "a" + "@" + "b" + "." + "c" == "a@b.c";
  }

  lemma UserAccepted()
    ensures IsEmail("user@example.com")
  {
    assert AllPlain("user") && AllPlain("example") && AllPlain("com");
    Compose("user", "example", "com");
    assert "user" + "@" + "example" + "." + "com" == "user@example.com";
  }

  lemma AliceAccepted()
    ensures IsEmail("alice@example.com")
  {
    assert AllPlain("alice") && AllPlain("example") && AllPlain("com");
    Compose("alice", "example", "com");
    assert "alice" + "@" + "example" + "." + "com" == "alice@example.com";
  }

  lemma NoLocalPart()
    ensures !IsEmail("@missing-local.com")
  {
  }

  /** A string without '@' is never email-shaped. */
  lemma NoAtRejected(s: string)
    requires forall j :: 0 <= j < |s| ==> s[j] != '@'
    ensures !IsEmail(s)
  {
  }

  lemma PhoneNumberRejected()
    ensures !IsEmail("555-1234")
  {
    NoAtRejected("555-1234");
  }

  lemma InternationalNumberRejected()
    ensures !IsEmail("+1-555-0100")
  {
    NoAtRejected("+1-555-0100");
  }

  lemma PlainWordRejected()
    ensures !IsEmail("not-an-email")
  {
    NoAtRejected("not-an-email");
  }
}
