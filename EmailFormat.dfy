/** The page's `validateEmail`: the pattern `^[^\s@]+@[^\s@]+\.[^\s@]+$`,
    once as the pattern reads and once as a direct check on characters. */
module EmailFormat {
  import opened Text

  /** A character the class `[^\s@]` accepts. */
  predicate IsPlain(c: char) {
    !IsSpace(c) && c != '@'
  }

  predicate AllPlain(s: string) {
    forall i :: 0 <= i < |s| ==> IsPlain(s[i])
  }

  /** `s` splits as local `@` name `.` tail, each of the three parts a
      non-empty run of plain characters, with the `@` at `at` and the `.` at `dot`. */
  ghost predicate MatchesAt(s: string, at: int, dot: int) {
    && 0 < at && at + 1 < dot && dot + 1 < |s|
    && s[at] == '@' && s[dot] == '.'
    && AllPlain(s[..at]) && AllPlain(s[at + 1..dot]) && AllPlain(s[dot + 1..])
  }

  /** What the regular expression accepts: some choice of the `@` and of the
      `.` makes the whole string match. */
  ghost predicate MatchesPattern(s: string)
    ensures MatchesPattern(s) ==> |s| >= 5 && s[0] != '@' && s[|s| - 1] != '@'
  {
    exists at, dot :: MatchesAt(s, at, dot)
  }

  /** Index of the first `c` in `s`, or `|s|` when there is none. */
  function IndexOf(s: string, c: char): (k: nat)
    ensures k <= |s|
    ensures k < |s| ==> s[k] == c
    ensures c !in s[..k]
  {
    if s == [] then 0
    else if s[0] == c then 0
    else
      var k := 1 + IndexOf(s[1..], c);
      assert s[..k] == [s[0]] + s[1..][..k - 1];
      k
  }

  /** `validateEmail(s)` as a check on characters: no whitespace, exactly one
      `@` and it is not the first character, and the part after it holds a `.`
      that is neither its first nor its last character. Such an address has
      at least five characters and neither starts nor ends with `@`. */
  predicate ValidateEmail(s: string)
    ensures ValidateEmail(s) ==> |s| >= 5 && s[0] != '@' && s[|s| - 1] != '@'
  {
    var at := IndexOf(s, '@');
    && NoSpace(s)
    && 0 < at < |s|
    && '@' !in s[at + 1..]
    && var domain := s[at + 1..];
       |domain| >= 3 && '.' in domain[1..|domain| - 1]
  }

  lemma ValidateEmailSound(s: string)
    requires ValidateEmail(s)
    ensures MatchesPattern(s)
  {
    var at := IndexOf(s, '@');
    var domain := s[at + 1..];
    var k :| 0 <= k < |domain[1..|domain| - 1]| && domain[1..|domain| - 1][k] == '.';
    var dot := at + 2 + k;
    assert s[dot] == '.';
    assert AllPlain(s[..at]) by {
      forall i | 0 <= i < at ensures IsPlain(s[..at][i]) {
        assert s[..at][i] in s[..at];
      }
    }
    var name, tail := s[at + 1..dot], s[dot + 1..];
    assert AllPlain(name) by {
      forall i | 0 <= i < |name| ensures IsPlain(name[i]) {
        assert name[i] == domain[i];
        assert domain[i] in domain;
      }
    }
    assert AllPlain(tail) by {
      forall i | 0 <= i < |tail| ensures IsPlain(tail[i]) {
        assert tail[i] == domain[dot - at + i];
        assert domain[dot - at + i] in domain;
      }
    }
    assert MatchesAt(s, at, dot);
  }

  lemma ValidateEmailComplete(s: string, at: int, dot: int)
    requires MatchesAt(s, at, dot)
    ensures ValidateEmail(s)
  {
    assert s == s[..at] + [s[at]] + s[at + 1..dot] + [s[dot]] + s[dot + 1..];
    assert '@' !in s[..at] by {
      forall i | 0 <= i < at ensures s[..at][i] != '@' {
        assert IsPlain(s[..at][i]);
      }
    }
    var first := IndexOf(s, '@');
    assert forall j :: 0 <= j < at ==> s[j] == s[..at][j];
    assert first == at;
    assert NoSpace(s) by {
      forall i | 0 <= i < |s| ensures !IsSpace(s[i]) {
        if i < at {
          assert s[i] == s[..at][i];
        } else if at < i < dot {
          assert s[i] == s[at + 1..dot][i - at - 1];
        } else if dot < i {
          assert s[i] == s[dot + 1..][i - dot - 1];
        }
      }
    }
    var domain := s[at + 1..];
    assert '@' !in domain by {
      forall j | 0 <= j < |domain| ensures domain[j] != '@' {
        var i := at + 1 + j;
        if i < dot {
          assert s[i] == s[at + 1..dot][i - at - 1];
        } else if dot < i {
          assert s[i] == s[dot + 1..][i - dot - 1];
        }
      }
    }
    assert domain[1..|domain| - 1][dot - at - 2] == '.';
  }

  /** The character check and the pattern accept exactly the same strings. */
  lemma ValidateEmailMatchesPattern(s: string)
    ensures ValidateEmail(s) <==> MatchesPattern(s)
  {
    if ValidateEmail(s) {
      ValidateEmailSound(s);
    }
    if MatchesPattern(s) {
      var at, dot :| MatchesAt(s, at, dot);
      ValidateEmailComplete(s, at, dot);
    }
  }

  /** An accepted address has no whitespace, so `trim` leaves it as it is. */
  lemma ValidEmailIsTrimmed(s: string)
    requires ValidateEmail(s)
    ensures Trim(s) == s
  {
    TrimNoSpace(s);
  }
}
