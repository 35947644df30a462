/**
 * The contact form's email check, the regular expression
 * `^[^\s@]+@[^\s@]+\.[^\s@]+$`: a home-grown `local@domain.tld` shape, not
 * the address grammar of RFC 5322.
 */
module Email {
  import opened Text

  /** A character of the class `[^\s@]`. */
  predicate Plain(c: char)
  {
    !IsWhitespace(c) && c != '@'
  }

  predicate AllPlain(s: string)
  {
    forall i :: 0 <= i < |s| ==> Plain(s[i])
  }

  /**
   * The regular expression matches `s` with its `@` at `at` and the `.`
   * before the last run at `dot`: three non-empty runs of `[^\s@]` around them.
   */
  predicate MatchesAt(s: string, at: int, dot: int)
  {
    && 0 < at && at + 1 < dot && dot + 1 < |s|
    && s[at] == '@' && s[dot] == '.'
    && AllPlain(s[..at]) && AllPlain(s[at + 1..dot]) && AllPlain(s[dot + 1..])
  }

  /** `/^[^\s@]+@[^\s@]+\.[^\s@]+$/.test(s)`. */
  predicate RegexMatch(s: string)
    ensures RegexMatch(s) ==> |s| >= 5 && '@' in s && '.' in s
  {
    exists at, dot | 0 <= at < |s| && 0 <= dot < |s| :: MatchesAt(s, at, dot)
  }

  /** `at` is the one position of `@` in `s`. */
  predicate OnlyAt(s: string, at: int)
  {
    0 <= at < |s| && s[at] == '@' && forall i :: 0 <= i < |s| && s[i] == '@' ==> i == at
  }

  /** `d` has a `.` that is neither its first nor its last character. */
  predicate DotInside(d: string)
  {
    exists j :: 0 < j < |d| - 1 && d[j] == '.'
  }

  /**
   * The shape in words: no whitespace, exactly one `@`, something before it,
   * and after it a `.` that is neither first nor last.
   */
  predicate EmailShape(s: string)
  {
    && (forall i :: 0 <= i < |s| ==> !IsWhitespace(s[i]))
    && exists at | 0 <= at < |s| :: OnlyAt(s, at) && at > 0 && DotInside(s[at + 1..])
  }

  /** The regular expression accepts exactly the strings of the described shape. */
  lemma RegexIffShape(s: string)
    ensures RegexMatch(s) <==> EmailShape(s)
  {
    if RegexMatch(s) {
      var at, dot :| 0 <= at < |s| && 0 <= dot < |s| && MatchesAt(s, at, dot);
      MatchHasShape(s, at, dot);
    }
    if EmailShape(s) {
      var at :| 0 <= at < |s| && OnlyAt(s, at) && at > 0 && DotInside(s[at + 1..]);
      ShapeHasMatch(s, at);
    }
  }

  lemma MatchHasShape(s: string, at: int, dot: int)
    requires MatchesAt(s, at, dot)
    ensures EmailShape(s)
  {
    forall i | 0 <= i < |s|
      ensures !IsWhitespace(s[i]) && (s[i] == '@' ==> i == at)
    {
      if i < at {
        assert s[..at][i] == s[i];
      } else if at < i < dot {
        assert s[at + 1..dot][i - at - 1] == s[i];
      } else if dot < i {
        assert s[dot + 1..][i - dot - 1] == s[i];
      }
    }
    assert s[at + 1..][dot - at - 1] == '.';
    assert OnlyAt(s, at);
  }

  lemma ShapeHasMatch(s: string, at: int)
    requires forall i :: 0 <= i < |s| ==> !IsWhitespace(s[i])
    requires OnlyAt(s, at) && at > 0 && DotInside(s[at + 1..])
    ensures RegexMatch(s)
  {
    var j :| 0 < j < |s[at + 1..]| - 1 && s[at + 1..][j] == '.';
    var dot := at + 1 + j;
    assert s[dot] == '.';
    PlainSlice(s, 0, at, at);
    PlainSlice(s, at + 1, dot, at);
    PlainSlice(s, dot + 1, |s|, at);
    assert MatchesAt(s, at, dot);
  }

  /** A slice that avoids whitespace everywhere and `@` outside position `at`, but skips `at`, is plain. */
  lemma PlainSlice(s: string, lo: int, hi: int, at: int)
    requires 0 <= lo <= hi <= |s| && !(lo <= at < hi)
    requires forall i :: 0 <= i < |s| ==> !IsWhitespace(s[i])
    requires OnlyAt(s, at)
    ensures AllPlain(s[lo..hi])
  {
    forall i | 0 <= i < hi - lo
      ensures Plain(s[lo..hi][i])
    {
      assert s[lo..hi][i] == s[lo + i];
    }
  }

  /** The regular expression run as a single left-to-right scan. */
  method MatchEmail(s: string) returns (ok: bool)
    ensures ok <==> RegexMatch(s)
    ensures ok <==> EmailShape(s)
  {
    RegexIffShape(s);
    var at := |s|;
    var i := 0;
    while i < |s|
      invariant 0 <= i <= |s| && 0 <= at <= |s|
      invariant forall k :: 0 <= k < i ==> !IsWhitespace(s[k])
      invariant at == |s| ==> forall k :: 0 <= k < i ==> s[k] != '@'
      invariant at < |s| ==> at < i && s[at] == '@' && forall k :: 0 <= k < i && s[k] == '@' ==> k == at
    {
      if IsWhitespace(s[i]) {
        return false;
      }
      if s[i] == '@' {
        if at < |s| {
          assert !OnlyAt(s, at) && !OnlyAt(s, i);
          return false;
        }
        at := i;
      }
      i := i + 1;
    }
    if at == |s| || at == 0 {
      return false;
    }
    assert OnlyAt(s, at);
    var j := at + 2;
    while j < |s| - 1
      invariant at + 2 <= j
      invariant forall k :: at + 2 <= k < j && k < |s| - 1 ==> s[k] != '.'
    {
      if s[j] == '.' {
        assert s[at + 1..][j - at - 1] == '.';
        return true;
      }
      j := j + 1;
    }
    assert !DotInside(s[at + 1..]) by {
      var d := s[at + 1..];
      forall k | 0 < k < |d| - 1 ensures d[k] != '.' {
        assert d[k] == s[at + 1 + k];
      }
    }
    return false;
  }
}
