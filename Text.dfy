/** String helpers shared by the page and the API routes.
    Strings are sequences of Unicode scalar values; whitespace and case are
    the ASCII subset of what JavaScript's `trim`, `toLowerCase` and the regex class `\s`
    act on. */
module Text {

  /** ASCII whitespace: the characters `trim` strips and `\s` matches within ASCII. */
  predicate IsSpace(c: char) {
    c == ' ' || c == '\t' || c == '\n' || c == '\r' || c == '\U{B}' || c == '\U{C}'
  }

  predicate IsUpper(c: char) { 'A' <= c <= 'Z' }

  predicate IsAlphanumeric(c: char) {
    'a' <= c <= 'z' || 'A' <= c <= 'Z' || '0' <= c <= '9'
  }

  function LowerChar(c: char): char {
    if IsUpper(c) then (c as int + 32) as char else c
  }

  /** `s.toLowerCase()` on ASCII letters. */
  function ToLower(s: string): (r: string)
    ensures |r| == |s|
    ensures forall i :: 0 <= i < |s| ==> !IsUpper(r[i])
    ensures forall i :: 0 <= i < |s| ==> !IsUpper(s[i]) ==> r[i] == s[i]
    ensures forall i :: 0 <= i < |s| ==> IsUpper(s[i]) ==>
      'a' <= r[i] <= 'z' && r[i] as int - 'a' as int == s[i] as int - 'A' as int
  {
    seq(|s|, i requires 0 <= i < |s| => LowerChar(s[i]))
  }

  /** `trim` at the front: drops the leading whitespace, nothing else. */
  function TrimStart(s: string): (r: string)
    ensures |r| <= |s| && r == s[|s| - |r|..]
    ensures forall i :: 0 <= i < |s| - |r| ==> IsSpace(s[i])
    ensures r == [] || !IsSpace(r[0])
  {
    if |s| > 0 && IsSpace(s[0]) then TrimStart(s[1..]) else s
  }

  /** `trim` at the back: drops the trailing whitespace, nothing else. */
  function TrimEnd(s: string): (r: string)
    ensures |r| <= |s| && r == s[..|r|]
    ensures forall i :: |r| <= i < |s| ==> IsSpace(s[i])
    ensures r == [] || !IsSpace(r[|r| - 1])
  {
    if |s| > 0 && IsSpace(s[|s| - 1]) then TrimEnd(s[..|s| - 1]) else s
  }

  predicate NoSpace(s: string) {
    forall i :: 0 <= i < |s| ==> !IsSpace(s[i])
  }

  /** Only whitespace, or nothing at all. */
  predicate Blank(s: string) {
    forall i :: 0 <= i < |s| ==> IsSpace(s[i])
  }

  /** `s.trim()`: a slice of `s` with only whitespace before and after it,
      and no whitespace left at either end. */
  function Trim(s: string): (r: string)
    ensures |r| <= |s|
    ensures exists k :: 0 <= k && k + |r| <= |s| && r == s[k..k + |r|] && Blank(s[..k]) && Blank(s[k + |r|..])
    ensures r == [] || (!IsSpace(r[0]) && !IsSpace(r[|r| - 1]))
  {
    var u := TrimStart(s);
    var t := TrimEnd(u);
    assert t != [] ==> t[0] == u[0];
    CutSlices(s, u, t);
    t
  }

  /** Cutting whitespace off the front of `s` and then off the back of what
      is left keeps one slice of `s`, with whitespace only on either side. */
  lemma CutSlices(s: string, u: string, t: string)
    requires |u| <= |s| && u == s[|s| - |u|..] && forall i :: 0 <= i < |s| - |u| ==> IsSpace(s[i])
    requires |t| <= |u| && t == u[..|t|] && forall i :: |t| <= i < |u| ==> IsSpace(u[i])
    ensures var k := |s| - |u|;
      k + |t| <= |s| && t == s[k..k + |t|] && Blank(s[..k]) && Blank(s[k + |t|..])
  {
    var k := |s| - |u|;
    var head, tail := s[..k], s[k + |t|..];
    assert Blank(head) by {
      forall i | 0 <= i < |head| ensures IsSpace(head[i]) {
        assert head[i] == s[i];
      }
    }
    assert Blank(tail) by {
      forall i | 0 <= i < |tail| ensures IsSpace(tail[i]) {
        assert tail[i] == u[|t| + i];
      }
    }
  }

  /** A string with no whitespace at either end is its own trim. */
  lemma TrimEnds(s: string)
    ensures (s == [] || (!IsSpace(s[0]) && !IsSpace(s[|s| - 1]))) ==> Trim(s) == s
  {
    var u := TrimStart(s);
    assert u != [] ==> u[|u| - 1] == s[|s| - 1];
  }

  /** `trim` is idempotent. */
  lemma TrimIdempotent(s: string)
    ensures Trim(Trim(s)) == Trim(s)
  {
    TrimEnds(s);
    TrimEnds(Trim(s));
  }

  /** The trimmed string is empty exactly when the input is all whitespace. */
  lemma TrimEmptyIffBlank(s: string)
    ensures Trim(s) == [] <==> Blank(s)
  {
    var u := TrimStart(s);
    assert u != [] ==> u[0] == s[|s| - |u|];
  }

  /** A string without whitespace is unchanged by `trim`. */
  lemma TrimNoSpace(s: string)
    requires NoSpace(s)
    ensures Trim(s) == s
  {
    TrimEnds(s);
  }

  lemma {:induction false} TrimStartLower(s: string)
    ensures TrimStart(ToLower(s)) == ToLower(TrimStart(s))
    decreases |s|
  {
    if s != [] {
      assert IsSpace(ToLower(s)[0]) == IsSpace(s[0]);
    }
    if |s| > 0 && IsSpace(s[0]) {
      assert ToLower(s)[1..] == ToLower(s[1..]);
      TrimStartLower(s[1..]);
    }
  }

  lemma {:induction false} TrimEndLower(s: string)
    ensures TrimEnd(ToLower(s)) == ToLower(TrimEnd(s))
    decreases |s|
  {
    if s != [] {
      assert IsSpace(ToLower(s)[|s| - 1]) == IsSpace(s[|s| - 1]);
    }
    if |s| > 0 && IsSpace(s[|s| - 1]) {
      assert ToLower(s)[..|s| - 1] == ToLower(s[..|s| - 1]);
      TrimEndLower(s[..|s| - 1]);
    }
  }

  /** The page normalises with `trim().toLowerCase()`, the route with
      `toLowerCase().trim()`: on this alphabet the two agree. */
  lemma TrimLowerCommute(s: string)
    ensures Trim(ToLower(s)) == ToLower(Trim(s))
  {
    TrimStartLower(s);
    TrimEndLower(TrimStart(s));
  }

  /** `toLowerCase` is idempotent. */
  lemma ToLowerIdempotent(s: string)
    ensures ToLower(ToLower(s)) == ToLower(s)
  {
  }

  /** `sub` occurs in `s` starting at index `i`. */
  ghost predicate OccursAt(s: string, sub: string, i: int) {
    0 <= i && i + |sub| <= |s| && s[i..i + |sub|] == sub
  }

  /** `s.includes(sub)`: a left-to-right scan for an occurrence. */
  function Includes(s: string, sub: string): (b: bool)
    ensures b <==> exists i :: OccursAt(s, sub, i)
    decreases |s|
  {
    if |sub| > |s| then
      false
    else if s[..|sub|] == sub then
      assert OccursAt(s, sub, 0);
      true
    else
      var rest := Includes(s[1..], sub);
      assert forall i :: OccursAt(s[1..], sub, i) <==> OccursAt(s, sub, i + 1) by {
        forall i ensures OccursAt(s[1..], sub, i) <==> OccursAt(s, sub, i + 1) {
          if 0 <= i && i + |sub| <= |s| - 1 {
            assert s[1..][i..i + |sub|] == s[i + 1..i + 1 + |sub|];
          }
        }
      }
      assert !OccursAt(s, sub, 0);
      assert (exists i :: OccursAt(s, sub, i)) ==> exists i :: OccursAt(s[1..], sub, i) by {
        if exists i :: OccursAt(s, sub, i) {
          var i :| OccursAt(s, sub, i);
          assert OccursAt(s[1..], sub, i - 1);
        }
      }
      rest
  }

  /** `xs.join(sep)`: nothing for no pieces, otherwise text that starts with
      the first piece. */
  function Join(xs: seq<string>, sep: char): (r: string)
    ensures xs == [] ==> r == []
    ensures xs != [] ==> |xs[0]| <= |r| && r[..|xs[0]|] == xs[0]
  {
    if xs == [] then []
    else if |xs| == 1 then xs[0]
    else xs[0] + [sep] + Join(xs[1..], sep)
  }

  /** Splitting at every `sep`: the reference inverse of `Join`. */
  function Split(s: string, sep: char): (parts: seq<string>)
    ensures |parts| >= 1
    decreases |s|
  {
    if s == [] then [[]]
    else
      var rest := Split(s[1..], sep);
      if s[0] == sep then [[]] + rest else [[s[0]] + rest[0]] + rest[1..]
  }

  lemma {:induction false} SplitNoSep(x: string, sep: char)
    requires sep !in x
    ensures Split(x, sep) == [x]
    decreases |x|
  {
    if x != [] {
      SplitNoSep(x[1..], sep);
      assert [x[0]] + x[1..] == x;
    }
  }

  lemma {:induction false} SplitAfterPart(x: string, sep: char, t: string)
    requires sep !in x
    ensures Split(x + [sep] + t, sep) == [x] + Split(t, sep)
    decreases |x|
  {
    var s := x + [sep] + t;
    if x == [] {
      assert s[1..] == t;
    } else {
      assert s[1..] == x[1..] + [sep] + t;
      SplitAfterPart(x[1..], sep, t);
      assert [x[0]] + x[1..] == x;
    }
  }

  /** Joining pieces that do not contain the separator and splitting again
      gives the pieces back, in order. */
  lemma {:induction false} SplitJoin(xs: seq<string>, sep: char)
    requires |xs| >= 1
    requires forall k :: 0 <= k < |xs| ==> sep !in xs[k]
    ensures Split(Join(xs, sep), sep) == xs
    decreases |xs|
  {
    if |xs| == 1 {
      SplitNoSep(xs[0], sep);
    } else {
      SplitJoin(xs[1..], sep);
      SplitAfterPart(xs[0], sep, Join(xs[1..], sep));
    }
  }

  /** Joined pieces take their own lengths plus one separator between each pair. */
  lemma {:induction false} JoinLength(xs: seq<string>, sep: char)
    ensures xs != [] ==> |Join(xs, sep)| == TotalLength(xs) + |xs| - 1
    decreases |xs|
  {
    if |xs| > 1 {
      JoinLength(xs[1..], sep);
    }
  }

  function TotalLength(xs: seq<string>): nat {
    if xs == [] then 0 else |xs[0]| + TotalLength(xs[1..])
  }

  /** The joined text ends with the last piece, so it ends in a separator only
      if that piece is empty or does. */
  lemma {:induction false} JoinEndsWithLast(xs: seq<string>, sep: char)
    requires |xs| >= 1
    ensures var j := Join(xs, sep); var last := xs[|xs| - 1];
      |last| <= |j| && j[|j| - |last|..] == last
    decreases |xs|
  {
    if |xs| > 1 {
      JoinEndsWithLast(xs[1..], sep);
      var rest := Join(xs[1..], sep);
      var last := xs[|xs| - 1];
      assert (xs[0] + [sep] + rest)[|xs[0]| + 1 + |rest| - |last|..] == rest[|rest| - |last|..];
    }
  }
}
