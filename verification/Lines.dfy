/** The Python string operations the stage report uses on lines: strip, rstrip and
    startswith. */
module Lines {

  /** str.isspace for one character. */
  predicate IsSpace(c: char) {
    || '\t' <= c <= '\r' || '\U{1c}' <= c <= ' '
    || c == '\U{85}' || c == '\U{a0}' || c == '\U{1680}' || '\U{2000}' <= c <= '\U{200a}'
    || c == '\U{2028}' || c == '\U{2029}' || c == '\U{202f}' || c == '\U{205f}' || c == '\U{3000}'
  }

  /** s.lstrip() */
  function LStrip(s: string): (t: string)
    ensures t == [] || !IsSpace(t[0])
    ensures |t| <= |s| && t == s[|s| - |t|..]
  {
    if s != [] && IsSpace(s[0]) then LStrip(s[1..]) else s
  }

  /** s.rstrip() */
  function RStrip(s: string): (t: string)
    ensures t == [] || !IsSpace(t[|t| - 1])
    ensures t <= s
  {
    if s != [] && IsSpace(s[|s| - 1]) then RStrip(s[..|s| - 1]) else s
  }

  /** s.rstrip('\n') */
  function RStripNewline(s: string): (t: string)
    ensures t <= s
  {
    if s != [] && s[|s| - 1] == '\n' then RStripNewline(s[..|s| - 1]) else s
  }

  /** s.strip() */
  function Strip(s: string): string {
    LStrip(RStrip(s))
  }

  predicate Blank(s: string) {
    Strip(s) == ""
  }

  predicate StartsWith(s: string, prefix: string) {
    prefix <= s
  }

  predicate AllSpace(s: string) {
    forall i | 0 <= i < |s| :: IsSpace(s[i])
  }

  lemma {:induction false} RStripExact(s: string) returns (rest: string)
    ensures s == RStrip(s) + rest && AllSpace(rest)
    ensures RStrip(s) == "" || !IsSpace(RStrip(s)[|RStrip(s)| - 1])
  {
    rest := "";
    if s != "" && IsSpace(s[|s| - 1]) {
      var less := RStripExact(s[..|s| - 1]);
      rest := less + [s[|s| - 1]];
      assert s == s[..|s| - 1] + [s[|s| - 1]];
    }
  }

  lemma LStripExact(s: string) returns (front: string)
    ensures s == front + LStrip(s) && AllSpace(front)
  {
    var n := |s| - |LStrip(s)|;
    front := s[..n];
    forall i | 0 <= i < n
      ensures IsSpace(front[i])
    {
      LStripDropsSpaces(s, i);
    }
  }

  /** strip takes off the spaces at both ends, and no more. */
  lemma StripExact(s: string) returns (front: string, back: string)
    ensures s == front + Strip(s) + back && AllSpace(front) && AllSpace(back)
    ensures Strip(s) == "" || (!IsSpace(Strip(s)[0]) && !IsSpace(Strip(s)[|Strip(s)| - 1]))
  {
    back := RStripExact(s);
    front := LStripExact(RStrip(s));
    StripEnds(RStrip(s));
  }

  lemma StripEnds(t: string)
    requires t == "" || !IsSpace(t[|t| - 1])
    ensures LStrip(t) == "" || (!IsSpace(LStrip(t)[0]) && !IsSpace(LStrip(t)[|LStrip(t)| - 1]))
  {
    if LStrip(t) != "" {
      assert LStrip(t)[|LStrip(t)| - 1] == t[|t| - 1];
    }
  }

  predicate AllBreaks(s: string) {
    forall i | 0 <= i < |s| :: s[i] == '\n'
  }

  /** rstrip('\n') takes off the line breaks at the end, and no more. */
  lemma {:induction false} RStripNewlineExact(s: string) returns (breaks: string)
    ensures s == RStripNewline(s) + breaks && AllBreaks(breaks)
    ensures RStripNewline(s) == "" || RStripNewline(s)[|RStripNewline(s)| - 1] != '\n'
  {
    breaks := "";
    if s != "" && s[|s| - 1] == '\n' {
      var less := RStripNewlineExact(s[..|s| - 1]);
      breaks := less + [s[|s| - 1]];
      assert s == s[..|s| - 1] + [s[|s| - 1]];
    }
  }

  /** A blank line is one of nothing but spaces. */
  lemma BlankExactly(s: string)
    ensures Blank(s) <==> AllSpace(s)
  {
    var front, back := StripExact(s);
    assert Strip(s) != "" ==> s[|front|] == Strip(s)[0];
    if Strip(s) == "" {
      assert s == front + back;
    }
  }

  lemma {:induction false} NewlineThenRStrip(s: string)
    ensures RStrip(RStripNewline(s)) == RStrip(s)
  {
    if s != [] && s[|s| - 1] == '\n' {
      NewlineThenRStrip(s[..|s| - 1]);
    }
  }

  /** Stripped text has nothing left to strip. */
  lemma StripStable(s: string)
    ensures RStrip(RStrip(s)) == RStrip(s) && RStripNewline(RStrip(s)) == RStrip(s)
    ensures Strip(RStrip(s)) == Strip(s)
    ensures RStrip(Strip(s)) == Strip(s) && RStripNewline(Strip(s)) == Strip(s)
    ensures Strip(Strip(s)) == Strip(s)
  {
    var t := RStrip(s);
    var u := LStrip(t);
    if u != [] {
      assert u[|u| - 1] == t[|t| - 1];
    }
  }

  /** A line whose first character is not a space keeps it when stripped. */
  lemma StripKeepsFront(s: string)
    requires s != [] && !IsSpace(s[0])
    ensures Strip(s) != "" && Strip(s)[0] == s[0] && Strip(s) <= s
  {
    RStripKeepsFront(s);
  }

  lemma {:induction false} RStripKeepsFront(s: string)
    requires s != [] && !IsSpace(s[0])
    ensures RStrip(s) != "" && RStrip(s)[0] == s[0]
  {
    if IsSpace(s[|s| - 1]) {
      RStripKeepsFront(s[..|s| - 1]);
    }
  }

  lemma {:induction false} RStripKeepsPrefix(s: string, n: nat)
    requires 0 < n <= |s| && !IsSpace(s[n - 1])
    ensures |RStrip(s)| >= n && RStrip(s)[..n] == s[..n]
    decreases |s|
  {
    if IsSpace(s[|s| - 1]) {
      var t := s[..|s| - 1];
      RStripKeepsPrefix(t, n);
      assert t[..n] == s[..n];
    }
  }

  /** lstrip takes nothing but spaces. */
  lemma {:induction false} LStripDropsSpaces(s: string, i: nat)
    requires i < |s| - |LStrip(s)|
    ensures IsSpace(s[i])
  {
    if i > 0 {
      LStripDropsSpaces(s[1..], i - 1);
    }
  }

  /** Text beyond the word and one more character shows when stripped. */
  lemma StripTooLong(s: string, word: string)
    requires word <= s && |word| + 1 < |s| && !IsSpace(s[|word| + 1])
    ensures Strip(s) != word
  {
    var t := RStrip(s);
    RStripKeepsPrefix(s, |word| + 2);
    assert t[|word| + 1] == s[|word| + 1] by {
      assert t[..|word| + 2] == s[..|word| + 2];
    }
    assert word != "" ==> t[0] == s[0] == word[0];
    if LStrip(t) == word {
      LStripDropsSpaces(t, 0);
      if word == "" {
        LStripDropsSpaces(t, 1);
      }
      assert false;
    }
  }

  lemma StripShrinks(s: string)
    ensures |Strip(s)| <= |s|
  {
  }

  /** Spaces in front of a line make no difference to strip. */
  lemma {:induction false} StripDropsFront(c: char, s: string)
    requires IsSpace(c)
    ensures Strip([c] + s) == Strip(s)
  {
    var t := [c] + s;
    if s == [] {
      assert t[..0] == [];
      assert RStrip(t) == RStrip(t[..|t| - 1]);
    } else if IsSpace(s[|s| - 1]) {
      assert t[|t| - 1] == s[|s| - 1] && t[..|t| - 1] == [c] + s[..|s| - 1];
      StripDropsFront(c, s[..|s| - 1]);
    } else {
      assert t[|t| - 1] == s[|s| - 1];
      assert t[1..] == s;
    }
  }
}
