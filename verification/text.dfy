/** The `System.String` operations the client's command parser relies on:
    `char.IsWhiteSpace`, `string.IsNullOrWhiteSpace`, `StartsWith`, `Replace`
    and `Trim`, over `seq<char>`. */
module Text {
  import opened Wrappers

  /** `char.IsWhiteSpace`: the Unicode space, line and paragraph separators
      plus the control characters U+0009..U+000D and U+0085. */
  predicate IsWhiteSpace(c: char) {
    || ('\t' <= c <= '\r')
    || c == ' ' || c == '\U{0085}' || c == '\U{00A0}' || c == '\U{1680}'
    || ('\U{2000}' <= c <= '\U{200A}')
    || c == '\U{2028}' || c == '\U{2029}' || c == '\U{202F}' || c == '\U{205F}' || c == '\U{3000}'
  }

  predicate AllWhiteSpace(s: string) {
    forall i :: 0 <= i < |s| ==> IsWhiteSpace(s[i])
  }

  /** `string.IsNullOrWhiteSpace`; `None` is the null reference. */
  predicate IsNullOrWhiteSpace(s: Option<string>) {
    s.None? || AllWhiteSpace(s.value)
  }

  /** Ordinal `s.StartsWith(prefix)`. */
  predicate StartsWith(s: string, prefix: string) {
    prefix <= s
  }

  /** `pat` occurs in `s` starting at index `i`. */
  predicate OccursAt(s: string, pat: string, i: int) {
    0 <= i && i + |pat| <= |s| && s[i..i + |pat|] == pat
  }

  ghost predicate Contains(s: string, pat: string) {
    exists i :: OccursAt(s, pat, i)
  }

  /** Nothing to strip at either end: the shape `Trim` produces. */
  predicate IsTrimmed(s: string) {
    s == [] || (!IsWhiteSpace(s[0]) && !IsWhiteSpace(s[|s| - 1]))
  }

  /** Ordinal `s.Replace(pat, rep)`: scans left to right and replaces every
      non-overlapping occurrence of `pat`; the replacement text is not
      rescanned. .NET rejects an empty `pat`. */
  function ReplaceAll(s: string, pat: string, rep: string): (r: string)
    requires |pat| > 0
    ensures rep == [] ==> |r| <= |s|
    decreases |s|
  {
    if |s| < |pat| then s
    else if StartsWith(s, pat) then rep + ReplaceAll(s[|pat|..], pat, rep)
    else [s[0]] + ReplaceAll(s[1..], pat, rep)
  }

  /** `TrimStart()`: drops the longest all-white-space prefix. */
  function TrimStart(s: string): string
    decreases |s|
  {
    if |s| > 0 && IsWhiteSpace(s[0]) then TrimStart(s[1..]) else s
  }

  /** `TrimEnd()`: drops the longest all-white-space suffix. */
  function TrimEnd(s: string): string
    decreases |s|
  {
    if |s| > 0 && IsWhiteSpace(s[|s| - 1]) then TrimEnd(s[..|s| - 1]) else s
  }

  /** `Trim()`: the text between the leading and the trailing white space. */
  function Trim(s: string): string {
    TrimEnd(TrimStart(s))
  }

  /** `TrimStart` keeps a suffix and drops only white space. */
  lemma {:induction false} TrimStartDropsWhiteSpace(s: string)
    ensures |TrimStart(s)| <= |s| && TrimStart(s) == s[|s| - |TrimStart(s)|..]
    ensures AllWhiteSpace(s[..|s| - |TrimStart(s)|])
    decreases |s|
  {
    if |s| > 0 && IsWhiteSpace(s[0]) {
      var t := s[1..];
      var r := TrimStart(t);
      TrimStartDropsWhiteSpace(t);
      var k := |t| - |r|;
      assert s[..k + 1] == [s[0]] + t[..k];
      assert t[k..] == s[k + 1..];
    }
  }

  /** `TrimStart` stops at the first character that is not white space, so
      it yields the empty string exactly for all-white-space input. */
  lemma {:induction false} TrimStartStops(s: string)
    ensures TrimStart(s) == [] || !IsWhiteSpace(TrimStart(s)[0])
    ensures TrimStart(s) == [] <==> AllWhiteSpace(s)
    decreases |s|
  {
    if |s| > 0 && IsWhiteSpace(s[0]) {
      var t := s[1..];
      TrimStartStops(t);
      assert AllWhiteSpace(s) <==> AllWhiteSpace(t) by {
        assert forall i :: 0 <= i < |t| ==> t[i] == s[i + 1];
      }
    } else if |s| > 0 {
      assert !AllWhiteSpace(s) by { assert !IsWhiteSpace(s[0]); }
    }
  }

  /** `TrimEnd` keeps a prefix, drops only white space, and stops at the
      last character that is not white space. */
  lemma {:induction false} TrimEndDropsWhiteSpace(s: string)
    ensures |TrimEnd(s)| <= |s| && TrimEnd(s) == s[..|TrimEnd(s)|]
    ensures AllWhiteSpace(s[|TrimEnd(s)|..])
    ensures TrimEnd(s) == [] || !IsWhiteSpace(TrimEnd(s)[|TrimEnd(s)| - 1])
    ensures TrimEnd(s) == [] <==> AllWhiteSpace(s)
    decreases |s|
  {
    if |s| > 0 && IsWhiteSpace(s[|s| - 1]) {
      var r := TrimEnd(s[..|s| - 1]);
      TrimEndDropsWhiteSpace(s[..|s| - 1]);
      assert s[|r|..] == s[..|s| - 1][|r|..] + [s[|s| - 1]];
      assert s[..|s| - 1][..|r|] == s[..|r|];
      assert s == s[..|s| - 1] + [s[|s| - 1]];
    }
  }

  /** `Trim` leaves nothing to strip, never grows its input, and yields the
      empty string exactly for all-white-space input. */
  lemma TrimShape(s: string)
    ensures IsTrimmed(Trim(s))
    ensures |Trim(s)| <= |s|
    ensures Trim(s) == [] <==> AllWhiteSpace(s)
  {
    var t := TrimStart(s);
    TrimStartDropsWhiteSpace(s);
    TrimStartStops(s);
    TrimEndDropsWhiteSpace(t);
    if t != [] {
      assert !AllWhiteSpace(t) by { assert !IsWhiteSpace(t[0]); }
      assert Trim(s) != [] ==> Trim(s)[0] == t[0];
    }
  }

  // ---------------------------------------------------------------------
  // Trim is the unique "white space + trimmed core + white space" split

  lemma {:induction false} TrimStartSkipsWhiteSpace(lead: string, x: string)
    requires AllWhiteSpace(lead)
    ensures TrimStart(lead + x) == TrimStart(x)
    decreases |lead|
  {
    if lead != [] {
      var s := lead + x;
      assert s[0] == lead[0];
      assert s[1..] == lead[1..] + x;
      TrimStartSkipsWhiteSpace(lead[1..], x);
    } else {
      assert lead + x == x;
    }
  }

  lemma {:induction false} TrimEndSkipsWhiteSpace(x: string, trail: string)
    requires AllWhiteSpace(trail)
    ensures TrimEnd(x + trail) == TrimEnd(x)
    decreases |trail|
  {
    if trail != [] {
      var s := x + trail;
      assert s[|s| - 1] == trail[|trail| - 1];
      assert s[..|s| - 1] == x + trail[..|trail| - 1];
      TrimEndSkipsWhiteSpace(x, trail[..|trail| - 1]);
    } else {
      assert x + trail == x;
    }
  }

  /** Whatever white space surrounds a trimmed text, `Trim` recovers exactly
      that text: the characterisation of `Trim` independent of how it scans. */
  lemma {:induction false} TrimRecoversCore(lead: string, core: string, trail: string)
    requires AllWhiteSpace(lead) && AllWhiteSpace(trail)
    requires IsTrimmed(core)
    ensures Trim(lead + core + trail) == core
  {
    var rest := core + trail;
    assert lead + core + trail == lead + rest;
    TrimStartSkipsWhiteSpace(lead, rest);
    if core == [] {
      assert rest == trail;
      TrimStartStops(trail);
    } else {
      assert rest[0] == core[0];
      assert TrimStart(rest) == rest;
      TrimEndSkipsWhiteSpace(core, trail);
    }
  }

  /** A blank line is exactly one that trims to nothing. */
  lemma BlankIffTrimsToEmpty(s: string)
    ensures IsNullOrWhiteSpace(Some(s)) <==> Trim(s) == []
  {
    TrimShape(s);
  }

  // ---------------------------------------------------------------------
  // Replace

  lemma AbsentFromTail(s: string, pat: string)
    requires |s| > 0 && !Contains(s, pat)
    ensures !Contains(s[1..], pat)
  {
    forall i | 0 <= i && i + |pat| <= |s| - 1
      ensures !OccursAt(s[1..], pat, i)
    {
      assert s[1..][i..i + |pat|] == s[i + 1..i + 1 + |pat|];
      assert !OccursAt(s, pat, i + 1);
    }
  }

  /** Text without `pat` passes through unchanged. */
  lemma {:induction false} ReplaceAbsent(s: string, pat: string, rep: string)
    requires |pat| > 0
    requires !Contains(s, pat)
    ensures ReplaceAll(s, pat, rep) == s
    decreases |s|
  {
    if |s| >= |pat| {
      assert !OccursAt(s, pat, 0);
      assert s[..|pat|] == s[0..0 + |pat|];
      AbsentFromTail(s, pat);
      ReplaceAbsent(s[1..], pat, rep);
    }
  }

  /** An occurrence at the very start is replaced and scanning resumes
      after it. */
  lemma ReplaceAtStart(pat: string, t: string, rep: string)
    requires |pat| > 0
    ensures ReplaceAll(pat + t, pat, rep) == rep + ReplaceAll(t, pat, rep)
  {
    assert StartsWith(pat + t, pat);
    assert (pat + t)[|pat|..] == t;
  }

  /** A first character at which `pat` does not start is kept, and the
      scan resumes right after it. */
  lemma ReplaceSkipsHead(c: char, s: string, pat: string, rep: string)
    requires |pat| > 0 && !StartsWith([c] + s, pat)
    ensures ReplaceAll([c] + s, pat, rep) == [c] + ReplaceAll(s, pat, rep)
  {
    assert ([c] + s)[1..] == s;
  }

  /** Prepending a character that cannot begin `pat` passes it through
      unchanged, whatever follows. */
  lemma ReplaceSkipsChar(c: char, s: string, pat: string, rep: string)
    requires |pat| > 0 && c != pat[0]
    ensures ReplaceAll([c] + s, pat, rep) == [c] + ReplaceAll(s, pat, rep)
  {
    assert ([c] + s)[0] == c;
    ReplaceSkipsHead(c, s, pat, rep);
  }

  /** Non-empty pattern-free text followed by a two-character pattern with
      distinct characters does not start with that pattern. */
  lemma NoMatchBefore(a: string, pat: string, b: string)
    requires |pat| == 2 && pat[0] != pat[1]
    requires a != [] && !Contains(a, pat)
    ensures !StartsWith(a + pat + b, pat)
  {
    var s := a + pat + b;
    if |a| >= 2 {
      assert s[..2] == a[0..0 + 2];
      assert !OccursAt(a, pat, 0);
    } else {
      assert s[1] == pat[0];
    }
  }

  /** For a two-character pattern whose characters differ, the scan cannot
      run from pattern-free text into the next occurrence: that occurrence
      is replaced and the text before it kept. */
  lemma {:induction false} ReplaceUpTo(a: string, pat: string, rep: string, b: string)
    requires |pat| == 2 && pat[0] != pat[1]
    requires !Contains(a, pat)
    ensures ReplaceAll(a + pat + b, pat, rep) == a + rep + ReplaceAll(b, pat, rep)
    decreases |a|
  {
    if a == [] {
      assert a + pat + b == pat + b;
      ReplaceAtStart(pat, b, rep);
    } else {
      var t := a[1..] + pat + b;
      assert a + pat + b == [a[0]] + t;
      NoMatchBefore(a, pat, b);
      ReplaceSkipsHead(a[0], t, pat, rep);
      AbsentFromTail(a, pat);
      ReplaceUpTo(a[1..], pat, rep, b);
      assert a == [a[0]] + a[1..];
    }
  }

  /** The replacement is not rescanned: removing `/j` from `//jj` leaves a
      `/j` formed by the text around the removed one. */
  lemma ReplaceDoesNotRescan()
    ensures ReplaceAll("//jj", "/j", "") == "/j"
  {
    var s := "//jj";
    assert !StartsWith(s, "/j") by { assert s[1] != 'j'; }
    assert s[1..] == "/jj";
    ReplaceAtStart("/j", "j", "");
    assert ReplaceAll("j", "/j", "") == "j";
  }
}
