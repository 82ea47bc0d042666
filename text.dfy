/**
  Text helpers for the shader loader: substring search (`std::string::find`
  compared with `npos`), the line splitting done by `std::getline`, and the
  inverse of that splitting, which terminates every line with '\n'.
 */
module Text {

  /** `pat` occurs in `s` at position `i`. */
  predicate OccursAt(s: string, pat: string, i: nat) {
    i + |pat| <= |s| && s[i..i + |pat|] == pat
  }

  /** `s.find(pat) != npos`: some window of `s` equals `pat`. */
  function Contains(s: string, pat: string): bool
    decreases |s|
  {
    if |s| < |pat| then false
    else if s[..|pat|] == pat then true
    else Contains(s[1..], pat)
  }

  /** The search agrees with the definition of a substring occurrence. */
  lemma {:induction false} ContainsIff(s: string, pat: string)
    ensures Contains(s, pat) <==> exists i: nat :: OccursAt(s, pat, i)
    decreases |s|
  {
    if |s| < |pat| {
      assert forall i: nat :: !OccursAt(s, pat, i);
    } else if s[..|pat|] == pat {
      assert OccursAt(s, pat, 0);
    } else {
      var t := s[1..];
      ContainsIff(t, pat);
      forall i: nat | OccursAt(t, pat, i)
        ensures OccursAt(s, pat, i + 1)
      {
        assert t[i..i + |pat|] == s[i + 1..i + 1 + |pat|];
      }
      if exists i: nat :: OccursAt(s, pat, i) {
        var i: nat :| OccursAt(s, pat, i);
        assert i != 0;
        assert t[i - 1..i - 1 + |pat|] == s[i..i + |pat|];
        assert OccursAt(t, pat, i - 1);
      }
    }
  }

  /** An occurrence at a known position is found. */
  lemma ContainsAt(s: string, pat: string, i: nat)
    requires OccursAt(s, pat, i)
    ensures Contains(s, pat)
  {
    ContainsIff(s, pat);
  }

  /** A pattern whose first character is absent from `s` is not found in it. */
  lemma {:induction false} MissingFirstChar(s: string, pat: string)
    requires |pat| > 0 && pat[0] !in s
    ensures !Contains(s, pat)
    decreases |s|
  {
    if |s| >= |pat| {
      assert s[..|pat|][0] == s[0];
      MissingFirstChar(s[1..], pat);
    }
  }

  lemma WindowChar(s: string, pat: string, i: nat, j: nat)
    requires OccursAt(s, pat, i) && i <= j < i + |pat|
    ensures s[j] in pat
  {
    assert s[j] == s[i..i + |pat|][j - i];
  }

  /** An occurrence in `a + "\n" + b` that ends before the newline lies in `a`. */
  lemma OccursLeft(a: string, b: string, pat: string, i: nat)
    requires OccursAt(a + "\n" + b, pat, i) && i + |pat| <= |a|
    ensures OccursAt(a, pat, i)
  {
    var c := a + "\n" + b;
    assert c[i..i + |pat|] == a[i..i + |pat|];
  }

  /** An occurrence in `a + "\n" + b` that starts after the newline lies in `b`. */
  lemma OccursRight(a: string, b: string, pat: string, i: nat)
    requires OccursAt(a + "\n" + b, pat, i) && i > |a|
    ensures OccursAt(b, pat, i - |a| - 1)
  {
    var c := a + "\n" + b;
    var n := |a|;
    assert c[n + 1..] == b;
    assert c[i..i + |pat|] == c[n + 1..][i - n - 1..i - n - 1 + |pat|];
  }

  /**
    A pattern free of '\n' that is found in `a + "\n" + b` is found in `a`
    or in `b`: no occurrence straddles the newline.
   */
  lemma NoMatchAcrossNewline(a: string, b: string, pat: string)
    requires '\n' !in pat
    ensures Contains(a + "\n" + b, pat) ==> Contains(a, pat) || Contains(b, pat)
  {
    var c := a + "\n" + b;
    ContainsIff(c, pat);
    if Contains(c, pat) {
      var i: nat :| OccursAt(c, pat, i);
      if i + |pat| <= |a| {
        OccursLeft(a, b, pat, i);
        ContainsAt(a, pat, i);
      } else if i > |a| {
        OccursRight(a, b, pat, i);
        ContainsAt(b, pat, i - |a| - 1);
      } else {
        WindowChar(c, pat, i, |a|);
        assert false;
      }
    }
  }

  /** The text is empty or ends in '\n'. */
  predicate Terminated(s: string) {
    s == [] || s[|s| - 1] == '\n'
  }

  /** The text with a final '\n' added when it lacks one. */
  function Terminate(s: string): string {
    if Terminated(s) then s else s + "\n"
  }

  /** Every line followed by '\n', in order: what `ss << line << '\n'` accumulates. */
  function Join(lines: seq<string>): string
    decreases |lines|
  {
    if lines == [] then "" else lines[0] + "\n" + Join(lines[1..])
  }

  lemma JoinCons(line: string, lines: seq<string>)
    ensures Join([line] + lines) == line + "\n" + Join(lines)
  {
    assert ([line] + lines)[0] == line;
    assert ([line] + lines)[1..] == lines;
  }

  lemma {:induction false} JoinSnoc(lines: seq<string>, line: string)
    ensures Join(lines + [line]) == Join(lines) + (line + "\n")
    decreases |lines|
  {
    if lines == [] {
      assert lines + [line] == [line];
      assert Join([line]) == line + "\n" + Join([]);
    } else {
      assert (lines + [line])[0] == lines[0];
      assert (lines + [line])[1..] == lines[1..] + [line];
      JoinSnoc(lines[1..], line);
    }
  }

  /** The number of newline characters in `s`. */
  function Newlines(s: string): nat {
    multiset(s)['\n']
  }

  /** Joining never produces a non-empty pattern free of '\n' that no line holds. */
  lemma {:induction false} JoinAvoids(lines: seq<string>, pat: string)
    requires |pat| > 0 && '\n' !in pat
    requires forall l :: l in lines ==> !Contains(l, pat)
    ensures !Contains(Join(lines), pat)
    decreases |lines|
  {
    if lines != [] {
      assert lines[0] in lines;
      JoinAvoids(lines[1..], pat);
      NoMatchAcrossNewline(lines[0], Join(lines[1..]), pat);
    }
  }

  /** The position of the first '\n' in `s` at or after `i`, or `|s|` when there is none. */
  function NewlineFrom(s: string, i: nat): (k: nat)
    requires i <= |s|
    ensures i <= k <= |s|
    ensures k < |s| ==> s[k] == '\n'
    decreases |s| - i
  {
    if i == |s| || s[i] == '\n' then i else NewlineFrom(s, i + 1)
  }

  /** No '\n' lies between `i` and the one NewlineFrom finds. */
  lemma {:induction false} NewlineFromIsFirst(s: string, i: nat)
    requires i <= |s|
    ensures forall j :: i <= j < NewlineFrom(s, i) ==> s[j] != '\n'
    decreases |s| - i
  {
    if i < |s| && s[i] != '\n' {
      NewlineFromIsFirst(s, i + 1);
    }
  }

  /** The position of the first '\n' in `s`, or `|s|` when there is none. */
  function NewlineIndex(s: string): (k: nat)
    ensures k <= |s|
    ensures k < |s| ==> s[k] == '\n'
  {
    NewlineFrom(s, 0)
  }

  /** No '\n' comes before the one NewlineIndex finds. */
  lemma NewlineIndexIsFirst(s: string)
    ensures forall j :: 0 <= j < NewlineIndex(s) ==> s[j] != '\n'
  {
    NewlineFromIsFirst(s, 0);
  }

  /**
    The lines that repeated `getline` calls extract from `text`: each ends
    before a '\n' that is dropped; a final unterminated line is still
    produced, and a trailing '\n' produces no empty line after it.
   */
  function SplitLines(text: string): seq<string>
    decreases |text|
  {
    if |text| == 0 then []
    else
      var k := NewlineIndex(text);
      if k == |text| then [text] else [text[..k]] + SplitLines(text[k + 1..])
  }

  /** No extracted line holds a '\n'. */
  lemma {:induction false} SplitLinesHaveNoNewline(text: string)
    ensures forall l :: l in SplitLines(text) ==> '\n' !in l
    decreases |text|
  {
    if text != [] {
      var k := NewlineIndex(text);
      NewlineIndexIsFirst(text);
      if k < |text| {
        SplitLinesStep(text, k);
        SplitLinesHaveNoNewline(text[k + 1..]);
        assert forall c :: c in text[..k] ==> c != '\n';
      } else {
        assert SplitLines(text) == [text];
        assert forall c :: c in text ==> c != '\n';
      }
    }
  }

  /** A first line without '\n' is split off first. */
  lemma SplitFirstLine(head: string, rest: string)
    requires '\n' !in head
    ensures SplitLines(head + "\n" + rest) == [head] + SplitLines(rest)
  {
    var text := head + "\n" + rest;
    assert text[|head|] == '\n';
    assert forall j :: 0 <= j < |head| ==> text[j] == head[j];
    NewlineIndexIsFirst(text);
    var k := NewlineIndex(text);
    assert k == |head|;
    assert text[..k] == head;
    assert text[k + 1..] == rest;
    SplitLinesStep(text, k);
  }

  /** Splitting undoes joining, for lines without a '\n' of their own. */
  lemma {:induction false} SplitJoin(lines: seq<string>)
    requires forall l :: l in lines ==> '\n' !in l
    ensures SplitLines(Join(lines)) == lines
    decreases |lines|
  {
    if lines != [] {
      assert lines[0] in lines;
      JoinCons(lines[0], lines[1..]);
      assert [lines[0]] + lines[1..] == lines;
      SplitFirstLine(lines[0], Join(lines[1..]));
      SplitJoin(lines[1..]);
    }
  }

  /**
    Joining undoes splitting, except that a final unterminated line comes
    back terminated.
   */
  lemma {:induction false} JoinSplit(text: string)
    ensures Join(SplitLines(text)) == Terminate(text)
    decreases |text|
  {
    if text != [] {
      var k := NewlineIndex(text);
      if k == |text| {
        JoinSplitLastLine(text);
      } else {
        JoinSplit(text[k + 1..]);
        JoinSplitStep(text, k);
      }
    }
  }

  /** The step of JoinSplit past the first '\n', at index `k`. */
  lemma JoinSplitStep(text: string, k: nat)
    requires k == NewlineIndex(text) && k < |text|
    requires Join(SplitLines(text[k + 1..])) == Terminate(text[k + 1..])
    ensures Join(SplitLines(text)) == Terminate(text)
  {
    JoinSplitFirstLine(text, k);
    TerminateAfterLine(text, k);
  }

  /** What follows a '\n' is terminated exactly when the whole text is. */
  lemma TerminateAfterLine(text: string, k: nat)
    requires k < |text| && text[k] == '\n'
    ensures text[..k + 1] + Terminate(text[k + 1..]) == Terminate(text)
  {
    var line, rest := text[..k + 1], text[k + 1..];
    assert line + rest == text;
    if rest != [] {
      assert text[|text| - 1] == rest[|rest| - 1];
    }
    assert line + (rest + "\n") == text + "\n";
  }

  /** A text without '\n' is one unterminated line. */
  lemma JoinSplitLastLine(text: string)
    requires text != [] && NewlineIndex(text) == |text|
    ensures Join(SplitLines(text)) == Terminate(text)
  {
    NewlineIndexIsFirst(text);
    assert text[|text| - 1] != '\n';
    assert SplitLines(text) == [text];
    JoinCons(text, []);
    assert [text] + [] == [text];
  }

  /** Splitting a text with a '\n' yields its first line, then the rest's lines. */
  lemma SplitLinesStep(text: string, k: nat)
    requires k == NewlineIndex(text) && k < |text|
    ensures SplitLines(text) == [text[..k]] + SplitLines(text[k + 1..])
  {
  }

  /** One step of JoinSplit: the first line and its '\n' come back in front. */
  lemma JoinSplitFirstLine(text: string, k: nat)
    requires k == NewlineIndex(text) && k < |text|
    ensures Join(SplitLines(text)) == text[..k + 1] + Join(SplitLines(text[k + 1..]))
  {
    SplitLinesStep(text, k);
    JoinPrefix(text, k, SplitLines(text), SplitLines(text[k + 1..]));
  }

  /** Joining a first line and the lines after it restores the text up to its first '\n'. */
  lemma JoinPrefix(text: string, k: nat, lines: seq<string>, tail: seq<string>)
    requires k < |text| && text[k] == '\n'
    requires lines == [text[..k]] + tail
    ensures Join(lines) == text[..k + 1] + Join(tail)
  {
    JoinCons(text[..k], tail);
    assert text[..k + 1] == text[..k] + "\n";
  }
}
