/** `removeExtraSpaces` of src/HtmlParser.ts: every run of spaces and line
    feeds in a text becomes a single space. `Collapsed` is its meaning; the
    loop itself is `HtmlParsing.RemoveExtraSpaces`. */
module Whitespace {
  import opened Scanner

  /** No two spaces in a row. */
  predicate NoDoubleSpace(s: string) {
    |s| < 2 || (!(s[0] == ' ' && s[1] == ' ') && NoDoubleSpace(s[1..]))
  }

  /** What the loop appends for one character `c`: a blank adds a space unless
      the previous character was blank too (`hasSpace`), and any other
      character is copied. */
  function Emitted(c: char, hasSpace: bool): string {
    if IsBlank(c) then (if hasSpace then "" else " ") else [c]
  }

  /** The text the loop appends from here on, given whether the last character
      it read was blank (`hasSpace`). */
  function CollapseFrom(s: string, hasSpace: bool): (r: string)
    ensures |r| <= |s|
    decreases |s|
  {
    if s == [] then ""
    else if IsBlank(s[0]) then (if hasSpace then "" else " ") + CollapseFrom(s[1..], true)
    else [s[0]] + CollapseFrom(s[1..], false)
  }

  /** What the loop appends has no line feed and no two spaces in a row, and
      does not start with a space right after a blank. */
  lemma {:induction false} CollapseShape(s: string, hasSpace: bool)
    ensures '\n' !in CollapseFrom(s, hasSpace)
    ensures NoDoubleSpace(CollapseFrom(s, hasSpace))
    ensures hasSpace && CollapseFrom(s, hasSpace) != [] ==> CollapseFrom(s, hasSpace)[0] != ' '
    decreases |s|
  {
    if s != [] {
      var rest := CollapseFrom(s[1..], IsBlank(s[0]));
      CollapseShape(s[1..], IsBlank(s[0]));
      var head := if IsBlank(s[0]) then (if hasSpace then "" else " ") else [s[0]];
      assert CollapseFrom(s, hasSpace) == head + rest;
      if head != "" {
        assert (head + rest)[1..] == rest;
        assert (head + rest)[0] == head[0];
        assert |head + rest| >= 2 ==> (head + rest)[1] == rest[0];
      } else {
        assert head + rest == rest;
      }
    }
  }

  /** One step of the loop at index `i`, after `done` has been written. */
  lemma CollapseStep(done: string, s: string, i: nat, hasSpace: bool)
    requires i < |s|
    ensures done + CollapseFrom(s[i..], hasSpace)
            == done + Emitted(s[i], hasSpace) + CollapseFrom(s[i + 1..], IsBlank(s[i]))
  {
    assert s[i..][1..] == s[i + 1..];
  }

  /** The value of `removeExtraSpaces(s)`. */
  function Collapsed(s: string): string {
    CollapseFrom(s, false)
  }

  /** The characters of `s` that are not blank, in order. */
  function NonBlanks(s: string): string {
    if s == [] then "" else (if IsBlank(s[0]) then "" else [s[0]]) + NonBlanks(s[1..])
  }

  /** The length of the run of blanks that starts `s`. */
  function BlankRun(s: string): (n: nat)
    ensures n <= |s|
    ensures forall k | 0 <= k < n :: IsBlank(s[k])
    ensures n < |s| ==> !IsBlank(s[n])
  {
    if s != [] && IsBlank(s[0]) then 1 + BlankRun(s[1..]) else 0
  }

  /** Reference definition by runs: each maximal run of spaces and line feeds is
      replaced by exactly one space, and every other character is kept. */
  function RunsCollapsed(s: string): string
    decreases |s|
  {
    if s == [] then ""
    else if IsBlank(s[0]) then " " + RunsCollapsed(s[BlankRun(s)..])
    else [s[0]] + RunsCollapsed(s[1..])
  }

  /** Once a blank has been seen, the rest of a run adds nothing. */
  lemma {:induction false} CollapseSkipsRun(s: string, n: nat)
    requires n <= |s|
    requires forall k | 0 <= k < n :: IsBlank(s[k])
    ensures CollapseFrom(s, true) == CollapseFrom(s[n..], true)
    decreases n
  {
    if n > 0 {
      assert s[1..][n - 1..] == s[n..];
      CollapseSkipsRun(s[1..], n - 1);
    }
  }

  /** The loop of `removeExtraSpaces` computes the run-by-run definition. */
  lemma {:induction false} CollapsedByRuns(s: string)
    ensures Collapsed(s) == RunsCollapsed(s)
    decreases |s|
  {
    if s != [] {
      if IsBlank(s[0]) {
        var n := BlankRun(s);
        CollapseSkipsRun(s[1..], n - 1);
        assert s[1..][n - 1..] == s[n..];
        assert Collapsed(s) == " " + CollapseFrom(s[n..], true);
        assert n == |s| || !IsBlank(s[n..][0]);
        if n < |s| {
          assert s[n..][1..] == s[n + 1..];
        }
        assert CollapseFrom(s[n..], true) == Collapsed(s[n..]);
        CollapsedByRuns(s[n..]);
      } else {
        CollapsedByRuns(s[1..]);
      }
    }
  }

  lemma {:induction false} NonBlanksConcat(a: string, b: string)
    ensures NonBlanks(a + b) == NonBlanks(a) + NonBlanks(b)
    decreases |a|
  {
    if a == [] {
      assert a + b == b;
    } else {
      assert (a + b)[0] == a[0];
      assert (a + b)[1..] == a[1..] + b;
      NonBlanksConcat(a[1..], b);
    }
  }

  /** Every character that is not blank is kept, in order, and nothing else is
      added but single spaces. */
  lemma {:induction false} CollapseKeepsNonBlanks(s: string, hasSpace: bool)
    ensures NonBlanks(CollapseFrom(s, hasSpace)) == NonBlanks(s)
    ensures forall k | 0 <= k < |CollapseFrom(s, hasSpace)| ::
              IsBlank(CollapseFrom(s, hasSpace)[k]) ==> CollapseFrom(s, hasSpace)[k] == ' '
    decreases |s|
  {
    if s != [] {
      var rest := CollapseFrom(s[1..], IsBlank(s[0]));
      CollapseKeepsNonBlanks(s[1..], IsBlank(s[0]));
      if IsBlank(s[0]) {
        var head := if hasSpace then "" else " ";
        NonBlanksConcat(head, rest);
        assert NonBlanks(head) == "" by {
          if !hasSpace { assert head[1..] == ""; }
        }
      } else {
        NonBlanksConcat([s[0]], rest);
        assert NonBlanks([s[0]]) == [s[0]] by { assert [s[0]][1..] == ""; }
      }
    }
  }

  /** A string already free of line feeds and double spaces is a fixed point of
      the loop that starts after a character that is not a space. */
  lemma {:induction false} CollapseOfCollapsed(s: string, hasSpace: bool)
    requires '\n' !in s && NoDoubleSpace(s)
    requires hasSpace ==> s == [] || s[0] != ' '
    ensures CollapseFrom(s, hasSpace) == s
    decreases |s|
  {
    if s != [] {
      CollapseOfCollapsed(s[1..], IsBlank(s[0]));
    }
  }

  /** `removeExtraSpaces` is idempotent. */
  lemma CollapsedIdempotent(s: string)
    ensures Collapsed(Collapsed(s)) == Collapsed(s)
  {
    CollapseShape(s, false);
    CollapseOfCollapsed(Collapsed(s), false);
  }
}
