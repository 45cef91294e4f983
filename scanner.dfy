/** Character classes and scanning primitives shared by both parsers.
    Both parsers inherit a cursor (`rawText`, `index`, `len`) and the helpers
    `removeSpaces` and `sliceText` from a base class `Parser`; that base class
    (src/Parser.ts) is not part of this model, so its behaviour is fixed here:
    `removeSpaces` advances over spaces and line feeds, and `sliceText` only
    drops the consumed prefix, which makes it a no-op on an index cursor. */
module Scanner {

  /** A value read from the input and the cursor after it. */
  datatype Read<T> = Read(value: T, end: nat)

  /** The characters `removeSpaces` skips and `removeExtraSpaces` collapses. */
  predicate IsBlank(c: char) {
    c == ' ' || c == '\n'
  }

  /** JavaScript's `\w` without the `u` flag: an ASCII letter, digit or underscore. */
  predicate IsWordChar(c: char) {
    ('a' <= c <= 'z') || ('A' <= c <= 'Z') || ('0' <= c <= '9') || c == '_'
  }

  /** The characters `String.prototype.trim` removes: ECMAScript WhiteSpace and LineTerminator. */
  predicate IsTrimmable(c: char) {
    c == '\t' || c == '\n' || c == '\U{B}' || c == '\U{C}' || c == '\r' || c == ' '
    || c == '\U{A0}' || c == '\U{1680}' || ('\U{2000}' <= c <= '\U{200A}')
    || c == '\U{2028}' || c == '\U{2029}' || c == '\U{202F}' || c == '\U{205F}'
    || c == '\U{3000}' || c == '\U{FEFF}'
  }

  /** What is left to scan from `i`; zero once the cursor is at or past the end.
      Every scanning loop decreases it. */
  function Rest(s: string, i: nat): nat {
    if i < |s| then |s| - i else 0
  }

  /** The characters a scanning loop accumulates while the cursor moves from `i`
      to `j`: nothing when the loop did not run because `i` was past the end. */
  function Consumed(s: string, i: nat, j: nat): (r: string)
    ensures i <= j <= |s| ==> r == s[i..j]
    ensures |r| <= |s|
  {
    if i <= j <= |s| then s[i..j] else ""
  }

  /** The index at which `removeSpaces` leaves a cursor that starts at `i`. */
  function SkipBlanks(s: string, i: nat): (j: nat)
    decreases Rest(s, i)
    ensures i <= j
    ensures i >= |s| ==> j == i
    ensures i < |s| ==> j <= |s|
    ensures j < |s| ==> !IsBlank(s[j])
  {
    if i < |s| && IsBlank(s[i]) then SkipBlanks(s, i + 1) else i
  }

  /** The index at which a loop `while (index < len && !stops.has(rawText[index])) index++`
      stops: the first stop character at or after `i`, or the end of input. An empty
      set of stops runs to the end of input. */
  function ScanUntil(s: string, i: nat, stops: set<char>): (j: nat)
    decreases Rest(s, i)
    ensures i <= j
    ensures i >= |s| ==> j == i
    ensures i < |s| ==> j <= |s|
    ensures j < |s| ==> s[j] in stops
  {
    if i < |s| && s[i] !in stops then ScanUntil(s, i + 1, stops) else i
  }

  /** Every position that removing blanks passes over holds a blank. */
  lemma {:induction false} SkipBlanksSkips(s: string, i: nat)
    ensures forall k | i <= k < SkipBlanks(s, i) :: k < |s| && IsBlank(s[k])
    decreases Rest(s, i)
  {
    if i < |s| && IsBlank(s[i]) {
      SkipBlanksSkips(s, i + 1);
    }
  }

  /** Every position a scan passes over holds a character that is not a stop. */
  lemma {:induction false} ScanUntilSkips(s: string, i: nat, stops: set<char>)
    ensures forall k | i <= k < ScanUntil(s, i, stops) :: k < |s| && s[k] !in stops
    decreases Rest(s, i)
  {
    if i < |s| && s[i] !in stops {
      ScanUntilSkips(s, i + 1, stops);
    }
  }

  /** A scan stops at the first position that carries a stop character. */
  lemma {:induction false} ScanUntilAt(s: string, i: nat, j: nat, stops: set<char>)
    requires i <= j <= |s|
    requires forall k | i <= k < j :: s[k] !in stops
    requires j == |s| || s[j] in stops
    ensures ScanUntil(s, i, stops) == j
    decreases j - i
  {
    if i < j {
      ScanUntilAt(s, i + 1, j, stops);
    }
  }

  /** Skipping blanks stops at the first non-blank position. */
  lemma {:induction false} SkipBlanksAt(s: string, i: nat, j: nat)
    requires i <= j <= |s|
    requires forall k | i <= k < j :: IsBlank(s[k])
    requires j == |s| || !IsBlank(s[j])
    ensures SkipBlanks(s, i) == j
    decreases j - i
  {
    if i < j {
      SkipBlanksAt(s, i + 1, j);
    }
  }

  /** A string `trim` leaves unchanged. */
  predicate Trimmed(s: string) {
    s == [] || (!IsTrimmable(s[0]) && !IsTrimmable(s[|s| - 1]))
  }

  /** `String.prototype.trim`: drop leading and trailing white space. */
  function Trim(s: string): string
    decreases |s|
  {
    if |s| > 0 && IsTrimmable(s[0]) then Trim(s[1..])
    else if |s| > 0 && IsTrimmable(s[|s| - 1]) then Trim(s[..|s| - 1])
    else s
  }

  /** The result of `trim` has no white space at either end and is no longer
      than its argument. */
  lemma {:induction false} TrimShape(s: string)
    ensures Trimmed(Trim(s)) && |Trim(s)| <= |s|
    decreases |s|
  {
    if |s| > 0 && IsTrimmable(s[0]) {
      TrimShape(s[1..]);
    } else if |s| > 0 && IsTrimmable(s[|s| - 1]) {
      TrimShape(s[..|s| - 1]);
    }
  }

  /** `trim` keeps the substring of `s` from `a` that lies between the leading
      and the trailing white space. */
  predicate TrimmedAt(s: string, a: nat, t: string) {
    a + |t| <= |s| && t == s[a..a + |t|]
    && (forall k | 0 <= k < a :: IsTrimmable(s[k]))
    && (forall k | a + |t| <= k < |s| :: IsTrimmable(s[k]))
  }

  lemma {:induction false} TrimIsInfix(s: string) returns (a: nat)
    ensures TrimmedAt(s, a, Trim(s))
    decreases |s|
  {
    var t := Trim(s);
    if |s| > 0 && IsTrimmable(s[0]) {
      var b := TrimIsInfix(s[1..]);
      a := b + 1;
      assert s[1..][b..b + |t|] == s[a..a + |t|];
      forall k | a + |t| <= k < |s| ensures IsTrimmable(s[k]) {
        assert s[k] == s[1..][k - 1];
      }
      forall k | 0 <= k < a ensures IsTrimmable(s[k]) {
        if k > 0 {
          assert s[k] == s[1..][k - 1];
        }
      }
    } else if |s| > 0 && IsTrimmable(s[|s| - 1]) {
      var u := s[..|s| - 1];
      a := TrimIsInfix(u);
      assert u[a..a + |t|] == s[a..a + |t|];
      forall k | a + |t| <= k < |s| ensures IsTrimmable(s[k]) {
        if k < |s| - 1 {
          assert s[k] == u[k];
        }
      }
    } else {
      a := 0;
    }
  }

  /** `trim` gives the empty string exactly when every character is white space. */
  lemma TrimEmpty(s: string)
    ensures Trim(s) == "" <==> forall k | 0 <= k < |s| :: IsTrimmable(s[k])
  {
    var a := TrimIsInfix(s);
    TrimShape(s);
  }

  /** `trim` only removes characters, so it brings in none that were absent. */
  lemma TrimKeepsAbsent(s: string, c: char)
    requires c !in s
    ensures c !in Trim(s)
  {
    var a := TrimIsInfix(s);
    var t := Trim(s);
    forall k | 0 <= k < |t| ensures t[k] != c {
      assert t[k] == s[a + k];
    }
  }

  /** Trimming a string that is already trimmed changes nothing; in particular
      `Trim` is idempotent. */
  lemma TrimOfTrimmed(s: string)
    requires Trimmed(s)
    ensures Trim(s) == s
  {
  }

  lemma TrimIdempotent(s: string)
    ensures Trim(Trim(s)) == Trim(s)
  {
    TrimShape(s);
    TrimOfTrimmed(Trim(s));
  }

  /** The position of the first `c` in `s`. */
  function IndexOf(s: string, c: char): (k: nat)
    requires c in s
    ensures k < |s| && s[k] == c && c !in s[..k]
  {
    if s[0] == c then 0 else 1 + IndexOf(s[1..], c)
  }

  lemma {:induction false} IndexOfAt(s: string, c: char, j: nat)
    requires j < |s| && s[j] == c && c !in s[..j]
    ensures IndexOf(s, c) == j
  {
    if j > 0 {
      assert s[0] == s[..j][0];
      assert s[1..][..j - 1] == s[1..j];
      assert c !in s[1..j] by {
        forall k | 0 <= k < j - 1 ensures s[1..j][k] != c {
          assert s[1..j][k] == s[..j][k + 1];
        }
      }
      IndexOfAt(s[1..], c, j - 1);
    }
  }

  /** `String.prototype.split` with a one-character separator: the pieces
      between separators, in order; there is always at least one piece. */
  function Split(s: string, sep: char): (parts: seq<string>)
    ensures |parts| >= 1
    decreases |s|
  {
    if sep !in s then [s]
    else
      var k := IndexOf(s, sep);
      [s[..k]] + Split(s[k + 1..], sep)
  }

  /** No piece holds the separator. */
  lemma {:induction false} SplitPieces(s: string, sep: char)
    ensures forall k | 0 <= k < |Split(s, sep)| :: sep !in Split(s, sep)[k]
    decreases |s|
  {
    if sep in s {
      var k := IndexOf(s, sep);
      SplitPieces(s[k + 1..], sep);
    }
  }

  /** `Array.prototype.join`, the inverse of `Split`. */
  function Join(parts: seq<string>, sep: char): string
    requires |parts| >= 1
  {
    if |parts| == 1 then parts[0] else parts[0] + [sep] + Join(parts[1..], sep)
  }

  lemma JoinCons(x: string, rest: seq<string>, sep: char)
    requires |rest| >= 1
    ensures Join([x] + rest, sep) == x + [sep] + Join(rest, sep)
  {
    assert ([x] + rest)[1..] == rest;
  }

  /** Splitting at the first separator. */
  lemma SplitConcat(a: string, sep: char, b: string)
    requires sep !in a
    ensures Split(a + [sep] + b, sep) == [a] + Split(b, sep)
  {
    var s := a + [sep] + b;
    assert s[..|a|] == a;
    assert s[|a| + 1..] == b;
    IndexOfAt(s, sep, |a|);
  }

  /** Number of occurrences of `c` in `s`. */
  function Count(s: string, c: char): nat {
    if s == [] then 0 else (if s[0] == c then 1 else 0) + Count(s[1..], c)
  }

  lemma {:induction false} CountSplit(a: string, b: string, c: char)
    ensures Count(a + b, c) == Count(a, c) + Count(b, c)
  {
    if a != [] {
      assert (a + b)[0] == a[0];
      assert (a + b)[1..] == a[1..] + b;
      CountSplit(a[1..], b, c);
    } else {
      assert a + b == b;
    }
  }

  lemma {:induction false} CountAbsent(s: string, c: char)
    requires c !in s
    ensures Count(s, c) == 0
  {
    if s != [] {
      CountAbsent(s[1..], c);
    }
  }

  /** Joining the pieces gives back the input. */
  lemma {:induction false} SplitJoin(s: string, sep: char)
    ensures Join(Split(s, sep), sep) == s
    decreases |s|
  {
    if sep in s {
      var k := IndexOf(s, sep);
      SplitJoin(s[k + 1..], sep);
      JoinCons(s[..k], Split(s[k + 1..], sep), sep);
      assert s == s[..k] + [sep] + s[k + 1..];
    }
  }

  /** There is one more piece than there are separators. */
  lemma {:induction false} SplitCount(s: string, sep: char)
    ensures |Split(s, sep)| == Count(s, sep) + 1
    decreases |s|
  {
    if sep in s {
      var k := IndexOf(s, sep);
      SplitCount(s[k + 1..], sep);
      assert s == s[..k] + ([sep] + s[k + 1..]);
      CountAbsent(s[..k], sep);
      CountSplit(s[..k], [sep] + s[k + 1..], sep);
      assert Count([sep] + s[k + 1..], sep) == 1 + Count(s[k + 1..], sep) by {
        assert ([sep] + s[k + 1..])[1..] == s[k + 1..];
      }
    } else {
      CountAbsent(s, sep);
    }
  }

  /** Splitting a join of separator-free pieces gives back the pieces. */
  lemma {:induction false} JoinSplit(parts: seq<string>, sep: char)
    requires |parts| >= 1
    requires forall k | 0 <= k < |parts| :: sep !in parts[k]
    ensures Split(Join(parts, sep), sep) == parts
    decreases |parts|
  {
    if |parts| > 1 {
      SplitConcat(parts[0], sep, Join(parts[1..], sep));
      JoinSplit(parts[1..], sep);
      assert parts == [parts[0]] + parts[1..];
    }
  }

  /** The base class's cursor over the input text. `len` is `|text|`. */
  class Cursor {
    var text: string
    var index: nat

    constructor ()
      ensures text == "" && index == 0
    {
      text := "";
      index := 0;
    }

    /** `removeSpaces`: advance over spaces and line feeds. */
    method RemoveSpaces()
      modifies this
      ensures text == old(text)
      ensures index == SkipBlanks(text, old(index))
    {
      while index < |text| && IsBlank(text[index])
        invariant text == old(text)
        invariant SkipBlanks(text, index) == SkipBlanks(text, old(index))
        decreases Rest(text, index)
      {
        index := index + 1;
      }
    }

    /** The scanning loop the parsers write out for each kind of token: advance
        to the first stop character (or the end) and return what was passed over. */
    method ReadUntil(stops: set<char>) returns (str: string)
      modifies this
      ensures text == old(text)
      ensures index == ScanUntil(text, old(index), stops)
      ensures str == Consumed(text, old(index), index)
    {
      str := "";
      while index < |text| && text[index] !in stops
        invariant text == old(text)
        invariant old(index) <= index
        invariant ScanUntil(text, index, stops) == ScanUntil(text, old(index), stops)
        invariant str == Consumed(text, old(index), index)
        decreases Rest(text, index)
      {
        str := str + [text[index]];
        index := index + 1;
      }
    }
  }
}
