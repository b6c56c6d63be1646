/**
 * The JavaScript string operations the idea parsers use: `trim`, `split` on one
 * character, `endsWith`, and the regex classes `\d` and `\s`. Whitespace is the ASCII
 * part of what JavaScript counts as whitespace.
 */
module JsText {
  import opened Lists

  /** ASCII whitespace: space, tab, line feed, vertical tab, form feed, carriage return. */
  predicate IsSpace(c: char) {
    c == ' ' || c == '\t' || c == '\n' || c == '\r' || c as int == 0x0B || c as int == 0x0C
  }

  /** The regex class `\d`. */
  predicate IsDigit(c: char) {
    '0' <= c <= '9'
  }

  /** Every character of `s` satisfies `p`. */
  ghost predicate All(s: string, p: char -> bool) {
    forall i :: 0 <= i < |s| ==> p(s[i])
  }

  ghost predicate AllSpace(s: string) {
    All(s, IsSpace)
  }

  /** Neither the first nor the last character is whitespace. */
  predicate IsTrimmed(s: string) {
    s == [] || (!IsSpace(s[0]) && !IsSpace(s[|s| - 1]))
  }

  /** Length of the longest prefix of `s` whose characters all satisfy `p`. */
  function Span(s: string, p: char -> bool): (n: nat)
    ensures n <= |s|
    ensures All(s[..n], p)
    ensures n < |s| ==> !p(s[n])
  {
    if |s| > 0 && p(s[0]) then
      var k := Span(s[1..], p);
      assert s[..k + 1] == [s[0]] + s[1..][..k];
      k + 1
    else 0
  }

  /** Length of the longest suffix of `s` whose characters all satisfy `p`. */
  function SpanFromEnd(s: string, p: char -> bool): (n: nat)
    ensures n <= |s|
    ensures All(s[|s| - n..], p)
    ensures n < |s| ==> !p(s[|s| - n - 1])
  {
    if |s| > 0 && p(s[|s| - 1]) then
      var init := s[..|s| - 1];
      var k := SpanFromEnd(init, p);
      assert s[|s| - (k + 1)..] == init[|init| - k..] + [s[|s| - 1]];
      AllSnoc(init[|init| - k..], s[|s| - 1], p);
      assert k < |init| ==> s[|s| - (k + 1) - 1] == init[|init| - k - 1];
      k + 1
    else 0
  }

  /** A run of characters satisfying `p` stays one when such a character is appended. */
  lemma AllSnoc(t: string, c: char, p: char -> bool)
    requires All(t, p) && p(c)
    ensures All(t + [c], p)
  {
  }

  /**
   * `String.prototype.trim`: `s` without its whitespace margins. The result is the
   * one slice of `s` that has only whitespace around it and none at its own ends.
   */
  function Trim(s: string): (r: string)
    ensures IsTrimmed(r)
    ensures exists i :: 0 <= i <= |s| - |r| && s[i..i + |r|] == r && AllSpace(s[..i]) && AllSpace(s[i + |r|..])
    ensures r == [] <==> AllSpace(s)
  {
    var a := Span(s, IsSpace);
    var b := if a == |s| then 0 else SpanFromEnd(s, IsSpace);
    MarginsTrimmed(s, a, b);
    SpaceAround(s, a, b);
    s[a..|s| - b]
  }

  /** Neither end of what is left between the two whitespace runs is whitespace. */
  lemma MarginsTrimmed(s: string, a: nat, b: nat)
    requires a + b <= |s| && (a < |s| ==> !IsSpace(s[a]))
    requires a + b < |s| ==> !IsSpace(s[|s| - b - 1])
    ensures IsTrimmed(s[a..|s| - b])
  {
  }

  /** Nothing is left between the two whitespace runs exactly when `s` is all whitespace. */
  lemma SpaceAround(s: string, a: nat, b: nat)
    requires a + b <= |s| && AllSpace(s[..a]) && (a < |s| ==> !IsSpace(s[a]))
    requires AllSpace(s[|s| - b..])
    ensures a + b == |s| <==> AllSpace(s)
  {
    if a + b == |s| {
      assert a == |s|;
      assert s[..a] == s;
    } else {
      assert !IsSpace(s[a]);
    }
  }

  /** A string without whitespace margins is its own trim. */
  lemma TrimTrimmed(s: string)
    requires IsTrimmed(s)
    ensures Trim(s) == s
  {
    if s != [] {
      assert Span(s, IsSpace) == 0;
      assert SpanFromEnd(s, IsSpace) == 0;
    }
  }

  /** `trim` is idempotent. */
  lemma TrimIdempotent(s: string)
    ensures Trim(Trim(s)) == Trim(s)
  {
    TrimTrimmed(Trim(s));
  }

  /** Trimming a string that starts with a non-space character keeps that character first. */
  lemma TrimKeepsFirst(s: string)
    requires s != [] && !IsSpace(s[0])
    ensures Trim(s) != [] && Trim(s)[0] == s[0]
  {
    assert Span(s, IsSpace) == 0;
    assert !AllSpace(s);
  }

  /** `String.prototype.endsWith` for one character. */
  predicate EndsWith(s: string, c: char) {
    |s| > 0 && s[|s| - 1] == c
  }

  /**
   * `s.split(sep)` for a one-character separator: the pieces between separators,
   * including empty ones; the empty string splits into one empty piece.
   */
  function Split(s: string, sep: char): (parts: seq<string>)
    ensures |parts| >= 1
    ensures forall p :: p in parts ==> sep !in p
  {
    if s == [] then [""]
    else
      var rest := Split(s[1..], sep);
      if s[0] == sep then [""] + rest
      else
        assert sep !in rest[0] by { assert rest[0] in rest; }
        [[s[0]] + rest[0]] + rest[1..]
  }

  /** `parts.join(sep)`: the inverse of Split. */
  function Join(parts: seq<string>, sep: char): string
    requires |parts| >= 1
  {
    if |parts| == 1 then parts[0] else parts[0] + [sep] + Join(parts[1..], sep)
  }

  /** Joining the pieces of a split gives back the original string. */
  lemma {:induction false} JoinSplit(s: string, sep: char)
    ensures Join(Split(s, sep), sep) == s
  {
    if s != [] {
      var rest := Split(s[1..], sep);
      JoinSplit(s[1..], sep);
      if s[0] == sep {
        assert Split(s, sep)[1..] == rest;
      } else {
        var parts := Split(s, sep);
        assert parts[1..] == rest[1..];
        if |rest| == 1 {
          assert parts == [[s[0]] + rest[0]];
        } else {
          assert Join(rest, sep) == rest[0] + [sep] + Join(rest[1..], sep);
        }
      }
    }
  }

  /** A string without the separator is one piece. */
  lemma {:induction false} SplitNoSeparator(s: string, sep: char)
    requires sep !in s
    ensures Split(s, sep) == [s]
  {
    if s != [] {
      SplitNoSeparator(s[1..], sep);
      assert s == [s[0]] + s[1..];
    }
  }

  /** Splitting at one separator splits each side independently. */
  lemma {:induction false} SplitConcat(a: string, b: string, sep: char)
    ensures Split(a + [sep] + b, sep) == Split(a, sep) + Split(b, sep)
  {
    if a == [] {
      assert a + [sep] + b == [sep] + b;
      assert ([sep] + b)[1..] == b;
    } else {
      assert (a + [sep] + b)[1..] == a[1..] + [sep] + b;
      SplitConcat(a[1..], b, sep);
    }
  }

  /** Splitting a join of separator-free pieces gives back the pieces. */
  lemma {:induction false} SplitJoin(parts: seq<string>, sep: char)
    requires |parts| >= 1
    requires forall p :: p in parts ==> sep !in p
    ensures Split(Join(parts, sep), sep) == parts
  {
    assert parts[0] in parts;
    SplitNoSeparator(parts[0], sep);
    if |parts| > 1 {
      assert forall p :: p in parts[1..] ==> p in parts;
      SplitJoin(parts[1..], sep);
      SplitConcat(parts[0], Join(parts[1..], sep), sep);
      assert parts == [parts[0]] + parts[1..];
    }
  }

  predicate NonEmpty(s: string) {
    |s| > 0
  }

  /** A string splits on spaces into empty pieces only when it is all spaces. */
  lemma {:induction false} OnlyEmptyPieces(s: string)
    ensures Filter(Split(s, ' '), NonEmpty) == [] <==> forall i :: 0 <= i < |s| ==> s[i] == ' '
  {
    if s != [] {
      OnlyEmptyPieces(s[1..]);
      var rest := Split(s[1..], ' ');
      assert (forall i :: 0 <= i < |s| ==> s[i] == ' ') <==> s[0] == ' ' && forall i :: 0 <= i < |s[1..]| ==> s[1..][i] == ' ' by {
        if forall i :: 0 <= i < |s[1..]| ==> s[1..][i] == ' ' {
          assert forall i :: 1 <= i < |s| ==> s[i] == s[1..][i - 1];
        }
      }
      if s[0] == ' ' {
        assert ([""] + rest)[1..] == rest;
      } else {
        var parts := Split(s, ' ');
        assert NonEmpty(parts[0]);
      }
    }
  }

  /** `s.split(' ').filter(Boolean).length`: runs of non-space-character text. */
  function WordCount(s: string): (n: nat)
    ensures n <= |Split(s, ' ')|
    ensures n == 0 <==> forall i :: 0 <= i < |s| ==> s[i] == ' '
  {
    OnlyEmptyPieces(s);
    |Filter(Split(s, ' '), NonEmpty)|
  }

  /** A non-empty string that does not start with ' ' has at least one word. */
  lemma WordCountPositive(s: string)
    requires s != [] && s[0] != ' '
    ensures WordCount(s) >= 1
  {
    var parts := Split(s, ' ');
    assert parts[0] != [] && parts[0][0] == s[0];
    assert parts[0] in Filter(parts, NonEmpty);
  }
}
