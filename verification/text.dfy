/** The Python `str` operations the crawler applies to source text and tags:
    `isspace`/`strip`, `split('\n')`, `'\n'.join`, `splitlines`, `lower`/`upper`
    and `endswith`. Strings are sequences of Unicode scalar values. */
module Text {

  import Seqs

  // ---------------------------------------------------------------------------
  // Whitespace and strip()
  // ---------------------------------------------------------------------------

  /** The characters for which Python's `str.isspace()` holds, i.e. what a bare
      `strip()` removes: U+0009..U+000D, U+001C..U+0020, U+0085, U+00A0, U+1680,
      U+2000..U+200A, U+2028, U+2029, U+202F, U+205F and U+3000. */
  predicate IsSpace(c: char) {
    var n := c as int;
    || 0x09 <= n <= 0x0D
    || 0x1C <= n <= 0x20
    || n == 0x85 || n == 0xA0 || n == 0x1680
    || 0x2000 <= n <= 0x200A
    || n == 0x2028 || n == 0x2029 || n == 0x202F || n == 0x205F || n == 0x3000
  }

  predicate AllSpace(s: string) {
    forall i :: 0 <= i < |s| ==> IsSpace(s[i])
  }

  /** Neither starts nor ends with whitespace: what `strip()` leaves behind. */
  predicate Trimmed(s: string) {
    s == [] || (!IsSpace(s[0]) && !IsSpace(s[|s| - 1]))
  }

  /** The length of the longest all-whitespace prefix. */
  function LeadingSpace(s: string): (n: nat)
    ensures n <= |s|
    ensures forall i :: 0 <= i < n ==> IsSpace(s[i])
    ensures n < |s| ==> !IsSpace(s[n])
  {
    if |s| > 0 && IsSpace(s[0]) then 1 + LeadingSpace(s[1..]) else 0
  }

  /** The length of the longest all-whitespace suffix. */
  function TrailingSpace(s: string): (n: nat)
    ensures n <= |s|
    ensures forall i :: |s| - n <= i < |s| ==> IsSpace(s[i])
    ensures n < |s| ==> !IsSpace(s[|s| - 1 - n])
  {
    if |s| > 0 && IsSpace(s[|s| - 1]) then 1 + TrailingSpace(s[..|s| - 1]) else 0
  }

  /** `s` is `r` with nothing but whitespace around it. */
  predicate PaddedWith(s: string, r: string) {
    exists i :: 0 <= i <= |s| - |r| && AllSpace(s[..i]) && s[i..][..|r|] == r && AllSpace(s[i + |r|..])
  }

  /** The text between a maximal whitespace prefix of `s` and a maximal whitespace
      suffix of what follows it is what `strip()` promises. */
  lemma StripBounds(s: string, a: nat, b: nat)
    requires a <= |s| && b <= |s[a..]|
    requires forall i :: 0 <= i < a ==> IsSpace(s[i])
    requires a < |s| ==> !IsSpace(s[a])
    requires forall i :: |s[a..]| - b <= i < |s[a..]| ==> IsSpace(s[a..][i])
    requires b < |s[a..]| ==> !IsSpace(s[a..][|s[a..]| - 1 - b])
    ensures Trimmed(s[a..|s| - b])
    ensures s[a..|s| - b] == [] <==> AllSpace(s)
    ensures PaddedWith(s, s[a..|s| - b])
  {
    var r := s[a..|s| - b];
    assert AllSpace(s[..a]);
    var tail := s[|s| - b..];
    assert AllSpace(tail) by {
      forall i | 0 <= i < b ensures IsSpace(tail[i]) {
        assert tail[i] == s[a..][|s| - a - b + i];
      }
    }
    assert s[a..][..|r|] == r;
  }

  /** Python's `s.strip()`: the text between the leading and the trailing whitespace. */
  function Strip(s: string): (r: string)
    ensures Trimmed(r) && |r| <= |s|
  {
    var a := LeadingSpace(s);
    var b := TrailingSpace(s[a..]);
    StripBounds(s, a, b);
    s[a..|s| - b]
  }

  /** What `strip()` gives is the input without its surrounding whitespace: it is
      empty exactly when the input is all whitespace, and otherwise it occurs in the
      input with only whitespace before and after it. */
  lemma StripCharacterised(s: string)
    ensures Strip(s) == [] <==> AllSpace(s)
    ensures PaddedWith(s, Strip(s))
  {
    var a := LeadingSpace(s);
    var b := TrailingSpace(s[a..]);
    assert Strip(s) == s[a..|s| - b];
    StripBounds(s, a, b);
  }

  /** Whitespace put in front of a text lengthens its leading whitespace by as much. */
  lemma {:induction false} LeadingSpaceAfterPad(a: string, t: string)
    requires AllSpace(a)
    ensures LeadingSpace(a + t) == |a| + LeadingSpace(t)
  {
    if a != [] {
      assert (a + t)[1..] == a[1..] + t;
      LeadingSpaceAfterPad(a[1..], t);
    } else {
      assert a + t == t;
    }
  }

  /** Whitespace put after a text lengthens its trailing whitespace by as much. */
  lemma {:induction false} TrailingSpaceBeforePad(t: string, b: string)
    requires AllSpace(b)
    ensures TrailingSpace(t + b) == TrailingSpace(t) + |b|
  {
    if b != [] {
      var init := b[..|b| - 1];
      assert (t + b)[..|t + b| - 1] == t + init;
      TrailingSpaceBeforePad(t, init);
    } else {
      assert t + b == t;
    }
  }

  /** A text that is already trimmed is left as it is. */
  lemma StripTrimmed(m: string)
    requires Trimmed(m)
    ensures Strip(m) == m
  {
    assert LeadingSpace(m) == 0;
    assert m[0..] == m;
    assert TrailingSpace(m) == 0;
  }

  /** `strip()` is characterised by what it removes: whatever the whitespace padding
      around a trimmed text, stripping gives back exactly that text. */
  lemma StripPadded(a: string, m: string, b: string)
    requires AllSpace(a) && AllSpace(b) && Trimmed(m)
    ensures Strip(a + m + b) == m
  {
    var s := a + m + b;
    assert s == a + (m + b);
    LeadingSpaceAfterPad(a, m + b);
    if m == [] {
      assert m + b == b + [];
      LeadingSpaceAfterPad(b, []);
      assert s[|s|..] == [];
    } else {
      assert LeadingSpace(m + b) == 0;
      assert s[|a|..] == m + b;
      TrailingSpaceBeforePad(m, b);
      assert TrailingSpace(m) == 0;
      assert s[|a|..|s| - |b|] == m;
    }
  }

  /** Stripping twice is the same as stripping once. */
  lemma StripIdempotent(s: string)
    ensures Strip(Strip(s)) == Strip(s)
  {
    StripTrimmed(Strip(s));
  }

  // ---------------------------------------------------------------------------
  // split(sep) and sep.join(...)
  // ---------------------------------------------------------------------------

  /** The number of occurrences of `c` in `s`. */
  function Occurrences(s: string, c: char): nat {
    if s == [] then 0 else (if s[0] == c then 1 else 0) + Occurrences(s[1..], c)
  }

  /** A character that occurs at some position is counted. */
  lemma {:induction false} OccursAt(s: string, c: char, i: nat)
    requires i < |s| && s[i] == c
    ensures Occurrences(s, c) >= 1
  {
    if i > 0 {
      OccursAt(s[1..], c, i - 1);
    }
  }

  /** Python's `s.split(sep)` for a one-character separator: the pieces between the
      separators, always one more than there are separators. */
  function Split(s: string, sep: char): (r: seq<string>)
    ensures |r| == Occurrences(s, sep) + 1
    ensures forall k :: 0 <= k < |r| ==> sep !in r[k]
  {
    if s == [] then [[]]
    else
      assert s == [s[0]] + s[1..];
      var rest := Split(s[1..], sep);
      if s[0] == sep then [[]] + rest
      else [[s[0]] + rest[0]] + rest[1..]
  }

  /** Python's `sep.join(pieces)`. */
  function Join(pieces: seq<string>, sep: char): string
  {
    if |pieces| == 0 then []
    else if |pieces| == 1 then pieces[0]
    else pieces[0] + [sep] + Join(pieces[1..], sep)
  }

  /** Joining a piece in front of a non-empty run puts one separator after it. */
  lemma JoinCons(x: string, rest: seq<string>, sep: char)
    requires |rest| >= 1
    ensures Join([x] + rest, sep) == x + [sep] + Join(rest, sep)
  {
    assert ([x] + rest)[1..] == rest;
  }

  /** A character put in front of the first piece ends up in front of the join. */
  lemma JoinExtendFirst(c: char, rest: seq<string>, sep: char)
    requires |rest| >= 1
    ensures Join([[c] + rest[0]] + rest[1..], sep) == [c] + Join(rest, sep)
  {
    if |rest| > 1 {
      JoinCons([c] + rest[0], rest[1..], sep);
      JoinCons(rest[0], rest[1..], sep);
      assert [rest[0]] + rest[1..] == rest;
    }
  }

  /** Joining the pieces of a split gives back the text. */
  lemma {:induction false} JoinSplit(s: string, sep: char)
    ensures Join(Split(s, sep), sep) == s
  {
    if s != [] {
      var rest := Split(s[1..], sep);
      JoinSplit(s[1..], sep);
      assert [s[0]] + s[1..] == s;
      if s[0] == sep {
        assert Split(s, sep) == [[]] + rest;
        JoinCons([], rest, sep);
      } else {
        assert Split(s, sep) == [[s[0]] + rest[0]] + rest[1..];
        JoinExtendFirst(s[0], rest, sep);
      }
    }
  }

  /** A text ending in the separator splits into pieces the last of which is empty. */
  lemma {:induction false} SplitEndingInSeparator(s: string, sep: char)
    requires s != [] && s[|s| - 1] == sep
    ensures Split(s, sep)[|Split(s, sep)| - 1] == []
  {
    var t := s[1..];
    if t != [] {
      assert t[|t| - 1] == sep;
      SplitEndingInSeparator(t, sep);
      OccursAt(t, sep, |t| - 1);
    }
  }

  /** A text with no separator in it splits into itself. */
  lemma {:induction false} SplitNoSeparator(x: string, sep: char)
    requires sep !in x
    ensures Split(x, sep) == [x]
  {
    if x != [] {
      SplitNoSeparator(x[1..], sep);
      assert [x[0]] + x[1..] == x;
    }
  }

  /** A separator-free first piece is split off as it stands. */
  lemma {:induction false} SplitFirstPiece(x: string, sep: char, t: string)
    requires sep !in x
    ensures Split(x + [sep] + t, sep) == [x] + Split(t, sep)
  {
    var s := x + [sep] + t;
    if x == [] {
      assert s == [sep] + t;
      assert s[1..] == t;
    } else {
      var rest := Split(s[1..], sep);
      assert s[0] == x[0] && s[1..] == x[1..] + [sep] + t;
      SplitFirstPiece(x[1..], sep, t);
      assert Split(s, sep) == [[x[0]] + rest[0]] + rest[1..];
      assert rest[0] == x[1..] && rest[1..] == Split(t, sep);
      assert [x[0]] + x[1..] == x;
    }
  }

  /** Splitting a join of separator-free pieces gives back the pieces. */
  lemma {:induction false} SplitJoin(pieces: seq<string>, sep: char)
    requires |pieces| >= 1
    requires forall k :: 0 <= k < |pieces| ==> sep !in pieces[k]
    ensures Split(Join(pieces, sep), sep) == pieces
  {
    if |pieces| == 1 {
      SplitNoSeparator(pieces[0], sep);
    } else {
      SplitJoin(pieces[1..], sep);
      SplitFirstPiece(pieces[0], sep, Join(pieces[1..], sep));
      assert [pieces[0]] + pieces[1..] == pieces;
    }
  }

  /** Joining two non-empty runs of pieces puts one separator between them. */
  lemma {:induction false} JoinAppend(xs: seq<string>, ys: seq<string>, sep: char)
    requires |xs| >= 1 && |ys| >= 1
    ensures Join(xs + ys, sep) == Join(xs, sep) + [sep] + Join(ys, sep)
  {
    if |xs| > 1 {
      JoinAppend(xs[1..], ys, sep);
      assert (xs + ys)[1..] == xs[1..] + ys;
    }
  }

  /** The join of a run of pieces begins with the join of any non-empty first part of it. */
  lemma JoinStartsWithPrefix(ps: seq<string>, n: nat, sep: char)
    requires 1 <= n <= |ps|
    ensures StartsWith(Join(ps, sep), Join(ps[..n], sep))
  {
    if n < |ps| {
      JoinAppend(ps[..n], ps[n..], sep);
      assert ps[..n] + ps[n..] == ps;
    } else {
      assert ps[..n] == ps;
    }
  }

  /** What follows the join of the first `a` pieces and its separator is the join
      of the remaining pieces. */
  lemma JoinSuffix(pieces: seq<string>, a: nat, sep: char)
    requires 0 < a < |pieces|
    ensures |Join(pieces[..a], sep)| + 1 <= |Join(pieces, sep)|
    ensures Join(pieces, sep)[|Join(pieces[..a], sep)| + 1..] == Join(pieces[a..], sep)
  {
    JoinAppend(pieces[..a], pieces[a..], sep);
    assert pieces[..a] + pieces[a..] == pieces;
  }

  /** The join of a run of consecutive pieces occurs in the join of all of them. */
  lemma JoinedRunOccurs(pieces: seq<string>, a: nat, b: nat, sep: char)
    requires a < b <= |pieces|
    ensures exists i :: 0 <= i <= |Join(pieces, sep)| && StartsWith(Join(pieces, sep)[i..], Join(pieces[a..b], sep))
  {
    var rest := pieces[a..];
    assert rest[..b - a] == pieces[a..b];
    JoinStartsWithPrefix(rest, b - a, sep);
    if a > 0 {
      JoinSuffix(pieces, a, sep);
    } else {
      assert rest == pieces && Join(pieces, sep)[0..] == Join(pieces, sep);
    }
  }

  /** The join of any run of consecutive split pieces occurs, as it stands, in the
      text that was split. */
  lemma JoinedPiecesOccur(s: string, sep: char, a: nat, b: nat)
    requires a < b <= |Split(s, sep)|
    ensures exists i :: 0 <= i <= |s| && StartsWith(s[i..], Join(Split(s, sep)[a..b], sep))
  {
    JoinSplit(s, sep);
    JoinedRunOccurs(Split(s, sep), a, b, sep);
  }

  // ---------------------------------------------------------------------------
  // splitlines()
  // ---------------------------------------------------------------------------

  /** The line boundaries of Python's `str.splitlines()`: \n, \r, \v, \f, \x1c, \x1d,
      \x1e, \x85, U+2028 and U+2029 (and \r\n, taken as one boundary). */
  predicate IsLineBreak(c: char) {
    var n := c as int;
    || 0x0A <= n <= 0x0D
    || 0x1C <= n <= 0x1E
    || n == 0x85 || n == 0x2028 || n == 0x2029
  }

  predicate NoLineBreak(s: string) {
    forall i :: 0 <= i < |s| ==> !IsLineBreak(s[i])
  }

  /** Every line boundary in `s` is a '\n'. */
  predicate OnlyNewlineBreaks(s: string) {
    forall i :: 0 <= i < |s| ==> IsLineBreak(s[i]) ==> s[i] == '\n'
  }

  /** Python's `s.splitlines()`: the lines without their terminators; a final
      terminator does not start another (empty) line, and "" has no lines. */
  function SplitLines(s: string): (r: seq<string>)
    ensures forall k :: 0 <= k < |r| ==> NoLineBreak(r[k])
    ensures r == [] <==> s == []
    decreases |s|
  {
    if s == [] then []
    else if IsLineBreak(s[0]) then
      var skip := if s[0] == '\r' && |s| > 1 && s[1] == '\n' then 2 else 1;
      [[]] + SplitLines(s[skip..])
    else
      var rest := SplitLines(s[1..]);
      if rest == [] then [[s[0]]] else [[s[0]] + rest[0]] + rest[1..]
  }

  /** Drops a final empty piece, if there is one. */
  function DropTrailingEmpty(pieces: seq<string>): (r: seq<string>)
    ensures r <= pieces && |pieces| - 1 <= |r|
    ensures |r| < |pieces| <==> pieces != [] && pieces[|pieces| - 1] == []
  {
    if |pieces| > 0 && pieces[|pieces| - 1] == [] then pieces[..|pieces| - 1] else pieces
  }

  /** A piece put in front of a non-empty run of pieces does not change which last
      piece is dropped. */
  lemma DropTrailingEmptyPrepend(x: string, pieces: seq<string>)
    requires |pieces| >= 1
    ensures DropTrailingEmpty([x] + pieces) == [x] + DropTrailingEmpty(pieces)
  {
    if pieces[|pieces| - 1] == [] {
      assert ([x] + pieces)[..|pieces|] == [x] + pieces[..|pieces| - 1];
    }
  }

  /** A character put in front of the first piece: the first line grows by that
      character, or becomes that character when no line is left. */
  lemma DropTrailingEmptyExtend(c: char, pieces: seq<string>)
    requires |pieces| >= 1
    ensures var rest := DropTrailingEmpty(pieces);
      DropTrailingEmpty([[c] + pieces[0]] + pieces[1..])
        == if rest == [] then [[c]] else [[c] + rest[0]] + rest[1..]
  {
    var whole := [[c] + pieces[0]] + pieces[1..];
    if |pieces| == 1 {
      if pieces[0] == [] {
        assert [c] + pieces[0] == [c];
      }
    } else if pieces[|pieces| - 1] == [] {
      assert whole[..|whole| - 1] == [[c] + pieces[0]] + pieces[1..|pieces| - 1];
    }
  }

  /** A text without line boundaries other than '\n' keeps that property after its
      first character. */
  lemma OnlyNewlineBreaksTail(s: string)
    requires s != [] && OnlyNewlineBreaks(s)
    ensures OnlyNewlineBreaks(s[1..])
  {
    var t := s[1..];
    forall i | 0 <= i < |t| ensures IsLineBreak(t[i]) ==> t[i] == '\n' {
      assert t[i] == s[i + 1];
    }
  }

  /** When '\n' is the only line boundary in the text, its `splitlines()` are its
      `split('\n')` pieces without the empty piece a final '\n' leaves. */
  lemma {:induction false} SplitLinesByNewline(s: string)
    requires OnlyNewlineBreaks(s)
    ensures SplitLines(s) == DropTrailingEmpty(Split(s, '\n'))
  {
    if s != [] {
      var t := s[1..];
      OnlyNewlineBreaksTail(s);
      SplitLinesByNewline(t);
      var pieces := Split(t, '\n');
      if s[0] == '\n' {
        assert Split(s, '\n') == [[]] + pieces;
        DropTrailingEmptyPrepend([], pieces);
      } else {
        assert Split(s, '\n') == [[s[0]] + pieces[0]] + pieces[1..];
        DropTrailingEmptyExtend(s[0], pieces);
      }
    }
  }

  /** When '\n' is the only line boundary, any run of `splitlines()` lines is the same
      run of `split('\n')` pieces. */
  lemma LinesAreSplitPieces(s: string, a: nat, b: nat)
    requires OnlyNewlineBreaks(s) && a <= b <= |SplitLines(s)|
    ensures b <= |Split(s, '\n')|
    ensures SplitLines(s)[a..b] == Split(s, '\n')[a..b]
  {
    SplitLinesByNewline(s);
    Seqs.PrefixSlice(SplitLines(s), Split(s, '\n'), a, b);
  }

  // ---------------------------------------------------------------------------
  // Case mapping and suffixes
  // ---------------------------------------------------------------------------

  /** `lower()` of one character, on the ASCII letters. */
  function LowerChar(c: char): char {
    if 'A' <= c <= 'Z' then (c as int + 32) as char else c
  }

  /** `upper()` of one character, on the ASCII letters. */
  function UpperChar(c: char): char {
    if 'a' <= c <= 'z' then (c as int - 32) as char else c
  }

  function Lower(s: string): (r: string)
    ensures |r| == |s|
  {
    seq(|s|, i requires 0 <= i < |s| => LowerChar(s[i]))
  }

  function Upper(s: string): (r: string)
    ensures |r| == |s|
  {
    seq(|s|, i requires 0 <= i < |s| => UpperChar(s[i]))
  }

  /** Python's `s.endswith(suffix)`. */
  predicate EndsWith(s: string, suffix: string) {
    |suffix| <= |s| && s[|s| - |suffix|..] == suffix
  }

  /** Python's `s.startswith(prefix)`. */
  predicate StartsWith(s: string, prefix: string) {
    |prefix| <= |s| && s[..|prefix|] == prefix
  }
}
