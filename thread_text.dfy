/** The thread composer's parser: the generated text is split on line breaks,
    each line is stripped, and a line becomes a post when it is not blank and
    contains the numbering slash ("1/", "2/", ...). */
module ThreadText {

  /** The characters Python's `str.isspace` accepts, i.e. what `str.strip()`
      with no argument removes from both ends of a string: the ASCII controls
      9-13 and 28-31, the space, U+0085, U+00A0, U+1680, U+2000-U+200A, U+2028,
      U+2029, U+202F, U+205F and U+3000. */
  predicate IsSpace(c: char) {
    var n := c as int;
    (9 <= n <= 13) || (28 <= n <= 32) || n == 0x85 || n == 0xa0 || n == 0x1680 ||
    (0x2000 <= n <= 0x200a) || n == 0x2028 || n == 0x2029 || n == 0x202f ||
    n == 0x205f || n == 0x3000
  }

  /** `s.lstrip()`: a suffix of `s` that does not start with white space. */
  function TrimLeft(s: string): (r: string)
    ensures |r| <= |s| && r == s[|s| - |r|..]
    ensures r != [] ==> !IsSpace(r[0])
  {
    if s != [] && IsSpace(s[0]) then TrimLeft(s[1..]) else s
  }

  /** `s.rstrip()`: a prefix of `s` that does not end with white space. */
  function TrimRight(s: string): (r: string)
    ensures |r| <= |s| && r == s[..|r|]
    ensures r != [] ==> !IsSpace(r[|r| - 1])
  {
    if s != [] && IsSpace(s[|s| - 1]) then TrimRight(s[..|s| - 1]) else s
  }

  /** What `s.lstrip()` removes is white space only. */
  lemma {:induction false} TrimLeftRemovesSpace(s: string)
    ensures forall k :: 0 <= k < |s| - |TrimLeft(s)| ==> IsSpace(s[k])
  {
    if s != [] && IsSpace(s[0]) {
      TrimLeftRemovesSpace(s[1..]);
      assert forall k :: 1 <= k < |s| ==> s[k] == s[1..][k - 1];
    }
  }

  /** What `s.rstrip()` removes is white space only. */
  lemma {:induction false} TrimRightRemovesSpace(s: string)
    ensures forall k :: |TrimRight(s)| <= k < |s| ==> IsSpace(s[k])
  {
    if s != [] && IsSpace(s[|s| - 1]) {
      TrimRightRemovesSpace(s[..|s| - 1]);
      assert forall k :: 0 <= k < |s| - 1 ==> s[k] == s[..|s| - 1][k];
    }
  }

  /** `s.strip()`: white space removed from both ends. */
  function Strip(s: string): (r: string)
    ensures |r| <= |s|
    ensures r != [] ==> !IsSpace(r[0]) && !IsSpace(r[|r| - 1])
  {
    TrimRight(TrimLeft(s))
  }

  /** A string that neither starts nor ends with white space is its own
      strip. */
  lemma {:induction false} StripUnchanged(s: string)
    requires s != [] ==> !IsSpace(s[0]) && !IsSpace(s[|s| - 1])
    ensures Strip(s) == s
  {
    assert TrimLeft(s) == s;
  }

  /** Stripping twice is stripping once. */
  lemma {:induction false} StripIdempotent(s: string)
    ensures Strip(Strip(s)) == Strip(s)
  {
    StripUnchanged(Strip(s));
  }

  /** Trimming the left end adds no character. */
  lemma {:induction false} TrimLeftAddsNothing(s: string, c: char)
    ensures c in TrimLeft(s) ==> c in s
  {
    var r := TrimLeft(s);
    if c in r {
      var k :| 0 <= k < |r| && r[k] == c;
      assert s[|s| - |r| + k] == c;
    }
  }

  /** Trimming the left end keeps every character that is not white space. */
  lemma {:induction false} TrimLeftKeepsNonSpace(s: string, c: char)
    requires !IsSpace(c)
    ensures c in s ==> c in TrimLeft(s)
  {
    if s != [] && IsSpace(s[0]) {
      assert TrimLeft(s) == TrimLeft(s[1..]);
      if c in s {
        var k :| 0 <= k < |s| && s[k] == c;
        assert k != 0;
        assert s[1..][k - 1] == c;
        assert c in s[1..];
      }
      TrimLeftKeepsNonSpace(s[1..], c);
    }
  }

  /** Trimming the right end adds no character. */
  lemma {:induction false} TrimRightAddsNothing(s: string, c: char)
    ensures c in TrimRight(s) ==> c in s
  {
    var r := TrimRight(s);
    if c in r {
      var k :| 0 <= k < |r| && r[k] == c;
      assert s[k] == c;
    }
  }

  /** Trimming the right end keeps every character that is not white space. */
  lemma {:induction false} TrimRightKeepsNonSpace(s: string, c: char)
    requires !IsSpace(c)
    ensures c in s ==> c in TrimRight(s)
  {
    if s != [] && IsSpace(s[|s| - 1]) {
      assert TrimRight(s) == TrimRight(s[..|s| - 1]);
      if c in s {
        var k :| 0 <= k < |s| && s[k] == c;
        assert k != |s| - 1;
        assert s[..|s| - 1][k] == c;
        assert c in s[..|s| - 1];
      }
      TrimRightKeepsNonSpace(s[..|s| - 1], c);
    }
  }

  /** Stripping keeps every character that is not white space, and adds none. */
  lemma {:induction false} StripKeeps(s: string, c: char)
    ensures c in Strip(s) ==> c in s
    ensures c in s && !IsSpace(c) ==> c in Strip(s)
  {
    TrimLeftAddsNothing(s, c);
    TrimRightAddsNothing(TrimLeft(s), c);
    if !IsSpace(c) {
      TrimLeftKeepsNonSpace(s, c);
      TrimRightKeepsNonSpace(TrimLeft(s), c);
    }
  }

  /** Python's `s.split(sep)` for a one-character separator: the pieces
      between the separators, from left to right; there is always at least
      one piece, and no piece contains the separator. */
  function Split(s: string, sep: char): (r: seq<string>)
    ensures |r| >= 1
    ensures forall k :: 0 <= k < |r| ==> sep !in r[k]
  {
    if s == [] then [[]]
    else
      var rest := Split(s[1..], sep);
      if s[0] == sep then [[]] + rest
      else [[s[0]] + rest[0]] + rest[1..]
  }

  /** `sep.join(parts)`, the inverse of `Split`. */
  function Join(parts: seq<string>, sep: char): string
    requires |parts| >= 1
  {
    if |parts| == 1 then parts[0] else parts[0] + [sep] + Join(parts[1..], sep)
  }

  /** Joining the pieces with the separator gives back the text. */
  lemma {:induction false} JoinSplit(s: string, sep: char)
    ensures Join(Split(s, sep), sep) == s
  {
    if s != [] {
      var rest := Split(s[1..], sep);
      JoinSplit(s[1..], sep);
      if s[0] == sep {
        assert Split(s, sep)[1..] == rest;
      } else {
        var r := Split(s, sep);
        assert r[1..] == rest[1..];
        if |rest| == 1 {
          assert Join(r, sep) == [s[0]] + rest[0];
        } else {
          assert Join(r, sep) == [s[0]] + rest[0] + [sep] + Join(rest[1..], sep);
        }
        assert s == [s[0]] + s[1..];
      }
    }
  }

  /** A piece without the separator, followed by the separator and more text,
      splits into that piece followed by the pieces of the rest. */
  lemma {:induction false} SplitAfterPiece(a: string, t: string, sep: char)
    requires sep !in a
    ensures Split(a + [sep] + t, sep) == [a] + Split(t, sep)
  {
    if a != [] {
      SplitAfterPiece(a[1..], t, sep);
      assert (a + [sep] + t)[1..] == a[1..] + [sep] + t;
      assert a[0] != sep;
      assert [a[0]] + a[1..] == a;
    } else {
      assert a + [sep] + t == [sep] + t;
      assert ([sep] + t)[1..] == t;
    }
  }

  /** A text without the separator is a single piece. */
  lemma {:induction false} SplitNoSeparator(a: string, sep: char)
    requires sep !in a
    ensures Split(a, sep) == [a]
  {
    if a != [] {
      SplitNoSeparator(a[1..], sep);
      assert [a[0]] + a[1..] == a;
    }
  }

  /** Splitting a join of separator-free pieces gives back the pieces. */
  lemma {:induction false} SplitJoin(parts: seq<string>, sep: char)
    requires |parts| >= 1
    requires forall k :: 0 <= k < |parts| ==> sep !in parts[k]
    ensures Split(Join(parts, sep), sep) == parts
  {
    if |parts| == 1 {
      SplitNoSeparator(parts[0], sep);
    } else {
      SplitJoin(parts[1..], sep);
      SplitAfterPiece(parts[0], Join(parts[1..], sep), sep);
    }
  }

  /** A character other than the separator occurs in a join exactly when it
      occurs in one of the pieces. */
  lemma {:induction false} InJoin(parts: seq<string>, sep: char, c: char)
    requires |parts| >= 1
    requires c != sep
    ensures c in Join(parts, sep) <==> exists k :: 0 <= k < |parts| && c in parts[k]
  {
    if |parts| > 1 {
      InJoin(parts[1..], sep, c);
      var j := Join(parts, sep);
      assert j == parts[0] + [sep] + Join(parts[1..], sep);
      if c in j && c !in parts[0] {
        assert c in Join(parts[1..], sep);
        var k :| 0 <= k < |parts[1..]| && c in parts[1..][k];
        assert c in parts[k + 1];
      }
      if exists k :: 0 <= k < |parts| && c in parts[k] {
        var k :| 0 <= k < |parts| && c in parts[k];
        if k > 0 {
          assert c in parts[1..][k - 1];
        }
      }
    }
  }

  /** The test of the comprehension at main.py:104: the stripped line is not
      empty, and the line (as it was, before stripping) contains a slash. */
  predicate Keep(line: string) {
    Strip(line) != [] && '/' in line
  }

  /** What every post text the parser produces looks like. */
  predicate IsPostText(t: string) {
    t != [] && !IsSpace(t[0]) && !IsSpace(t[|t| - 1]) && '/' in t
  }

  /** Since a slash is not white space, the filter only asks whether the
      stripped line contains a slash. */
  lemma {:induction false} KeepIffSlash(line: string)
    ensures Keep(line) <==> '/' in Strip(line)
    ensures Keep(line) <==> '/' in line
  {
    StripKeeps(line, '/');
  }

  /** The strip of a kept line is a post text. */
  lemma {:induction false} KeptLineIsPost(line: string)
    requires Keep(line)
    ensures IsPostText(Strip(line))
  {
    KeepIffSlash(line);
  }

  /** The comprehension over the split lines: stripped copies of the kept
      lines, in their order. */
  function FilterLines(lines: seq<string>): (posts: seq<string>)
    ensures |posts| <= |lines|
    ensures forall k :: 0 <= k < |posts| ==> IsPostText(posts[k])
  {
    if lines == [] then []
    else
      var last := lines[|lines| - 1];
      var front := FilterLines(lines[..|lines| - 1]);
      if Keep(last) then
        var post := Strip(last);
        KeptLineIsPost(last);
        front + [post]
      else
        front
  }

  /** The positions in `s` of the elements that satisfy `p`, in increasing
      order: every such position is listed, and nothing else is. */
  function Positions<T>(s: seq<T>, p: T -> bool): (idx: seq<nat>)
    ensures forall k :: 0 <= k < |idx| ==> idx[k] < |s| && p(s[idx[k]])
    ensures forall k, m :: 0 <= k < m < |idx| ==> idx[k] < idx[m]
    ensures forall i :: 0 <= i < |s| && p(s[i]) ==> i in idx
  {
    if s == [] then []
    else
      var n := |s| - 1;
      var front := Positions(s[..n], p);
      assert forall i :: 0 <= i < n ==> s[..n][i] == s[i];
      if p(s[n]) then front + [n] else front
  }

  /** The last line of a non-empty list of lines adds its strip to the posts
      when it passes the filter, and nothing otherwise. */
  lemma {:induction false} FilterLinesLast(lines: seq<string>)
    requires lines != []
    ensures var n := |lines| - 1;
      FilterLines(lines) == FilterLines(lines[..n]) + (if Keep(lines[n]) then [Strip(lines[n])] else [])
  {
  }

  /** The last element adds its position when it passes the test. */
  lemma {:induction false} PositionsLast<T>(s: seq<T>, p: T -> bool)
    requires s != []
    ensures var n := |s| - 1;
      Positions(s, p) == Positions(s[..n], p) + (if p(s[n]) then [n] else [])
  {
  }

  /** The positions of the lines the parser keeps. */
  function KeptIndices(lines: seq<string>): seq<nat> {
    Positions(lines, Keep)
  }

  /** The parser's output lists exactly the stripped kept lines, in the order
      in which the lines came: its k-th post is the stripped line at the k-th
      kept position. */
  lemma {:induction false} FilterLinesExact(lines: seq<string>)
    ensures |FilterLines(lines)| == |KeptIndices(lines)|
    ensures forall k :: 0 <= k < |KeptIndices(lines)| ==>
      FilterLines(lines)[k] == Strip(lines[KeptIndices(lines)[k]])
  {
    if lines != [] {
      var n := |lines| - 1;
      var front := lines[..n];
      FilterLinesExact(front);
      var posts, idx := FilterLines(front), KeptIndices(front);
      var tail := if Keep(lines[n]) then [n] else [];
      FilterLinesLast(lines);
      PositionsLast(lines, Keep);
      forall k | 0 <= k < |idx|
        ensures FilterLines(lines)[k] == Strip(lines[KeptIndices(lines)[k]])
      {
        assert FilterLines(lines)[k] == posts[k];
        assert KeptIndices(lines)[k] == idx[k];
        assert front[idx[k]] == lines[idx[k]];
      }
    }
  }

  /** The parser of main.py:104: split the thread on line breaks and keep the
      stripped copy of every line the filter accepts, in order. */
  function ParseThread(raw: string): (posts: seq<string>)
    ensures forall k :: 0 <= k < |posts| ==> IsPostText(posts[k]) && '\n' !in posts[k]
  {
    var lines := Split(raw, '\n');
    var posts := FilterLines(lines);
    FilterLinesExact(lines);
    forall k | 0 <= k < |posts| ensures '\n' !in posts[k] {
      StripKeeps(lines[KeptIndices(lines)[k]], '\n');
    }
    posts
  }

  /** The thread is a filtered, order-preserving image of the lines: post k is
      the stripped line at position `idx[k]`, the positions increase, and a
      line's position is listed exactly when the line passes the filter. */
  lemma {:induction false} ParseThreadIsOrderedFilter(raw: string)
    ensures var lines := Split(raw, '\n');
      var idx := KeptIndices(lines);
      |ParseThread(raw)| == |idx| &&
      (forall k :: 0 <= k < |idx| ==> idx[k] < |lines| && ParseThread(raw)[k] == Strip(lines[idx[k]])) &&
      (forall k, m :: 0 <= k < m < |idx| ==> idx[k] < idx[m]) &&
      (forall i :: 0 <= i < |lines| ==> (i in idx <==> Keep(lines[i])))
  {
    FilterLinesExact(Split(raw, '\n'));
  }

  /** No kept line means no post, and conversely. */
  lemma {:induction false} FilterLinesEmpty(lines: seq<string>)
    ensures FilterLines(lines) == [] <==> forall i :: 0 <= i < |lines| ==> !Keep(lines[i])
  {
    FilterLinesExact(lines);
    var idx := KeptIndices(lines);
    if idx != [] {
      assert Keep(lines[idx[0]]);
    }
  }

  /** The parser finds no post exactly when the generated text has no slash
      at all: that is when the bot exits without posting (main.py:105-107). */
  lemma {:induction false} ParseThreadEmptyIffNoSlash(raw: string)
    ensures ParseThread(raw) == [] <==> '/' !in raw
  {
    var lines := Split(raw, '\n');
    FilterLinesEmpty(lines);
    JoinSplit(raw, '\n');
    InJoin(lines, '\n', '/');
    forall i | 0 <= i < |lines| ensures Keep(lines[i]) <==> '/' in lines[i] {
      KeepIffSlash(lines[i]);
    }
  }

  /** Four pieces joined by the separator. */
  lemma {:induction false} JoinFour(a: string, b: string, c: string, d: string, sep: char)
    ensures Join([a, b, c, d], sep) == a + [sep] + (b + [sep] + (c + [sep] + d))
  {
    assert Join([c, d], sep) == c + [sep] + d by {
      assert [c, d][1..] == [d];
    }
    assert Join([b, c, d], sep) == b + [sep] + Join([c, d], sep) by {
      assert [b, c, d][1..] == [c, d];
    }
    assert [a, b, c, d][1..] == [b, c, d];
  }

  /** The worked example's text is its four lines joined by line breaks. */
  lemma {:induction false} ExampleJoin()
    ensures Join(["1/ Hello", "", "Notice", "2/ World"], '\n') == "1/ Hello\n\nNotice\n2/ World"
  {
    JoinFour("1/ Hello", "", "Notice", "2/ World", '\n');
  }

  /** The pieces of the worked example's text. */
  lemma {:induction false} ExampleLines()
    ensures Split("1/ Hello\n\nNotice\n2/ World", '\n') == ["1/ Hello", "", "Notice", "2/ World"]
  {
    var lines := ["1/ Hello", "", "Notice", "2/ World"];
    ExampleJoin();
    assert forall k :: 0 <= k < |lines| ==> '\n' !in lines[k];
    SplitJoin(lines, '\n');
  }

  /** Appending a line to the input appends its stripped copy to the output
      when the line is kept, and nothing otherwise. */
  lemma {:induction false} FilterLinesSnoc(lines: seq<string>, line: string)
    ensures FilterLines(lines + [line]) ==
      FilterLines(lines) + (if Keep(line) then [Strip(line)] else [])
  {
    assert (lines + [line])[..|lines|] == lines;
  }

  /** A line without a slash adds no post. */
  lemma {:induction false} FilterDropsNoSlash(lines: seq<string>, line: string)
    requires '/' !in line
    ensures FilterLines(lines + [line]) == FilterLines(lines)
  {
    FilterLinesSnoc(lines, line);
  }

  /** A line that already is a post text is kept as it is. */
  lemma {:induction false} FilterKeepsPostText(lines: seq<string>, line: string)
    requires IsPostText(line)
    ensures FilterLines(lines + [line]) == FilterLines(lines) + [line]
  {
    FilterLinesSnoc(lines, line);
    StripUnchanged(line);
  }

  /** The shape of the worked example: a post, two lines without a slash,
      then a post. */
  lemma {:induction false} FilterPostNoiseNoisePost(a: string, b: string, c: string, d: string)
    requires IsPostText(a) && '/' !in b && '/' !in c && IsPostText(d)
    ensures FilterLines([a, b, c, d]) == [a, d]
  {
    assert FilterLines([a]) == [a] by {
      FilterKeepsPostText([], a);
      assert [] + [a] == [a];
      assert FilterLines([]) == [];
    }
    assert FilterLines([a, b]) == [a] by {
      FilterDropsNoSlash([a], b);
      assert [a] + [b] == [a, b];
    }
    assert FilterLines([a, b, c]) == [a] by {
      FilterDropsNoSlash([a, b], c);
      assert [a, b] + [c] == [a, b, c];
    }
    assert FilterLines([a, b, c, d]) == [a] + [d] by {
      FilterKeepsPostText([a, b, c], d);
      assert [a, b, c] + [d] == [a, b, c, d];
    }
  }

  /** The worked example's lines, one by one. */
  lemma {:induction false} ExampleLinesClassified()
    ensures IsPostText("1/ Hello") && '/' !in "" && '/' !in "Notice" && IsPostText("2/ World")
  {
  }

  /** The worked example: an empty line and a line without a slash are dropped. */
  lemma {:induction false} ParseThreadExample()
    ensures ParseThread("1/ Hello\n\nNotice\n2/ World") == ["1/ Hello", "2/ World"]
  {
    ExampleLines();
    ExampleLinesClassified();
    FilterPostNoiseNoisePost("1/ Hello", "", "Notice", "2/ World");
  }
}
