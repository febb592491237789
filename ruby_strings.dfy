/**
 * The few Ruby String operations the slide pipeline relies on, stated over
 * `seq<char>`: `start_with?`-style prefix tests, `chomp`, `gsub(token, '')`,
 * splitting into lines at "\n" and joining them back, and `split(/\s+/)` /
 * `join(' ')` on whitespace-separated words.
 */
module RubyStrings {

  /** Ruby's `\s`: space, tab, line feed, carriage return, form feed, vertical tab. */
  predicate IsSpace(c: char) {
    c == ' ' || c == '\t' || c == '\n' || c == '\r' || c == '\U{C}' || c == '\U{B}'
  }

  /** `\s` without the line feed: the whitespace a line-based grammar allows inside a line. */
  predicate IsInlineSpace(c: char) {
    IsSpace(c) && c != '\n'
  }

  predicate StartsWith(s: string, prefix: string) {
    |prefix| <= |s| && s[..|prefix|] == prefix
  }

  predicate HasLineFeed(s: string) {
    exists k :: 0 <= k < |s| && s[k] == '\n'
  }

  predicate NoSpace(s: string) {
    forall k :: 0 <= k < |s| ==> !IsSpace(s[k])
  }

  /** `String#chomp` with the default separator: drops one trailing "\r\n", "\n" or "\r". */
  function Chomp(s: string): (r: string)
    ensures |r| <= |s| && r == s[..|r|]
    ensures s[|r|..] == "" || s[|r|..] == "\n" || s[|r|..] == "\r" || s[|r|..] == "\r\n"
    ensures s[|r|..] == "" <==> (s == [] || (s[|s| - 1] != '\n' && s[|s| - 1] != '\r'))
  {
    if |s| >= 2 && s[|s| - 2..] == "\r\n" then s[..|s| - 2]
    else if |s| >= 1 && (s[|s| - 1] == '\n' || s[|s| - 1] == '\r') then s[..|s| - 1]
    else s
  }

  /** `Chomp` only looks at the end of a string. */
  lemma ChompAfter(head: string, tail: string)
    requires head != [] && head[|head| - 1] != '\r' && head[|head| - 1] != '\n'
    ensures Chomp(head + tail) == head + Chomp(tail)
  {
    if |tail| >= 2 {
      ChompAfterLong(head, tail);
    } else if |tail| == 1 {
      ChompAfterOne(head, tail);
    } else {
      assert head + tail == head;
      assert Chomp(head) == head;
    }
  }

  lemma ChompAfterLong(head: string, tail: string)
    requires |tail| >= 2
    ensures Chomp(head + tail) == head + Chomp(tail)
  {
    var s := head + tail;
    assert s[|s| - 2..] == tail[|tail| - 2..];
    assert s[|s| - 1] == tail[|tail| - 1];
    assert s[..|s| - 2] == head + tail[..|tail| - 2];
    assert s[..|s| - 1] == head + tail[..|tail| - 1];
  }

  lemma ChompAfterOne(head: string, tail: string)
    requires head != [] && head[|head| - 1] != '\r'
    requires |tail| == 1
    ensures Chomp(head + tail) == head + Chomp(tail)
  {
    var s := head + tail;
    assert s[|s| - 2..] == [head[|head| - 1], tail[0]];
    assert s[|s| - 1] == tail[0];
    assert s[..|s| - 1] == head;
    assert tail[..0] == [];
  }

  /** The concatenation of a sequence of strings. */
  function Concat(parts: seq<string>): string
  {
    if parts == [] then "" else parts[0] + Concat(parts[1..])
  }

  lemma {:induction false} ConcatAppend(a: seq<string>, b: seq<string>)
    ensures Concat(a + b) == Concat(a) + Concat(b)
  {
    if a != [] {
      assert (a + b)[0] == a[0];
      assert (a + b)[1..] == a[1..] + b;
      ConcatAppend(a[1..], b);
    } else {
      assert a + b == b;
    }
  }

  /** One more part adds its text at the end. */
  lemma ConcatSnoc(a: seq<string>, x: string)
    ensures Concat(a + [x]) == Concat(a) + x
  {
    ConcatAppend(a, [x]);
    assert Concat([x]) == x + Concat([]);
  }

  /** `String#gsub(token, '')`: removes the non-overlapping occurrences of `token`, scanning left to right. */
  function DeleteAll(s: string, token: string): (r: string)
    requires token != []
    ensures |r| <= |s|
    decreases |s|
  {
    if s == [] then []
    else if StartsWith(s, token) then DeleteAll(s[|token|..], token)
    else [s[0]] + DeleteAll(s[1..], token)
  }

  /** A string in which the token's first character never occurs is left as it is. */
  lemma {:induction false} DeleteAllAbsent(s: string, token: string)
    requires token != []
    requires forall k :: 0 <= k < |s| ==> s[k] != token[0]
    ensures DeleteAll(s, token) == s
    decreases |s|
  {
    if s != [] {
      if |token| <= |s| {
        assert s[..|token|][0] == s[0];
      }
      assert !StartsWith(s, token);
      DeleteAllAbsent(s[1..], token);
    }
  }

  /** Removing a leading occurrence, then nothing else, when the rest cannot hold the token. */
  lemma DeleteAllLeading(token: string, rest: string)
    requires token != []
    requires forall k :: 0 <= k < |rest| ==> rest[k] != token[0]
    ensures DeleteAll(token + rest, token) == rest
  {
    assert StartsWith(token + rest, token);
    assert (token + rest)[|token|..] == rest;
    DeleteAllAbsent(rest, token);
  }

  /** `token` occurs nowhere in `s`. */
  predicate Lacks(s: string, token: string) {
    forall k :: 0 <= k <= |s| ==> !StartsWith(s[k..], token)
  }

  /** Deleting a token that does not occur changes nothing. */
  lemma {:induction false} DeleteAllLacking(s: string, token: string)
    requires token != [] && Lacks(s, token)
    ensures DeleteAll(s, token) == s
    decreases |s|
  {
    if s != [] {
      assert s[0..] == s;
      forall k | 0 <= k <= |s[1..]| ensures !StartsWith(s[1..][k..], token) {
        assert s[1..][k..] == s[k + 1..];
      }
      DeleteAllLacking(s[1..], token);
    }
  }

  /** A token that does not occur in `s` does not occur in a prefix of it either. */
  lemma LacksPrefix(s: string, n: nat, token: string)
    requires n <= |s| && Lacks(s, token)
    ensures Lacks(s[..n], token)
  {
    forall k | 0 <= k <= n ensures !StartsWith(s[..n][k..], token) {
      assert |token| <= |s[..n][k..]| ==> s[..n][k..][..|token|] == s[k..][..|token|];
    }
  }

  /** The string with its leading in-line whitespace removed. */
  function SkipInlineSpace(s: string): (r: string)
    ensures |r| <= |s|
    ensures r == [] || !IsInlineSpace(r[0])
  {
    if s != [] && IsInlineSpace(s[0]) then SkipInlineSpace(s[1..]) else s
  }

  /** What `SkipInlineSpace` removes is a run of in-line whitespace in front of what it keeps. */
  lemma {:induction false} SkipInlineSpaceSplit(s: string)
    ensures var r := SkipInlineSpace(s);
            s == s[..|s| - |r|] + r && forall k :: 0 <= k < |s| - |r| ==> IsInlineSpace(s[k])
    decreases |s|
  {
    if s != [] && IsInlineSpace(s[0]) {
      SkipInlineSpaceSplit(s[1..]);
      var r := SkipInlineSpace(s);
      assert s[..|s| - |r|] == [s[0]] + s[1..][..|s| - 1 - |r|];
      forall k | 1 <= k < |s| - |r| ensures IsInlineSpace(s[k]) {
        assert s[k] == s[1..][k - 1];
      }
    }
  }

  // ---------------------------------------------------------------------------
  // Lines

  /** The lines of `s`: the pieces between line feeds (a trailing "\n" yields a last, empty line). */
  function SplitLines(s: string): (ls: seq<string>)
    ensures |ls| >= 1
    ensures forall i :: 0 <= i < |ls| ==> !HasLineFeed(ls[i])
  {
    if s == [] then [""]
    else
      var rest := SplitLines(s[1..]);
      if s[0] == '\n' then [""] + rest
      else
        assert !HasLineFeed(rest[0]);
        [[s[0]] + rest[0]] + rest[1..]
  }

  /** Lines joined back with "\n" between consecutive lines. */
  function JoinLines(ls: seq<string>): string
    requires |ls| >= 1
  {
    if |ls| == 1 then ls[0] else ls[0] + "\n" + JoinLines(ls[1..])
  }

  lemma {:induction false} JoinSplitLines(s: string)
    ensures JoinLines(SplitLines(s)) == s
  {
    if s != [] {
      var rest := SplitLines(s[1..]);
      JoinSplitLines(s[1..]);
      if s[0] == '\n' {
        assert SplitLines(s) == [""] + rest;
        assert ([""] + rest)[1..] == rest;
      } else {
        var ls := [[s[0]] + rest[0]] + rest[1..];
        assert SplitLines(s) == ls;
        if |rest| == 1 {
          assert rest == [rest[0]];
        } else {
          assert ls[1..] == rest[1..];
          assert JoinLines(rest) == rest[0] + "\n" + JoinLines(rest[1..]);
        }
      }
    }
  }

  /** A line without a line feed is one line. */
  lemma {:induction false} SplitOneLine(line: string)
    requires !HasLineFeed(line)
    ensures SplitLines(line) == [line]
    decreases |line|
  {
    if line != [] {
      assert !HasLineFeed(line[1..]) by {
        forall k | 0 <= k < |line[1..]| ensures line[1..][k] != '\n' {
          assert line[1..][k] == line[k + 1];
        }
      }
      SplitOneLine(line[1..]);
      assert [line[0]] + line[1..] == line;
    }
  }

  /** Splitting `line + "\n" + rest` puts `line` in front of the lines of `rest`. */
  lemma {:induction false} SplitLinesCons(line: string, rest: string)
    requires !HasLineFeed(line)
    ensures SplitLines(line + "\n" + rest) == [line] + SplitLines(rest)
    decreases |line|
  {
    if line == [] {
      assert line + "\n" + rest == "\n" + rest;
      assert ("\n" + rest)[1..] == rest;
    } else {
      var s := line + "\n" + rest;
      assert s[0] == line[0];
      assert s[1..] == line[1..] + "\n" + rest;
      assert !HasLineFeed(line[1..]) by {
        forall k | 0 <= k < |line[1..]| ensures line[1..][k] != '\n' {
          assert line[1..][k] == line[k + 1];
        }
      }
      SplitLinesCons(line[1..], rest);
      assert [line[0]] + line[1..] == line;
    }
  }

  lemma {:induction false} SplitJoinLines(ls: seq<string>)
    requires |ls| >= 1
    requires forall i :: 0 <= i < |ls| ==> !HasLineFeed(ls[i])
    ensures SplitLines(JoinLines(ls)) == ls
  {
    if |ls| == 1 {
      SplitOneLine(ls[0]);
    } else {
      SplitJoinLines(ls[1..]);
      SplitLinesCons(ls[0], JoinLines(ls[1..]));
      assert [ls[0]] + ls[1..] == ls;
    }
  }

  /** Joining one more line appends a line feed and that line. */
  lemma {:induction false} JoinLinesSnoc(ls: seq<string>, line: string)
    requires |ls| >= 1
    ensures JoinLines(ls + [line]) == JoinLines(ls) + "\n" + line
  {
    if |ls| == 1 {
      assert (ls + [line])[1..] == [line];
    } else {
      assert (ls + [line])[1..] == ls[1..] + [line];
      JoinLinesSnoc(ls[1..], line);
    }
  }

  /** A text that ends with a line feed has an empty last line. */
  lemma {:induction false} SplitLinesEndsEmpty(s: string)
    requires s != [] && s[|s| - 1] == '\n'
    ensures SplitLines(s)[|SplitLines(s)| - 1] == ""
  {
    var rest := SplitLines(s[1..]);
    if |s| == 1 {
      assert s[0] == '\n' && s[1..] == [];
    } else {
      assert s[1..][|s[1..]| - 1] == '\n';
      SplitLinesEndsEmpty(s[1..]);
      if s[0] != '\n' {
        SplitLinesMany(s[1..], |s| - 2);
      }
    }
  }

  /** A text holding a line feed has at least two lines. */
  lemma {:induction false} SplitLinesMany(s: string, k: nat)
    requires k < |s| && s[k] == '\n'
    ensures |SplitLines(s)| >= 2
  {
    if k > 0 && s[0] != '\n' {
      SplitLinesMany(s[1..], k - 1);
    }
  }

  // ---------------------------------------------------------------------------
  // Whitespace-separated words

  /** The longest prefix of `s` free of whitespace. */
  function LeadingWord(s: string): (w: string)
    ensures |w| <= |s| && w == s[..|w|] && NoSpace(w)
    ensures |w| < |s| ==> IsSpace(s[|w|])
  {
    if s == [] || IsSpace(s[0]) then []
    else
      var w := LeadingWord(s[1..]);
      assert [s[0]] + w == s[..|w| + 1];
      [s[0]] + w
  }

  /** The non-empty whitespace-free runs of `s`, in order (what a CSS class attribute lists). */
  function Words(s: string): (ws: seq<string>)
    ensures forall i :: 0 <= i < |ws| ==> ws[i] != [] && NoSpace(ws[i])
    decreases |s|
  {
    if s == [] then []
    else if IsSpace(s[0]) then Words(s[1..])
    else
      var w := LeadingWord(s);
      [w] + Words(s[|w|..])
  }

  /** `String#split(/\s+/)`: the words, preceded by one empty field when `s` opens with whitespace
      (Ruby keeps a leading empty field and suppresses trailing ones). */
  function SplitOnSpaces(s: string): (fields: seq<string>)
  {
    (if s != [] && IsSpace(s[0]) && Words(s) != [] then [""] else []) + Words(s)
  }

  /** `Array#join(' ')`. */
  function JoinWithSpace(parts: seq<string>): string
  {
    if parts == [] then ""
    else if |parts| == 1 then parts[0]
    else parts[0] + " " + JoinWithSpace(parts[1..])
  }

  /** The non-empty elements of a sequence, in order (`reject(&:empty?)`). */
  function NonEmpty(parts: seq<string>): (r: seq<string>)
    ensures forall i :: 0 <= i < |r| ==> r[i] != []
    ensures |r| <= |parts|
  {
    if parts == [] then []
    else (if parts[0] == [] then [] else [parts[0]]) + NonEmpty(parts[1..])
  }

  lemma {:induction false} NonEmptyAppend(a: seq<string>, b: seq<string>)
    ensures NonEmpty(a + b) == NonEmpty(a) + NonEmpty(b)
  {
    if a == [] {
      assert a + b == b;
    } else {
      var head: seq<string> := if a[0] == [] then [] else [a[0]];
      assert (a + b)[0] == a[0];
      assert (a + b)[1..] == a[1..] + b;
      NonEmptyAppend(a[1..], b);
      calc {
        NonEmpty(a + b);
        head + NonEmpty(a[1..] + b);
        head + (NonEmpty(a[1..]) + NonEmpty(b));
        (head + NonEmpty(a[1..])) + NonEmpty(b);
      }
    }
  }

  lemma {:induction false} WordsOfWord(w: string, rest: string)
    requires w != [] && NoSpace(w)
    requires rest == [] || IsSpace(rest[0])
    ensures Words(w + rest) == [w] + Words(rest)
  {
    LeadingWordOf(w, rest);
    assert (w + rest)[0] == w[0];
    assert (w + rest)[|w|..] == rest;
  }

  lemma {:induction false} LeadingWordOf(w: string, rest: string)
    requires NoSpace(w)
    requires rest == [] || IsSpace(rest[0])
    ensures LeadingWord(w + rest) == w
    decreases |w|
  {
    if w == [] {
      assert w + rest == rest;
    } else {
      assert (w + rest)[1..] == w[1..] + rest;
      LeadingWordOf(w[1..], rest);
      assert [w[0]] + w[1..] == w;
    }
  }

  /** Joining whitespace-free fields with single spaces and reading the words back gives the
      non-empty fields: empty fields only add spaces. */
  lemma {:induction false} WordsOfJoin(parts: seq<string>)
    requires forall i :: 0 <= i < |parts| ==> NoSpace(parts[i])
    ensures Words(JoinWithSpace(parts)) == NonEmpty(parts)
  {
    if parts == [] {
    } else if |parts| == 1 {
      var p := parts[0];
      if p != [] {
        WordsOfWord(p, []);
        assert p + [] == p;
      }
      assert NonEmpty(parts) == (if p == [] then [] else [p]) + NonEmpty([]);
    } else {
      var p := parts[0];
      var tail := JoinWithSpace(parts[1..]);
      WordsOfJoin(parts[1..]);
      assert (" " + tail)[1..] == tail;
      assert Words(" " + tail) == Words(tail);
      if p == [] {
        assert p + " " + tail == " " + tail;
      } else {
        WordsOfWord(p, " " + tail);
        assert p + " " + tail == p + (" " + tail);
      }
    }
  }

  /** `split(/\s+/)` yields exactly the words plus, at most, one leading empty field. */
  lemma SplitOnSpacesFields(s: string)
    ensures NonEmpty(SplitOnSpaces(s)) == Words(s)
    ensures forall i :: 0 <= i < |SplitOnSpaces(s)| ==> NoSpace(SplitOnSpaces(s)[i])
  {
    var lead: seq<string> := if s != [] && IsSpace(s[0]) && Words(s) != [] then [""] else [];
    NonEmptyAppend(lead, Words(s));
    NonEmptyOfWords(Words(s));
  }

  lemma {:induction false} NonEmptyOfWords(ws: seq<string>)
    requires forall i :: 0 <= i < |ws| ==> ws[i] != []
    ensures NonEmpty(ws) == ws
  {
    if ws != [] {
      NonEmptyOfWords(ws[1..]);
      assert [ws[0]] + ws[1..] == ws;
    }
  }

  /** Dropping empty strings does not change the concatenation. */
  lemma {:induction false} ConcatNonEmpty(parts: seq<string>)
    ensures Concat(NonEmpty(parts)) == Concat(parts)
  {
    if parts != [] {
      ConcatNonEmpty(parts[1..]);
      var head: seq<string> := if parts[0] == [] then [] else [parts[0]];
      ConcatAppend(head, NonEmpty(parts[1..]));
      if parts[0] != [] {
        assert Concat(head) == parts[0] + Concat([]);
      }
    }
  }
}
