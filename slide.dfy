/**
 * A slide: its body text, its class list and its speaker notes. Building a slide cuts the
 * `!NOTES` block out of the text: the first `!NOTES` that opens a line, through the last line
 * feed that ends a line (the pattern's `.*` reaches across lines and is greedy), and keeps
 * that block, chomped and with the token deleted, as the notes.
 */
module SlideModel {
  import opened Wrappers
  import opened RubyStrings

  const NotesToken := "!NOTES"

  /** Position `i` of `s` opens a line (the regex's `^`). */
  predicate LineStart(s: string, i: int) {
    0 <= i <= |s| && (i == 0 || s[i - 1] == '\n')
  }

  /** A line of `s` opens with the notes token at `i`. */
  predicate NotesAt(s: string, i: int) {
    LineStart(s, i) && StartsWith(s[i..], NotesToken)
  }

  /** A match may end at `p`: the pattern's last `\n` is `s[p - 1]` and `$` holds at `p`. */
  predicate BlockEnd(s: string, p: int) {
    1 <= p <= |s| && s[p - 1] == '\n' && (p == |s| || s[p] == '\n')
  }

  /** The first line from `from` on that opens with the notes token. */
  function FirstNotes(s: string, from: nat): (r: Option<nat>)
    ensures r.Some? ==> from <= r.value <= |s| && NotesAt(s, r.value)
    ensures r.Some? ==> forall j :: from <= j < r.value ==> !NotesAt(s, j)
    ensures r.None? ==> forall j :: from <= j <= |s| ==> !NotesAt(s, j)
    decreases |s| + 1 - from
  {
    if from > |s| then None
    else if NotesAt(s, from) then Some(from)
    else FirstNotes(s, from + 1)
  }

  /** The last position up to `upto` where a match may end. */
  function LastBlockEnd(s: string, upto: nat): (r: Option<nat>)
    requires upto <= |s|
    ensures r.Some? ==> r.value <= upto && BlockEnd(s, r.value)
    ensures r.Some? ==> forall q :: r.value < q <= upto ==> !BlockEnd(s, q)
    ensures r.None? ==> forall q :: 0 <= q <= upto ==> !BlockEnd(s, q)
  {
    if upto == 0 then None
    else if BlockEnd(s, upto) then Some(upto)
    else LastBlockEnd(s, upto - 1)
  }

  /** The span `s[start..end]` the notes pattern matches. */
  datatype Span = Span(start: nat, end: nat)

  /** The match of `^!NOTES\s*(.*\n)$` (multi-line mode) in `s`: the leftmost start, and from it
      the longest match; a text has at most one, since no match can start after the end of the
      longest one. */
  function NotesMatch(s: string): (m: Option<Span>)
    ensures m.Some? ==> m.value.start + |NotesToken| < m.value.end <= |s|
    ensures m.Some? ==> NotesAt(s, m.value.start) && BlockEnd(s, m.value.end)
    ensures m.Some? ==> forall j :: 0 <= j < m.value.start ==> !NotesAt(s, j)
    ensures m.Some? ==> forall q :: m.value.end < q <= |s| ==> !BlockEnd(s, q)
    ensures m.None? ==> forall i, p :: NotesAt(s, i) && BlockEnd(s, p) ==> p <= i + |NotesToken|
  {
    match FirstNotes(s, 0)
    case None => None
    case Some(i) =>
      match LastBlockEnd(s, |s|)
      case None => None
      case Some(p) => if i + |NotesToken| < p then Some(Span(i, p)) else None
  }

  /** What the block's match becomes as notes: chomped, every token occurrence deleted. */
  function NoteText(block: string): string
  {
    DeleteAll(Chomp(block), NotesToken)
  }

  /** The slide text once the notes block is cut out of it. */
  function TextWithoutNotes(s: string): string
  {
    match NotesMatch(s)
    case None => s
    case Some(m) => s[..m.start] + s[m.end..]
  }

  /** The notes a slide text carries, if it has a notes block. */
  function NotesOf(s: string): Option<string>
  {
    match NotesMatch(s)
    case None => None
    case Some(m) => Some(NoteText(s[m.start..m.end]))
  }

  /** Cutting the notes block leaves no other: a second extraction would change nothing. */
  lemma CutLeavesNoNotes(s: string)
    ensures NotesMatch(TextWithoutNotes(s)).None?
  {
    match NotesMatch(s)
    case None =>
    case Some(m) =>
      var i, p := m.start, m.end;
      var t := s[..i] + s[p..];
      assert |t| == |s| - (p - i);
      // Every place a match could end in `t` lies before the cut.
      forall q | i < q <= |t| ensures !BlockEnd(t, q) {
        CutShiftsBlockEnds(s, i, p, q);
      }
      // Before the cut, `t` and `s` agree, and `s` has no notes line there.
      forall j | 0 <= j && j + |NotesToken| <= i ensures !NotesAt(t, j) {
        CutKeepsNotesLines(s, i, p, j);
      }
      assert forall a, b :: NotesAt(t, a) && BlockEnd(t, b) ==> b <= a + |NotesToken|;
  }

  /** A place after the cut ends a match in the cut text only where its shifted place does in `s`. */
  lemma CutShiftsBlockEnds(s: string, i: nat, p: nat, q: nat)
    requires i <= p <= |s| && i < q <= |s| - (p - i)
    ensures BlockEnd(s[..i] + s[p..], q) <==> BlockEnd(s, q - i + p)
  {
    var t := s[..i] + s[p..];
    var q' := q - i + p;
    assert t[q - 1] == s[q' - 1];
    assert q < |t| ==> t[q] == s[q'];
  }

  /** Far enough before the cut, the cut text opens a notes line exactly where `s` does. */
  lemma CutKeepsNotesLines(s: string, i: nat, p: nat, j: nat)
    requires i <= p <= |s| && j + |NotesToken| <= i
    ensures NotesAt(s[..i] + s[p..], j) <==> NotesAt(s, j)
  {
    var t := s[..i] + s[p..];
    assert j > 0 ==> t[j - 1] == s[j - 1];
    assert t[j..][..|NotesToken|] == s[j..][..|NotesToken|] by {
      forall k | 0 <= k < |NotesToken| ensures t[j..][k] == s[j..][k] {
        assert t[j..][k] == t[j + k] && s[j..][k] == s[j + k];
        assert t[j + k] == s[..i][j + k];
      }
    }
  }

  /** In a text that ends with a line feed, everything from the first `!NOTES` line on is the note. */
  lemma NotesRunToEnd(s: string, i: nat)
    requires s != [] && s[|s| - 1] == '\n'
    requires NotesAt(s, i) && i + |NotesToken| < |s|
    requires forall j :: 0 <= j < i ==> !NotesAt(s, j)
    ensures TextWithoutNotes(s) == s[..i]
    ensures NotesOf(s) == Some(NoteText(s[i..]))
  {
    assert BlockEnd(s, |s|);
    assert LastBlockEnd(s, |s|) == Some(|s|);
    assert FirstNotes(s, 0) == Some(i);
    assert s[|s|..] == [];
    assert s[..i] + s[|s|..] == s[..i];
    assert s[i..|s|] == s[i..];
  }

  /** Without a `!NOTES` line the text is kept and there are no notes. */
  lemma NoNotesLine(s: string)
    requires forall i :: 0 <= i <= |s| ==> !NotesAt(s, i)
    ensures TextWithoutNotes(s) == s && NotesOf(s) == None
  {
    assert FirstNotes(s, 0) == None;
  }

  /** A `!NOTES` line with nothing after it but its own line feed only counts at the very end. */
  lemma NotesNeedLineFeed(s: string)
    requires !HasLineFeed(s)
    ensures TextWithoutNotes(s) == s && NotesOf(s) == None
  {
    assert LastBlockEnd(s, |s|) == None;
  }

  /** A slide made of a body, a `!NOTES` line and the notes' lines, where no line of the body
      opens with the token and the notes do not repeat it: the body stays as the text, and the
      notes are everything after the token, chomped, the line break after the token included. */
  lemma NotesAfterBody(body: string, rest: string)
    requires body == [] || body[|body| - 1] == '\n'
    requires forall j :: 0 <= j < |body| ==> !NotesAt(body, j)
    requires rest != [] && rest[|rest| - 1] == '\n'
    requires Lacks(rest, NotesToken)
    ensures TextWithoutNotes(body + NotesToken + rest) == body
    ensures NotesOf(body + NotesToken + rest) == Some(Chomp(rest))
  {
    var s := body + NotesToken + rest;
    NotesOpenAfterBody(body, rest);
    SlideLayout(body, rest);
    BodyStays(s, body);
    NotesFollowBody(s, |body|, rest);
  }

  /** Where the body and the notes lie in such a slide. */
  lemma SlideLayout(body: string, rest: string)
    requires rest != [] && rest[|rest| - 1] == '\n'
    ensures var s := body + NotesToken + rest;
            s[|s| - 1] == '\n' && s[..|body|] == body && s[|body|..] == NotesToken + rest
  {
    var s := body + NotesToken + rest;
    assert s == body + (NotesToken + rest);
  }

  lemma BodyStays(s: string, body: string)
    requires s != [] && s[|s| - 1] == '\n' && |body| <= |s| && s[..|body|] == body
    requires NotesAt(s, |body|) && |body| + |NotesToken| < |s|
    requires forall j :: 0 <= j < |body| ==> !NotesAt(s, j)
    ensures TextWithoutNotes(s) == body
  {
    NotesRunToEnd(s, |body|);
  }

  lemma NotesFollowBody(s: string, i: nat, rest: string)
    requires s != [] && s[|s| - 1] == '\n' && i <= |s| && s[i..] == NotesToken + rest
    requires NotesAt(s, i) && i + |NotesToken| < |s|
    requires forall j :: 0 <= j < i ==> !NotesAt(s, j)
    requires Lacks(rest, NotesToken)
    ensures NotesOf(s) == Some(Chomp(rest))
  {
    NotesRunToEnd(s, i);
    NoteTextAfterToken(rest);
  }

  /** The first `!NOTES` line of such a slide is the one right after the body. */
  lemma NotesOpenAfterBody(body: string, rest: string)
    requires body == [] || body[|body| - 1] == '\n'
    requires forall j :: 0 <= j < |body| ==> !NotesAt(body, j)
    requires rest != [] && rest[|rest| - 1] == '\n'
    ensures NotesAt(body + NotesToken + rest, |body|)
    ensures forall j :: 0 <= j < |body| ==> !NotesAt(body + NotesToken + rest, j)
    ensures |body| + |NotesToken| < |body + NotesToken + rest|
  {
    var s := body + NotesToken + rest;
    var i := |body|;
    assert s[i..][..|NotesToken|] == NotesToken;
    forall j | 0 <= j < i ensures !NotesAt(s, j) {
      BodyLineStays(body, NotesToken + rest, j);
      assert s == body + (NotesToken + rest);
    }
  }

  /** A line of a body that ends with a line feed opens with the token only if it does so
      within the body. */
  lemma BodyLineStays(body: string, tail: string, j: nat)
    requires body != [] && body[|body| - 1] == '\n' && j < |body|
    requires !NotesAt(body, j)
    ensures !NotesAt(body + tail, j)
  {
    var s := body + tail;
    var n := |NotesToken|;
    assert j > 0 ==> s[j - 1] == body[j - 1];
    if j + n <= |body| {
      assert body[j..][..n] == s[j..][..n];
    } else {
      var k := |body| - 1 - j;
      assert j + n <= |s| ==> s[j..][..n][k] == '\n';
      assert NotesToken[k] != '\n';
    }
  }

  /** The notes of a block that is the token and then text without the token are that text,
      chomped. */
  lemma NoteTextAfterToken(rest: string)
    requires rest != [] && rest[|rest| - 1] == '\n'
    requires Lacks(rest, NotesToken)
    ensures NoteText(NotesToken + rest) == Chomp(rest)
  {
    ChompAfter(NotesToken, rest);
    var chomped := Chomp(rest);
    assert StartsWith(NotesToken + chomped, NotesToken);
    assert (NotesToken + chomped)[|NotesToken|..] == chomped;
    LacksPrefix(rest, |chomped|, NotesToken);
    DeleteAllLacking(chomped, NotesToken);
  }

  class Slide {
    var text: string
    var classes: seq<string>
    var notes: Option<string>

    /** `Slide.new(text, *classes)`: the text and classes as given, then the notes cut out. */
    constructor (text: string, classes: seq<string>)
      ensures this.classes == classes
      ensures this.text == TextWithoutNotes(text) && notes == NotesOf(text)
    {
      this.text := text;
      this.classes := classes;
      notes := None;
      new;
      ExtractNotes();
    }

    /** `extract_notes!`: cuts the notes block out of the text and records it as the notes;
        without a block, nothing changes. */
    method ExtractNotes()
      modifies this`text, this`notes
      ensures text == TextWithoutNotes(old(text))
      ensures notes == if NotesOf(old(text)).Some? then NotesOf(old(text)) else old(notes)
    {
      match NotesMatch(text)
      case None =>
      case Some(m) =>
        notes := Some(NoteText(text[m.start..m.end]));
        text := text[..m.start] + text[m.end..];
    }
  }
}
