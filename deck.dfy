/**
 * The deck parser (`SlideDown`): it makes sure the document opens with a `!SLIDE` marker,
 * records the class text of every marker line while rewriting each marker to a bare `!SLIDE`,
 * splits the document at the markers, and turns each non-empty piece into a slide whose
 * classes are taken from the front of the recorded queue.
 *
 * Marker recognition is line-based: a marker line is `!SLIDE` followed only by lower-case
 * letters and in-line whitespace.
 */
module Deck {
  import opened Wrappers
  import opened RubyStrings
  import SlideModel

  const Marker := "!SLIDE"
  const DefaultTitle := "Slides"

  // ---------------------------------------------------------------------------
  // Marker synthesis

  /** The document with a marker line put in front unless it already opens with `!SLIDE`. */
  function Synthesize(raw: string): (deck: string)
    ensures StartsWith(deck, Marker)
  {
    if StartsWith(raw, Marker) then raw else Marker + "\n" + raw
  }

  /** Synthesis either keeps the document or adds exactly one line, a bare marker, in front of
      its lines; applying it again changes nothing. */
  lemma SynthesizeLines(raw: string)
    ensures SplitLines(Synthesize(raw)) ==
              if StartsWith(raw, Marker) then SplitLines(raw) else [Marker] + SplitLines(raw)
    ensures Synthesize(Synthesize(raw)) == Synthesize(raw)
  {
    if !StartsWith(raw, Marker) {
      SplitLinesCons(Marker, raw);
    }
  }

  // ---------------------------------------------------------------------------
  // Marker lines and class entries

  /** A character the class part of a marker line may hold: `[a-z]` or whitespace. */
  predicate IsClassChar(c: char) {
    ('a' <= c <= 'z') || IsInlineSpace(c)
  }

  /** `^!SLIDE\s*([a-z\s]*)$` on one line. */
  predicate IsMarkerLine(line: string) {
    StartsWith(line, Marker) && forall k :: |Marker| <= k < |line| ==> IsClassChar(line[k])
  }

  /** The class entry recorded for a marker line: chomped, every `!SLIDE` deleted. */
  function ClassEntry(line: string): string
  {
    DeleteAll(Chomp(line), Marker)
  }

  /** The group a marker line captures: its class text after the leading whitespace. */
  function Capture(line: string): string
  {
    if |line| < |Marker| then "" else SkipInlineSpace(line[|Marker|..])
  }

  /** The entry recorded for a marker line is exactly the text after the token, leading
      whitespace included (only a trailing carriage return is chomped). */
  lemma ClassEntryOfMarker(line: string)
    requires IsMarkerLine(line)
    ensures ClassEntry(line) == Chomp(line[|Marker|..])
  {
    var rest := line[|Marker|..];
    assert line == Marker + rest;
    ChompAfter(Marker, rest);
    var chomped := Chomp(rest);
    forall k | 0 <= k < |chomped| ensures chomped[k] != Marker[0] {
      assert chomped[k] == rest[k] == line[|Marker| + k];
    }
    DeleteAllLeading(Marker, chomped);
  }

  /** The positions of the marker lines, in document order. */
  function MarkerIndices(ls: seq<string>): (m: seq<nat>)
    ensures forall j :: 0 <= j < |m| ==> m[j] < |ls|
    decreases |ls|
  {
    if ls == [] then []
    else MarkerIndices(ls[..|ls| - 1]) + (if IsMarkerLine(ls[|ls| - 1]) then [|ls| - 1] else [])
  }

  /** The marker positions are exactly the marker lines, each once, in increasing order. */
  lemma {:induction false} MarkerIndicesSpec(ls: seq<string>)
    ensures forall j :: 0 <= j < |MarkerIndices(ls)| ==> IsMarkerLine(ls[MarkerIndices(ls)[j]])
    ensures forall j, j' :: 0 <= j < j' < |MarkerIndices(ls)| ==> MarkerIndices(ls)[j] < MarkerIndices(ls)[j']
    ensures forall i :: 0 <= i < |ls| && IsMarkerLine(ls[i]) ==> i in MarkerIndices(ls)
    decreases |ls|
  {
    if ls != [] {
      var init := ls[..|ls| - 1];
      MarkerIndicesSpec(init);
      var m := MarkerIndices(init);
      forall j | 0 <= j < |m| ensures ls[m[j]] == init[m[j]] {
      }
      forall i | 0 <= i < |init| ensures ls[i] == init[i] {
      }
    }
  }

  /** The class entries of a document's lines: one per marker line, in document order. */
  function ClassEntries(ls: seq<string>): (entries: seq<string>)
    ensures |entries| == |MarkerIndices(ls)|
  {
    var m := MarkerIndices(ls);
    seq(|m|, j requires 0 <= j < |m| => ClassEntry(ls[m[j]]))
  }

  /** The lines with every marker line rewritten to a bare marker. */
  function RewriteMarkers(ls: seq<string>): (r: seq<string>)
    ensures |r| == |ls|
  {
    seq(|ls|, i requires 0 <= i < |ls| => if IsMarkerLine(ls[i]) then Marker else ls[i])
  }

  lemma MarkerIsMarkerLine()
    ensures IsMarkerLine(Marker) && Capture(Marker) == ""
  {
  }

  /** One more line adds one entry if it is a marker line, and none otherwise. */
  lemma ClassEntriesSnoc(ls: seq<string>, k: nat)
    requires k < |ls|
    ensures ClassEntries(ls[..k + 1]) ==
              ClassEntries(ls[..k]) + (if IsMarkerLine(ls[k]) then [ClassEntry(ls[k])] else [])
  {
    var pre, pre' := ls[..k], ls[..k + 1];
    assert pre'[..|pre'| - 1] == pre;
    var m, m' := MarkerIndices(pre), MarkerIndices(pre');
    assert m' == m + (if IsMarkerLine(ls[k]) then [k] else []);
    forall j | 0 <= j < |m| ensures pre'[m[j]] == pre[m[j]] {
    }
  }

  /** One more line adds its rewritten form. */
  lemma RewriteMarkersSnoc(ls: seq<string>, k: nat)
    requires k < |ls|
    ensures RewriteMarkers(ls[..k + 1]) ==
              RewriteMarkers(ls[..k]) + [if IsMarkerLine(ls[k]) then Marker else ls[k]]
  {
  }

  /** Rewriting keeps the marker positions. */
  lemma {:induction false} RewriteMarkerIndices(ls: seq<string>)
    ensures MarkerIndices(RewriteMarkers(ls)) == MarkerIndices(ls)
    decreases |ls|
  {
    if ls != [] {
      var r := RewriteMarkers(ls);
      var n := |ls| - 1;
      RewriteInit(ls);
      RewriteMarkerIndices(ls[..n]);
      MarkerIndicesSnoc(ls);
      MarkerIndicesSnoc(r);
      if IsMarkerLine(ls[n]) {
        RewriteMarkerAt(ls, n);
      } else {
        assert r[n] == ls[n];
      }
    }
  }

  /** Every class entry, in order, belongs to the corresponding marker line, and the entries
      are as many as the marker lines. */
  lemma ClassEntriesSpec(ls: seq<string>)
    ensures |ClassEntries(ls)| == |MarkerIndices(ls)|
    ensures forall j :: 0 <= j < |ClassEntries(ls)| ==> IsMarkerLine(ls[MarkerIndices(ls)[j]])
    ensures forall j :: 0 <= j < |ClassEntries(ls)| ==>
              |Marker| <= |ls[MarkerIndices(ls)[j]]| && ClassEntries(ls)[j] == Chomp(ls[MarkerIndices(ls)[j]][|Marker|..])
  {
    var m := MarkerIndices(ls);
    MarkerIndicesSpec(ls);
    forall j | 0 <= j < |m| ensures ClassEntries(ls)[j] == Chomp(ls[m[j]][|Marker|..]) {
      ClassEntryOfMarker(ls[m[j]]);
    }
  }

  // ---------------------------------------------------------------------------
  // Splitting at the markers

  /** The document cut at its marker lines: the pieces between them, each as its lines (a piece
      starts with an empty line right after a marker and ends with one right before the next),
      and the group each marker captures. */
  datatype Pieces = Pieces(segs: seq<seq<string>>, caps: seq<string>)

  function PieceLines(ls: seq<string>): (p: Pieces)
    requires |ls| >= 1
    ensures |p.segs| == |p.caps| + 1
    ensures forall k :: 0 <= k < |p.segs| ==> |p.segs[k]| >= 1
    decreases |ls|
  {
    if |ls| == 1 then FirstPieces(ls[0]) else NextPieces(PieceLines(ls[..|ls| - 1]), ls[|ls| - 1])
  }

  /** The pieces of a one-line document: a marker line opens the second of two empty pieces. */
  function FirstPieces(line: string): (p: Pieces)
    ensures |p.segs| == |p.caps| + 1
    ensures forall k :: 0 <= k < |p.segs| ==> |p.segs[k]| >= 1
  {
    var open: seq<string> := [""];
    if IsMarkerLine(line) then Pieces([open, open], [Capture(line)]) else Pieces([[line]], [])
  }

  /** One more line: a marker line closes the last piece with an empty line, records its capture
      and opens a new piece; any other line joins the last piece. */
  function NextPieces(p: Pieces, line: string): (q: Pieces)
    requires |p.segs| == |p.caps| + 1
    requires forall k :: 0 <= k < |p.segs| ==> |p.segs[k]| >= 1
    ensures |q.segs| == |q.caps| + 1
    ensures forall k :: 0 <= k < |q.segs| ==> |q.segs[k]| >= 1
  {
    if IsMarkerLine(line) then Pieces(Extend(p.segs, "", [[""]]), p.caps + [Capture(line)])
    else Pieces(Extend(p.segs, line, []), p.caps)
  }

  /** The pieces with `line` added to the last one, then the pieces in `extra` opened. */
  function Extend(segs: seq<seq<string>>, line: string, extra: seq<seq<string>>): (r: seq<seq<string>>)
    requires |segs| >= 1 && forall k :: 0 <= k < |segs| ==> |segs[k]| >= 1
    requires extra == [] || extra == [[""]]
    ensures |r| == |segs| + |extra|
    ensures forall k :: 0 <= k < |r| ==> |r[k]| >= 1
  {
    var r := segs[..|segs| - 1] + [segs[|segs| - 1] + [line]] + extra;
    assert forall k :: 0 <= k < |segs| - 1 ==> r[k] == segs[k];
    r
  }

  /** The text of each piece. */
  function PieceTexts(segs: seq<seq<string>>): (texts: seq<string>)
    requires forall k :: 0 <= k < |segs| ==> |segs[k]| >= 1
    ensures |texts| == |segs|
  {
    seq(|segs|, k requires 0 <= k < |segs| => JoinLines(segs[k]))
  }

  /** `split` with a capturing group: piece, capture, piece, ..., piece. */
  function Interleave(texts: seq<string>, caps: seq<string>): seq<string>
    requires |texts| == |caps| + 1
  {
    if caps == [] then texts else [texts[0], caps[0]] + Interleave(texts[1..], caps[1..])
  }

  /** `lines`: the pieces and captures of the document, empty strings dropped. */
  function Lines(text: string): seq<string>
  {
    var p := PieceLines(SplitLines(text));
    NonEmpty(Interleave(PieceTexts(p.segs), p.caps))
  }

  /** The captures of lines with one more line, in terms of the captures before it. */
  lemma PieceCapsSnoc(ls: seq<string>)
    requires |ls| >= 2
    ensures PieceLines(ls).caps ==
              PieceLines(ls[..|ls| - 1]).caps + if IsMarkerLine(ls[|ls| - 1]) then [Capture(ls[|ls| - 1])] else []
  {
  }

  /** The marker positions of lines with one more line. */
  lemma MarkerIndicesSnoc(ls: seq<string>)
    requires |ls| >= 1
    ensures MarkerIndices(ls) ==
              MarkerIndices(ls[..|ls| - 1]) + if IsMarkerLine(ls[|ls| - 1]) then [|ls| - 1] else []
  {
  }

  /** Each marker line gives one capture, its own, in document order. */
  lemma {:induction false} PieceCaptures(ls: seq<string>)
    requires |ls| >= 1
    ensures |PieceLines(ls).caps| == |MarkerIndices(ls)|
    ensures forall j :: 0 <= j < |MarkerIndices(ls)| ==>
              PieceLines(ls).caps[j] == Capture(ls[MarkerIndices(ls)[j]])
    decreases |ls|
  {
    PieceCapturesAt(ls);
  }

  /** `caps` holds, in order, the capture of the line at each position in `m`. */
  predicate CapturesAt(ls: seq<string>, m: seq<nat>, caps: seq<string>) {
    |caps| == |m| && forall j :: 0 <= j < |m| ==> m[j] < |ls| && caps[j] == Capture(ls[m[j]])
  }

  /** `PieceCaptures` in terms of `CapturesAt`, by induction on the lines. */
  lemma {:induction false} PieceCapturesAt(ls: seq<string>)
    requires |ls| >= 1
    ensures CapturesAt(ls, MarkerIndices(ls), PieceLines(ls).caps)
    decreases |ls|
  {
    MarkerIndicesSnoc(ls);
    if |ls| == 1 {
      assert MarkerIndices(ls[..0]) == [];
    } else {
      var init := ls[..|ls| - 1];
      PieceCapturesAt(init);
      PieceCapsSnoc(ls);
      CapturesAtSnoc(ls, MarkerIndices(init), PieceLines(init).caps);
      if IsMarkerLine(ls[|ls| - 1]) {
        CapturesAtAdd(ls, MarkerIndices(init), PieceLines(init).caps);
      }
    }
  }

  /** One more line keeps the earlier captures in place. */
  lemma CapturesAtSnoc(ls: seq<string>, m: seq<nat>, caps: seq<string>)
    requires |ls| >= 1 && CapturesAt(ls[..|ls| - 1], m, caps)
    ensures CapturesAt(ls, m, caps)
  {
    var init := ls[..|ls| - 1];
    forall j | 0 <= j < |m| ensures init[m[j]] == ls[m[j]] {
    }
  }

  /** ... and a marker line adds its own after them. */
  lemma CapturesAtAdd(ls: seq<string>, m: seq<nat>, caps: seq<string>)
    requires |ls| >= 1 && CapturesAt(ls, m, caps)
    ensures CapturesAt(ls, m + [|ls| - 1], caps + [Capture(ls[|ls| - 1])])
  {
  }

  /** A marker line becomes the empty line in `Blank`. */
  function Blank(ls: seq<string>): (r: seq<string>)
    ensures |r| == |ls|
  {
    seq(|ls|, i requires 0 <= i < |ls| => if IsMarkerLine(ls[i]) then "" else ls[i])
  }

  /** The pieces, in order, make up the whole document except the text of its marker lines. */
  lemma {:induction false} PiecesCoverDocument(ls: seq<string>)
    requires |ls| >= 1
    ensures Concat(PieceTexts(PieceLines(ls).segs)) == JoinLines(Blank(ls))
    decreases |ls|
  {
    if |ls| == 1 {
      OneLinePieces(ls);
    } else {
      var last := ls[|ls| - 1];
      var init := ls[..|ls| - 1];
      var b := if IsMarkerLine(last) then "" else last;
      var extra: seq<seq<string>> := if IsMarkerLine(last) then [[""]] else [];
      PieceLinesSnoc(ls);
      ConcatTextsStep(PieceLines(init).segs, b, extra);
      PiecesCoverDocument(init);
      BlankSnoc(ls);
      JoinLinesSnoc(Blank(init), b);
    }
  }

  /** The base case of `PiecesCoverDocument`: a one-line document. */
  lemma OneLinePieces(ls: seq<string>)
    requires |ls| == 1
    ensures Concat(PieceTexts(PieceLines(ls).segs)) == JoinLines(Blank(ls))
  {
    OneLinePieceLines(ls);
    var b := if IsMarkerLine(ls[0]) then "" else ls[0];
    assert Blank(ls) == [b];
    if IsMarkerLine(ls[0]) {
      TextsOfBlankPieces();
    } else {
      assert PieceTexts([[b]]) == [b];
      assert Concat([b]) == b + Concat([]);
    }
  }

  lemma TextsOfBlankPieces()
    ensures Concat(PieceTexts([[""], [""]])) == ""
  {
    assert PieceTexts([[""], [""]]) == ["", ""];
    assert Concat(["", ""]) == "" + Concat([""]);
    assert Concat([""]) == "" + Concat([]);
  }

  lemma BlankSnoc(ls: seq<string>)
    requires |ls| >= 1
    ensures Blank(ls) == Blank(ls[..|ls| - 1]) + [if IsMarkerLine(ls[|ls| - 1]) then "" else ls[|ls| - 1]]
  {
  }

  /** The texts after `Extend`: the last text gets the line, and an empty text may follow. */
  lemma PieceTextsOfExtend(segs: seq<seq<string>>, b: string, extra: seq<seq<string>>)
    requires |segs| >= 1 && forall k :: 0 <= k < |segs| ==> |segs[k]| >= 1
    requires extra == [] || extra == [[""]]
    ensures PieceTexts(Extend(segs, b, extra)) ==
              PieceTexts(segs)[..|segs| - 1] + [JoinLines(segs[|segs| - 1] + [b])] +
              (if extra == [] then [] else [""])
  {
    var n := |segs|;
    var segs' := Extend(segs, b, extra);
    assert forall k :: 0 <= k < n - 1 ==> segs'[k] == segs[k];
    assert segs'[n - 1] == segs[n - 1] + [b];
  }

  /** Adding a line to the last piece (and possibly opening an empty one) adds a line feed and
      that line to the concatenated texts. */
  lemma ConcatTextsStep(segs: seq<seq<string>>, b: string, extra: seq<seq<string>>)
    requires |segs| >= 1 && forall k :: 0 <= k < |segs| ==> |segs[k]| >= 1
    requires extra == [] || extra == [[""]]
    ensures Concat(PieceTexts(Extend(segs, b, extra))) == Concat(PieceTexts(segs)) + "\n" + b
  {
    var n := |segs|;
    var t := PieceTexts(segs);
    var front := t[..n - 1];
    var closed := JoinLines(segs[n - 1] + [b]);
    PieceTextsOfExtend(segs, b, extra);
    JoinLinesSnoc(segs[n - 1], b);
    assert closed == t[n - 1] + "\n" + b;
    if extra != [] {
      ConcatSnoc(front + [closed], "");
    } else {
      assert front + [closed] + [] == front + [closed];
    }
    ConcatSnoc(front, closed);
    assert t == front + [t[n - 1]];
    ConcatSnoc(front, t[n - 1]);
  }

  /** No piece holds a marker line or a line feed inside one of its lines. */
  lemma {:induction false} PiecesHaveNoMarkers(ls: seq<string>)
    requires |ls| >= 1
    requires forall i :: 0 <= i < |ls| ==> !HasLineFeed(ls[i])
    ensures PlainPieces(PieceLines(ls).segs)
    decreases |ls|
  {
    if |ls| == 1 {
      OneLinePlain(ls);
    } else {
      var init := ls[..|ls| - 1];
      PiecesHaveNoMarkers(init);
      PlainStep(ls, init);
    }
  }

  /** No line of a piece is a marker line or holds a line feed. */
  predicate PlainPieces(segs: seq<seq<string>>) {
    forall k, j :: 0 <= k < |segs| && 0 <= j < |segs[k]| ==> !IsMarkerLine(segs[k][j]) && !HasLineFeed(segs[k][j])
  }

  lemma OneLinePlain(ls: seq<string>)
    requires |ls| == 1 && !HasLineFeed(ls[0])
    ensures PlainPieces(PieceLines(ls).segs)
  {
    OneLinePieceLines(ls);
    BlankLinePlain(ls[0]);
  }

  lemma PlainStep(ls: seq<string>, init: seq<string>)
    requires |ls| >= 2 && init == ls[..|ls| - 1] && !HasLineFeed(ls[|ls| - 1])
    requires PlainPieces(PieceLines(init).segs)
    ensures PlainPieces(PieceLines(ls).segs)
  {
    var last := ls[|ls| - 1];
    BlankLinePlain(last);
    PieceLinesSnoc(ls);
    ExtendPlain(PieceLines(init).segs, if IsMarkerLine(last) then "" else last, if IsMarkerLine(last) then [[""]] else []);
  }

  lemma ExtendPlain(segs: seq<seq<string>>, b: string, extra: seq<seq<string>>)
    requires |segs| >= 1 && forall k :: 0 <= k < |segs| ==> |segs[k]| >= 1
    requires extra == [] || extra == [[""]]
    requires PlainPieces(segs) && !IsMarkerLine(b) && !HasLineFeed(b)
    ensures PlainPieces(Extend(segs, b, extra))
  {
    var segs' := Extend(segs, b, extra);
    var n := |segs|;
    forall k, j | 0 <= k < |segs'| && 0 <= j < |segs'[k]|
      ensures !IsMarkerLine(segs'[k][j]) && !HasLineFeed(segs'[k][j])
    {
      if k < n - 1 {
        assert segs'[k] == segs[k];
      } else if k == n - 1 {
        assert segs'[k] == segs[k] + [b];
      } else {
        assert segs'[k] == [""];
      }
    }
  }

  lemma OneLinePieceLines(ls: seq<string>)
    requires |ls| == 1
    ensures PieceLines(ls).segs == if IsMarkerLine(ls[0]) then [[""], [""]] else [[ls[0]]]
  {
    if !IsMarkerLine(ls[0]) {
      assert ls == [ls[0]];
    }
  }

  /** A line as it stands in a piece (a marker line blanked) is no marker and has no line feed. */
  lemma BlankLinePlain(line: string)
    requires !HasLineFeed(line)
    ensures var b := if IsMarkerLine(line) then "" else line; !IsMarkerLine(b) && !HasLineFeed(b)
  {
  }

  /** No piece's text holds a marker line. */
  lemma PieceTextsHaveNoMarkers(ls: seq<string>, k: nat)
    requires |ls| >= 1 && k < |PieceLines(ls).segs|
    requires forall i :: 0 <= i < |ls| ==> !HasLineFeed(ls[i])
    ensures forall line :: line in SplitLines(PieceTexts(PieceLines(ls).segs)[k]) ==> !IsMarkerLine(line)
  {
    var seg := PieceLines(ls).segs[k];
    PiecesHaveNoMarkers(ls);
    SplitJoinLines(seg);
  }

  /** The pieces of lines with one more line, in terms of the pieces before it. */
  lemma PieceLinesSnoc(ls: seq<string>)
    requires |ls| >= 2
    ensures PieceLines(ls).segs ==
              Extend(PieceLines(ls[..|ls| - 1]).segs,
                     if IsMarkerLine(ls[|ls| - 1]) then "" else ls[|ls| - 1],
                     if IsMarkerLine(ls[|ls| - 1]) then [[""]] else [])
  {
  }

  /** A document that opens with a marker has an empty first piece, and another after it. */
  lemma {:induction false} FirstPieceEmpty(ls: seq<string>)
    requires |ls| >= 1 && IsMarkerLine(ls[0])
    ensures |PieceLines(ls).segs| >= 2 && PieceLines(ls).segs[0] == [""]
    decreases |ls|
  {
    if |ls| > 1 {
      var init := ls[..|ls| - 1];
      assert init[0] == ls[0];
      FirstPieceEmpty(init);
    }
  }

  /** A document that closes with a marker has an empty last piece. */
  lemma LastPieceEmpty(ls: seq<string>)
    requires |ls| >= 1 && IsMarkerLine(ls[|ls| - 1])
    ensures PieceLines(ls).segs[|PieceLines(ls).segs| - 1] == [""]
  {
  }

  /** Where piece k starts: at the document's first line, or on the line after marker k - 1. */
  function PieceStart(m: seq<nat>, k: nat): nat
    requires k <= |m|
  {
    if k == 0 then 0 else m[k - 1] + 1
  }

  /** Where piece k ends: at marker k, or at the end of the document for the last piece. */
  function PieceEnd(ls: seq<string>, m: seq<nat>, k: nat): nat
    requires k <= |m|
  {
    if k < |m| then m[k] else |ls|
  }

  /** Piece k holds exactly the lines between marker k - 1 and marker k, preceded by an empty
      line when a marker opens it and followed by one when a marker closes it. */
  predicate PiecesBetween(ls: seq<string>, m: seq<nat>, segs: seq<seq<string>>) {
    |segs| == |m| + 1 &&
    forall k :: 0 <= k <= |m| ==>
      PieceStart(m, k) <= PieceEnd(ls, m, k) <= |ls| &&
      segs[k] == (if k == 0 then [] else [""]) + ls[PieceStart(m, k)..PieceEnd(ls, m, k)] + (if k < |m| then [""] else [])
  }

  /** What each piece of the split contains: the lines from one marker line to the next. */
  lemma {:induction false} PieceContents(ls: seq<string>)
    requires |ls| >= 1
    ensures PiecesBetween(ls, MarkerIndices(ls), PieceLines(ls).segs)
    decreases |ls|
  {
    if |ls| == 1 {
      FirstPiecesBetween(ls);
    } else {
      var init := ls[..|ls| - 1];
      PieceContents(init);
      NextPiecesBetween(ls, MarkerIndices(init), PieceLines(init));
    }
  }

  /** The base case of `PieceContents`: a one-line document. */
  lemma FirstPiecesBetween(ls: seq<string>)
    requires |ls| == 1
    ensures PiecesBetween(ls, MarkerIndices(ls), PieceLines(ls).segs)
  {
    OneLinePieceLines(ls);
    MarkerIndicesSnoc(ls);
    assert MarkerIndices(ls[..0]) == [];
    if IsMarkerLine(ls[0]) {
      OneMarkerBetween(ls);
    } else {
      OneLineBetween(ls);
    }
  }

  /** A one-line document that is not a marker line is one piece. */
  lemma OneLineBetween(ls: seq<string>)
    requires |ls| == 1
    ensures PiecesBetween(ls, [], [[ls[0]]])
  {
    assert ls[0..1] == [ls[0]];
  }

  /** A one-line document that is a marker line splits into two empty pieces. */
  lemma OneMarkerBetween(ls: seq<string>)
    requires |ls| == 1
    ensures PiecesBetween(ls, [0], [[""], [""]])
  {
    assert PieceStart([0], 1) == 1 && PieceEnd(ls, [0], 0) == 0;
  }

  /** One more line extends the pieces as `NextPieces` does. */
  lemma NextPiecesBetween(ls: seq<string>, m: seq<nat>, p: Pieces)
    requires |ls| >= 2 && |p.segs| == |p.caps| + 1 && forall k :: 0 <= k < |p.segs| ==> |p.segs[k]| >= 1
    requires PiecesBetween(ls[..|ls| - 1], m, p.segs)
    ensures var last := ls[|ls| - 1];
            PiecesBetween(ls, m + (if IsMarkerLine(last) then [|ls| - 1] else []), NextPieces(p, last).segs)
  {
    if IsMarkerLine(ls[|ls| - 1]) {
      PiecesBetweenMarker(ls, m, p.segs);
    } else {
      PiecesBetweenPlain(ls, m, p.segs);
    }
  }

  /** A line that is not a marker joins the last piece. */
  lemma PiecesBetweenPlain(ls: seq<string>, m: seq<nat>, segs: seq<seq<string>>)
    requires |ls| >= 2 && |segs| >= 1 && forall k :: 0 <= k < |segs| ==> |segs[k]| >= 1
    requires PiecesBetween(ls[..|ls| - 1], m, segs)
    ensures PiecesBetween(ls, m, Extend(segs, ls[|ls| - 1], []))
  {
    var init, n := ls[..|ls| - 1], |ls| - 1;
    var r := Extend(segs, ls[n], []);
    forall k | 0 <= k <= |m|
      ensures PieceStart(m, k) <= PieceEnd(ls, m, k) <= |ls|
      ensures r[k] == (if k == 0 then [] else [""]) + ls[PieceStart(m, k)..PieceEnd(ls, m, k)] + (if k < |m| then [""] else [])
    {
      var a := PieceStart(m, k);
      if k < |m| {
        assert r[k] == segs[k];
        assert ls[a..m[k]] == init[a..m[k]];
      } else {
        assert ls[a..|ls|] == init[a..n] + [ls[n]];
      }
    }
  }

  /** A marker line closes the last piece and opens an empty one. */
  lemma PiecesBetweenMarker(ls: seq<string>, m: seq<nat>, segs: seq<seq<string>>)
    requires |ls| >= 2 && |segs| >= 1 && forall k :: 0 <= k < |segs| ==> |segs[k]| >= 1
    requires PiecesBetween(ls[..|ls| - 1], m, segs)
    ensures PiecesBetween(ls, m + [|ls| - 1], Extend(segs, "", [[""]]))
  {
    var init, n := ls[..|ls| - 1], |ls| - 1;
    var m' := m + [n];
    var r := Extend(segs, "", [[""]]);
    forall k | 0 <= k <= |m'|
      ensures PieceStart(m', k) <= PieceEnd(ls, m', k) <= |ls|
      ensures r[k] == (if k == 0 then [] else [""]) + ls[PieceStart(m', k)..PieceEnd(ls, m', k)] + (if k < |m'| then [""] else [])
    {
      if k < |m| {
        assert PieceStart(m', k) == PieceStart(m, k) && PieceEnd(ls, m', k) == m[k];
        assert r[k] == segs[k];
        assert ls[PieceStart(m, k)..m[k]] == init[PieceStart(m, k)..m[k]];
      } else if k == |m| {
        assert PieceStart(m', k) == PieceStart(m, k) && PieceEnd(ls, m', k) == n;
        assert ls[PieceStart(m, k)..n] == init[PieceStart(m, k)..n];
      } else {
        assert PieceStart(m', k) == |ls|;
      }
    }
  }

  /** A last piece that follows a marker and runs to a line that is not one spans a line break. */
  lemma LastPieceSpans(ls: seq<string>)
    requires |ls| >= 1
    ensures !IsMarkerLine(ls[|ls| - 1]) && |PieceLines(ls).segs| >= 2 ==>
              |PieceLines(ls).segs[|PieceLines(ls).segs| - 1]| >= 2
  {
  }

  /** A piece between two markers spans a line break, so its text is never empty. */
  lemma {:induction false} InnerPiecesSpan(ls: seq<string>)
    requires |ls| >= 1
    ensures InnerSpan(PieceLines(ls).segs)
    decreases |ls|
  {
    if |ls| == 1 {
      FirstPiecesSpan(ls[0]);
    } else {
      var init := ls[..|ls| - 1];
      InnerPiecesSpan(init);
      NextPiecesSpan(PieceLines(init), ls[|ls| - 1]);
    }
  }

  /** A one-line document has no inner piece. */
  lemma FirstPiecesSpan(line: string)
    ensures InnerSpan(FirstPieces(line).segs)
  {
  }

  /** One more line keeps every inner piece spanning a line break. */
  lemma NextPiecesSpan(p: Pieces, line: string)
    requires |p.segs| == |p.caps| + 1
    requires forall k :: 0 <= k < |p.segs| ==> |p.segs[k]| >= 1
    requires InnerSpan(p.segs)
    ensures InnerSpan(NextPieces(p, line).segs)
  {
    if IsMarkerLine(line) {
      ExtendClosesSpan(p.segs);
    } else {
      ExtendKeepsSpan(p.segs, line);
    }
  }

  /** Every piece strictly between the first and the last spans a line break. */
  predicate InnerSpan(segs: seq<seq<string>>) {
    forall k :: 1 <= k < |segs| - 1 ==> |segs[k]| >= 2
  }

  /** A line joining the last piece leaves the inner pieces as they are. */
  lemma ExtendKeepsSpan(segs: seq<seq<string>>, line: string)
    requires |segs| >= 1 && forall k :: 0 <= k < |segs| ==> |segs[k]| >= 1
    requires InnerSpan(segs)
    ensures InnerSpan(Extend(segs, line, []))
  {
    var r := Extend(segs, line, []);
    forall k | 1 <= k < |r| - 1 ensures |r[k]| >= 2 {
      assert r[k] == segs[k];
    }
  }

  /** A marker closes the last piece with an empty line, so that piece spans a line break. */
  lemma ExtendClosesSpan(segs: seq<seq<string>>)
    requires |segs| >= 1 && forall k :: 0 <= k < |segs| ==> |segs[k]| >= 1
    requires InnerSpan(segs)
    ensures InnerSpan(Extend(segs, "", [[""]]))
  {
    var r := Extend(segs, "", [[""]]);
    var n := |segs|;
    forall k | 1 <= k < |r| - 1 ensures |r[k]| >= 2 {
      if k < n - 1 {
        assert r[k] == segs[k];
      } else {
        assert r[k] == segs[k] + [""];
      }
    }
  }

  /** Rewriting a marker line gives a marker line: the bare token. */
  lemma RewriteMarkerAt(ls: seq<string>, i: nat)
    requires i < |ls| && IsMarkerLine(ls[i])
    ensures RewriteMarkers(ls)[i] == Marker && IsMarkerLine(RewriteMarkers(ls)[i])
  {
    MarkerIsMarkerLine();
  }

  lemma RewriteInit(ls: seq<string>)
    requires |ls| >= 1
    ensures RewriteMarkers(ls)[..|ls| - 1] == RewriteMarkers(ls[..|ls| - 1])
  {
  }

  lemma RewriteKeepsOnePiece(ls: seq<string>)
    requires |ls| == 1
    ensures PieceLines(RewriteMarkers(ls)).segs == PieceLines(ls).segs
  {
    var r := RewriteMarkers(ls);
    if IsMarkerLine(ls[0]) {
      RewriteMarkerAt(ls, 0);
    } else {
      assert r == ls;
    }
  }

  /** Splitting the rewritten lines gives the same pieces. */
  lemma {:induction false} RewriteKeepsPieces(ls: seq<string>)
    requires |ls| >= 1
    ensures PieceLines(RewriteMarkers(ls)).segs == PieceLines(ls).segs
    decreases |ls|
  {
    if |ls| == 1 {
      RewriteKeepsOnePiece(ls);
    } else {
      var r := RewriteMarkers(ls);
      RewriteInit(ls);
      if IsMarkerLine(ls[|ls| - 1]) {
        RewriteMarkerAt(ls, |ls| - 1);
      } else {
        assert r[|ls| - 1] == ls[|ls| - 1];
      }
      RewriteKeepsPieces(ls[..|ls| - 1]);
      PieceLinesSnoc(ls);
      PieceLinesSnoc(r);
    }
  }

  /** Lines whose every marker line is the bare token capture nothing. */
  lemma BareMarkersCaptureNothing(ls: seq<string>)
    requires |ls| >= 1
    requires forall i :: 0 <= i < |ls| && IsMarkerLine(ls[i]) ==> ls[i] == Marker
    ensures forall j :: 0 <= j < |PieceLines(ls).caps| ==> PieceLines(ls).caps[j] == ""
  {
    PieceCaptures(ls);
    MarkerIndicesSpec(ls);
    MarkerIsMarkerLine();
  }

  /** Every marker of the rewritten lines captures nothing. */
  lemma RewriteEmptiesCaptures(ls: seq<string>)
    requires |ls| >= 1
    ensures forall j :: 0 <= j < |PieceLines(RewriteMarkers(ls)).caps| ==> PieceLines(RewriteMarkers(ls)).caps[j] == ""
  {
    var r := RewriteMarkers(ls);
    forall i | 0 <= i < |r| ensures IsMarkerLine(r[i]) ==> r[i] == Marker {
      if IsMarkerLine(ls[i]) {
        RewriteMarkerAt(ls, i);
      } else {
        assert r[i] == ls[i];
      }
    }
    BareMarkersCaptureNothing(r);
  }

  /** With empty captures only the pieces remain. */
  lemma {:induction false} InterleaveEmptyCaptures(texts: seq<string>, caps: seq<string>)
    requires |texts| == |caps| + 1
    requires forall j :: 0 <= j < |caps| ==> caps[j] == ""
    ensures NonEmpty(Interleave(texts, caps)) == NonEmpty(texts)
  {
    if caps != [] {
      InterleaveEmptyCaptures(texts[1..], caps[1..]);
      NonEmptyAppend([texts[0], caps[0]], Interleave(texts[1..], caps[1..]));
      NonEmptyAppend([texts[0]], texts[1..]);
      assert [texts[0]] + texts[1..] == texts;
      assert NonEmpty([texts[0], caps[0]]) == NonEmpty([texts[0]]);
    }
  }

  /** A document of bare markers that opens with a marker and does not close with one splits
      into exactly the pieces after each marker: one per marker, none of them empty. */
  lemma WellFormedLines(ls: seq<string>)
    requires |ls| >= 1 && IsMarkerLine(ls[0]) && !IsMarkerLine(ls[|ls| - 1])
    requires forall j :: 0 <= j < |PieceLines(ls).caps| ==> PieceLines(ls).caps[j] == ""
    ensures NonEmpty(Interleave(PieceTexts(PieceLines(ls).segs), PieceLines(ls).caps))
              == PieceTexts(PieceLines(ls).segs)[1..]
    ensures |PieceTexts(PieceLines(ls).segs)[1..]| == |MarkerIndices(ls)|
  {
    var p := PieceLines(ls);
    var t := PieceTexts(p.segs);
    PieceCaptures(ls);
    InterleaveEmptyCaptures(t, p.caps);
    TextsAfterFirstMarker(ls);
    DropLeadingEmpty(t);
  }

  /** Joining two or more lines gives a non-empty text. */
  lemma JoinedLinesNonEmpty(seg: seq<string>)
    requires |seg| >= 2
    ensures JoinLines(seg) != ""
  {
    assert JoinLines(seg) == seg[0] + "\n" + JoinLines(seg[1..]);
    assert |JoinLines(seg)| >= 1;
  }

  /** In a document that opens with a marker and does not close with one, the first piece's
      text is empty and every later one is not. */
  lemma TextsAfterFirstMarker(ls: seq<string>)
    requires |ls| >= 1 && IsMarkerLine(ls[0]) && !IsMarkerLine(ls[|ls| - 1])
    ensures PieceTexts(PieceLines(ls).segs)[0] == ""
    ensures forall k :: 1 <= k < |PieceLines(ls).segs| ==> PieceTexts(PieceLines(ls).segs)[k] != ""
  {
    FirstPieceEmpty(ls);
    LaterPiecesSpan(ls);
    SpanningTexts(PieceLines(ls).segs);
  }

  /** In such a document every piece after the first spans a line break. */
  lemma LaterPiecesSpan(ls: seq<string>)
    requires |ls| >= 1 && IsMarkerLine(ls[0]) && !IsMarkerLine(ls[|ls| - 1])
    ensures forall k :: 1 <= k < |PieceLines(ls).segs| ==> |PieceLines(ls).segs[k]| >= 2
  {
    FirstPieceEmpty(ls);
    InnerPiecesSpan(ls);
    LastPieceSpans(ls);
  }

  /** Pieces that span a line break have non-empty texts. */
  lemma SpanningTexts(segs: seq<seq<string>>)
    requires |segs| >= 1 && forall k :: 0 <= k < |segs| ==> |segs[k]| >= 1
    requires forall k :: 1 <= k < |segs| ==> |segs[k]| >= 2
    ensures forall k :: 1 <= k < |segs| ==> PieceTexts(segs)[k] != ""
  {
    forall k | 1 <= k < |segs| ensures PieceTexts(segs)[k] != "" {
      JoinedLinesNonEmpty(segs[k]);
    }
  }

  /** Dropping the empty strings of texts whose only empty one is the first leaves the rest. */
  lemma DropLeadingEmpty(t: seq<string>)
    requires |t| >= 1 && t[0] == ""
    requires forall k :: 1 <= k < |t| ==> t[k] != ""
    ensures NonEmpty(t) == t[1..]
  {
    assert t == [t[0]] + t[1..];
    NonEmptyAppend([t[0]], t[1..]);
    NonEmptyOfWords(t[1..]);
  }

  // ---------------------------------------------------------------------------
  // The deck as parsed

  /** The document text after synthesis and class extraction. */
  function ExtractedText(raw: string): string
  {
    JoinLines(RewriteMarkers(SplitLines(Synthesize(raw))))
  }

  /** The lines of the extracted text are the rewritten lines of the document. */
  lemma ExtractedLines(raw: string)
    ensures SplitLines(ExtractedText(raw)) == RewriteMarkers(SplitLines(Synthesize(raw)))
  {
    var ls := SplitLines(Synthesize(raw));
    var r := RewriteMarkers(ls);
    forall i | 0 <= i < |r| ensures !HasLineFeed(r[i]) {
      if IsMarkerLine(ls[i]) {
        assert r[i] == "!SLIDE";
      }
    }
    SplitJoinLines(r);
  }

  /** The slide texts, in order, are the document with its marker lines blanked out. */
  lemma LinesCoverDocument(raw: string)
    ensures Concat(Lines(ExtractedText(raw))) == JoinLines(Blank(SplitLines(Synthesize(raw))))
  {
    var ls := SplitLines(Synthesize(raw));
    ExtractedLines(raw);
    RewriteKeepsPieces(ls);
    RewriteEmptiesCaptures(ls);
    var p := PieceLines(RewriteMarkers(ls));
    InterleaveEmptyCaptures(PieceTexts(p.segs), p.caps);
    ConcatNonEmpty(Interleave(PieceTexts(p.segs), p.caps));
    InterleaveConcat(PieceTexts(p.segs), p.caps);
    ConcatNonEmpty(PieceTexts(p.segs));
    PiecesCoverDocument(ls);
  }

  lemma {:induction false} InterleaveConcat(texts: seq<string>, caps: seq<string>)
    requires |texts| == |caps| + 1
    requires forall j :: 0 <= j < |caps| ==> caps[j] == ""
    ensures Concat(Interleave(texts, caps)) == Concat(texts)
  {
    if caps != [] {
      InterleaveConcat(texts[1..], caps[1..]);
      ConcatAppend([texts[0], caps[0]], Interleave(texts[1..], caps[1..]));
      assert Concat([texts[0], caps[0]]) == texts[0];
    }
  }

  /** When the document opens with a marker line (or gets one) and does not close with one,
      there are exactly as many slide texts as class entries, and the i-th text is the piece
      that follows the i-th marker: slide i receives the class entry of its own marker. */
  lemma DeckPairing(raw: string)
    requires IsMarkerLine(SplitLines(Synthesize(raw))[0])
    requires !IsMarkerLine(SplitLines(Synthesize(raw))[|SplitLines(Synthesize(raw))| - 1])
    ensures |Lines(ExtractedText(raw))| == |ClassEntries(SplitLines(Synthesize(raw)))|
    ensures Lines(ExtractedText(raw)) == PieceTexts(PieceLines(SplitLines(Synthesize(raw))).segs)[1..]
    ensures var ls := SplitLines(Synthesize(raw));
            TextsAfterMarkers(Lines(ExtractedText(raw)), ls, MarkerIndices(ls))
  {
    var ls := SplitLines(Synthesize(raw));
    ExtractedLines(raw);
    SlidesOfLines(Lines(ExtractedText(raw)), ls);
  }

  /** `DeckPairing` on the lines, `t` being the slide texts of the rewritten lines. */
  lemma SlidesOfLines(t: seq<string>, ls: seq<string>)
    requires |ls| >= 1 && IsMarkerLine(ls[0]) && !IsMarkerLine(ls[|ls| - 1])
    requires t == NonEmpty(Interleave(PieceTexts(PieceLines(RewriteMarkers(ls)).segs), PieceLines(RewriteMarkers(ls)).caps))
    ensures |t| == |ClassEntries(ls)|
    ensures t == PieceTexts(PieceLines(ls).segs)[1..]
    ensures TextsAfterMarkers(t, ls, MarkerIndices(ls))
  {
    RewrittenPairing(ls);
    PieceContents(ls);
    PieceTextsAfterMarkers(t, ls, MarkerIndices(ls), PieceLines(ls).segs);
  }

  /** Text i of `t` is what follows marker i: a line break, then the lines up to the next
      marker (or the end), joined, then one more line break when another marker follows. */
  predicate TextsAfterMarkers(t: seq<string>, ls: seq<string>, m: seq<nat>) {
    |t| == |m| &&
    forall i :: 0 <= i < |m| ==>
      m[i] + 1 <= PieceEnd(ls, m, i + 1) <= |ls| &&
      t[i] == JoinLines([""] + ls[m[i] + 1..PieceEnd(ls, m, i + 1)] + (if i + 1 < |m| then [""] else []))
  }

  /** The texts of the pieces after the first are the texts after the markers. */
  lemma PieceTextsAfterMarkers(t: seq<string>, ls: seq<string>, m: seq<nat>, segs: seq<seq<string>>)
    requires forall k :: 0 <= k < |segs| ==> |segs[k]| >= 1
    requires PiecesBetween(ls, m, segs)
    requires t == PieceTexts(segs)[1..]
    ensures TextsAfterMarkers(t, ls, m)
  {
    forall i | 0 <= i < |m|
      ensures m[i] + 1 <= PieceEnd(ls, m, i + 1) <= |ls|
      ensures t[i] ==
                JoinLines([""] + ls[m[i] + 1..PieceEnd(ls, m, i + 1)] + (if i + 1 < |m| then [""] else []))
    {
      var k := i + 1;
      assert PieceStart(m, k) == m[i] + 1;
      var seg := [""] + ls[m[i] + 1..PieceEnd(ls, m, k)] + (if k < |m| then [""] else []);
      assert segs[k] == seg;
      assert t[i] == PieceTexts(segs)[k] == JoinLines(segs[k]);
    }
  }

  /** `DeckPairing` on the lines: the rewritten lines split into the pieces after each marker. */
  lemma RewrittenPairing(ls: seq<string>)
    requires |ls| >= 1 && IsMarkerLine(ls[0]) && !IsMarkerLine(ls[|ls| - 1])
    ensures NonEmpty(Interleave(PieceTexts(PieceLines(RewriteMarkers(ls)).segs), PieceLines(RewriteMarkers(ls)).caps))
              == PieceTexts(PieceLines(ls).segs)[1..]
    ensures |PieceTexts(PieceLines(ls).segs)[1..]| == |MarkerIndices(ls)|
  {
    RewriteEnds(ls);
    RewriteEmptiesCaptures(ls);
    WellFormedLines(RewriteMarkers(ls));
    RewriteKeepsPieces(ls);
    RewriteMarkerIndices(ls);
  }

  /** Rewriting keeps a marker at the front and a plain line at the end. */
  lemma RewriteEnds(ls: seq<string>)
    requires |ls| >= 1 && IsMarkerLine(ls[0]) && !IsMarkerLine(ls[|ls| - 1])
    ensures IsMarkerLine(RewriteMarkers(ls)[0])
    ensures RewriteMarkers(ls)[|ls| - 1] == ls[|ls| - 1]
  {
    RewriteMarkerAt(ls, 0);
  }

  /** A document that ends with a line break and does not open with a malformed marker pairs
      its slides with its class entries one to one. */
  lemma TerminatedDeckPairs(raw: string)
    requires raw == [] || raw[|raw| - 1] == '\n'
    requires StartsWith(raw, Marker) ==> IsMarkerLine(SplitLines(raw)[0])
    ensures |Lines(ExtractedText(raw))| == |ClassEntries(SplitLines(Synthesize(raw)))|
  {
    SynthesizedOpensWithMarker(raw);
    TerminatedEndsPlain(raw);
    DeckPairing(raw);
  }

  /** After synthesis the first line is a marker line, unless the document opened with a malformed one. */
  lemma SynthesizedOpensWithMarker(raw: string)
    requires StartsWith(raw, Marker) ==> IsMarkerLine(SplitLines(raw)[0])
    ensures IsMarkerLine(SplitLines(Synthesize(raw))[0])
  {
    SynthesizeLines(raw);
    MarkerIsMarkerLine();
  }

  /** After synthesis a document ending with a line break ends with an empty line. */
  lemma TerminatedEndsPlain(raw: string)
    requires raw == [] || raw[|raw| - 1] == '\n'
    ensures !IsMarkerLine(SplitLines(Synthesize(raw))[|SplitLines(Synthesize(raw))| - 1])
  {
    var deck := Synthesize(raw);
    if raw == [] {
      assert deck == Marker + "\n";
    } else {
      assert deck[|deck| - 1] == raw[|raw| - 1];
    }
    SplitLinesEndsEmpty(deck);
  }

  // ---------------------------------------------------------------------------
  // The deck object

  /** The first entry of the class queue as a slide's class list (`*@classes.shift`). */
  function QueueEntry(queue: seq<string>, i: nat): seq<string>
  {
    if i < |queue| then [queue[i]] else []
  }

  /** The class queue after `n` shifts. */
  function Drop(queue: seq<string>, n: nat): (rest: seq<string>)
    ensures |rest| == if n < |queue| then |queue| - n else 0
    ensures forall k :: 0 <= k < |rest| ==> rest[k] == queue[n + k]
  {
    if n < |queue| then queue[n..] else []
  }

  /** One more shift takes the next entry and drops it. */
  lemma DropStep(queue: seq<string>, i: nat)
    ensures QueueEntry(Drop(queue, i), 0) == QueueEntry(queue, i)
    ensures Drop(Drop(queue, i), 1) == Drop(queue, i + 1)
  {
  }

  /** `slide` is what `Slide.new(text, *entry)` makes: the classes given, the text without its
      notes block and the block's notes. */
  predicate Built(slide: SlideModel.Slide, text: string, entry: seq<string>)
    reads slide
  {
    slide.classes == entry && slide.text == SlideModel.TextWithoutNotes(text) &&
    slide.notes == SlideModel.NotesOf(text)
  }

  class SlideDown {
    var raw: string
    var classes: seq<string>
    var slidesMemo: Option<seq<SlideModel.Slide>>
    var title: string
    var stylesheets: seq<string>

    /** `SlideDown.new(raw, opts)`: marker synthesis, class extraction, and the title and
        stylesheets from the options or their defaults. */
    constructor (raw: string, optTitle: Option<string>, optStylesheets: Option<seq<string>>,
                 localStylesheets: seq<string>)
      ensures this.raw == ExtractedText(raw)
      ensures classes == ClassEntries(SplitLines(Synthesize(raw)))
      ensures slidesMemo == None
      ensures title == optTitle.GetOr(DefaultTitle)
      ensures stylesheets == optStylesheets.GetOr(localStylesheets)
    {
      this.raw := Synthesize(raw);
      classes := [];
      slidesMemo := None;
      title := DefaultTitle;
      stylesheets := [];
      new;
      ExtractClasses();
      stylesheets := optStylesheets.GetOr(localStylesheets);
      title := optTitle.GetOr(DefaultTitle);
    }

    /** `extract_classes!`: one entry per marker line, in order, each marker line rewritten. */
    method ExtractClasses()
      modifies this`raw, this`classes
      ensures classes == ClassEntries(SplitLines(old(raw)))
      ensures raw == JoinLines(RewriteMarkers(SplitLines(old(raw))))
    {
      var ls := SplitLines(raw);
      var out: seq<string> := [];
      classes := [];
      for k := 0 to |ls|
        invariant out == RewriteMarkers(ls[..k])
        invariant classes == ClassEntries(ls[..k])
      {
        ClassEntriesSnoc(ls, k);
        RewriteMarkersSnoc(ls, k);
        if IsMarkerLine(ls[k]) {
          classes := classes + [ClassEntry(ls[k])];
          out := out + [Marker];
        } else {
          out := out + [ls[k]];
        }
      }
      assert ls[..|ls|] == ls;
      raw := JoinLines(out);
    }

    /** `slides`: on the first call one slide per text of `lines`, in order, slide i taking the
        front of the class queue; later calls return the same slides and leave the queue. */
    method Slides() returns (r: seq<SlideModel.Slide>)
      modifies this`slidesMemo, this`classes
      ensures old(slidesMemo).Some? ==>
                r == old(slidesMemo).value && slidesMemo == old(slidesMemo) && classes == old(classes)
      ensures old(slidesMemo).None? ==> slidesMemo == Some(r) && |r| == |Lines(raw)|
      ensures old(slidesMemo).None? ==>
                forall i :: 0 <= i < |r| ==>
                  fresh(r[i]) && r[i].classes == QueueEntry(old(classes), i) &&
                  r[i].text == SlideModel.TextWithoutNotes(Lines(raw)[i]) &&
                  r[i].notes == SlideModel.NotesOf(Lines(raw)[i])
      ensures old(slidesMemo).None? ==>
                classes == old(classes)[if |r| < |old(classes)| then |r| else |old(classes)|..]
    {
      if slidesMemo.Some? {
        return slidesMemo.value;
      }
      r := MakeSlides(Lines(raw));
      slidesMemo := Some(r);
    }

    /** `@classes.shift`: takes the first queued class entry, if any. */
    method Shift() returns (entry: seq<string>)
      modifies this`classes
      ensures entry == QueueEntry(old(classes), 0)
      ensures classes == Drop(old(classes), 1)
    {
      entry := [];
      if |classes| > 0 {
        entry := [classes[0]];
        classes := classes[1..];
      }
    }

    /** The `map` inside `slides`: a slide per text, each shifting the front of the class queue. */
    method MakeSlides(texts: seq<string>) returns (made: seq<SlideModel.Slide>)
      modifies this`classes
      ensures |made| == |texts|
      ensures forall i :: 0 <= i < |texts| ==> fresh(made[i]) && Built(made[i], texts[i], QueueEntry(old(classes), i))
      ensures classes == Drop(old(classes), |texts|)
    {
      var out: seq<SlideModel.Slide> := [];
      ghost var queue := classes;
      for i := 0 to |texts|
        invariant |out| == i
        invariant classes == Drop(queue, i)
        invariant forall j :: 0 <= j < i ==> fresh(out[j]) && Built(out[j], texts[j], QueueEntry(queue, j))
      {
        DropStep(queue, i);
        var entry := Shift();
        var slide := new SlideModel.Slide(texts[i], entry);
        out := out + [slide];
      }
      made := out;
    }
  }
}
