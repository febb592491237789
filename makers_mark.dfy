/**
 * MakersMark, the slide-body renderer: before Markdown conversion it rewrites the
 * custom code fences (`@@@lexer` ... `@@@`) into literal `<div>` lines, remembers the
 * converted HTML, and afterwards replaces every `div.code` with the highlighter's own
 * top-level `div`, whose class list it extends with the lexer, `code` and `highlight`.
 *
 * The Markdown converter is a function handed to the generator; the HTML tree (search,
 * text extraction, replacement, serialisation) is represented only by the `div.code`
 * elements a search yields and the top-level `div` of the highlighter's output.
 */
module MakersMark {
  import opened Wrappers
  import opened RubyStrings
  import AlbinoAdapter

  // ---------------------------------------------------------------------------
  // Fence normalisation

  const CloseDiv := "</div>"

  /** A closing fence line: `@@@`, optionally wrapped in `<p>` ... `</p>`. */
  predicate IsCloseFence(line: string) {
    line == "@@@" || line == "<p>@@@" || line == "@@@</p>" || line == "<p>@@@</p>"
  }

  /** Regex `\w` (ASCII letters, digits, underscore) or `+`. */
  predicate IsLexerChar(c: char) {
    ('a' <= c <= 'z') || ('A' <= c <= 'Z') || ('0' <= c <= '9') || c == '_' || c == '+'
  }

  predicate IsLexerName(s: string) {
    s != [] && forall k :: 0 <= k < |s| ==> IsLexerChar(s[k])
  }

  /** The longest prefix made of lexer characters. */
  function LeadingLexer(s: string): (w: string)
    ensures |w| <= |s| && w == s[..|w|]
    ensures forall k :: 0 <= k < |w| ==> IsLexerChar(w[k])
    ensures |w| < |s| ==> !IsLexerChar(s[|w|])
  {
    if s == [] || !IsLexerChar(s[0]) then []
    else
      var w := LeadingLexer(s[1..]);
      assert [s[0]] + w == s[..|w| + 1];
      [s[0]] + w
  }

  /** The part of a fence line after its optional `<p>`, `@@@\s*([\w+]+)(</p>)?`: the lexer name. */
  function FenceLexer(body: string): (lexer: Option<string>)
    ensures lexer.Some? ==> IsLexerName(lexer.value) && StartsWith(body, "@@@")
  {
    if !StartsWith(body, "@@@") then None
    else
      var rest := SkipInlineSpace(body[3..]);
      var name := LeadingLexer(rest);
      if name != [] && (rest[|name|..] == "" || rest[|name|..] == "</p>") then Some(name)
      else None
  }

  /** An opening fence line `(<p>)?@@@\s*([\w+]+)(</p>)?`: the lexer name it declares. */
  function OpenFenceLexer(line: string): (lexer: Option<string>)
    ensures lexer.Some? ==> IsLexerName(lexer.value)
    ensures lexer.Some? ==> StartsWith(line, "@@@") || StartsWith(line, "<p>@@@")
  {
    if StartsWith(line, "<p>") then
      var lexer := FenceLexer(line[3..]);
      if lexer.Some? then PrefixThenFence(line); lexer else lexer
    else FenceLexer(line)
  }

  /** `line` is an opening fence: an optional `<p>`, `@@@`, in-line spaces, the lexer name and
      an optional `</p>`, and nothing else. */
  predicate FenceShape(line: string, pre: string, spaces: string, lexer: string, post: string) {
    (pre == "" || pre == "<p>") && (forall k :: 0 <= k < |spaces| ==> IsInlineSpace(spaces[k])) &&
    IsLexerName(lexer) && (post == "" || post == "</p>") && line == pre + "@@@" + spaces + lexer + post
  }

  /** Only opening fences are recognised: a recognised line is exactly an optional `<p>`, `@@@`,
      in-line spaces, the lexer name it yields and an optional `</p>`. */
  lemma OpenFenceShape(line: string)
    ensures OpenFenceLexer(line).Some? ==>
              exists pre, spaces, post :: FenceShape(line, pre, spaces, OpenFenceLexer(line).value, post)
  {
    if OpenFenceLexer(line).Some? {
      var lexer := OpenFenceLexer(line).value;
      var pre, body := SplitFencePrefix(line);
      var spaces, post := FenceBodyShape(body);
      JoinFence(line, pre, body, spaces, lexer, post);
    }
  }

  /** A line that is neither a closing nor an opening fence (a near-fence such as `@@@ruby extra`
      included) passes through both rewrites as it is. */
  lemma NotFenceKept(line: string)
    requires !IsCloseFence(line)
    requires forall pre, spaces, lexer, post :: !FenceShape(line, pre, spaces, lexer, post)
    ensures RewriteFence(line) == line
  {
    OpenFenceShape(line);
  }

  /** A recognised line is its optional `<p>` and a fence body that yields the same lexer. */
  lemma SplitFencePrefix(line: string) returns (pre: string, body: string)
    requires OpenFenceLexer(line).Some?
    ensures pre == "" || pre == "<p>"
    ensures line == pre + body && FenceLexer(body) == OpenFenceLexer(line)
  {
    if StartsWith(line, "<p>") {
      pre, body := "<p>", line[3..];
      assert line == line[..3] + line[3..];
    } else {
      pre, body := "", line;
    }
  }

  /** The parts of a recognised fence after its optional `<p>`. */
  lemma FenceBodyShape(body: string) returns (spaces: string, post: string)
    requires FenceLexer(body).Some?
    ensures forall k :: 0 <= k < |spaces| ==> IsInlineSpace(spaces[k])
    ensures post == "" || post == "</p>"
    ensures body == "@@@" + spaces + FenceLexer(body).value + post
  {
    var tail := body[3..];
    var rest := SkipInlineSpace(tail);
    var lexer := LeadingLexer(rest);
    assert FenceLexer(body) == Some(lexer);
    spaces := SpacesBefore(tail);
    post := rest[|lexer|..];
    assert rest == lexer + post;
    assert body == body[..3] + tail;
    Reassociate("@@@", tail, spaces, rest, lexer, post);
  }

  /** The in-line spaces `SkipInlineSpace` removes from `s`. */
  lemma SpacesBefore(s: string) returns (spaces: string)
    ensures forall k :: 0 <= k < |spaces| ==> IsInlineSpace(spaces[k])
    ensures s == spaces + SkipInlineSpace(s)
  {
    SkipInlineSpaceSplit(s);
    spaces := s[..|s| - |SkipInlineSpace(s)|];
  }

  lemma Reassociate(head: string, tail: string, spaces: string, rest: string, lexer: string, post: string)
    requires tail == spaces + rest && rest == lexer + post
    ensures head + tail == head + spaces + lexer + post
  {
  }

  /** Putting the parts of a recognised line back together. */
  lemma JoinFence(line: string, pre: string, body: string, spaces: string, lexer: string, post: string)
    requires pre == "" || pre == "<p>"
    requires line == pre + body && body == "@@@" + spaces + lexer + post
    requires forall k :: 0 <= k < |spaces| ==> IsInlineSpace(spaces[k])
    requires IsLexerName(lexer) && (post == "" || post == "</p>")
    ensures FenceShape(line, pre, spaces, lexer, post)
  {
  }

  lemma PrefixThenFence(line: string)
    requires StartsWith(line, "<p>") && StartsWith(line[3..], "@@@")
    ensures StartsWith(line, "<p>@@@")
  {
    assert line[..6] == line[..3] + line[3..][..3];
  }

  /** The opening `div` a fence line turns into. */
  function OpenDiv(lexer: string): string {
    "<div class=\"code\" rel=\"" + lexer + "\">"
  }

  /** The first rewrite: each closing fence line becomes `</div>`. */
  function ClosePass(lines: seq<string>): (r: seq<string>)
    ensures |r| == |lines|
  {
    seq(|lines|, i requires 0 <= i < |lines| => if IsCloseFence(lines[i]) then CloseDiv else lines[i])
  }

  /** The second rewrite: each opening fence line becomes the opening `div` naming its lexer. */
  function OpenPass(lines: seq<string>): (r: seq<string>)
    ensures |r| == |lines|
  {
    seq(|lines|, i requires 0 <= i < |lines| => OpenLine(lines[i]))
  }

  /** What the second rewrite does to one line. */
  function OpenLine(line: string): string
  {
    match OpenFenceLexer(line)
    case Some(lexer) => OpenDiv(lexer)
    case None => line
  }

  /** `markup`'s two `gsub!` calls on a copy of the Markdown, closing fences first. */
  function FenceNormalize(markdown: string): string
  {
    JoinLines(OpenPass(SplitLines(JoinLines(ClosePass(SplitLines(markdown))))))
  }

  /** What a single line becomes under fence normalisation. */
  function RewriteFence(line: string): string
  {
    if IsCloseFence(line) then CloseDiv
    else match OpenFenceLexer(line)
      case Some(lexer) => OpenDiv(lexer)
      case None => line
  }

  /** `</div>` is not an opening fence line. */
  lemma CloseDivNotOpen()
    ensures OpenFenceLexer(CloseDiv).None?
  {
    assert !StartsWith(CloseDiv, "<p>") by { assert CloseDiv[1] == '/'; }
    assert !StartsWith(CloseDiv, "@@@") by { assert CloseDiv[0] == '<'; }
  }

  lemma OpenDivNoLineFeed(lexer: string)
    requires IsLexerName(lexer)
    ensures !HasLineFeed(OpenDiv(lexer))
  {
    var d := OpenDiv(lexer);
    var pre := "<div class=\"code\" rel=\"";
    assert d == pre + lexer + "\">";
    forall k | 0 <= k < |d| ensures d[k] != '\n' {
      if |pre| <= k < |pre| + |lexer| {
        assert d[k] == lexer[k - |pre|];
      }
    }
  }

  /** The line-by-line effect of fence normalisation. */
  function RewriteLines(lines: seq<string>): (r: seq<string>)
    ensures |r| == |lines|
  {
    seq(|lines|, i requires 0 <= i < |lines| => RewriteFence(lines[i]))
  }

  lemma ClosePassLines(lines: seq<string>)
    requires forall i :: 0 <= i < |lines| ==> !HasLineFeed(lines[i])
    ensures forall i :: 0 <= i < |lines| ==> !HasLineFeed(ClosePass(lines)[i])
  {
    forall i | 0 <= i < |lines| ensures !HasLineFeed(ClosePass(lines)[i]) {
      if IsCloseFence(lines[i]) {
        assert ClosePass(lines)[i] == "</div>";
      }
    }
  }

  lemma OpenPassAfterClose(lines: seq<string>)
    requires forall i :: 0 <= i < |lines| ==> !HasLineFeed(lines[i])
    ensures OpenPass(ClosePass(lines)) == RewriteLines(lines)
    ensures forall i :: 0 <= i < |lines| ==> !HasLineFeed(RewriteLines(lines)[i])
  {
    var closed := ClosePass(lines);
    forall i | 0 <= i < |lines|
      ensures OpenPass(closed)[i] == RewriteLines(lines)[i] && !HasLineFeed(RewriteLines(lines)[i])
    {
      assert closed[i] == if IsCloseFence(lines[i]) then CloseDiv else lines[i];
      BothPassesOnLine(lines[i]);
    }
  }

  /** On one line, the first rewrite followed by the second is `RewriteFence`. */
  lemma BothPassesOnLine(line: string)
    requires !HasLineFeed(line)
    ensures OpenLine(if IsCloseFence(line) then CloseDiv else line) == RewriteFence(line)
    ensures !HasLineFeed(RewriteFence(line))
  {
    if IsCloseFence(line) {
      CloseDivNotOpen();
      CloseDivNoLineFeed();
    } else {
      OpenLineNoLineFeed(line);
    }
  }

  lemma CloseDivNoLineFeed()
    ensures !HasLineFeed(CloseDiv)
  {
    forall k | 0 <= k < |CloseDiv| ensures CloseDiv[k] != '\n' {
    }
  }

  lemma OpenLineNoLineFeed(line: string)
    requires !HasLineFeed(line)
    ensures !HasLineFeed(OpenLine(line))
  {
    match OpenFenceLexer(line)
    case Some(lexer) => OpenDivNoLineFeed(lexer);
    case None =>
  }

  /** Fence normalisation works line by line: the line structure is kept, a closing fence
      becomes `</div>`, an opening fence becomes the `div` carrying its lexer, and every
      other line is left exactly as it was. */
  lemma FenceNormalizeByLine(markdown: string)
    ensures SplitLines(FenceNormalize(markdown)) == RewriteLines(SplitLines(markdown))
    ensures FenceNormalize(markdown) == JoinLines(RewriteLines(SplitLines(markdown)))
  {
    var lines := SplitLines(markdown);
    var closed := ClosePass(lines);
    ClosePassLines(lines);
    SplitJoinLines(closed);
    OpenPassAfterClose(lines);
    SplitJoinLines(RewriteLines(lines));
  }

  /** Markdown without fence lines goes to the converter unchanged. */
  lemma NoFencesUnchanged(markdown: string)
    requires forall i :: 0 <= i < |SplitLines(markdown)| ==>
               !IsCloseFence(SplitLines(markdown)[i]) && OpenFenceLexer(SplitLines(markdown)[i]).None?
    ensures FenceNormalize(markdown) == markdown
  {
    var lines := SplitLines(markdown);
    FenceNormalizeByLine(markdown);
    assert RewriteLines(lines) == lines;
    JoinSplitLines(markdown);
  }

  lemma BodyRecognised(spaces: string, lexer: string, tail: string)
    requires forall k :: 0 <= k < |spaces| ==> IsInlineSpace(spaces[k])
    requires IsLexerName(lexer)
    requires tail == "" || tail == "</p>"
    ensures FenceLexer("@@@" + spaces + lexer + tail) == Some(lexer)
  {
    var body := "@@@" + spaces + lexer + tail;
    assert StartsWith(body, "@@@");
    assert body[3..] == spaces + (lexer + tail);
    assert (lexer + tail)[0] == lexer[0];
    SkipSpaces(spaces, lexer + tail);
    LeadingLexerOf(lexer, tail);
    assert (lexer + tail)[|lexer|..] == tail;
  }

  /** Every well-formed opening fence line is recognised, with its lexer. */
  lemma OpenFenceRecognised(prefix: string, spaces: string, lexer: string, suffix: string)
    requires prefix == "" || prefix == "<p>"
    requires forall k :: 0 <= k < |spaces| ==> IsInlineSpace(spaces[k])
    requires IsLexerName(lexer)
    requires suffix == "" || suffix == "</p>"
    ensures OpenFenceLexer(prefix + "@@@" + spaces + lexer + suffix) == Some(lexer)
  {
    var body := "@@@" + spaces + lexer + suffix;
    assert prefix + "@@@" + spaces + lexer + suffix == prefix + body;
    BodyRecognised(spaces, lexer, suffix);
    if prefix == "" {
      BareFence(body);
    } else {
      WrappedFence(body);
    }
  }

  /** A line that starts with `@@@` is read without a `<p>` prefix. */
  lemma BareFence(body: string)
    requires StartsWith(body, "@@@")
    ensures OpenFenceLexer("" + body) == FenceLexer(body)
  {
    assert "" + body == body;
    assert body[0] == '@';
  }

  /** A line that starts with `<p>` is read after it. */
  lemma WrappedFence(body: string)
    ensures OpenFenceLexer("<p>" + body) == FenceLexer(body)
  {
    var line := "<p>" + body;
    assert line[..3] == "<p>";
    assert line[3..] == body;
  }

  lemma {:induction false} SkipSpaces(spaces: string, rest: string)
    requires forall k :: 0 <= k < |spaces| ==> IsInlineSpace(spaces[k])
    requires rest != [] && !IsInlineSpace(rest[0])
    ensures SkipInlineSpace(spaces + rest) == rest
    decreases |spaces|
  {
    if spaces == [] {
      assert spaces + rest == rest;
    } else {
      assert (spaces + rest)[1..] == spaces[1..] + rest;
      SkipSpaces(spaces[1..], rest);
    }
  }

  lemma {:induction false} LeadingLexerOf(lexer: string, tail: string)
    requires forall k :: 0 <= k < |lexer| ==> IsLexerChar(lexer[k])
    requires tail == [] || tail[0] == '<'
    ensures LeadingLexer(lexer + tail) == lexer
    decreases |lexer|
  {
    if lexer == [] {
      assert lexer + tail == tail;
    } else {
      assert (lexer + tail)[1..] == lexer[1..] + tail;
      LeadingLexerOf(lexer[1..], tail);
      assert [lexer[0]] + lexer[1..] == lexer;
    }
  }

  /** After `@@@`, nothing or a lone `</p>` names no lexer. */
  lemma NoLexerAfterFence(body: string)
    requires body == "@@@" || body == "@@@</p>"
    ensures FenceLexer(body).None?
  {
    var rest := body[3..];
    assert rest == [] || rest[0] == '<';
    assert SkipInlineSpace(rest) == rest;
    assert LeadingLexer(rest) == [];
  }

  /** A closing fence line never counts as an opening one, so the order of the two passes
      cannot turn one into the other. */
  lemma CloseFenceNeverOpens(line: string)
    requires IsCloseFence(line)
    ensures OpenFenceLexer(line).None?
  {
    if line == "@@@" || line == "@@@</p>" {
      assert line[0] == '@';
      assert !StartsWith(line, "<p>");
      NoLexerAfterFence(line);
    } else {
      assert line[..3] == "<p>";
      assert line[3..] == "@@@" || line[3..] == "@@@</p>";
      NoLexerAfterFence(line[3..]);
    }
  }

  // ---------------------------------------------------------------------------
  // The generator and its memoised markup

  class Generator {
    /** The slide's Markdown text, as handed in; the fence rewrites work on a copy. */
    const markdown: string
    /** The Markdown-to-HTML converter. */
    const toHtml: string -> string
    /** `@markup`, once computed. */
    var markupCache: Option<string>

    ghost predicate Valid()
      reads this
    {
      markupCache.Some? ==> markupCache.value == toHtml(FenceNormalize(markdown))
    }

    constructor (markdown: string, toHtml: string -> string)
      ensures Valid() && markupCache == None
      ensures this.markdown == markdown && this.toHtml == toHtml
    {
      this.markdown := markdown;
      this.toHtml := toHtml;
      markupCache := None;
    }

    /** `markup`: the converter's HTML for the fence-normalised Markdown, computed once. */
    method Markup() returns (html: string)
      requires Valid()
      modifies this`markupCache
      ensures Valid() && markupCache == Some(html)
      ensures html == toHtml(FenceNormalize(markdown))
      ensures old(markupCache).Some? ==> html == old(markupCache).value
    {
      if markupCache.Some? {
        html := markupCache.value;
      } else {
        var text := markdown;
        text := FenceNormalize(text);
        html := toHtml(text);
        markupCache := Some(html);
      }
    }
  }

  // ---------------------------------------------------------------------------
  // Highlighting: class merge and node replacement

  const FallbackLexer := AlbinoAdapter.DefaultLexer

  /** A `div.code` element found by the search: its `rel` attribute and its text. */
  datatype CodeDiv = CodeDiv(rel: Option<string>, text: string)

  /** An element: its `class` attribute and the markup inside it. */
  datatype Element = Element(cls: Option<string>, inner: string)

  /** The outside world `highlight!` depends on: the highlighter binary, what the file system says
      about a target, and `run(command, input)`: the first `div` of the highlighter's output as the
      HTML parser reads it, or None when there is none. */
  datatype Highlighter = Highlighter(
    bin: string,
    lookup: string -> AlbinoAdapter.Lookup,
    run: (string, string) -> Option<Element>)

  /** `div['rel'] || :ruby`. */
  function LexerOf(div: CodeDiv): string
  {
    div.rel.GetOr(FallbackLexer)
  }

  /** The merged class attribute: the highlighter's classes, then the lexer, `code` and `highlight`. */
  function MergedClass(highlighterClass: string, lexer: string): string
  {
    JoinWithSpace(SplitOnSpaces(highlighterClass) + [lexer, "code", "highlight"])
  }

  /** Read as a class list, the merged attribute is the highlighter's classes followed by the
      lexer, `code` and `highlight`, in that order. */
  lemma MergedClassWords(highlighterClass: string, lexer: string)
    requires lexer != [] && NoSpace(lexer)
    ensures Words(MergedClass(highlighterClass, lexer)) == Words(highlighterClass) + [lexer, "code", "highlight"]
  {
    var fields := SplitOnSpaces(highlighterClass);
    var extra := [lexer, "code", "highlight"];
    SplitOnSpacesFields(highlighterClass);
    AddedClassesPlain(lexer);
    FieldsNoSpace(fields, extra);
    WordsOfJoin(fields + extra);
    NonEmptyAppend(fields, extra);
    NonEmptyOfWords(extra);
  }

  /** The three added classes are non-empty and free of whitespace. */
  lemma AddedClassesPlain(lexer: string)
    requires lexer != [] && NoSpace(lexer)
    ensures var extra := [lexer, "code", "highlight"];
            forall i :: 0 <= i < |extra| ==> extra[i] != [] && NoSpace(extra[i])
  {
    var extra := [lexer, "code", "highlight"];
    assert NoSpace(extra[1]) && NoSpace(extra[2]);
  }

  lemma FieldsNoSpace(fields: seq<string>, extra: seq<string>)
    requires forall i :: 0 <= i < |fields| ==> NoSpace(fields[i])
    requires forall i :: 0 <= i < |extra| ==> NoSpace(extra[i])
    ensures forall i :: 0 <= i < |fields + extra| ==> NoSpace((fields + extra)[i])
  {
    var parts := fields + extra;
    forall i | 0 <= i < |parts| ensures NoSpace(parts[i]) {
      if i >= |fields| {
        assert parts[i] == extra[i - |fields|];
      } else {
        assert parts[i] == fields[i];
      }
    }
  }

  /** `Albino.new(div.text, lexer)` for a code div, with the default format. */
  function AlbinoOf(div: CodeDiv, h: Highlighter): AlbinoAdapter.Albino
  {
    AlbinoAdapter.New(div.text, LexerOf(div), AlbinoAdapter.DefaultFormat, h.lookup(div.text))
  }

  /** The command `Albino.new(div.text, lexer).to_s` runs for a code div. */
  function HighlightCommand(div: CodeDiv, h: Highlighter): string
  {
    AlbinoOf(div, h).Command(h.bin, [])
  }

  /** The element that replaces a code div, or None when Ruby would raise (no `div` in the
      highlighter's output, or one without a class attribute). */
  function Replacement(div: CodeDiv, h: Highlighter): Option<Element>
  {
    var albino := AlbinoOf(div, h);
    match h.run(albino.Command(h.bin, []), albino.target)
    case None => None
    case Some(top) =>
      match top.cls
      case None => None
      case Some(c) => Some(Element(Some(MergedClass(c, LexerOf(div))), top.inner))
  }

  /** What the replacement of a code div is made of: the highlighter runs
      `<bin> -l <lexer> -f html`, the lexer being the div's `rel` or `ruby`, and the replacement
      keeps the highlighter's markup and lists its classes, then the lexer, `code`, `highlight`. */
  lemma ReplacementSpec(div: CodeDiv, h: Highlighter)
    ensures HighlightCommand(div, h) == h.bin + " -l " + LexerOf(div) + " -f html"
    ensures div.rel.None? ==> LexerOf(div) == "ruby"
    ensures var top := h.run(HighlightCommand(div, h), AlbinoOf(div, h).target);
            Replacement(div, h).None? <==> top.None? || top.value.cls.None?
    ensures Replacement(div, h).Some? ==>
      var lexer := LexerOf(div);
      var top := h.run(HighlightCommand(div, h), AlbinoOf(div, h).target);
      top.Some? && top.value.cls.Some? &&
      Replacement(div, h).value.inner == top.value.inner &&
      (NoSpace(lexer) && lexer != [] ==>
         Words(Replacement(div, h).value.cls.value) == Words(top.value.cls.value) + [lexer, "code", "highlight"])
  {
    var lexer := LexerOf(div);
    AlbinoAdapter.DefaultCommand(div.text, lexer, "html", h.lookup(div.text), h.bin);
    match h.run(HighlightCommand(div, h), AlbinoOf(div, h).target)
    case None =>
    case Some(top) =>
      if top.cls.Some? && NoSpace(lexer) && lexer != [] {
        MergedClassWords(top.cls.value, lexer);
      }
  }

  /** `highlight!`: each `div.code`, in document order, is replaced by the highlighter's `div` with
      the merged class list. The result is the replacements, or the position of the first div
      for which Ruby raises. */
  method Highlight(divs: seq<CodeDiv>, h: Highlighter) returns (r: Result<seq<Element>, nat>)
    ensures r.Success? ==> |r.value| == |divs|
    ensures r.Success? ==> forall i :: 0 <= i < |divs| ==> Replacement(divs[i], h) == Some(r.value[i])
    ensures r.Failure? ==> r.error < |divs| && Replacement(divs[r.error], h).None?
    ensures r.Failure? ==> forall i :: 0 <= i < r.error ==> Replacement(divs[i], h).Some?
  {
    var replaced: seq<Element> := [];
    for i := 0 to |divs|
      invariant |replaced| == i
      invariant forall j :: 0 <= j < i ==> Replacement(divs[j], h) == Some(replaced[j])
    {
      var div := divs[i];
      var lexer := LexerOf(div);
      var albino := AlbinoOf(div, h);
      var highlighted := h.run(albino.Command(h.bin, []), albino.target);
      if highlighted.None? || highlighted.value.cls.None? {
        return Failure(i);
      }
      var klasses := SplitOnSpaces(highlighted.value.cls.value);
      klasses := klasses + [lexer];
      klasses := klasses + ["code"];
      klasses := klasses + ["highlight"];
      assert klasses == SplitOnSpaces(highlighted.value.cls.value) + [lexer, "code", "highlight"];
      replaced := replaced + [Element(Some(JoinWithSpace(klasses)), highlighted.value.inner)];
    }
    r := Success(replaced);
  }
}
