# tiny-slidedown in Dafny

A model of the core of tiny-slidedown, a single-file Ruby tool that turns a Markdown document
into an HTML slide show. The modelled parts are:

- **The deck parser, `SlideDown`.** It puts a `!SLIDE` marker in front of a document that
  does not open with one. It records the class text of every marker line while rewriting the
  line to a bare `!SLIDE`, then splits the document at the markers. Each non-empty piece
  becomes a slide, and each slide takes its class list from the front of the recorded queue.
- **The slide, `Slide`.** It cuts its `!NOTES` block out of its text and keeps that block as
  the speaker notes.
- **The slide renderer, `MakersMark::Generator`.** Before Markdown conversion it rewrites the
  `@@@lexer` … `@@@` code fences into `<div>` lines and remembers the converted HTML. While
  highlighting, it replaces every `div.code` with the highlighter's `div`, extending that
  `div`'s class list with the lexer, `code` and `highlight`.
- **The highlighter adapter, `Albino`.** It resolves the text to highlight and holds the
  ordered option hash (`l` lexer, `f` format). It merges overrides into that hash and builds
  the `pygmentize` command line.

Files:

- `wrappers.dfy`: `Option` and `Result`.
- `ruby_strings.dfy`: the Ruby string operations the core relies on.
  - `String#chomp` and `gsub(token, '')`.
  - Line splitting and joining.
  - `split(/\s+/)` and `join(' ')`.
  - `reject(&:empty?)`.
- `albino.dfy`: module `AlbinoAdapter`.
- `makers_mark.dfy`: module `MakersMark`.
- `slide.dfy`: module `SlideModel`.
- `deck.dfy`: module `Deck`.

Objects whose fields the Ruby code updates in place are Dafny classes. That covers
`Slide` (`text` and `notes`), `SlideDown` (`@raw`, the `@classes` queue and the `@slides`
memo) and `Generator` (the `@markup` memo). `extract_classes!`, `slides` and `highlight!`
are loops in the source, and here they are methods with loop invariants. The regex rewrites
and splits are functions on strings. Each comes with lemmas that characterise what it matches
and what it leaves.

Two behaviours of the code are easy to misread:

- A class entry is the marker line chomped with every `!SLIDE` deleted, so it keeps the
  whitespace between the token and the classes. `!SLIDE center` records ` center`, not
  `center` (`Deck.ClassEntryOfMarker`).
- The notes are the whole matched block chomped with the token deleted, so they keep the line
  break after `!NOTES`. `!NOTES\nRemember to smile\n` gives `\nRemember to smile`
  (`SlideModel.NotesAfterBody`).

## Model

| member | source | states |
|---|---|---|
| AlbinoAdapter.New | tiny-slidedown.rb:29-32 | The target is the file's contents when the file exists, the target itself when it does not, and the chomped target when the file-system call raises. The options are exactly `l` = lexer then `f` = format. |
| AlbinoAdapter.MergeKeys | tiny-slidedown.rb:47 | `merge` keeps every flag once: the defaults' flags in their order, then the flags only the overrides have, in the overrides' order. |
| AlbinoAdapter.MergeGet | tiny-slidedown.rb:47 | After `merge`, a flag has the override's value when the overrides name it and its default value otherwise. |
| AlbinoAdapter.PutGet | tiny-slidedown.rb:47 | Storing a flag makes lookups of that flag return the new value and leaves every other flag's value unchanged. |
| AlbinoAdapter.FlagStringRoundTrip | tiny-slidedown.rb:46-51 | The option string built by `convert_options` carries exactly the merged options, in order: reading its words back as flag/value pairs gives the options again (flags and values non-empty and without whitespace). |
| AlbinoAdapter.DefaultCommand | tiny-slidedown.rb:41-43 | Without overrides, `colorize` runs `<bin> -l <lexer> -f <format>`. |
| AlbinoAdapter.OverrideCommand | tiny-slidedown.rb:41-51 | With one override, a flag named `l` or `f` changes its own value in place; any other flag is appended after `-f`. Flags are compared by name (see "## Left out" on Symbol and String keys). |
| MakersMark.OpenFenceLexer | tiny-slidedown.rb:101 | A line recognised as an opening fence starts with `@@@` or `<p>@@@` and yields a lexer name made of word characters and `+`. |
| MakersMark.OpenFenceShape | tiny-slidedown.rb:101 | Only opening fences are recognised: a recognised line is exactly an optional `<p>`, `@@@`, in-line spaces, the lexer name it yields and an optional `</p>`, with nothing after. Together with `OpenFenceRecognised` this is the whole opening-fence pattern, both ways. |
| MakersMark.NotFenceKept | tiny-slidedown.rb:100-101 | A line that is neither a closing fence nor of the opening-fence form (optional `<p>`, `@@@`, in-line spaces, a non-empty `[\w+]` lexer name, optional `</p>`) is left as it is by both rewrites; this covers near-fences such as `@@@ruby extra`, `@@@ ` and `<p>@@@-x`. |
| MakersMark.OpenFenceRecognised | tiny-slidedown.rb:101 | Every line of the form optional `<p>`, `@@@`, in-line spaces, a lexer name, optional `</p>` is recognised, with that lexer. |
| MakersMark.CloseFenceNeverOpens | tiny-slidedown.rb:100-101 | A closing fence line is never taken for an opening one, so the order of the two rewrites cannot turn one into the other. |
| MakersMark.FenceNormalizeByLine | tiny-slidedown.rb:98-101 | The two rewrites keep the line structure. A closing fence becomes `</div>`, an opening fence becomes `<div class="code" rel="lexer">`, and every other line is unchanged. |
| MakersMark.NoFencesUnchanged | tiny-slidedown.rb:98-101 | Markdown without fence lines reaches the converter unchanged. |
| MakersMark.Generator.constructor | tiny-slidedown.rb:62-64 | The generator holds the Markdown and has no markup yet. |
| MakersMark.Generator.Markup | tiny-slidedown.rb:95-105 | The markup is the converter's HTML for the fence-normalised Markdown. It is computed once: a later call returns the remembered value and the memo stays consistent. |
| MakersMark.MergedClassWords | tiny-slidedown.rb:85-89 | Read as a class list, the merged class attribute is the highlighter's classes, then the lexer, `code` and `highlight`, in that order. |
| MakersMark.ReplacementSpec | tiny-slidedown.rb:78-91 | For every code div, whatever its `rel`, the highlighter runs `<bin> -l <lexer> -f html`, the lexer being the div's `rel` or `ruby`, and the replacement keeps the highlighter's markup. When the lexer is one non-empty word, the replacement's class, read as words, is the highlighter's classes, then the lexer, `code` and `highlight`. There is no replacement (Ruby raises) exactly when the highlighter's output has no `div` or its `div` has no class attribute. |
| MakersMark.Highlight | tiny-slidedown.rb:77-93 | Every code div, in document order, gets its replacement. Otherwise the result is the position of the first div for which the Ruby code raises, and every div before it has a replacement. |
| SlideModel.NotesMatch | tiny-slidedown.rb:140 | The notes match starts at the first line that opens with `!NOTES` and ends at the last line feed that closes a line past the token. No match exists exactly when no such start and end fit together. |
| SlideModel.CutLeavesNoNotes | tiny-slidedown.rb:139-144 | Once the notes block is cut out, the text has no notes block left, so extracting again changes nothing. |
| SlideModel.NotesRunToEnd | tiny-slidedown.rb:140-141 | In a text ending with a line feed, everything from the first `!NOTES` line on is the block: the text keeps what precedes it, and the notes are that block chomped with the token deleted. |
| SlideModel.NoNotesLine | tiny-slidedown.rb:139-144 | Without a line opening with `!NOTES`, the text is kept and there are no notes. |
| SlideModel.NotesNeedLineFeed | tiny-slidedown.rb:140 | A text without a line feed never has notes. |
| SlideModel.NotesAfterBody | tiny-slidedown.rb:139-144 | For a body none of whose lines opens with `!NOTES`, followed by a `!NOTES` line and notes that do not repeat the token, the body stays as the text. The notes are everything after the token, chomped, including the line break after the token. |
| SlideModel.Slide.constructor | tiny-slidedown.rb:125-131 | A new slide has the given classes, its text without the notes block, and the block's notes (none without one). |
| SlideModel.Slide.ExtractNotes | tiny-slidedown.rb:139-144 | `extract_notes!` cuts the block out of the text and records its notes. Without a block, the text and notes stay as they were. |
| Deck.Synthesize | tiny-slidedown.rb:194 | The document given to the parser always starts with `!SLIDE`. |
| Deck.SynthesizeLines | tiny-slidedown.rb:194 | Synthesis either keeps the document or adds one bare marker line in front of its lines. Applying it twice is the same as once. |
| Deck.ClassEntryOfMarker | tiny-slidedown.rb:243-244 | The class entry of a marker line is the text after `!SLIDE`, leading whitespace kept, chomped. |
| Deck.MarkerIndicesSpec | tiny-slidedown.rb:243 | The marker positions are exactly the marker lines of the document, each once, in increasing order. |
| Deck.ClassEntriesSpec | tiny-slidedown.rb:241-248 | There is one class entry per marker line, in document order, each the chomped text after its marker's token. |
| Deck.SlideDown.ExtractClasses | tiny-slidedown.rb:241-248 | `extract_classes!` leaves exactly the class entries of the document's marker lines as the queue, and rewrites every marker line to a bare `!SLIDE`. |
| Deck.SlideDown.constructor | tiny-slidedown.rb:193-199 | A new deck holds the synthesised document with its markers rewritten and the class queue of the synthesised document. The title and stylesheets come from the options or default to `Slides` and the local stylesheets, and there are no slides yet. |
| Deck.PieceCaptures | tiny-slidedown.rb:230 | Splitting at the markers yields one capture per marker line, its own, in document order. |
| Deck.PiecesCoverDocument | tiny-slidedown.rb:230 | The pieces between the markers, concatenated, are the whole document with its marker lines blanked out. |
| Deck.PieceTextsHaveNoMarkers | tiny-slidedown.rb:230 | No piece contains a marker line. |
| Deck.RewriteKeepsPieces | tiny-slidedown.rb:230 | Rewriting the markers does not move the split points: the rewritten document has the same pieces. |
| Deck.RewriteEmptiesCaptures | tiny-slidedown.rb:230 | After the rewrite every marker captures nothing, so the split produces only pieces and empty strings. |
| Deck.WellFormedLines | tiny-slidedown.rb:229-231 | A document of bare markers that opens with a marker and does not close with one splits into exactly the pieces after each marker: one per marker, none of them empty. |
| Deck.PieceContents | tiny-slidedown.rb:230 | Piece k of the split holds exactly the lines between marker k - 1 (or the start) and marker k (or the end), with an empty line after the opening marker and before the closing one. |
| Deck.LastPieceEmpty | tiny-slidedown.rb:230 | A document that closes with a marker line has an empty last piece; its empty text is dropped by the `reject`, so that marker gets no slide and its class entry stays in the queue. |
| Deck.LinesCoverDocument | tiny-slidedown.rb:229-231 | The slide texts, concatenated in order, are the parsed document with its marker lines blanked out. Nothing is lost or reordered. |
| Deck.DeckPairing | tiny-slidedown.rb:201-203 | When the document opens with a marker line and does not close with one, there are exactly as many slide texts as class entries. Slide i's text is a line break followed by the lines between marker i and the next marker (or the end), joined, with a closing line break when another marker follows; so slide i receives its own marker's classes. |
| Deck.TerminatedDeckPairs | tiny-slidedown.rb:201-203 | A document ending in a line break, and not opening with a malformed marker, has as many slides as class entries. |
| Deck.SlideDown.Slides | tiny-slidedown.rb:201-203 | On the first call, there is one new slide per text of `lines`, in order. Slide i has text i without its notes, those notes, and the i-th queue entry (none past the queue's end), and the queue loses that many entries. Later calls return the same slides and leave the queue alone. |
| Deck.SlideDown.Shift | tiny-slidedown.rb:202 | `@classes.shift` hands out the front entry of the queue (nothing when it is empty) and removes it. |
| Deck.SlideDown.MakeSlides | tiny-slidedown.rb:202 | The `map` with `@classes.shift`: slide i is a new slide built from text i (text without notes, notes) with the i-th queue entry or no classes, and the queue is shifted once per slide. |

## Left out

- Deck.Lines, Deck.SlideDown.ExtractClasses, Deck.DeckPairing, Deck.TerminatedDeckPairs: marker recognition works line by line; a marker line is `!SLIDE` followed by lower-case letters and in-line whitespace. In the Ruby pattern `^!SLIDE\s*([a-z\s]*)$`, `\s` also matches line feeds, so a match can run on over the following lines made only of lower-case letters and whitespace (blank lines included), and `gsub!` replaces all of it with `!SLIDE`. The model does not capture three consequences: (1) absorbed lines leave the slide text, so `!SLIDE\n\n# T\n` gives the slide text `\n# T\n` in Ruby and `\n\n# T\n` here; (2) absorbed lines join the class entry, which after two or more blank lines keeps a trailing `\n` in Ruby; (3) a marker line followed only by the final line feed absorbs it and the empty piece after it is dropped, so `!SLIDE a\n!SLIDE b\n` has two class entries and one slide in Ruby but two slides here, and the equal counts that `Deck.DeckPairing` and `Deck.TerminatedDeckPairs` prove do not hold of the Ruby code for such decks. Likewise an empty document gives one slide (`"\n"`) here and none there.
- MakersMark.FenceNormalize: an opening fence is one line. The Ruby pattern's `\s*` after `@@@` can also run across line breaks.
- The command-line interface is not modelled, because it is file and terminal I/O: `run!`, `option_parser`, `render`, `read`, `is_absolute_path?`, the ERB templates and `USAGE`.
- `local_stylesheets` and `javascripts` are not modelled, because they glob the working directory. The local stylesheets are a constructor parameter.
- `Albino#execute`, `Albino.colorize` and `Albino.bin=` are not modelled, because they start a process and set a global. The highlighter binary (in Ruby `ENV['PYGMENTIZE_BIN']`, else `/usr/local/bin/pygmentize`, unless `bin=` changed it), and the top-level `div` of the highlighter's output as the HTML parser reads it, are parameters (`MakersMark.Highlighter`).
- The existence and reading of the target file in `Albino#initialize` is a parameter (`AlbinoAdapter.Lookup`).
- The rest of the HTML handling is not modelled, because those libraries are not part of this model: BlueCloth's Markdown conversion is a function parameter of the generator, and Nokogiri parsing, `search`, `at`, `replace` and serialisation (`to_html`, `doc`, `MakersMark.generate`, `Slide#html`) are left out. `highlight!` is modelled on the sequence of `div.code` elements a search yields, giving their replacements. Writing them back into the tree is not modelled.
- The logger is not modelled, because it only prints.
- `SlideDown#extract_notes!` is not modelled, because nothing calls it.
- The `@lines` memo is not modelled. `lines` is a pure function of `@raw`, which does not change after construction.
- String aliasing is not modelled. In Ruby, `Slide#extract_notes!` mutates the very string `lines` returned. Here each slide holds its own value.
- Ruby's `:ruby` and `:html` symbols are modelled as the strings they interpolate to.
- AlbinoAdapter.MergeKeys, AlbinoAdapter.MergeGet, AlbinoAdapter.OverrideCommand: option flags (the keys of `AlbinoAdapter.Options`) are modelled as the strings they interpolate to, so a Symbol key and a String key with the same name are one key here and two in Ruby. The defaults are keyed by the Symbols `:l` and `:f`; an override keyed by the String `'l'` is appended by Ruby's `Hash#merge` (` -l ruby -f html -l python`), while the model replaces the value in place.
