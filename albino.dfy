/**
 * The Albino wrapper around the `pygmentize` highlighter: it remembers the text to
 * highlight and a small ordered option hash (`l` lexer, `f` format), merges the
 * caller's overrides into it and turns the result into the command line
 * `<bin> -l <lexer> -f <format> ...` that is handed to the external process.
 */
module AlbinoAdapter {
  import opened Wrappers
  import opened RubyStrings

  /** A Ruby Hash from option flag to value, in insertion order. A flag is its name as it is
      interpolated into the command, so a Symbol and a String of the same name are one flag. */
  type Options = seq<(string, string)>

  const DefaultLexer := "ruby"
  const DefaultFormat := "html"

  /** What `File.exists?(target) ? File.read(target) : target` finds out about the target:
      a readable file with these contents, no such file, or an exception raised by the
      file-system call (then the `rescue` branch chomps the target). */
  datatype Lookup = Exists(contents: string) | Missing | Raises

  datatype Albino = Albino(target: string, options: Options) {

    /** `convert_options`: the options merged with `overrides`, folded into " -flag value" pieces. */
    function ConvertOptions(overrides: Options): string
    {
      Inject("", Merge(options, overrides))
    }

    /** `colorize`: the command line given to the external highlighter. */
    function Command(bin: string, overrides: Options): string
    {
      bin + ConvertOptions(overrides)
    }
  }

  /** `Albino.new(target, lexer, format)`, the file-system answer about `target` supplied as `lookup`. */
  function New(target: string, lexer: string, format: string, lookup: Lookup): (a: Albino)
    ensures Keys(a.options) == ["l", "f"] && DistinctKeys(a.options)
    ensures Get(a.options, "l") == Some(lexer) && Get(a.options, "f") == Some(format)
    ensures lookup.Missing? ==> a.target == target
    ensures lookup.Raises? ==> a.target == Chomp(target)
    ensures lookup.Exists? ==> a.target == lookup.contents
  {
    var t := match lookup
      case Exists(contents) => contents
      case Missing => target
      case Raises => Chomp(target);
    Albino(t, [("l", lexer), ("f", format)])
  }

  // ---------------------------------------------------------------------------
  // The ordered hash

  function Keys(a: Options): (ks: seq<string>)
    ensures |ks| == |a| && forall i :: 0 <= i < |a| ==> ks[i] == a[i].0
  {
    if a == [] then [] else [a[0].0] + Keys(a[1..])
  }

  predicate DistinctKeys(a: Options) {
    forall i, j :: 0 <= i < j < |a| ==> a[i].0 != a[j].0
  }

  /** Position of the binding for `k`, if any. */
  function IndexOf(a: Options, k: string): (r: Option<nat>)
    ensures r.Some? ==> r.value < |a| && a[r.value].0 == k
    ensures r.Some? ==> forall j :: 0 <= j < r.value ==> a[j].0 != k
    ensures r.None? <==> k !in Keys(a)
  {
    if a == [] then None
    else if a[0].0 == k then Some(0)
    else match IndexOf(a[1..], k)
      case None => None
      case Some(i) => Some(i + 1)
  }

  /** `hash[k]`. */
  function Get(a: Options, k: string): Option<string>
  {
    match IndexOf(a, k)
    case None => None
    case Some(i) => Some(a[i].1)
  }

  /** Two hashes with the same keys in the same order find every key at the same place. */
  lemma {:induction false} IndexOfSameKeys(a: Options, b: Options, k: string)
    requires Keys(a) == Keys(b)
    ensures IndexOf(a, k) == IndexOf(b, k)
  {
    if a != [] {
      assert a[0].0 == b[0].0;
      assert Keys(a[1..]) == Keys(a)[1..] == Keys(b)[1..] == Keys(b[1..]);
      IndexOfSameKeys(a[1..], b[1..], k);
    }
  }

  /** Appending a binding leaves the places of the earlier keys alone. */
  lemma {:induction false} IndexOfAppend(a: Options, p: (string, string), k: string)
    ensures IndexOf(a + [p], k) ==
            if k in Keys(a) then IndexOf(a, k) else if p.0 == k then Some(|a|) else None
  {
    if a == [] {
      assert a + [p] == [p];
    } else {
      assert (a + [p])[1..] == a[1..] + [p];
      assert Keys(a) == [a[0].0] + Keys(a[1..]);
      IndexOfAppend(a[1..], p, k);
    }
  }

  /** `hash[k] = v`: an existing flag keeps its place and takes the new value; a new flag goes last. */
  function Put(a: Options, k: string, v: string): (r: Options)
    ensures k in Keys(a) ==> Keys(r) == Keys(a)
    ensures k !in Keys(a) ==> r == a + [(k, v)] && Keys(r) == Keys(a) + [k]
    ensures DistinctKeys(a) ==> DistinctKeys(r)
  {
    match IndexOf(a, k)
    case None =>
      var r := a + [(k, v)];
      assert Keys(r) == Keys(a) + [k];
      r
    case Some(i) =>
      var r := a[i := (k, v)];
      assert Keys(r) == Keys(a);
      r
  }

  /** After `hash[k] = v`, looking up `k` gives `v` and every other flag is unaffected. */
  lemma PutGet(a: Options, k: string, v: string, k': string)
    ensures Get(Put(a, k, v), k') == if k' == k then Some(v) else Get(a, k')
  {
    var r := Put(a, k, v);
    match IndexOf(a, k)
    case None =>
      IndexOfAppend(a, (k, v), k');
    case Some(i) =>
      assert r == a[i := (k, v)];
      IndexOfSameKeys(a, r, k');
  }

  /** `hash.merge(overrides)`. */
  function Merge(a: Options, overrides: Options): Options
    decreases |overrides|
  {
    if overrides == [] then a
    else Merge(Put(a, overrides[0].0, overrides[0].1), overrides[1..])
  }

  /** The keys of `ks` that are not in `known`, in order. */
  function Unknown(known: seq<string>, ks: seq<string>): seq<string>
  {
    if ks == [] then []
    else (if ks[0] in known then [] else [ks[0]]) + Unknown(known, ks[1..])
  }

  lemma {:induction false} UnknownIgnores(known: seq<string>, k: string, ks: seq<string>)
    requires k !in ks
    ensures Unknown(known + [k], ks) == Unknown(known, ks)
  {
    if ks != [] {
      UnknownIgnores(known, k, ks[1..]);
    }
  }

  /** In a hash the first flag does not come back later. */
  lemma FirstKeyUnique(o: Options)
    requires o != [] && DistinctKeys(o)
    ensures DistinctKeys(o[1..]) && Keys(o) == [o[0].0] + Keys(o[1..]) && o[0].0 !in Keys(o[1..])
  {
    forall j | 0 <= j < |o| - 1 ensures Keys(o[1..])[j] != o[0].0 {
      assert o[1..][j] == o[j + 1];
    }
  }

  /** Hash merge keeps every flag once: the keys of the defaults come first, in their order,
      followed by the flags only the overrides have, in the overrides' order. */
  lemma MergeKeys(a: Options, overrides: Options)
    requires DistinctKeys(a) && DistinctKeys(overrides)
    ensures DistinctKeys(Merge(a, overrides))
    ensures Keys(Merge(a, overrides)) == Keys(a) + Unknown(Keys(a), Keys(overrides))
  {
    MergeDistinct(a, overrides);
    MergeKeyOrder(a, overrides);
  }

  /** Merging into a hash keeps its keys distinct. */
  lemma {:induction false} MergeDistinct(a: Options, overrides: Options)
    requires DistinctKeys(a)
    ensures DistinctKeys(Merge(a, overrides))
    decreases |overrides|
  {
    if overrides != [] {
      MergeDistinct(Put(a, overrides[0].0, overrides[0].1), overrides[1..]);
    }
  }

  /** The key order of a merge. */
  lemma {:induction false} MergeKeyOrder(a: Options, overrides: Options)
    requires DistinctKeys(overrides)
    ensures Keys(Merge(a, overrides)) == Keys(a) + Unknown(Keys(a), Keys(overrides))
    decreases |overrides|
  {
    if overrides != [] {
      var k0, v0 := overrides[0].0, overrides[0].1;
      var rest := overrides[1..];
      FirstKeyUnique(overrides);
      MergeKeyOrder(Put(a, k0, v0), rest);
      UnknownStep(Keys(a), Keys(Put(a, k0, v0)), k0, Keys(rest));
    }
  }

  /** The keys a merge adds after one more binding, when that binding's key does not come back:
      `known` are the keys before the binding and `known'` after it. */
  lemma UnknownStep(known: seq<string>, known': seq<string>, k0: string, ks: seq<string>)
    requires k0 !in ks
    requires k0 in known ==> known' == known
    requires k0 !in known ==> known' == known + [k0]
    ensures known' + Unknown(known', ks) == known + Unknown(known, [k0] + ks)
  {
    assert ([k0] + ks)[1..] == ks;
    if k0 !in known {
      UnknownIgnores(known, k0, ks);
      assert Unknown(known, [k0] + ks) == [k0] + Unknown(known, ks);
    }
  }

  /** Hash merge: a flag takes the override's value when there is one and keeps its default otherwise. */
  lemma {:induction false} MergeGet(a: Options, overrides: Options, k: string)
    requires DistinctKeys(overrides)
    ensures Get(Merge(a, overrides), k) == (if k in Keys(overrides) then Get(overrides, k) else Get(a, k))
    decreases |overrides|
  {
    if overrides != [] {
      var k0, v0 := overrides[0].0, overrides[0].1;
      var rest := overrides[1..];
      var a' := Put(a, k0, v0);
      FirstKeyUnique(overrides);
      MergeGet(a', rest, k);
      PutGet(a, k0, v0, k);
      assert Merge(a, overrides) == Merge(a', rest);
      if k == k0 {
        assert IndexOf(overrides, k) == Some(0);
        assert Get(overrides, k) == Some(v0);
      } else if k in Keys(rest) {
        var i := IndexOf(rest, k).value;
        assert overrides[i + 1] == rest[i];
        assert IndexOf(overrides, k) == Some(i + 1);
        assert Get(overrides, k) == Get(rest, k);
      } else {
        assert k !in Keys(overrides);
      }
    }
  }

  // ---------------------------------------------------------------------------
  // The command line

  /** One " -flag value" piece. */
  function Flag(option: (string, string)): string
  {
    " -" + option.0 + " " + option.1
  }

  /** `inject('') { |string, (flag, value)| string += " -#{flag} #{value}" }`. */
  function Inject(acc: string, options: Options): string
    decreases |options|
  {
    if options == [] then acc else Inject(acc + Flag(options[0]), options[1..])
  }

  /** The words a flag string breaks into: "-flag", then the value, for each option in order. */
  function FlagWords(options: Options): seq<string>
  {
    if options == [] then [] else ["-" + options[0].0, options[0].1] + FlagWords(options[1..])
  }

  /** Reading option pairs back from the words of a command line. */
  function ParseFlags(words: seq<string>): Options
  {
    if |words| < 2 || words[0] == [] then []
    else [(words[0][1..], words[1])] + ParseFlags(words[2..])
  }

  /** Flags and values the external process can read back: non-empty and free of whitespace. */
  predicate Tokenizable(options: Options) {
    forall i :: 0 <= i < |options| ==>
      options[i].0 != [] && NoSpace(options[i].0) && options[i].1 != [] && NoSpace(options[i].1)
  }

  lemma {:induction false} InjectFromSpace(acc: string, options: Options)
    requires options != []
    ensures Inject(acc, options) == acc + " " + JoinWithSpace(FlagWords(options))
    decreases |options|
  {
    var (k, v) := options[0];
    var rest := options[1..];
    var words := FlagWords(options);
    assert words == ["-" + k, v] + FlagWords(rest);
    assert words[1..] == [v] + FlagWords(rest);
    assert ([v] + FlagWords(rest))[1..] == FlagWords(rest);
    if rest == [] {
      assert FlagWords(rest) == [];
      assert JoinWithSpace(words) == ("-" + k) + " " + v;
      assert Inject(acc, options) == acc + Flag(options[0]);
    } else {
      InjectFromSpace(acc + Flag(options[0]), rest);
      assert FlagWords(rest) != [];
      assert JoinWithSpace(words) == ("-" + k) + " " + (v + " " + JoinWithSpace(FlagWords(rest)));
    }
  }

  lemma {:induction false} ParseFlagWords(options: Options)
    requires Tokenizable(options)
    ensures ParseFlags(FlagWords(options)) == options
  {
    if options != [] {
      var words := FlagWords(options);
      assert Tokenizable(options[1..]) by {
        forall i | 0 <= i < |options[1..]| ensures options[1..][i] == options[i + 1] {}
      }
      ParseFlagWords(options[1..]);
      assert words[2..] == FlagWords(options[1..]);
      assert ("-" + options[0].0)[1..] == options[0].0;
      assert [options[0]] + options[1..] == options;
    }
  }

  lemma FlagWordsShape(options: Options)
    requires Tokenizable(options)
    ensures forall i :: 0 <= i < |FlagWords(options)| ==>
              FlagWords(options)[i] != [] && NoSpace(FlagWords(options)[i])
  {
    if options != [] {
      assert Tokenizable(options[1..]) by {
        forall i | 0 <= i < |options[1..]| ensures options[1..][i] == options[i + 1] {}
      }
      FlagWordsShape(options[1..]);
      var k := options[0].0;
      assert forall j :: 0 <= j < |"-" + k| ==> !IsSpace(("-" + k)[j]) by {
        forall j | 0 <= j < |"-" + k| ensures !IsSpace(("-" + k)[j]) {
          if j > 0 { assert ("-" + k)[j] == k[j - 1]; }
        }
      }
    }
  }

  /** The command line carries exactly the given options, in order: reading its flag words back
      after the binary path yields the option hash again. */
  lemma {:induction false} FlagStringRoundTrip(options: Options)
    requires Tokenizable(options)
    ensures ParseFlags(Words(Inject("", options))) == options
  {
    if options == [] {
      assert Inject("", options) == "";
    } else {
      InjectFromSpace("", options);
      var joined := JoinWithSpace(FlagWords(options));
      assert Inject("", options) == " " + joined;
      assert (" " + joined)[1..] == joined;
      FlagWordsShape(options);
      WordsOfJoin(FlagWords(options));
      NonEmptyOfWords(FlagWords(options));
      ParseFlagWords(options);
    }
  }

  /** With no overrides the command is `<bin> -l <lexer> -f <format>`. */
  lemma DefaultCommand(target: string, lexer: string, format: string, lookup: Lookup, bin: string)
    ensures New(target, lexer, format, lookup).Command(bin, []) == bin + " -l " + lexer + " -f " + format
  {
    var a := New(target, lexer, format, lookup);
    assert Merge(a.options, []) == [("l", lexer), ("f", format)];
    InjectPair(("l", lexer), ("f", format));
    assert Flag(("l", lexer)) == " -l " + lexer;
    assert Flag(("f", format)) == " -f " + format;
  }

  lemma InjectPair(p: (string, string), q: (string, string))
    ensures Inject("", [p, q]) == Flag(p) + Flag(q)
  {
    assert [p, q][1..] == [q];
    assert [q][1..] == [];
    assert "" + Flag(p) == Flag(p);
    assert Inject("", [p, q]) == Inject(Flag(p), [q]);
    assert Inject(Flag(p), [q]) == Inject(Flag(p) + Flag(q), []);
  }

  lemma InjectTriple(p: (string, string), q: (string, string), r: (string, string))
    ensures Inject("", [p, q, r]) == Flag(p) + Flag(q) + Flag(r)
  {
    assert [p, q, r][1..] == [q, r];
    assert [q, r][1..] == [r];
    assert [r][1..] == [];
    assert "" + Flag(p) == Flag(p);
    assert Inject("", [p, q, r]) == Inject(Flag(p), [q, r]);
    assert Inject(Flag(p), [q, r]) == Inject(Flag(p) + Flag(q), [r]);
    assert Inject(Flag(p) + Flag(q), [r]) == Inject(Flag(p) + Flag(q) + Flag(r), []);
  }

  lemma MergeOne(lexer: string, format: string, flag: string, value: string)
    ensures Merge([("l", lexer), ("f", format)], [(flag, value)]) ==
            if flag == "l" then [("l", value), ("f", format)]
            else if flag == "f" then [("l", lexer), ("f", value)]
            else [("l", lexer), ("f", format), (flag, value)]
  {
    var o := [("l", lexer), ("f", format)];
    assert [(flag, value)][1..] == [];
    assert Merge(o, [(flag, value)]) == Merge(Put(o, flag, value), []);
    if flag == "l" {
      assert IndexOf(o, flag) == Some(0);
    } else if flag == "f" {
      assert IndexOf(o, flag) == Some(1);
    } else {
      assert Keys(o) == ["l", "f"];
      assert flag !in Keys(o);
    }
  }

  /** One override: `l` or `f` takes the new value in its own place; any other flag is appended. */
  lemma OverrideCommand(a: Albino, bin: string, flag: string, value: string)
    requires |a.options| == 2 && a.options[0].0 == "l" && a.options[1].0 == "f"
    ensures var lexer, format := a.options[0].1, a.options[1].1;
            a.Command(bin, [(flag, value)]) ==
            if flag == "l" then bin + (" -l " + value) + (" -f " + format)
            else if flag == "f" then bin + (" -l " + lexer) + (" -f " + value)
            else bin + (" -l " + lexer) + (" -f " + format) + (" -" + flag + " " + value)
  {
    var lexer, format := a.options[0].1, a.options[1].1;
    assert a.options == [("l", lexer), ("f", format)];
    MergeOne(lexer, format, flag, value);
    if flag == "l" {
      InjectPair(("l", value), ("f", format));
      FlagNamed("l", value);
      FlagNamed("f", format);
    } else if flag == "f" {
      InjectPair(("l", lexer), ("f", value));
      FlagNamed("l", lexer);
      FlagNamed("f", value);
    } else {
      InjectTriple(("l", lexer), ("f", format), (flag, value));
      FlagNamed("l", lexer);
      FlagNamed("f", format);
    }
  }

  /** The piece of the one-letter flags. */
  lemma FlagNamed(k: string, v: string)
    requires k == "l" || k == "f"
    ensures k == "l" ==> Flag((k, v)) == " -l " + v
    ensures k == "f" ==> Flag((k, v)) == " -f " + v
  {
    assert " -" + k + " " == [' ', '-', k[0], ' '];
  }
}
