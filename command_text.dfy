/**
 * The two strings the encoding worker builds for each file: the output path
 * `<stem>_<timestamp><ext>` next to the input, and the shell command made
 * from the template by substituting `{filePath}` and `{outputFile}`.
 */
module CommandText {
  import opened PyString
  import opened PosixPath
  import opened Decimal

  const FilePathField := "{filePath}"
  const OutputFileField := "{outputFile}"

  /** A path wrapped in double quotes, as the worker inserts it. */
  function Quote(p: string): string {
    "\"" + p + "\""
  }

  /**
   * The command for one file: the stripped template with every `{filePath}`
   * replaced by the quoted input path, and then every `{outputFile}` by the
   * quoted output path.
   */
  function BuildCommand(template: string, input: string, output: string): string {
    Replace(Replace(Strip(template), FilePathField, Quote(input)), OutputFileField, Quote(output))
  }

  /** What `strftime('%Y%m%d-%H%M%S')` produces: eight digits, a dash, six digits. */
  predicate IsTimestamp(ts: string) {
    |ts| == 15 && ts[8] == '-' && forall i | 0 <= i < 15 && i != 8 :: IsDigit(ts[i])
  }

  /** The text the worker puts between a file's stem and its extension. */
  function Tag(timestamp: string): string {
    "_" + timestamp
  }

  lemma TagPlain(timestamp: string)
    requires IsTimestamp(timestamp)
    ensures Sep !in Tag(timestamp) && ExtSep !in Tag(timestamp) && Tag(timestamp) != []
  {
    var t := Tag(timestamp);
    forall i | 0 <= i < |t| ensures t[i] != Sep && t[i] != ExtSep {
      if i > 0 { assert t[i] == timestamp[i - 1]; }
    }
  }

  /** The output path: `join(dirname(input), f"{filename}_{timestamp}{ext}")`. */
  function OutputPath(input: string, timestamp: string): string {
    var (filename, ext) := SplitExt(Basename(input));
    Join(Dirname(input), filename + Tag(timestamp) + ext)
  }

  /** Both parts `splitext` makes of a separator-free name are separator-free. */
  lemma SplitExtNoSep(b: string)
    requires Sep !in b
    ensures Sep !in SplitExt(b).0 && Sep !in SplitExt(b).1
  {
    var (stem, ext) := SplitExt(b);
    assert forall k | 0 <= k < |stem| :: stem[k] == b[k];
    assert forall k | 0 <= k < |ext| :: ext[k] == b[|stem| + k];
  }

  /**
   * The output file sits in the input's directory, and its name splits into
   * the input's stem followed by `_<timestamp>`, and the input's extension.
   */
  lemma OutputPathParts(input: string, timestamp: string)
    requires IsTimestamp(timestamp)
    ensures var out := OutputPath(input, timestamp);
      var (stem, ext) := SplitExt(Basename(input));
      Dirname(out) == Dirname(input)
      && Basename(out) == stem + Tag(timestamp) + ext
      && SplitExt(Basename(out)) == (stem + Tag(timestamp), ext)
  {
    var b := Basename(input);
    var (stem, ext) := SplitExt(b);
    var t := Tag(timestamp);
    TagPlain(timestamp);
    SplitExtNoSep(b);
    NoSepConcat(stem, t, ext);
    BasenameJoin(Dirname(input), stem + t + ext);
    DirnameJoin(Dirname(input), stem + t + ext);
    SplitExtInsert(b, t);
  }

  /**
   * For an input `d/x.e` whose name has a real extension, the output is
   * `d/x_<timestamp>.e`: the tag goes between the stem and the extension.
   */
  lemma OutputPathOfNamed(d: string, x: string, e: string, timestamp: string)
    requires DirShape(d) && Sep !in x && Sep !in e && ExtSep !in e && !AllDots(x)
    ensures OutputPath(Join(d, x + [ExtSep] + e), timestamp) == Join(d, x + Tag(timestamp) + [ExtSep] + e)
  {
    var name := x + [ExtSep] + e;
    NoSepConcat(x, [ExtSep], e);
    BasenameJoin(d, name);
    DirnameJoin(d, name);
    SplitExtFindsExt(x, e);
    OutputPathOf(Join(d, name), d, name, x, [ExtSep] + e, timestamp);
    Regrouped(x + Tag(timestamp), [ExtSep], e);
  }

  lemma Regrouped(a: string, b: string, c: string)
    ensures a + (b + c) == a + b + c
  {
  }

  lemma OutputPathOf(input: string, dir: string, name: string, stem: string, ext: string, timestamp: string)
    requires Dirname(input) == dir && Basename(input) == name && SplitExt(name) == (stem, ext)
    ensures OutputPath(input, timestamp) == Join(dir, stem + Tag(timestamp) + ext)
  {
  }

  /** A template read as literal text and the two placeholders. */
  datatype Piece = Text(text: string) | FilePath | OutputFile

  /** The text of a template with each placeholder standing for the given string. */
  function Render(pieces: seq<Piece>, filePath: string, outputFile: string): string {
    if pieces == [] then []
    else
      var head := match pieces[0]
        case Text(t) => t
        case FilePath => filePath
        case OutputFile => outputFile;
      head + Render(pieces[1..], filePath, outputFile)
  }

  /** The literal parts of the template contain no `{`, so no placeholder hides in them. */
  predicate Plain(pieces: seq<Piece>) {
    forall i | 0 <= i < |pieces| :: pieces[i].Text? ==> '{' !in pieces[i].text
  }

  /** `{outputFile}` is left alone by the `{filePath}` replacement. */
  lemma ReplacePassesOutputField(x: string, rep: string)
    ensures Replace(OutputFileField + x, FilePathField, rep) == OutputFileField + Replace(x, FilePathField, rep)
  {
    assert OutputFileField[..|FilePathField|][1] != FilePathField[1];
    assert OutputFileField[1..] == "outputFile}";
    ReplacePassesWord(OutputFileField, x, FilePathField, rep);
  }

  /** Replacing `{filePath}` in a rendered template fills in exactly the `{filePath}` pieces. */
  lemma {:induction false} ReplaceFilePathField(pieces: seq<Piece>, rep: string)
    requires Plain(pieces)
    ensures Replace(Render(pieces, FilePathField, OutputFileField), FilePathField, rep)
         == Render(pieces, rep, OutputFileField)
  {
    if pieces != [] {
      var rest := Render(pieces[1..], FilePathField, OutputFileField);
      ReplaceFilePathField(pieces[1..], rep);
      match pieces[0]
      case Text(t) =>
        ReplaceAfterLiteral(t, rest, FilePathField, rep);
      case FilePath =>
        ReplaceAtFront(rest, FilePathField, rep);
      case OutputFile =>
        ReplacePassesOutputField(rest, rep);
    }
  }

  /** A quoted path is replaced inside its quotes: the closing quote cannot be part of `{outputFile}`. */
  lemma ReplaceQuoted(f: string, y: string, rep: string)
    ensures Replace(Quote(f) + y, OutputFileField, rep)
         == Quote(Replace(f, OutputFileField, rep)) + Replace(y, OutputFileField, rep)
  {
    assert Quote(f) + y == "\"" + (f + ['"'] + y);
    assert '"' !in OutputFileField;
    ReplaceAfterLiteral("\"", f + ['"'] + y, OutputFileField, rep);
    ReplaceAroundBarrier(f, '"', y, OutputFileField, rep);
  }

  /**
   * Replacing `{outputFile}` afterwards fills in the `{outputFile}` pieces and
   * also replaces any `{outputFile}` the quoted input path itself contains.
   */
  lemma {:induction false} ReplaceOutputFileField(pieces: seq<Piece>, filePath: string, rep: string)
    requires Plain(pieces)
    ensures Replace(Render(pieces, Quote(filePath), OutputFileField), OutputFileField, rep)
         == Render(pieces, Quote(Replace(filePath, OutputFileField, rep)), rep)
  {
    if pieces != [] {
      var rest := Render(pieces[1..], Quote(filePath), OutputFileField);
      ReplaceOutputFileField(pieces[1..], filePath, rep);
      match pieces[0]
      case Text(t) =>
        ReplaceAfterLiteral(t, rest, OutputFileField, rep);
      case FilePath =>
        ReplaceQuoted(filePath, rest, rep);
      case OutputFile =>
        ReplaceAtFront(rest, OutputFileField, rep);
    }
  }

  /**
   * For a template whose stripped text is literal parts free of `{` with
   * placeholders between them, the command is the template with every
   * `{filePath}` turned into the quoted input path and every `{outputFile}`
   * into the quoted output path; an `{outputFile}` inside the input path is
   * replaced too, and an input path free of `{` is inserted as it is.
   */
  lemma SubstituteFills(template: string, pieces: seq<Piece>, input: string, output: string)
    requires Plain(pieces)
    requires Strip(template) == Render(pieces, FilePathField, OutputFileField)
    ensures BuildCommand(template, input, output)
         == Render(pieces, Quote(Replace(input, OutputFileField, Quote(output))), Quote(output))
    ensures '{' !in input ==> BuildCommand(template, input, output) == Render(pieces, Quote(input), Quote(output))
  {
    ReplaceFilePathField(pieces, Quote(input));
    ReplaceOutputFileField(pieces, input, Quote(output));
    if '{' !in input {
      ReplaceLiteral(input, OutputFileField, Quote(output));
    }
  }

  /** A path that spells `{outputFile}` is itself replaced by the output path. */
  lemma NestedPlaceholder()
    ensures BuildCommand(FilePathField, OutputFileField, "o") == "\"\"o\"\""
  {
    var t := FilePathField;
    assert Strip(t) == Render([FilePath], FilePathField, OutputFileField);
    SubstituteFills(t, [FilePath], OutputFileField, "o");
    ReplaceAtFront([], OutputFileField, Quote("o"));
  }

  // The default template, and where the worker's own quotes leave the paths.

  const InputFlag := "auto-encode " + "--encoder " + "h264_nvenc " + "--input "
  const MiddleFlags := " --preset " + "slow " + "--pix-format " + "yuv420p " + "--keyint " + "120 " + "-o "

  lemma InputFlagPlain()
    ensures '{' !in InputFlag && '"' !in InputFlag && InputFlag[0] == 'a'
  {
  }

  lemma MiddleFlagsPlain()
    ensures '{' !in MiddleFlags && '"' !in MiddleFlags
  {
    MiddleFlagsNoBrace();
    MiddleFlagsNoQuote();
  }

  lemma MiddleFlagsNoBrace()
    ensures '{' !in MiddleFlags
  {
  }

  lemma MiddleFlagsNoQuote()
    ensures '"' !in MiddleFlags
  {
  }

  /** The default template as the window fills it in: the placeholders already sit inside quotes. */
  const DefaultTemplateAsWritten := InputFlag + "\"" + FilePathField + "\"" + MiddleFlags + "\"" + OutputFileField + "\""

  /** The default template without quotes of its own, so that the worker's quotes are the only ones. */
  const DefaultTemplate := InputFlag + FilePathField + MiddleFlags + OutputFileField

  /** The number of double quotes in s. */
  function QuoteCount(s: string): nat {
    if s == [] then 0 else (if s[0] == '"' then 1 else 0) + QuoteCount(s[1..])
  }

  lemma {:induction false} QuoteCountAppend(x: string, y: string)
    ensures QuoteCount(x + y) == QuoteCount(x) + QuoteCount(y)
  {
    if x != [] {
      assert (x + y)[1..] == x[1..] + y;
      QuoteCountAppend(x[1..], y);
    } else {
      assert x + y == y;
    }
  }

  lemma {:induction false} QuoteCountNone(s: string)
    requires '"' !in s
    ensures QuoteCount(s) == 0
  {
    if s != [] {
      QuoteCountNone(s[1..]);
    }
  }

  /**
   * The character at j follows an odd number of double quotes. Only double
   * quotes are tracked: the shell's other quoting characters (backslash,
   * single quote, `$` and backquote) are not, so this is the shell's reading
   * only for text free of them.
   */
  predicate InsideQuotes(cmd: string, j: nat) {
    j <= |cmd| && QuoteCount(cmd[..j]) % 2 == 1
  }

  /** The character at j follows an even number of double quotes (only double quotes are tracked, as above). */
  predicate OutsideQuotes(cmd: string, j: nat) {
    j <= |cmd| && QuoteCount(cmd[..j]) % 2 == 0
  }

  /** Characters of a quote-free x placed after p are preceded by exactly p's quotes. */
  lemma QuotesBefore(p: string, x: string, r: string)
    requires '"' !in x
    ensures forall j | |p| <= j <= |p| + |x| :: QuoteCount((p + x + r)[..j]) == QuoteCount(p)
  {
    forall j | |p| <= j <= |p| + |x|
      ensures QuoteCount((p + x + r)[..j]) == QuoteCount(p)
    {
      var k := j - |p|;
      assert (p + x + r)[..j] == p + x[..k];
      assert '"' !in x[..k] by {
        assert forall m | 0 <= m < k :: x[..k][m] == x[m];
      }
      QuoteCountNone(x[..k]);
      QuoteCountAppend(p, x[..k]);
    }
  }

  /** A quote-free x placed after an odd number of quotes lies inside quotes. */
  lemma InsideAfter(p: string, x: string, r: string)
    requires '"' !in x && QuoteCount(p) % 2 == 1
    ensures OccursAt(p + x + r, x, |p|)
    ensures forall j | |p| <= j < |p| + |x| :: InsideQuotes(p + x + r, j)
  {
    QuotesBefore(p, x, r);
    assert (p + x + r)[|p|..|p| + |x|] == x;
  }

  /** A quote-free x placed after an even number of quotes lies outside quotes. */
  lemma OutsideAfter(p: string, x: string, r: string)
    requires '"' !in x && QuoteCount(p) % 2 == 0
    ensures OccursAt(p + x + r, x, |p|)
    ensures forall j | |p| <= j < |p| + |x| :: OutsideQuotes(p + x + r, j)
  {
    QuotesBefore(p, x, r);
    assert (p + x + r)[|p|..|p| + |x|] == x;
  }

  /** The pieces of a template of the form `<a>{filePath}<b>{outputFile}<c>`. */
  function TwoFields(a: string, b: string, c: string): seq<Piece> {
    [Text(a), FilePath, Text(b), OutputFile, Text(c)]
  }

  lemma RenderTwoFields(a: string, b: string, c: string, f: string, o: string)
    ensures Render(TwoFields(a, b, c), f, o) == a + f + b + o + c
  {
    var p5 := [Text(c)];
    var p4 := [OutputFile] + p5;
    var p3 := [Text(b)] + p4;
    var p2 := [FilePath] + p3;
    var p1 := [Text(a)] + p2;
    assert p5[1..] == [] && p4[1..] == p5 && p3[1..] == p4 && p2[1..] == p3 && p1[1..] == p2;
    assert Render(p5, f, o) == c + [] == c;
    assert Render(p4, f, o) == o + c;
    assert Render(p3, f, o) == b + o + c;
    assert Render(p2, f, o) == f + b + o + c;
    assert Render(p1, f, o) == a + f + b + o + c;
    assert p1 == TwoFields(a, b, c);
  }

  lemma PlainTwoFields(a: string, b: string, c: string)
    requires '{' !in a && '{' !in b && '{' !in c
    ensures Plain(TwoFields(a, b, c))
  {
    var ps := TwoFields(a, b, c);
    forall i | 0 <= i < |ps| && ps[i].Text?
      ensures '{' !in ps[i].text
    {
      if i == 0 {
        assert ps[i].text == a;
      } else if i == 2 {
        assert ps[i].text == b;
      } else {
        assert i == 4 && ps[i].text == c;
      }
    }
  }

  /** The command for a template `<a>{filePath}<b>{outputFile}<c>` with plain parts and no surrounding whitespace. */
  lemma CommandOfTwoFields(a: string, b: string, c: string, input: string, output: string)
    requires '{' !in a && '{' !in b && '{' !in c && '{' !in input
    requires a != [] && !IsSpace(a[0])
    requires c == [] || !IsSpace(c[|c| - 1])
    ensures BuildCommand(a + FilePathField + b + OutputFileField + c, input, output)
         == a + Quote(input) + b + Quote(output) + c
  {
    var t := a + FilePathField + b + OutputFileField + c;
    RenderTwoFields(a, b, c, FilePathField, OutputFileField);
    RenderTwoFields(a, b, c, Quote(input), Quote(output));
    assert t[0] == a[0];
    if c == [] {
      assert t == a + FilePathField + b + OutputFileField;
      assert t[|t| - 1] == '}';
    } else {
      assert t[|t| - 1] == c[|c| - 1];
    }
    StripUnpadded(t);
    PlainTwoFields(a, b, c);
    SubstituteFills(t, TwoFields(a, b, c), input, output);
  }

  /**
   * A template that puts its own quotes around each placeholder: the worker
   * quotes each path again, so the input path comes right after two quotes
   * and every character of it lies outside quotes.
   */
  lemma QuotedFieldsUnquote(a: string, b: string, input: string, output: string)
    requires '{' !in a && '"' !in a && '{' !in b
    requires a != [] && !IsSpace(a[0])
    requires '{' !in input && '"' !in input
    ensures var cmd := BuildCommand(a + "\"" + FilePathField + "\"" + b + "\"" + OutputFileField + "\"", input, output);
      OccursAt(cmd, input, |a| + 2) && forall j | |a| + 2 <= j < |a| + 2 + |input| :: OutsideQuotes(cmd, j)
  {
    var a' := a + "\"";
    var b' := "\"" + b + "\"";
    var c := "\"";
    assert a' + FilePathField + b' + OutputFileField + c
        == a + "\"" + FilePathField + "\"" + b + "\"" + OutputFileField + "\"";
    CommandOfTwoFields(a', b', c, input, output);
    DoubledQuotesPosition(a, b', Quote(output), c, input);
  }

  /** Where the input path lands when the worker's quote follows the template's. */
  lemma DoubledQuotesPosition(a: string, b: string, o: string, c: string, input: string)
    requires '"' !in a && '"' !in input
    ensures var cmd := a + "\"" + Quote(input) + b + o + c;
      OccursAt(cmd, input, |a| + 2) && forall j | |a| + 2 <= j < |a| + 2 + |input| :: OutsideQuotes(cmd, j)
  {
    var p := a + "\"" + "\"";
    var cmd := p + input + ("\"" + b + o + c);
    assert a + "\"" + Quote(input) + b + o + c == cmd;
    QuoteCountNone(a);
    QuoteCountAppend(a, "\"");
    QuoteCountAppend(a + "\"", "\"");
    OutsideAfter(p, input, "\"" + b + o + c);
  }

  /** A template with bare placeholders: every character of either path lies inside the worker's quotes. */
  lemma BareFieldsQuote(a: string, b: string, input: string, output: string)
    requires '{' !in a && '"' !in a && '{' !in b && '"' !in b
    requires a != [] && !IsSpace(a[0])
    requires '{' !in input && '"' !in input && '"' !in output
    ensures var cmd := BuildCommand(a + FilePathField + b + OutputFileField, input, output);
      var i := |a| + 1;
      var j := i + |input| + 1 + |b| + 1;
      OccursAt(cmd, input, i) && (forall m | i <= m < i + |input| :: InsideQuotes(cmd, m))
      && OccursAt(cmd, output, j) && (forall m | j <= m < j + |output| :: InsideQuotes(cmd, m))
  {
    assert a + FilePathField + b + OutputFileField + [] == a + FilePathField + b + OutputFileField;
    CommandOfTwoFields(a, b, [], input, output);
    assert a + Quote(input) + b + Quote(output) + [] == a + Quote(input) + b + Quote(output);
    BareFieldsPositions(a, b, input, output);
  }

  /** Where the two paths land when the worker's quotes are the only ones. */
  lemma BareFieldsPositions(a: string, b: string, input: string, output: string)
    requires '"' !in a && '"' !in b && '"' !in input && '"' !in output
    ensures var cmd := a + Quote(input) + b + Quote(output);
      var i := |a| + 1;
      var j := i + |input| + 1 + |b| + 1;
      OccursAt(cmd, input, i) && (forall m | i <= m < i + |input| :: InsideQuotes(cmd, m))
      && OccursAt(cmd, output, j) && (forall m | j <= m < j + |output| :: InsideQuotes(cmd, m))
  {
    var p1 := a + "\"";
    var p2 := p1 + input + "\"" + b + "\"";
    assert a + Quote(input) + b + Quote(output) == p1 + input + ("\"" + b + Quote(output));
    assert a + Quote(input) + b + Quote(output) == p2 + output + "\"";
    BareFieldsQuoteCounts(a, b, input);
    InsideAfter(p1, input, "\"" + b + Quote(output));
    InsideAfter(p2, output, "\"");
  }

  lemma BareFieldsQuoteCounts(a: string, b: string, input: string)
    requires '"' !in a && '"' !in b && '"' !in input
    ensures QuoteCount(a + "\"") == 1
    ensures QuoteCount(a + "\"" + input + "\"" + b + "\"") == 3
  {
    var p1 := a + "\"";
    QuoteCountNone(a);
    QuoteCountNone(b);
    QuoteCountNone(input);
    QuoteCountAppend(a, "\"");
    QuoteCountAppend(p1, input);
    QuoteCountAppend(p1 + input, "\"");
    QuoteCountAppend(p1 + input + "\"", b);
    QuoteCountAppend(p1 + input + "\"" + b, "\"");
  }

  /**
   * As written, the default template quotes each placeholder and the worker
   * quotes each path again: every character of the input path lies outside
   * quotes, so the shell splits the path at its spaces.
   */
  lemma DefaultTemplateUnquotesInput(template: string, input: string, output: string)
    requires template == DefaultTemplateAsWritten
    requires '{' !in input && '"' !in input
    ensures var cmd := BuildCommand(template, input, output);
      var i := |InputFlag| + 2;
      OccursAt(cmd, input, i) && forall j | i <= j < i + |input| :: OutsideQuotes(cmd, j)
  {
    InputFlagPlain();
    MiddleFlagsPlain();
    QuotedFieldsUnquote(InputFlag, MiddleFlags, input, output);
  }

  /** With the corrected default template every character of either path lies inside quotes. */
  lemma DefaultTemplateQuotesPaths(template: string, input: string, output: string)
    requires template == DefaultTemplate
    requires '{' !in input && '"' !in input && '"' !in output
    ensures var cmd := BuildCommand(template, input, output);
      var i := |InputFlag| + 1;
      var j := i + |input| + 1 + |MiddleFlags| + 1;
      OccursAt(cmd, input, i) && (forall m | i <= m < i + |input| :: InsideQuotes(cmd, m))
      && OccursAt(cmd, output, j) && (forall m | j <= m < j + |output| :: InsideQuotes(cmd, m))
  {
    InputFlagPlain();
    MiddleFlagsPlain();
    BareFieldsQuote(InputFlag, MiddleFlags, input, output);
  }
}
