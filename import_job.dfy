/** The one-off quote import: the file text is split into lines, empty
    lines are dropped, each line is split on the author separator, the
    leading ordinal is stripped from the first piece, and one row per line
    (language "en") is added to the table, in file order, before a single
    commit. Opening and reading the file is not modelled: the text is a
    parameter, and so is the separator. */
module ImportJob {
  import opened PyStr
  import opened Models

  /** The language every imported row gets. */
  const ImportLanguage: string := "en"

  /** The separator literal as it is written in the import script: the
      three characters an en-dash's UTF-8 bytes read as in Windows-1252,
      between two spaces. */
  const SourceSeparator: string := " \U{00E2}\U{20AC}\U{201C} "

  /** The separator of the line format the import expects,
      "<number>. <content> – <author>": an en-dash between two spaces. */
  const EnDashSeparator: string := " \U{2013} "

  /** The outcome of parsing the whole file: the rows to add, or the
      `IndexError` raised for the first non-empty line (counted among the
      non-empty lines, from 0) that has no separator. */
  datatype ParseResult = Records(quotes: seq<NewQuote>) | IndexError(line: nat)

  /** `stripe_nums` on the first piece: `text[text.find('.') + 2:]`. It
      always drops at least one character and keeps a suffix of the text. */
  function StripOrdinal(text: string): (r: string)
    ensures |r| <= |text| && r == text[|text| - |r|..]
    ensures text != [] ==> |r| < |text|
  {
    SliceFrom(text, Find(text, ".") + 2)
  }

  /** With its first '.' at index `i`, the text loses everything up to and
      including the character after that '.' (e.g. "12. To be" gives
      "To be"). */
  lemma {:induction false} StripOrdinalAfterDot(text: string, i: nat)
    requires i < |text| && text[i] == '.' && '.' !in text[..i]
    ensures StripOrdinal(text) == if i + 2 <= |text| then text[i + 2..] else []
  {
    assert text == text[..i] + "." + text[i + 1..];
    assert text[..i] + "."[..0] == text[..i];
    IndexOfAfter(text[..i], ".", text[i + 1..], 0);
    assert Find(text, ".") == i;
  }

  /** A numbered piece "<num>. <content>" loses its number, the '.' and
      the space. */
  lemma {:induction false} StripOrdinalNumbered(num: string, content: string)
    requires '.' !in num
    ensures StripOrdinal(num + ". " + content) == content
  {
    var text := num + ". " + content;
    assert text[|num|] == '.' && text[..|num|] == num;
    StripOrdinalAfterDot(text, |num|);
    assert text[|num| + 2..] == content;
  }

  /** Without a '.', `find` gives -1 and only the first character is
      dropped. */
  lemma {:induction false} StripOrdinalNoDot(text: string)
    requires '.' !in text
    ensures StripOrdinal(text) == if text == [] then [] else text[1..]
  {
    MissingCharNotContained(text, ".", 0);
  }

  /** One line: the first piece of the split, with its ordinal stripped, is
      the content; the second piece is the author; further pieces are
      ignored. A line without the separator has no second piece, which the
      source reports as an `IndexError`: here, `None`. When a line yields a
      record is stated by `ParseLineDefined`. */
  function ParseLine(line: string, sep: string): (r: Option<NewQuote>)
    requires |sep| > 0
    ensures r.Some? ==> r.value.language == ImportLanguage
  {
    var pieces := Split(line, sep);
    if |pieces| < 2 then None
    else Some(NewQuote(StripOrdinal(pieces[0]), pieces[1], ImportLanguage))
  }

  /** A line yields a record exactly when it contains the separator, and
      the author of that record never contains the separator. */
  lemma {:induction false} ParseLineDefined(line: string, sep: string)
    requires |sep| > 0
    ensures ParseLine(line, sep).Some? <==> Contains(line, sep)
    ensures ParseLine(line, sep).Some? ==> !Contains(ParseLine(line, sep).value.author, sep)
  {
    SplitMany(line, sep);
    SplitPiecesFree(line, sep);
  }

  /** Where the fields of a parsed line come from: the line is the content
      piece, the separator, the author, and then either nothing or the
      separator and the ignored rest; the content piece runs up to the first
      separator and neither piece contains the separator. */
  lemma {:induction false} ParseLineFields(line: string, sep: string)
    requires |sep| > 0 && Contains(line, sep)
    ensures var ps := Split(line, sep);
            && |ps| >= 2
            && ps[0] == line[..IndexOf(line, sep).value]
            && !Contains(ps[0], sep) && !Contains(ps[1], sep)
            && line == ps[0] + sep + ps[1] + (if |ps| == 2 then [] else sep + Join(ps[2..], sep))
            && ParseLine(line, sep) == Some(NewQuote(StripOrdinal(ps[0]), ps[1], ImportLanguage))
            && (|ps| > 2 ==> !Contains(ps[1] + sep[..|sep| - 1], sep))
  {
    SplitFirstTwo(line, sep);
    SplitPiecesFree(line, sep);
    SplitLeftmost(line, sep);
  }

  /** The result for one more line in front: its record goes first, and an
      error further on moves one line down. */
  function Prepend(q: NewQuote, r: ParseResult): ParseResult
  {
    match r
    case IndexError(i) => IndexError(i + 1)
    case Records(qs) => Records([q] + qs)
  }

  /** The result for a run of `n` lines parsed as `ra` followed by lines
      parsed as `rb`: the first error wins, an error in the second run is
      counted after the `n` lines of the first, and the records are
      concatenated. */
  function Chain(ra: ParseResult, n: nat, rb: ParseResult): ParseResult
  {
    match ra
    case IndexError(i) => IndexError(i)
    case Records(qa) =>
      match rb
      case IndexError(j) => IndexError(n + j)
      case Records(qb) => Records(qa + qb)
  }

  /** Prepending a record commutes with chaining a later run. */
  lemma {:induction false} PrependChain(q: NewQuote, ra: ParseResult, n: nat, rb: ParseResult)
    ensures Prepend(q, Chain(ra, n, rb)) == Chain(Prepend(q, ra), n + 1, rb)
  {
    if ra.Records? && rb.Records? {
      assert [q] + (ra.quotes + rb.quotes) == ([q] + ra.quotes) + rb.quotes;
    }
  }

  /** The per-line results of `map(stripe_nums, ...)`, in line order. */
  function ParseEach(lines: seq<string>, sep: string): (r: seq<Option<NewQuote>>)
    requires |sep| > 0
    ensures |r| == |lines|
  {
    seq(|lines|, k requires 0 <= k < |lines| => ParseLine(lines[k], sep))
  }

  /** `list(...)` over the per-line results: it stops at the first line
      that raised, reporting its position, and otherwise holds one record
      per line. */
  function Collect(parsed: seq<Option<NewQuote>>): (r: ParseResult)
    ensures r.Records? ==> |r.quotes| == |parsed|
    ensures r.IndexError? ==> r.line < |parsed|
  {
    if parsed == [] then Records([])
    else
      match parsed[0]
      case None => IndexError(0)
      case Some(q) => Prepend(q, Collect(parsed[1..]))
  }

  /** Collecting succeeds exactly when every line gave a record. */
  lemma {:induction false} CollectSucceeds(parsed: seq<Option<NewQuote>>)
    ensures Collect(parsed).Records? <==> forall k :: 0 <= k < |parsed| ==> parsed[k].Some?
    decreases |parsed|
  {
    if parsed != [] {
      CollectSucceeds(parsed[1..]);
      forall k | 1 <= k < |parsed| ensures parsed[k] == parsed[1..][k - 1] { }
    }
  }

  /** On success, record k is the record line k gave. */
  lemma {:induction false} CollectRecords(parsed: seq<Option<NewQuote>>)
    requires Collect(parsed).Records?
    ensures forall k :: 0 <= k < |parsed| ==> parsed[k] == Some(Collect(parsed).quotes[k])
    decreases |parsed|
  {
    if parsed != [] {
      var r := Collect(parsed);
      CollectRecords(parsed[1..]);
      assert r == Prepend(parsed[0].value, Collect(parsed[1..]));
      forall k | 1 <= k < |parsed| ensures parsed[k] == Some(r.quotes[k]) {
        assert parsed[k] == parsed[1..][k - 1];
      }
    }
  }

  /** On failure, the reported line is the first one that gave no record. */
  lemma {:induction false} CollectFirstError(parsed: seq<Option<NewQuote>>)
    requires Collect(parsed).IndexError?
    ensures var i := Collect(parsed).line;
            && parsed[i].None?
            && forall k :: 0 <= k < i ==> parsed[k].Some?
    decreases |parsed|
  {
    if parsed[0].Some? {
      CollectFirstError(parsed[1..]);
      var j := Collect(parsed[1..]).line;
      assert parsed[j + 1] == parsed[1..][j];
      forall k | 1 <= k < j + 1 ensures parsed[k].Some? {
        assert parsed[k] == parsed[1..][k - 1];
      }
    }
  }

  /** Parsing the lines of `a + b` one by one is parsing those of `a`,
      then those of `b`. */
  lemma {:induction false} ParseEachAppend(a: seq<string>, b: seq<string>, sep: string)
    requires |sep| > 0
    ensures ParseEach(a + b, sep) == ParseEach(a, sep) + ParseEach(b, sep)
  {
    var l, r := ParseEach(a + b, sep), ParseEach(a, sep) + ParseEach(b, sep);
    forall k | 0 <= k < |l| ensures l[k] == r[k] {
      if k < |a| {
        assert (a + b)[k] == a[k];
      } else {
        assert (a + b)[k] == b[k - |a|];
      }
    }
  }

  /** Collecting two runs of results is collecting each in turn. */
  lemma {:induction false} CollectAppend(a: seq<Option<NewQuote>>, b: seq<Option<NewQuote>>)
    ensures Collect(a + b) == Chain(Collect(a), |a|, Collect(b))
    decreases |a|
  {
    if a == [] {
      assert a + b == b;
    } else {
      assert (a + b)[0] == a[0];
      match a[0]
      case None =>
      case Some(q) =>
        calc {
          Collect(a + b);
        == { assert (a + b)[1..] == a[1..] + b; }
          Prepend(q, Collect(a[1..] + b));
        == { CollectAppend(a[1..], b); }
          Prepend(q, Chain(Collect(a[1..]), |a| - 1, Collect(b)));
        == { PrependChain(q, Collect(a[1..]), |a| - 1, Collect(b)); }
          Chain(Collect(a), |a|, Collect(b));
        }
    }
  }

  /** The non-empty lines, parsed in order. Python evaluates the whole
      `map(stripe_nums, ...)` before the first row is added, so one bad line
      stops the import before anything is written. */
  function ParseLines(lines: seq<string>, sep: string): (r: ParseResult)
    requires |sep| > 0
    ensures r.Records? ==> |r.quotes| == |lines|
    ensures r.IndexError? ==> r.line < |lines|
  {
    Collect(ParseEach(lines, sep))
  }

  /** Parsing succeeds exactly when every line has the separator. */
  lemma {:induction false} ParseLinesSucceeds(lines: seq<string>, sep: string)
    requires |sep| > 0
    ensures ParseLines(lines, sep).Records? <==> forall k :: 0 <= k < |lines| ==> Contains(lines[k], sep)
  {
    var parsed := ParseEach(lines, sep);
    CollectSucceeds(parsed);
    forall k | 0 <= k < |lines| ensures parsed[k].Some? <==> Contains(lines[k], sep) {
      ParseLineDefined(lines[k], sep);
    }
  }

  /** On success, record k is the parse of line k: one record per line, in
      line order. */
  lemma {:induction false} ParseLinesRecords(lines: seq<string>, sep: string)
    requires |sep| > 0 && ParseLines(lines, sep).Records?
    ensures forall k :: 0 <= k < |lines| ==> ParseLine(lines[k], sep) == Some(ParseLines(lines, sep).quotes[k])
  {
    CollectRecords(ParseEach(lines, sep));
  }

  /** On failure, the reported line is the first one without the
      separator. */
  lemma {:induction false} ParseLinesFirstError(lines: seq<string>, sep: string)
    requires |sep| > 0 && ParseLines(lines, sep).IndexError?
    ensures var i := ParseLines(lines, sep).line;
            && !Contains(lines[i], sep)
            && forall k :: 0 <= k < i ==> Contains(lines[k], sep)
  {
    var parsed := ParseEach(lines, sep);
    CollectFirstError(parsed);
    forall k | 0 <= k < |lines| ensures parsed[k].Some? <==> Contains(lines[k], sep) {
      ParseLineDefined(lines[k], sep);
    }
  }

  /** The lines of the file that survive `split('\n')` and the empty-string
      filter. */
  function Lines(text: string): (r: seq<string>)
    ensures forall k :: 0 <= k < |r| ==> r[k] != []
  {
    NonEmpty(Split(text, "\n"))
  }

  /** The whole parsing pipeline of the import. */
  function ParseFile(text: string, sep: string): (r: ParseResult)
    requires |sep| > 0
    ensures r.Records? ==> |r.quotes| == |Lines(text)|
    ensures r.Records? ==> forall k :: 0 <= k < |r.quotes| ==> r.quotes[k].language == ImportLanguage
  {
    var r := ParseLines(Lines(text), sep);
    if r.Records? then ParseLinesRecords(Lines(text), sep); r else r
  }

  /** Parsing two runs of lines is parsing each in turn: the records keep
      the order of their lines, and an error in the second run is reported
      at its position after the first. */
  lemma {:induction false} ParseLinesAppend(a: seq<string>, b: seq<string>, sep: string)
    requires |sep| > 0
    ensures ParseLines(a + b, sep) == Chain(ParseLines(a, sep), |a|, ParseLines(b, sep))
  {
    ParseEachAppend(a, b, sep);
    CollectAppend(ParseEach(a, sep), ParseEach(b, sep));
  }

  /** The lines of `a + "\n" + b` are the lines of `a` followed by those of
      `b`. */
  lemma {:induction false} LinesConcat(a: string, b: string)
    ensures Lines(a + "\n" + b) == Lines(a) + Lines(b)
  {
    SplitConcat(a, "\n", b);
    NonEmptyAppend(Split(a, "\n"), Split(b, "\n"));
  }

  /** The records of a file are the records of its first part followed by
      those of the rest, in file order. */
  lemma {:induction false} ParseFileConcat(a: string, b: string, sep: string)
    requires |sep| > 0
    requires ParseFile(a, sep).Records? && ParseFile(b, sep).Records?
    ensures ParseFile(a + "\n" + b, sep) == Records(ParseFile(a, sep).quotes + ParseFile(b, sep).quotes)
  {
    LinesConcat(a, b);
    ParseLinesAppend(Lines(a), Lines(b), sep);
  }

  /** An empty line produces no record: inserting one between two parts of
      the file changes nothing. */
  lemma {:induction false} BlankLineIgnored(a: string, b: string, sep: string)
    requires |sep| > 0
    ensures ParseFile(a + "\n\n" + b, sep) == ParseFile(a + "\n" + b, sep)
  {
    assert a + "\n\n" + b == a + "\n" + ("\n" + b);
    assert "\n" + b == [] + "\n" + b;
    LinesConcat(a, "\n" + b);
    LinesConcat([], b);
    LinesConcat(a, b);
    assert Lines([]) == [] by {
      assert Split([], "\n") == [[]];
    }
  }

  /** A file of one line, made of a first piece, the separator and an
      author, gives one row. */
  lemma {:induction false} SingleLineParses(head: string, sep: string, author: string, k: nat)
    requires k < |sep| && sep[k] !in head + sep[..k] && sep[k] !in author
    requires '\n' !in head + sep + author
    ensures ParseFile(head + sep + author, sep) == Records([NewQuote(StripOrdinal(head), author, ImportLanguage)])
  {
    var line := head + sep + author;
    assert Lines(line) == [line] by {
      SplitWhole(line, "\n", 0);
    }
    SplitInTwo(head, sep, author, k);
    assert [line][1..] == [];
  }

  /** A sample line in the expected format: the line "12. To be or not to be – Shakespeare"
      gives content "To be or not to be", author "Shakespeare", language
      "en". */
  lemma {:induction false} SampleLineParses(line: string, sep: string)
    requires sep == EnDashSeparator
    requires line == "12" + ". " + "To be or not to be" + sep + "Shakespeare"
    ensures ParseFile(line, sep) == Records([NewQuote("To be or not to be", "Shakespeare", "en")])
  {
    var num, content, author := "12", "To be or not to be", "Shakespeare";
    var head := num + ". " + content;
    assert head + sep[..1] == head + " ";
    SingleLineParses(head, sep, author, 1);
    StripOrdinalNumbered(num, content);
  }

  /** The separator overlaps itself (it starts and ends with a space), and
      the split takes the leftmost occurrence: "a – – b" splits into "a"
      and "– b", not into "a –" and "b". */
  lemma {:induction false} OverlappingSeparatorSplit(s: string, sep: string)
    requires sep == EnDashSeparator
    requires s == "a" + sep + "\U{2013} b"
    ensures Split(s, sep) == ["a", "\U{2013} b"]
  {
    var rest := "\U{2013} b";
    assert sep[1] !in "a" + sep[..1];
    IndexOfAfter("a", sep, rest, 1);
    SplitAt(s, sep, 1);
    assert s[..1] == "a" && s[1 + |sep|..] == rest;
    assert !Contains(rest, sep) by {
      forall i | 0 <= i <= |rest| ensures !OccursAt(rest, sep, i) {
        if i + |sep| <= |rest| {
          assert rest[i..i + |sep|][0] != sep[0];
        }
      }
    }
    IndexOfFirst(rest, sep);
  }

  /** With the separator literal as written in the script, the same line in
      the expected format (a real en-dash) has no second piece, so the
      import stops with an `IndexError` on its first line. */
  lemma {:induction false} SampleLineRejectedBySourceSeparator(line: string, sep: string)
    requires sep == SourceSeparator
    requires line == "12" + ". " + "To be or not to be" + EnDashSeparator + "Shakespeare"
    ensures ParseFile(line, sep) == IndexError(0)
  {
    assert Lines(line) == [line] by {
      SplitWhole(line, "\n", 0);
    }
    MissingCharNotContained(line, sep, 2);
    ParseLineDefined(line, sep);
  }

  /** The import: parse the whole file, then add one row per record in file
      order and commit. When parsing fails the table is not touched. */
  method ImportQuotes(db: QuoteStore, text: string, sep: string) returns (r: ParseResult)
    requires |sep| > 0
    requires db.Valid()
    modifies db
    ensures db.Valid()
    ensures r == ParseFile(text, sep)
    ensures r.Records? ==> db.quotes == old(db.quotes) + Stamped(r.quotes, old(db.nextId))
    ensures r.Records? ==> db.nextId == old(db.nextId) + |r.quotes|
    ensures r.IndexError? ==> db.quotes == old(db.quotes) && db.nextId == old(db.nextId)
  {
    r := ParseFile(text, sep);
    if r.IndexError? {
      return;
    }
    var added := db.InsertAll(r.quotes);
  }
}
