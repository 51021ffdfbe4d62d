/** Exporting a collection (App.tsx:512-525) and importing the file again (App.tsx:541-576):
    what the import as written gets back, and what it gets back with a reader that follows
    the export's own quoting. */
module RoundTrip {
  import opened Wrappers
  import opened Types
  import opened Text
  import opened Csv
  import opened Json
  import opened Export
  import opened Import
  import opened CsvRecord

  // ---- the data lines of an exported document -----------------------------------------

  lemma RowStartsWithQuote(fs: seq<string>)
    requires |fs| >= 1
    ensures |Row(fs)| >= 1 && Row(fs)[0] == '"'
  {
    var qf := QuoteAll(fs);
    JoinHead(qf, ",");
    assert qf[0] == Quote(fs[0]);
    assert Quote(fs[0])[0] == '"';
  }

  /** The import reads one data line per exported question: the question's own line. */
  lemma DocumentDataLines(qs: seq<Question>)
    requires forall i :: 0 <= i < |qs| ==> OneLine(qs[i])
    ensures DataLines(Document(qs)) == Lines(qs)[1..]
  {
    DocumentLines(qs);
    MarkedRowNotBlank(Header);
    var rows := Lines(qs)[1..];
    forall i | 0 <= i < |rows| ensures !IsBlank(rows[i]) {
      RowLineNotBlank(qs[i]);
    }
    NonBlankCons([Bom] + Row(Header), Lines(qs)[1..]);
  }

  lemma MarkedRowNotBlank(fs: seq<string>)
    requires |fs| >= 1
    ensures !IsBlank([Bom] + Row(fs))
  {
    RowStartsWithQuote(fs);
    assert ([Bom] + Row(fs))[1] == '"';
  }

  lemma RowLineNotBlank(q: Question)
    ensures !IsBlank(RowLine(q))
  {
    RowStartsWithQuote(RowFields(q));
    assert RowLine(q)[0] == '"';
  }

  lemma NonBlankCons(h: string, rows: seq<string>)
    requires !IsBlank(h)
    requires forall i :: 0 <= i < |rows| ==> !IsBlank(rows[i])
    ensures NonBlank([h] + rows) == [h] + rows
  {
    var ls := [h] + rows;
    assert forall i :: 0 <= i < |ls| ==> !IsBlank(ls[i]) by {
      forall i | 0 <= i < |ls| ensures !IsBlank(ls[i]) {
        if i > 0 {
          assert ls[i] == rows[i - 1];
        }
      }
    }
    NonBlankKeepsAll(ls);
  }

  // ---- rebuilding a question from its exported fields -----------------------------------

  /** The collection with every question under the id the import gives it. */
  function Renamed(qs: seq<Question>, clock: nat -> nat): (r: seq<Question>)
    ensures |r| == |qs|
  {
    seq(|qs|, i requires 0 <= i < |qs| => qs[i].(id := ImportId(clock(i), i)))
  }

  /** A question the import can rebuild from its seven exported fields: it fits on one line,
      its chapter is not 0 (read back as 1), its texts are not empty (read back as the
      fall-backs), and its correct answers are a non-empty list of comma-free ids (they are
      joined with commas and split again). */
  predicate Rebuildable(q: Question)
  {
    && OneLine(q)
    && q.chapter != 0
    && q.topic != "" && q.question != "" && q.explanation != ""
    && q.correctAnswers != []
    && forall k :: 0 <= k < |q.correctAnswers| ==> ',' !in q.correctAnswers[k]
  }

  /** Given its exported fields and a `JSON.parse` that reads the options back, a rebuildable
      question comes back with only its id changed. */
  lemma DecodeExported(q: Question, index: nat, stamp: nat, parse: Parser)
    requires Rebuildable(q)
    requires parse(Stringify(q.options)) == Ok(q.options)
    ensures DecodeFields(RowFields(q), index, stamp, parse) == Parsed(q.(id := ImportId(stamp, index)))
  {
    var fs := RowFields(q);
    assert OptionsText(fs[4]) == Stringify(q.options) by {
      assert Stringify(q.options)[0] == '[';
    }
    assert Chapter(fs[0]) == q.chapter by {
      ParseIntText(q.chapter);
    }
    assert Split(fs[5], ',') == q.correctAnswers by {
      SplitJoin(q.correctAnswers, ',');
    }
    assert (fs[2] == "SINGLE") == (q.kind == SINGLE);
    assert OrDefault(fs[1], DefaultTopic) == q.topic;
    assert OrDefault(fs[3], DefaultQuestion) == q.question;
    assert OrDefault(fs[6], DefaultExplanation) == q.explanation;
  }

  /** The filter keeps every question when every line yields one. */
  lemma {:induction false} CollectAll(rs: seq<RowResult>, from: nat)
    requires from <= |rs|
    requires forall i :: from <= i < |rs| ==> rs[i].Parsed?
    ensures Collect(rs, from).Ok?
    ensures |Collect(rs, from).value| == |rs| - from
    ensures forall j :: 0 <= j < |rs| - from ==> Collect(rs, from).value[j] == rs[from + j].q
    decreases |rs| - from
  {
    if from < |rs| {
      CollectAll(rs, from + 1);
      var rest := Collect(rs, from + 1).value;
      assert Collect(rs, from).value == [rs[from].q] + rest;
    }
  }

  /** When every data line yields its question back, the import hands over the renamed
      collection, or reports nothing found for an empty one. */
  lemma ImportEveryLine(read: Reader, qs: seq<Question>, clock: nat -> nat, parse: Parser)
    requires forall i :: 0 <= i < |qs| ==> OneLine(qs[i])
    requires forall i :: 0 <= i < |qs| ==>
      DecodeFields(read(RowLine(qs[i])), i, clock(i), parse) == Parsed(qs[i].(id := ImportId(clock(i), i)))
    ensures ImportWith(read, Document(qs), clock, parse)
      == if qs == [] then NothingFound else Imported(Renamed(qs, clock))
  {
    DocumentDataLines(qs);
    var ls := DataLines(Document(qs));
    var rs := MapLines(read, ls, clock, parse);
    forall i | 0 <= i < |rs| ensures rs[i].Parsed? && rs[i].q == Renamed(qs, clock)[i] {
      assert ls[i] == RowLine(qs[i]);
    }
    CollectAll(rs, 0);
    assert Collect(rs, 0).value == Renamed(qs, clock);
  }

  // ---- the import as written ------------------------------------------------------------

  /** A text without quotes or line terminators is read back whole. */
  lemma SafePlain(s: string)
    requires '"' !in s && NoLineTerminator(s)
    ensures Safe(s)
  {
    forall k | 0 <= k < |s| ensures !ClosesEarly(s, k) {
      assert s[k] in s;
    }
  }

  lemma IntTextSafe(i: int)
    ensures Safe(IntText(i))
  {
    var d := Decimal(if i < 0 then -i else i);
    assert forall k :: 0 <= k < |d| ==> d[k] != '"' && !IsLineTerminator(d[k]);
    var s := IntText(i);
    assert forall k :: 0 <= k < |s| ==> s[k] != '"' && !IsLineTerminator(s[k]) by {
      if i < 0 {
        forall k | 0 <= k < |s| ensures s[k] != '"' && !IsLineTerminator(s[k]) {
          if k > 0 {
            assert s[k] == d[k - 1];
          }
        }
      }
    }
    SafePlain(s);
  }

  lemma KindNameSafe(k: QuestionType)
    ensures Safe(KindName(k))
  {
    SafePlain(KindName(k));
  }

  /** The regular expression reads these texts of a question back whole. */
  predicate RegexSafe(q: Question)
  {
    Safe(q.topic) && Safe(q.question) && Safe(q.explanation) && Safe(Join(q.correctAnswers, ","))
  }

  /** Without options, a rebuildable question whose texts the regular expression reads back
      whole survives the round trip: the export and the import as written give the collection
      back, each question under its new id, provided `JSON.parse("[]")` gives no options. */
  lemma AsWrittenRoundTrip(qs: seq<Question>, clock: nat -> nat, parse: Parser)
    requires forall i :: 0 <= i < |qs| ==> Rebuildable(qs[i]) && qs[i].options == [] && RegexSafe(qs[i])
    requires parse("[]") == Ok([])
    ensures ImportText(Document(qs), clock, parse)
      == if qs == [] then NothingFound else Imported(Renamed(qs, clock))
  {
    StringifyEmpty();
    SafePlain("[]");
    forall i | 0 <= i < |qs|
      ensures DecodeFields(Fields(RowLine(qs[i])), i, clock(i), parse)
        == Parsed(qs[i].(id := ImportId(clock(i), i)))
    {
      var fs := RowFields(qs[i]);
      IntTextSafe(qs[i].chapter);
      KindNameSafe(qs[i].kind);
      assert forall k :: 0 <= k < |fs| ==> Safe(fs[k]);
      RowRoundTrip(fs);
      DecodeExported(qs[i], i, clock(i), parse);
    }
    ImportEveryLine(Fields, qs, clock, parse);
  }

  /** `JSON.parse` throws on every proper prefix of a serialised option list: the prefix
      never closes the outer bracket. */
  ghost predicate RejectsPrefixes(parse: Parser)
  {
    forall opts: seq<Option>, n: nat :: n < |Stringify(opts)| ==> parse(Stringify(opts)[..n]).Fail?
  }

  /** A question with options, whose topic and question the regular expression reads back
      whole and whose options hold no line terminator. */
  predicate CutProne(q: Question)
  {
    && q.options != []
    && Safe(q.topic) && Safe(q.question)
    && forall i :: 0 <= i < |q.options| ==>
         NoLineTerminator(q.options[i].id) && NoLineTerminator(q.options[i].text)
  }

  lemma OptionsNoLineTerminator(opts: seq<Option>)
    requires forall i :: 0 <= i < |opts| ==> NoLineTerminator(opts[i].id) && NoLineTerminator(opts[i].text)
    ensures NoLineTerminator(Stringify(opts))
  {
    StringifyNoLineBreak(opts);
    forall i | 0 <= i < |opts|
      ensures '\U{2028}' !in opts[i].id && '\U{2028}' !in opts[i].text
      ensures '\U{2029}' !in opts[i].id && '\U{2029}' !in opts[i].text
    {
    }
    StringifyLacks(opts, '\U{2028}');
    StringifyLacks(opts, '\U{2029}');
    var s := Stringify(opts);
    forall k | 0 <= k < |s| ensures !IsLineTerminator(s[k]) {
      assert s[k] in s;
    }
  }

  /** The options column of such a question is cut short: the quote that closes the first
      option's id and the comma after it end the field, so the import reads a proper, non-empty
      prefix of the serialised options. */
  lemma OptionsColumnCut(q: Question)
    requires CutProne(q)
    ensures |Fields(RowLine(q))| > 4
    ensures var f := Fields(RowLine(q))[4];
      var s := Stringify(q.options);
      f != [] && |f| < |s| && f == s[..|f|]
  {
    var fs := RowFields(q);
    var s := Stringify(q.options);
    OptionsNoLineTerminator(q.options);
    IntTextSafe(q.chapter);
    KindNameSafe(q.kind);
    FieldRecovered(fs, 4);
    StringifyQuoteComma(q.options);
    var c := FirstIdClose(q.options);
    assert s[c + 1..][0] == ',';
    assert ClosesEarly(s, c);
    assert FirstCut(s).Some?;
  }

  /** The row of such a question never yields it back, for a `JSON.parse` that rejects
      proper prefixes: it is skipped, or its options text throws. */
  lemma OptionsRowLost(q: Question, index: nat, stamp: nat, parse: Parser)
    requires CutProne(q) && RejectsPrefixes(parse)
    ensures !DecodeRow(RowLine(q), index, stamp, parse).Parsed?
  {
    OptionsColumnCut(q);
    var fs := Fields(RowLine(q));
    if |fs| >= 7 {
      var s := Stringify(q.options);
      assert OptionsText(fs[4]) == s[..|fs[4]|];
      assert parse(s[..|fs[4]|]).Fail?;
    }
  }

  lemma {:induction false} NoSurvivors(rs: seq<RowResult>, from: nat)
    requires from <= |rs|
    requires forall i :: from <= i < |rs| ==> !rs[i].Parsed?
    ensures Survivors(rs, from) == []
    decreases |rs| - from
  {
    if from < |rs| {
      NoSurvivors(rs, from + 1);
    }
  }

  /** Exporting a collection whose every question has options and importing the file back
      never hands a question over: the import is abandoned or finds nothing. */
  lemma ExportImportLosesOptions(qs: seq<Question>, clock: nat -> nat, parse: Parser)
    requires forall i :: 0 <= i < |qs| ==> OneLine(qs[i]) && CutProne(qs[i])
    requires RejectsPrefixes(parse)
    ensures ImportText(Document(qs), clock, parse).Aborted?
         || ImportText(Document(qs), clock, parse).NothingFound?
  {
    DocumentDataLines(qs);
    var ls := DataLines(Document(qs));
    var rs := MapLines(Fields, ls, clock, parse);
    forall i | 0 <= i < |rs| ensures !rs[i].Parsed? {
      assert ls[i] == RowLine(qs[i]);
      OptionsRowLost(qs[i], i, clock(i), parse);
    }
    if Collect(rs, 0).Ok? {
      CollectSurvivors(rs, 0);
      NoSurvivors(rs, 0);
    }
  }

  /** A single-choice question with one option, as the generator writes them. */
  const Sample: Question := Question("q1", "t", SINGLE, "q", [Option("A", "x")], ["A"], "e", 1)

  /** Exporting the collection holding only `Sample` and importing it back does not give
      the question back. */
  lemma SampleLost(clock: nat -> nat, parse: Parser)
    requires RejectsPrefixes(parse)
    ensures !ImportText(Document([Sample]), clock, parse).Imported?
  {
    SafePlain("t");
    SafePlain("q");
    ExportImportLosesOptions([Sample], clock, parse);
  }

  // ---- the import with a reader that follows the export's quoting -----------------------

  /** The import with the RFC 4180 reader of one record in place of the regular expression. */
  function FixedImportText(text: string, clock: nat -> nat, parse: Parser): Outcome
  {
    ImportWith(ParseRow, text, clock, parse)
  }

  /** With that reader, importing an exported collection gives every rebuildable question
      back, in order, under its new id, whatever its texts and options hold, for a
      `JSON.parse` that reads serialised options back. */
  lemma FixedRoundTrip(qs: seq<Question>, clock: nat -> nat, parse: Parser)
    requires forall i :: 0 <= i < |qs| ==> Rebuildable(qs[i])
    requires forall i :: 0 <= i < |qs| ==> parse(Stringify(qs[i].options)) == Ok(qs[i].options)
    ensures FixedImportText(Document(qs), clock, parse)
      == if qs == [] then NothingFound else Imported(Renamed(qs, clock))
  {
    forall i | 0 <= i < |qs|
      ensures DecodeFields(ParseRow(RowLine(qs[i])), i, clock(i), parse)
        == Parsed(qs[i].(id := ImportId(clock(i), i)))
    {
      ParseRowRoundTrip(RowFields(qs[i]));
      DecodeExported(qs[i], i, clock(i), parse);
    }
    ImportEveryLine(ParseRow, qs, clock, parse);
  }

  lemma SampleRebuildable()
    ensures Rebuildable(Sample)
  {
  }

  /** The fixed import gives `Sample` back under its new id. */
  lemma SampleKept(clock: nat -> nat, parse: Parser)
    requires parse(Stringify(Sample.options)) == Ok(Sample.options)
    ensures FixedImportText(Document([Sample]), clock, parse) == Imported(Renamed([Sample], clock))
  {
    SampleRebuildable();
    FixedRoundTrip([Sample], clock, parse);
  }
}
