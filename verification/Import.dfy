/** The collection import (App.tsx:543-576): split the text into lines, drop blank lines and
    the header, read each remaining line with the tokenizer of `Csv`, and build one question
    per line that yields at least seven fields. */
module Import {
  import opened Wrappers
  import opened Types
  import opened Text
  import opened Csv

  const DefaultTopic: string := "未知知识点"
  const DefaultQuestion: string := "空题目"
  const DefaultExplanation: string := "暂无解析"

  /** `JSON.parse` as applied to the options column: a list of options, or a throw. */
  type Parser = string -> Result<seq<Option>>

  /** `lines.filter(line => line.trim() !== "")`. */
  function NonBlank(ls: seq<string>): (r: seq<string>)
    ensures |r| <= |ls|
    ensures forall i :: 0 <= i < |r| ==> !IsBlank(r[i])
    ensures forall i :: 0 <= i < |r| ==> r[i] in ls
    ensures forall l :: l in ls && !IsBlank(l) ==> l in r
  {
    if ls == [] then []
    else
      assert forall l :: l in ls ==> l == ls[0] || l in ls[1..];
      if IsBlank(ls[0]) then NonBlank(ls[1..])
      else [ls[0]] + NonBlank(ls[1..])
  }

  /** The filter keeps the order of the lines: it works piece by piece. */
  lemma {:induction false} NonBlankConcat(a: seq<string>, b: seq<string>)
    ensures NonBlank(a + b) == NonBlank(a) + NonBlank(b)
  {
    if a == [] {
      assert a + b == b;
    } else {
      assert (a + b)[0] == a[0];
      assert (a + b)[1..] == a[1..] + b;
      NonBlankConcat(a[1..], b);
    }
  }

  /** Lines that are not blank all survive the filter, in order. */
  lemma {:induction false} NonBlankKeepsAll(ls: seq<string>)
    requires forall i :: 0 <= i < |ls| ==> !IsBlank(ls[i])
    ensures NonBlank(ls) == ls
  {
    if ls != [] {
      NonBlankKeepsAll(ls[1..]);
      assert [ls[0]] + ls[1..] == ls;
    }
  }

  /** The data lines: the non-blank lines less the first, which is taken for the header
      whatever it holds. */
  function DataLines(text: string): (r: seq<string>)
    ensures forall i :: 0 <= i < |r| ==> !IsBlank(r[i])
    ensures NonBlank(SplitLines(text)) == [] ==> r == []
    ensures NonBlank(SplitLines(text)) != [] ==>
      [NonBlank(SplitLines(text))[0]] + r == NonBlank(SplitLines(text))
  {
    var ls := NonBlank(SplitLines(text));
    if |ls| == 0 then [] else ls[1..]
  }

  /** `import-${Date.now()}-${index}`. */
  function ImportId(stamp: nat, index: nat): string
  {
    "import-" + (Decimal(stamp) + "-" + Decimal(index))
  }

  /** An id names its stamp and its line index. */
  lemma ImportIdInjective(s1: nat, i1: nat, s2: nat, i2: nat)
    requires ImportId(s1, i1) == ImportId(s2, i2)
    ensures s1 == s2 && i1 == i2
  {
    var a, b, c, d := Decimal(s1), Decimal(i1), Decimal(s2), Decimal(i2);
    PrefixCancel("import-", a + "-" + b, c + "-" + d);
    NoDash(s1);
    NoDash(s2);
    DashSplit(a, b, c, d);
    DecimalValue(s1);
    DecimalValue(s2);
    DecimalValue(i1);
    DecimalValue(i2);
  }

  lemma PrefixCancel(p: string, x: string, y: string)
    requires p + x == p + y
    ensures x == y
  {
    assert x == (p + x)[|p|..];
  }

  lemma NoDash(n: nat)
    ensures '-' !in Decimal(n)
  {
    var d := Decimal(n);
    assert forall i :: 0 <= i < |d| ==> d[i] != '-';
  }

  /** A text without `-`, a dash, then anything: the dash marks where the first part ends. */
  lemma DashSplit(a: string, b: string, c: string, d: string)
    requires '-' !in a && '-' !in c
    requires a + "-" + b == c + "-" + d
    ensures a == c && b == d
  {
    var x := a + "-" + b;
    FirstDash(a, b);
    FirstDash(c, d);
    assert |a| == |c|;
    assert a == x[..|a|] == c;
    assert b == x[|a| + 1..] == d;
  }

  lemma FirstDash(a: string, b: string)
    requires '-' !in a
    ensures (a + "-" + b)[|a|] == '-'
    ensures forall k :: 0 <= k < |a| ==> (a + "-" + b)[k] != '-'
  {
    forall k | 0 <= k < |a| ensures (a + "-" + b)[k] != '-' {
      assert (a + "-" + b)[k] == a[k];
    }
  }

  /** `parseInt(chapter) || 1`: `NaN` and `0` both fall back to chapter 1. */
  function Chapter(f: string): (c: int)
    ensures c != 0
    ensures ParseInt(f).Some? && ParseInt(f).value != 0 ==> c == ParseInt(f).value
    ensures ParseInt(f).None? || ParseInt(f).value == 0 ==> c == 1
  {
    match ParseInt(f)
    case None => 1
    case Some(n) => if n == 0 then 1 else n
  }

  /** An empty or digit-free chapter field imports as chapter 1, and a field that starts with
      a non-zero number imports as that number, whatever follows its digits. */
  lemma ChapterFallback(f: string, n: nat, rest: string)
    requires rest == [] || (!IsDecimalDigit(rest[0]) && rest[0] != 'x' && rest[0] != 'X')
    ensures (forall i :: 0 <= i < |f| ==> !IsDecimalDigit(f[i])) ==> Chapter(f) == 1
    ensures Chapter("") == 1
    ensures n != 0 ==> Chapter(Decimal(n) + rest) == n
  {
    if forall i :: 0 <= i < |f| ==> !IsDecimalDigit(f[i]) {
      ParseIntNoDigit(f);
    }
    ParseIntEmpty();
    ParseIntLeadingDigits(n, rest);
  }

  /** `s || fallback` for a string: the empty string is falsy. */
  function OrDefault(s: string, fallback: string): (r: string)
    ensures s != "" ==> r == s
    ensures s == "" ==> r == fallback
  {
    if s == "" then fallback else s
  }

  /** `optionsStr || "[]"`: the text handed to `JSON.parse`. */
  function OptionsText(f: string): string
  {
    OrDefault(f, "[]")
  }

  /** The outcome of mapping one data line: `null` for a short line, a question, or a throw
      from `JSON.parse`. */
  datatype RowResult = Skipped | Parsed(q: Question) | Threw

  /** One data line, at `index` among the data lines, with `stamp` read from the clock. */
  function DecodeRow(line: string, index: nat, stamp: nat, parse: Parser): (r: RowResult)
    ensures r.Skipped? <==> |Fields(line)| < 7
    ensures r.Threw? <==> |Fields(line)| >= 7 && parse(OptionsText(Fields(line)[4])).Fail?
  {
    DecodeFields(Fields(line), index, stamp, parse)
  }

  /** A line that yielded the fields `fs`: skipped when there are fewer than seven, a throw
      when `JSON.parse` rejects the options column, otherwise a question. */
  function DecodeFields(fs: seq<string>, index: nat, stamp: nat, parse: Parser): (r: RowResult)
    ensures r.Skipped? <==> |fs| < 7
    ensures r.Threw? <==> |fs| >= 7 && parse(OptionsText(fs[4])).Fail?
  {
    if |fs| < 7 then Skipped
    else match parse(OptionsText(fs[4]))
      case Fail => Threw
      case Ok(opts) => Parsed(Question(
        id := ImportId(stamp, index),
        topic := OrDefault(fs[1], DefaultTopic),
        kind := if fs[2] == "SINGLE" then SINGLE else MULTIPLE,
        question := OrDefault(fs[3], DefaultQuestion),
        options := opts,
        correctAnswers := Split(fs[5], ','),
        explanation := OrDefault(fs[6], DefaultExplanation),
        chapter := Chapter(fs[0])))
  }

  /** What a question built from a line holds: its fields, or the fixed fall-backs. */
  lemma ParsedFields(fs: seq<string>, index: nat, stamp: nat, parse: Parser)
    requires DecodeFields(fs, index, stamp, parse).Parsed?
    ensures var q := DecodeFields(fs, index, stamp, parse).q;
      && q.id == ImportId(stamp, index)
      && q.chapter != 0
      && (q.kind == SINGLE <==> fs[2] == "SINGLE")
      && q.topic != "" && q.question != "" && q.explanation != ""
      && (fs[1] != "" ==> q.topic == fs[1])
      && (fs[3] != "" ==> q.question == fs[3])
      && (fs[6] != "" ==> q.explanation == fs[6])
      && Ok(q.options) == parse(OptionsText(fs[4]))
      && |q.correctAnswers| >= 1
      && Join(q.correctAnswers, ",") == fs[5]
      && q.chapter == Chapter(fs[0])
      && q.topic == OrDefault(fs[1], DefaultTopic)
      && q.question == OrDefault(fs[3], DefaultQuestion)
      && q.explanation == OrDefault(fs[6], DefaultExplanation)
      && q.correctAnswers == Split(fs[5], ',')
  {
    JoinSplit(fs[5], ',');
  }

  /** How one line is split into fields: the regular expression of App.tsx:548, or another
      reader. */
  type Reader = string -> seq<string>

  /** `dataLines.map(...)`: line `i` is split by `read` and decoded with `clock(i)`, what
      `Date.now()` returns while that line is mapped. */
  function MapLines(read: Reader, lines: seq<string>, clock: nat -> nat, parse: Parser): (r: seq<RowResult>)
    ensures |r| == |lines|
    ensures forall i :: 0 <= i < |lines| ==> r[i] == DecodeFields(read(lines[i]), i, clock(i), parse)
  {
    seq(|lines|, i requires 0 <= i < |lines| => DecodeFields(read(lines[i]), i, clock(i), parse))
  }

  /** `.filter(q => q !== null)` from position `from` on, where a throw while mapping has
      already abandoned the whole import. */
  function Collect(rs: seq<RowResult>, from: nat): Result<seq<Question>>
    requires from <= |rs|
    decreases |rs| - from
  {
    if from == |rs| then Ok([])
    else match rs[from]
      case Threw => Fail
      case Skipped => Collect(rs, from + 1)
      case Parsed(q) =>
        match Collect(rs, from + 1)
        case Fail => Fail
        case Ok(rest) => Ok([q] + rest)
  }

  /** The import is abandoned exactly when some line throws. */
  lemma {:induction false} CollectFails(rs: seq<RowResult>, from: nat)
    requires from <= |rs|
    ensures Collect(rs, from).Fail? <==> exists i :: from <= i < |rs| && rs[i].Threw?
    decreases |rs| - from
  {
    if from < |rs| {
      CollectFails(rs, from + 1);
      if rs[from].Threw? {
        assert from <= from < |rs| && rs[from].Threw?;
      } else {
        forall i | from <= i < |rs| && rs[i].Threw? ensures from + 1 <= i {
        }
      }
    }
  }

  /** The positions of the lines that yield a question, in increasing order. */
  function Survivors(rs: seq<RowResult>, from: nat): (r: seq<nat>)
    requires from <= |rs|
    ensures forall j :: 0 <= j < |r| ==> from <= r[j] < |rs| && rs[r[j]].Parsed?
    ensures forall j, k :: 0 <= j < k < |r| ==> r[j] < r[k]
    ensures forall i :: from <= i < |rs| && rs[i].Parsed? ==> i in r
    decreases |rs| - from
  {
    if from == |rs| then []
    else if rs[from].Parsed? then [from] + Survivors(rs, from + 1)
    else Survivors(rs, from + 1)
  }

  /** When no line throws, the questions are those of the surviving lines, in line order;
      a skipped line contributes nothing and changes nothing else. */
  lemma {:induction false} CollectSurvivors(rs: seq<RowResult>, from: nat)
    requires from <= |rs|
    requires Collect(rs, from).Ok?
    ensures var qs := Collect(rs, from).value;
      var idx := Survivors(rs, from);
      && |qs| == |idx|
      && forall j :: 0 <= j < |qs| ==> qs[j] == rs[idx[j]].q
    decreases |rs| - from
  {
    if from < |rs| {
      CollectSurvivors(rs, from + 1);
      var rest := Collect(rs, from + 1).value;
      var tail := Survivors(rs, from + 1);
      if rs[from].Parsed? {
        var qs := Collect(rs, from).value;
        var idx := Survivors(rs, from);
        assert qs == [rs[from].q] + rest;
        assert idx == [from] + tail;
        forall j | 1 <= j < |qs| ensures qs[j] == rs[idx[j]].q {
          assert qs[j] == rest[j - 1] && idx[j] == tail[j - 1];
        }
      } else {
        assert Collect(rs, from).value == rest;
        assert Survivors(rs, from) == tail;
      }
    }
  }

  /** Two questions of one import never share an id, whatever the clock reads. */
  lemma DistinctIds(read: Reader, lines: seq<string>, clock: nat -> nat, parse: Parser)
    requires Collect(MapLines(read, lines, clock, parse), 0).Ok?
    ensures var qs := Collect(MapLines(read, lines, clock, parse), 0).value;
      forall j, k :: 0 <= j < k < |qs| ==> qs[j].id != qs[k].id
  {
    var rs := MapLines(read, lines, clock, parse);
    var qs := Collect(rs, 0).value;
    var idx := Survivors(rs, 0);
    CollectSurvivors(rs, 0);
    forall j, k | 0 <= j < k < |qs| ensures qs[j].id != qs[k].id {
      var a, b := idx[j], idx[k];
      ParsedFields(read(lines[a]), a, clock(a), parse);
      ParsedFields(read(lines[b]), b, clock(b), parse);
      if qs[j].id == qs[k].id {
        ImportIdInjective(clock(a), a, clock(b), b);
      }
    }
  }

  /** What the user sees: questions handed to `onImport`, the "nothing found" notice, or the
      failure notice after a throw. */
  datatype Outcome = Imported(questions: seq<Question>) | NothingFound | Aborted

  /** `reader.onload` (App.tsx:541-577) on the text of the chosen file, with the line reader
      `read`. */
  function ImportWith(read: Reader, text: string, clock: nat -> nat, parse: Parser): (r: Outcome)
    ensures r.Imported? ==> |r.questions| > 0
  {
    match Collect(MapLines(read, DataLines(text), clock, parse), 0)
    case Fail => Aborted
    case Ok(qs) => if |qs| > 0 then Imported(qs) else NothingFound
  }

  /** The import as written: lines split by the regular expression. */
  function ImportText(text: string, clock: nat -> nat, parse: Parser): Outcome
  {
    ImportWith(Fields, text, clock, parse)
  }

  /** `onImport` is called (with a non-empty list) exactly when no line throws and at least
      one line yields a question; the import is abandoned exactly when some line throws. */
  lemma ImportOutcome(read: Reader, text: string, clock: nat -> nat, parse: Parser)
    ensures var rs := MapLines(read, DataLines(text), clock, parse);
      && (ImportWith(read, text, clock, parse).Aborted? <==> exists i :: 0 <= i < |rs| && rs[i].Threw?)
      && (ImportWith(read, text, clock, parse).Imported? <==>
            Collect(rs, 0).Ok? && |Survivors(rs, 0)| > 0)
  {
    var rs := MapLines(read, DataLines(text), clock, parse);
    CollectFails(rs, 0);
    if Collect(rs, 0).Ok? {
      CollectSurvivors(rs, 0);
    }
  }
}
