/** The collection export (App.tsx:512-525): a header row and one row per collected question,
    every field quoted, rows joined by line feeds after a byte-order mark. */
module Export {
  import opened Wrappers
  import opened Types
  import opened Text
  import opened Csv
  import opened Json

  /** The seven column names of the header row. */
  const Header: seq<string> := ["章节ID", "知识点", "类型", "题目", "选项JSON", "正确答案CSV", "深度解析"]

  const Bom: char := '\U{FEFF}'

  /** What precedes the document in the download link. */
  const UriPrefix: string := "data:text/csv;charset=utf-8,"

  /** The seven field texts of one question, in column order. */
  function RowFields(q: Question): (r: seq<string>)
    ensures |r| == |Header|
    ensures r[2] == KindName(q.kind) && r[4] == Stringify(q.options)
  {
    [IntText(q.chapter), q.topic, KindName(q.kind), q.question, Stringify(q.options),
     Join(q.correctAnswers, ","), q.explanation]
  }

  function RowLine(q: Question): string
  {
    Row(RowFields(q))
  }

  /** The header line followed by one line per question, in collection order. */
  function Lines(qs: seq<Question>): (r: seq<string>)
    ensures |r| == |qs| + 1
    ensures r[0] == Row(Header)
    ensures forall i :: 0 <= i < |qs| ==> r[i + 1] == RowLine(qs[i])
  {
    [Row(Header)] + seq(|qs|, i requires 0 <= i < |qs| => RowLine(qs[i]))
  }

  /** The document the link carries: the byte-order mark, then the lines joined by `\n`. */
  function Document(qs: seq<Question>): string
  {
    [Bom] + Join(Lines(qs), "\n")
  }

  /** `handleExport`: nothing for an empty collection, otherwise the `data:` link text
      before `encodeURI`. */
  function ExportLink(qs: seq<Question>): (r: Maybe<string>)
    ensures r.None? <==> qs == []
  {
    if |qs| == 0 then None else Some(UriPrefix + Document(qs))
  }

  /** The link text is the fixed prefix followed by the document. */
  lemma ExportLinkDocument(qs: seq<Question>)
    requires qs != []
    ensures |ExportLink(qs).value| == |UriPrefix| + |Document(qs)|
    ensures ExportLink(qs).value[..|UriPrefix|] == UriPrefix
    ensures ExportLink(qs).value[|UriPrefix|..] == Document(qs)
    ensures ExportLink(qs).value[|UriPrefix|] == Bom
  {
  }

  /** A question whose texts hold no line break takes exactly one line. */
  predicate OneLine(q: Question) {
    NoLineBreak(q.topic) && NoLineBreak(q.question) && NoLineBreak(q.explanation)
    && forall i :: 0 <= i < |q.correctAnswers| ==> NoLineBreak(q.correctAnswers[i])
  }

  /** Splitting the document as the import does gives back the header line (behind the mark)
      and then one line per question, in order. */
  lemma DocumentLines(qs: seq<Question>)
    requires forall i :: 0 <= i < |qs| ==> OneLine(qs[i])
    ensures SplitLines(Document(qs)) == [[Bom] + Row(Header)] + Lines(qs)[1..]
  {
    var ls := Lines(qs);
    forall i | 0 <= i < |ls| ensures NoLineBreak(ls[i]) {
      if i == 0 {
        HeaderNoLineBreak();
      } else {
        RowLineNoLineBreak(qs[i - 1]);
      }
    }
    SplitLinesJoin(ls);
    SplitLinesCons(Bom, Join(ls, "\n"));
  }

  lemma HeaderNoLineBreak()
    ensures NoLineBreak(Row(Header))
  {
    forall i | 0 <= i < |Header| ensures NoLineBreak(Header[i]) {
    }
    RowNoLineBreak(Header);
  }

  lemma RowLineNoLineBreak(q: Question)
    requires OneLine(q)
    ensures NoLineBreak(RowLine(q))
  {
    var fs := RowFields(q);
    StringifyNoLineBreak(q.options);
    JoinNoLineBreak(q.correctAnswers, ",");
    DecimalNoLineBreak(q.chapter);
    forall i | 0 <= i < |fs| ensures NoLineBreak(fs[i]) {
    }
    RowNoLineBreak(fs);
  }

  lemma DecimalNoLineBreak(i: int)
    ensures NoLineBreak(IntText(i))
  {
    var d := Decimal(if i < 0 then -i else i);
    assert forall k :: 0 <= k < |d| ==> d[k] != '\n' && d[k] != '\r';
    if i < 0 {
      AppendNoLineBreak("-", d);
    }
  }

  /** Quoting keeps a text free of line breaks. */
  lemma RowNoLineBreak(fs: seq<string>)
    requires forall i :: 0 <= i < |fs| ==> NoLineBreak(fs[i])
    ensures NoLineBreak(Row(fs))
  {
    var qf := QuoteAll(fs);
    forall i | 0 <= i < |qf| ensures NoLineBreak(qf[i]) {
      QuoteNoLineBreak(fs[i]);
    }
    JoinNoLineBreak(qf, ",");
  }

  lemma QuoteNoLineBreak(s: string)
    requires NoLineBreak(s)
    ensures NoLineBreak(Quote(s))
  {
    EscapeKeepsChars(s);
    AppendNoLineBreak(['"'], Escape(s));
    AppendNoLineBreak(['"'] + Escape(s), ['"']);
  }

  lemma {:induction false} EscapeKeepsChars(s: string)
    ensures forall c :: c in Escape(s) ==> c == '"' || c in s
  {
    if s != [] {
      EscapeKeepsChars(s[1..]);
      EscapeCons(s);
    }
  }

  /** A leading character that is not a line break stays on the first line. */
  lemma SplitLinesCons(c: char, s: string)
    requires c != '\n' && c != '\r'
    ensures SplitLines([c] + s) == [[c] + SplitLines(s)[0]] + SplitLines(s)[1..]
  {
    assert ([c] + s)[1..] == s;
  }
}
