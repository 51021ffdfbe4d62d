/** A reader of one exported line that follows the quoting rules of RFC 4180, section 2:
    a field in double quotes runs to the first quote that is not doubled, a doubled quote
    inside it stands for one quote, and fields are separated by commas. It is the reader the
    collection import needs to get back what the export writes. */
module CsvRecord {
  import opened Csv

  /** The rest of a quoted field after its opening quote: the field's value, and the text
      after the closing quote. A field without a closing quote takes the rest of the line. */
  function QuotedBody(s: string): (r: (string, string))
    ensures |r.1| <= |s|
  {
    if s == [] then ([], [])
    else if s[0] == '"' then
      if |s| >= 2 && s[1] == '"' then
        var (v, rest) := QuotedBody(s[2..]);
        (['"'] + v, rest)
      else ([], s[1..])
    else
      var (v, rest) := QuotedBody(s[1..]);
      ([s[0]] + v, rest)
  }

  /** An unquoted field: everything up to the next comma. */
  function PlainField(s: string): (r: (string, string))
    ensures |r.1| <= |s|
  {
    if s == [] || s[0] == ',' then ([], s)
    else
      var (v, rest) := PlainField(s[1..]);
      ([s[0]] + v, rest)
  }

  /** The fields of one line, left to right. After a closing quote the next field starts
      only at a comma that follows at once; any other character ends the row there, and the
      rest of the line, later fields included, is dropped. */
  function ParseRow(s: string): (r: seq<string>)
    ensures |r| >= 1
    decreases |s|
  {
    var (f, rest) := if s != [] && s[0] == '"' then QuotedBody(s[1..]) else PlainField(s);
    if rest != [] && rest[0] == ',' then [f] + ParseRow(rest[1..]) else [f]
  }

  /** The escaped text of a field, its closing quote and anything not starting with a quote:
      the reader takes back the field's text and stops right after the closing quote. */
  lemma {:induction false} QuotedBodyEscaped(g: string, t: string)
    requires t == [] || t[0] != '"'
    ensures QuotedBody(Escape(g) + ['"'] + t) == (g, t)
  {
    var s := Escape(g) + ['"'] + t;
    if g == [] {
      assert s == ['"'] + t;
      assert s[1..] == t;
    } else {
      var v := Escape(g[1..]) + ['"'] + t;
      QuotedBodyEscaped(g[1..], t);
      EscapeCons(g);
      assert s == EscapeChar(g[0]) + v;
      assert g == [g[0]] + g[1..];
      if g[0] == '"' {
        assert s[0] == '"' && s[1] == '"' && s[2..] == v;
        assert QuotedBody(s) == (['"'] + g[1..], t);
      } else {
        assert s[0] == g[0] && s[1..] == v;
        assert QuotedBody(s) == ([g[0]] + g[1..], t);
      }
    }
  }

  /** Reading an exported line gives back exactly the fields written, whatever they hold. */
  lemma {:induction false} ParseRowRoundTrip(fs: seq<string>)
    requires |fs| >= 1
    ensures ParseRow(Row(fs)) == fs
  {
    var s := Row(fs);
    if |fs| == 1 {
      assert s == Quote(fs[0]);
      assert s[1..] == Escape(fs[0]) + ['"'] + [];
      QuotedBodyEscaped(fs[0], []);
    } else {
      var tail := "," + Row(fs[1..]);
      RowCons(fs);
      assert s[1..] == Escape(fs[0]) + ['"'] + tail;
      QuotedBodyEscaped(fs[0], tail);
      assert tail[1..] == Row(fs[1..]);
      ParseRowRoundTrip(fs[1..]);
    }
  }
}
