/** `JSON.stringify` of an option list, as the collection export writes the options column
    (App.tsx:521). The options are plain `{id, text}` records, so the serialiser only ever
    writes strings, objects and one array. */
module Json {
  import opened Types
  import opened Text

  function HexDigit(d: nat): (r: char)
    requires d < 16
    ensures r < '\U{0080}'
  {
    "0123456789abcdef"[d]
  }

  /** How `JSON.stringify` writes one character inside a string literal: the quote, the
      backslash and the control characters are escaped, everything else is kept. */
  function EscapeJsonChar(c: char): (r: string)
    ensures |r| >= 1
    ensures r != [c] ==> r[0] == '\\'
    ensures '\n' !in r && '\r' !in r
  {
    if c == '"' then ['\\', '"']
    else if c == '\\' then ['\\', '\\']
    else if c == '\U{0008}' then ['\\', 'b']
    else if c == '\U{000C}' then ['\\', 'f']
    else if c == '\n' then ['\\', 'n']
    else if c == '\r' then ['\\', 'r']
    else if c == '\t' then ['\\', 't']
    else if c < ' ' then ['\\', 'u', '0', '0', HexDigit(c as int / 16), HexDigit(c as int % 16)]
    else [c]
  }

  function EscapeJsonText(s: string): (r: string)
    ensures |r| >= |s|
    ensures NoLineBreak(r)
  {
    if s == [] then []
    else
      var head := EscapeJsonChar(s[0]);
      var tail := EscapeJsonText(s[1..]);
      assert forall i :: 0 <= i < |head| ==> head[i] != '\n' && head[i] != '\r';
      head + tail
  }

  /** A JSON string literal. */
  function JsonString(s: string): string
  {
    ['"'] + EscapeJsonText(s) + ['"']
  }

  /** `JSON.stringify(o)` for one option: the keys in declaration order. */
  function ObjectText(o: Option): string
  {
    "{\"id\":" + JsonString(o.id) + ",\"text\":" + JsonString(o.text) + "}"
  }

  function ObjectTexts(opts: seq<Option>): (r: seq<string>)
    ensures |r| == |opts|
  {
    seq(|opts|, i requires 0 <= i < |opts| => ObjectText(opts[i]))
  }

  /** `JSON.stringify(options)`: the objects, comma-separated, in brackets. */
  function Stringify(opts: seq<Option>): string
  {
    "[" + Join(ObjectTexts(opts), ",") + "]"
  }

  /** The serialised list never holds a line feed or a carriage return: both are escaped. */
  lemma StringifyNoLineBreak(opts: seq<Option>)
    ensures NoLineBreak(Stringify(opts))
  {
    var objs := ObjectTexts(opts);
    forall i | 0 <= i < |objs| ensures NoLineBreak(objs[i]) {
      ObjectNoLineBreak(opts[i]);
    }
    JoinNoLineBreak(objs, ",");
  }

  lemma ObjectNoLineBreak(o: Option)
    ensures NoLineBreak(ObjectText(o))
  {
    JsonStringNoLineBreak(o.id);
    JsonStringNoLineBreak(o.text);
    AppendNoLineBreak("{\"id\":", JsonString(o.id));
    AppendNoLineBreak("{\"id\":" + JsonString(o.id), ",\"text\":");
    AppendNoLineBreak("{\"id\":" + JsonString(o.id) + ",\"text\":", JsonString(o.text));
    AppendNoLineBreak("{\"id\":" + JsonString(o.id) + ",\"text\":" + JsonString(o.text), "}");
  }

  lemma JsonStringNoLineBreak(s: string)
    ensures NoLineBreak(JsonString(s))
  {
    AppendNoLineBreak(['"'], EscapeJsonText(s));
    AppendNoLineBreak(['"'] + EscapeJsonText(s), ['"']);
  }

  /** A character outside ASCII that no id or text of the options holds is not in the
      serialised list either: the escapes only ever add ASCII characters. */
  lemma StringifyLacks(opts: seq<Option>, c: char)
    requires c >= '\U{0080}'
    requires forall i :: 0 <= i < |opts| ==> c !in opts[i].id && c !in opts[i].text
    ensures c !in Stringify(opts)
  {
    var objs := ObjectTexts(opts);
    forall i | 0 <= i < |objs| ensures c !in objs[i] {
      ObjectLacks(opts[i], c);
    }
    JoinLacks(objs, ",", c);
    var j := Join(objs, ",");
    assert Stringify(opts) == "[" + j + "]";
  }

  lemma ObjectLacks(o: Option, c: char)
    requires c >= '\U{0080}' && c !in o.id && c !in o.text
    ensures c !in ObjectText(o)
  {
    EscapeJsonLacks(o.id, c);
    EscapeJsonLacks(o.text, c);
    var a, b := JsonString(o.id), JsonString(o.text);
    assert c !in a && c !in b;
    assert ObjectText(o) == "{\"id\":" + a + ",\"text\":" + b + "}";
  }

  lemma {:induction false} EscapeJsonLacks(s: string, c: char)
    requires c >= '\U{0080}' && c !in s
    ensures c !in EscapeJsonText(s)
  {
    if s != [] {
      EscapeJsonLacks(s[1..], c);
      assert s[0] != c;
      assert c !in EscapeJsonChar(s[0]);
    }
  }

  /** The empty list is written `[]`. */
  lemma StringifyEmpty()
    ensures Stringify([]) == "[]"
  {
    assert ObjectTexts([]) == [];
  }

  /** Where the first option's id literal closes: `[{"id":"` is eight characters long. */
  function FirstIdClose(opts: seq<Option>): nat
    requires opts != []
  {
    8 + |EscapeJsonText(opts[0].id)|
  }

  /** A non-empty list always has a quote directly followed by a comma: the one closing the
      first option's id, before `,"text":`. */
  lemma StringifyQuoteComma(opts: seq<Option>)
    requires opts != []
    ensures FirstIdClose(opts) + 1 < |Stringify(opts)|
    ensures Stringify(opts)[FirstIdClose(opts)] == '"'
    ensures Stringify(opts)[FirstIdClose(opts) + 1] == ','
  {
    var a := EscapeJsonText(opts[0].id);
    var objs := ObjectTexts(opts);
    var first := objs[0];
    var j := Join(objs, ",");
    ObjectQuoteComma(opts[0]);
    JoinHead(objs, ",");
    IndexLeft(first, j[|first|..], 7 + |a|);
    IndexLeft(first, j[|first|..], 8 + |a|);
    assert j[7 + |a|] == '"' && j[8 + |a|] == ',';
    IndexRight("[", j + "]", 8 + |a|);
    IndexRight("[", j + "]", 9 + |a|);
    IndexLeft(j, "]", 7 + |a|);
    IndexLeft(j, "]", 8 + |a|);
    assert Stringify(opts) == "[" + (j + "]");
  }

  /** `{"id":"` is seven characters long. */
  lemma ObjectQuoteComma(o: Option)
    ensures 8 + |EscapeJsonText(o.id)| < |ObjectText(o)|
    ensures ObjectText(o)[7 + |EscapeJsonText(o.id)|] == '"'
    ensures ObjectText(o)[8 + |EscapeJsonText(o.id)|] == ','
  {
    var a := EscapeJsonText(o.id);
    var js := JsonString(o.id);
    var p := "{\"id\":" + js;
    var q := p + ",\"text\":";
    var r := q + JsonString(o.text);
    assert |js| == |a| + 2;
    IndexRight(['"'] + a, ['"'], 1 + |a|);
    IndexRight("{\"id\":", js, 7 + |a|);
    IndexLeft(p, ",\"text\":", 7 + |a|);
    IndexRight(p, ",\"text\":", 8 + |a|);
    IndexLeft(q, JsonString(o.text), 7 + |a|);
    IndexLeft(q, JsonString(o.text), 8 + |a|);
    IndexLeft(r, "}", 7 + |a|);
    IndexLeft(r, "}", 8 + |a|);
  }

  lemma JoinHead(xs: seq<string>, sep: string)
    requires xs != []
    ensures |Join(xs, sep)| >= |xs[0]|
    ensures Join(xs, sep) == xs[0] + Join(xs, sep)[|xs[0]|..]
  {
  }

  lemma IndexLeft(a: string, b: string, i: nat)
    requires i < |a|
    ensures (a + b)[i] == a[i]
  {
  }

  lemma IndexRight(a: string, b: string, i: nat)
    requires |a| <= i < |a| + |b|
    ensures (a + b)[i] == b[i - |a|]
  {
  }
}
