/** The field quoting of the collection export (App.tsx:525) and the row tokenizer of the
    import (App.tsx:548-549). */
module Csv {
  import opened Wrappers
  import opened Text

  // ---- export: every field in double quotes, each embedded quote doubled ---------------

  function EscapeChar(c: char): string
  {
    if c == '"' then ['"', '"'] else [c]
  }

  /** `String(field).replace(/"/g, '""')`. */
  function Escape(s: string): (r: string)
    ensures |r| >= |s|
  {
    if s == [] then [] else EscapeChar(s[0]) + Escape(s[1..])
  }

  /** One exported field: `"` + escaped text + `"`. */
  function Quote(s: string): string
  {
    ['"'] + Escape(s) + ['"']
  }

  function QuoteAll(fs: seq<string>): (r: seq<string>)
    ensures |r| == |fs|
  {
    seq(|fs|, i requires 0 <= i < |fs| => Quote(fs[i]))
  }

  /** One exported line: the quoted fields joined by `,`. */
  function Row(fs: seq<string>): string
  {
    Join(QuoteAll(fs), ",")
  }

  lemma {:induction false} EscapeAppend(a: string, b: string)
    ensures Escape(a + b) == Escape(a) + Escape(b)
  {
    if a == [] {
      assert a + b == b;
    } else {
      assert (a + b)[0] == a[0];
      assert (a + b)[1..] == a[1..] + b;
      EscapeAppend(a[1..], b);
      calc {
        Escape(a + b);
        EscapeChar(a[0]) + Escape(a[1..] + b);
        EscapeChar(a[0]) + (Escape(a[1..]) + Escape(b));
      }
    }
  }

  lemma RowCons(fs: seq<string>)
    requires |fs| >= 2
    ensures Row(fs) == Quote(fs[0]) + ("," + Row(fs[1..]))
  {
    assert QuoteAll(fs)[1..] == QuoteAll(fs[1..]);
  }

  // ---- import: strip the outer quotes, then turn each `""` into `"` ---------------------

  /** `f.replace(/^"|"$/g, '')`: drops one leading and one trailing quote where present. */
  function StripQuotes(f: string): string
  {
    var g := if |f| > 0 && f[0] == '"' then f[1..] else f;
    if |g| > 0 && g[|g| - 1] == '"' then g[..|g| - 1] else g
  }

  /** `s.replace(/""/g, '"')`: left to right, non-overlapping. */
  function Collapse(s: string): (r: string)
    ensures |r| <= |s|
  {
    if |s| >= 2 && s[0] == '"' && s[1] == '"' then ['"'] + Collapse(s[2..])
    else if s == [] then []
    else [s[0]] + Collapse(s[1..])
  }

  /** The value the import takes from one token (App.tsx:549). */
  function Unquote(f: string): string
  {
    Collapse(StripQuotes(f))
  }

  lemma {:induction false} CollapseEscape(s: string, t: string)
    ensures Collapse(Escape(s) + t) == s + Collapse(t)
  {
    if s == [] {
      assert Escape(s) + t == t;
    } else {
      var v := Escape(s[1..]) + t;
      CollapseEscape(s[1..], t);
      EscapeCons(s);
      AppendAssoc(EscapeChar(s[0]), Escape(s[1..]), t);
      CollapseStep(s[0], v);
      AppendAssoc([s[0]], s[1..], Collapse(t));
      assert [s[0]] + s[1..] == s;
    }
  }

  lemma CollapseStep(c: char, v: string)
    ensures Collapse(EscapeChar(c) + v) == [c] + Collapse(v)
  {
    if c == '"' {
      assert (['"', '"'] + v)[2..] == v;
    } else {
      assert ([c] + v)[1..] == v;
    }
  }

  /** Unquoting an exported field gives back the original text, for every text. */
  lemma UnquoteQuote(s: string)
    ensures Unquote(Quote(s)) == s
  {
    assert StripQuotes(Quote(s)) == Escape(s) + "";
    CollapseEscape(s, "");
  }

  /** A token cut right after a quote of the field unquotes to the field's prefix up to and
      including that quote. */
  lemma UnquoteCut(p: string)
    requires |p| >= 1 && p[|p| - 1] == '"'
    ensures Unquote(['"'] + Escape(p)) == p
  {
    var q := p[..|p| - 1];
    assert p == q + ['"'];
    EscapeAppend(q, ['"']);
    assert Escape(['"']) == ['"', '"'];
    var x := Escape(q);
    assert Escape(p) == x + ['"', '"'];
    var e := x + ['"'];
    WrapShift(x);
    StripBoth(e);
    CollapseEscape(q, ['"']);
  }

  lemma WrapShift(x: string)
    ensures ['"'] + (x + ['"', '"']) == ['"'] + (x + ['"']) + ['"']
  {
  }

  lemma StripBoth(e: string)
    ensures StripQuotes(['"'] + e + ['"']) == e
  {
    var f := ['"'] + e + ['"'];
    assert f[1..] == e + ['"'];
    assert (e + ['"'])[..|e|] == e;
  }

  // ---- the tokenizer: /(".*?"|[^",\s]+)(?=\s*,|\s*$)/g ----------------------------------

  /** The lookahead `(?=\s*,|\s*$)` at the start of `u`: optional white space, then `,` or
      the end of the line. */
  predicate Lookahead(u: string) {
    u == [] || u[0] == ',' || (IsSpace(u[0]) && Lookahead(u[1..]))
  }

  /** A character of the unquoted alternative `[^",\s]`. */
  predicate IsPlain(c: char) {
    c != '"' && c != ',' && !IsSpace(c)
  }

  /** The length of the longest run of `[^",\s]` at the start of `u`. */
  function PlainRun(u: string): (n: nat)
    ensures n <= |u|
    ensures forall k :: 0 <= k < n ==> IsPlain(u[k])
    ensures n < |u| ==> !IsPlain(u[n])
  {
    if u == [] || !IsPlain(u[0]) then 0 else 1 + PlainRun(u[1..])
  }

  /** Where a quote may close the lazy run `".*?"`: `u[k]` is `"` and the lookahead holds
      right after it. */
  predicate ClosesAt(u: string, k: int) {
    0 <= k < |u| && u[k] == '"' && Lookahead(u[k + 1..])
  }

  /** The lazy run `.*?"` after an opening quote: the length up to and including the first
      quote that the lookahead accepts; `.` stops at line terminators. */
  function CloseLen(u: string): (r: Maybe<nat>)
    ensures r.Some? ==> 1 <= r.value <= |u|
  {
    if u == [] || IsLineTerminator(u[0]) then None
    else if u[0] == '"' && Lookahead(u[1..]) then Some(1)
    else match CloseLen(u[1..])
      case None => None
      case Some(m) => Some(m + 1)
  }

  /** The run is lazy: it closes at the first acceptable quote, and it never crosses a line
      terminator; when there is no such quote before a line terminator it fails. */
  lemma {:induction false} CloseLenFirst(u: string)
    ensures CloseLen(u).Some? ==> ClosesAt(u, CloseLen(u).value - 1)
    ensures CloseLen(u).Some? ==> forall k :: 0 <= k < CloseLen(u).value - 1 ==>
      !ClosesAt(u, k) && !IsLineTerminator(u[k])
    ensures CloseLen(u).None? ==> forall k :: ClosesAt(u, k) ==>
      exists j :: 0 <= j < k && IsLineTerminator(u[j])
  {
    if u == [] || IsLineTerminator(u[0]) {
    } else if u[0] == '"' && Lookahead(u[1..]) {
    } else {
      var v := u[1..];
      CloseLenFirst(v);
      forall k | 1 <= k < |u| ensures ClosesAt(u, k) == ClosesAt(v, k - 1) {
        assert u[k + 1..] == v[k..];
      }
      if CloseLen(v).None? {
        forall k | ClosesAt(u, k) ensures exists j :: 0 <= j < k && IsLineTerminator(u[j]) {
          var j :| 0 <= j < k - 1 && IsLineTerminator(v[j]);
          assert u[j + 1] == v[j];
        }
      } else {
        forall k | 0 <= k < CloseLen(u).value - 1 ensures !ClosesAt(u, k) && !IsLineTerminator(u[k]) {
          if k > 0 {
            assert u[k] == v[k - 1];
          }
        }
      }
    }
  }

  /** The token the regular expression matches at the start of `s`, if any: first the lazy
      quoted alternative, else the unquoted run, each followed by the lookahead. */
  function MatchLen(s: string): (r: Maybe<nat>)
    requires s != []
    ensures r.Some? ==> 1 <= r.value <= |s| && Lookahead(s[r.value..])
    ensures r.Some? && s[0] == '"' ==> r.value >= 2 && s[r.value - 1] == '"'
    ensures r.Some? && s[0] != '"' ==> forall k :: 0 <= k < r.value ==> IsPlain(s[k])
  {
    if s[0] == '"' then
      CloseLenFirst(s[1..]);
      match CloseLen(s[1..])
      case None => None
      case Some(m) => Some(m + 1)
    else if IsPlain(s[0]) then
      var n := PlainRun(s);
      if Lookahead(s[n..]) then Some(n) else None
    else None
  }

  /** A token is a quoted run or a run of `[^",\s]`. */
  predicate IsToken(x: string) {
    || (|x| >= 2 && x[0] == '"' && x[|x| - 1] == '"')
    || (|x| >= 1 && forall k :: 0 <= k < |x| ==> IsPlain(x[k]))
  }

  /** `line.match(regex)` with the global flag (`null` read as no tokens): scan left to right,
      take a match where one starts, else move one character on. */
  function Tokens(s: string): (r: seq<string>)
    ensures forall i :: 0 <= i < |r| ==> IsToken(r[i])
    decreases |s|
  {
    if s == [] then []
    else match MatchLen(s)
      case Some(n) => [s[..n]] + Tokens(s[n..])
      case None => Tokens(s[1..])
  }

  /** The fields one line yields (App.tsx:548-549). */
  function Fields(line: string): (r: seq<string>)
    ensures |r| == |Tokens(line)|
  {
    var ts := Tokens(line);
    seq(|ts|, i requires 0 <= i < |ts| => Unquote(ts[i]))
  }

  // ---- which exported fields come back whole ---------------------------------------

  /** Optional white space, then `,`. */
  predicate WsThenComma(g: string) {
    g != [] && (g[0] == ',' || (IsSpace(g[0]) && WsThenComma(g[1..])))
  }

  /** `g[k]` is a quote that, once exported, the lazy quoted alternative takes as the
      closing quote of the field. */
  predicate ClosesEarly(g: string, k: int) {
    0 <= k < |g| && g[k] == '"' && WsThenComma(g[k + 1..])
  }

  /** The first index where an exported field is cut short. */
  function FirstCut(g: string): (r: Maybe<nat>)
    ensures r.Some? ==> ClosesEarly(g, r.value) && forall k :: 0 <= k < r.value ==> !ClosesEarly(g, k)
    ensures r.None? ==> forall k :: 0 <= k < |g| ==> !ClosesEarly(g, k)
  {
    if g == [] then None
    else if g[0] == '"' && WsThenComma(g[1..]) then Some(0)
    else
      assert forall k | 1 <= k < |g| :: ClosesEarly(g, k) == ClosesEarly(g[1..], k - 1) by {
        forall k | 1 <= k < |g| ensures ClosesEarly(g, k) == ClosesEarly(g[1..], k - 1) {
          assert g[k + 1..] == g[1..][k..];
        }
      }
      match FirstCut(g[1..])
      case None => None
      case Some(c) => Some(c + 1)
  }

  /** A field the import reads back whole: no line terminator, and no quote followed by
      optional white space and a comma. */
  predicate Safe(g: string) {
    NoLineTerminator(g) && forall k :: 0 <= k < |g| ==> !ClosesEarly(g, k)
  }

  /** What the import recovers from an exported field without line terminators: all of it,
      or its prefix up to the first quote that closes early. */
  function Recovered(g: string): (r: string)
    ensures |r| <= |g| && r == g[..|r|]
    ensures r == g <==> forall k :: 0 <= k < |g| ==> !ClosesEarly(g, k)
  {
    match FirstCut(g)
    case None => g
    case Some(c) => g[..c + 1]
  }

  lemma {:induction false} LookaheadEscaped(g: string, t: string)
    ensures Lookahead(Escape(g) + ['"'] + t) == WsThenComma(g)
  {
    var u := Escape(g) + ['"'] + t;
    if g == [] {
      assert u[0] == '"';
    } else {
      var v := Escape(g[1..]) + ['"'] + t;
      assert u == EscapeChar(g[0]) + v;
      if g[0] == '"' {
        assert u[0] == '"';
      } else {
        assert u[0] == g[0];
        assert u[1..] == v;
        if IsSpace(g[0]) {
          LookaheadEscaped(g[1..], t);
        }
      }
    }
  }

  /** The closing length the lemmas below speak of. */
  function EscapedClose(g: string): nat
  {
    match FirstCut(g)
    case None => |Escape(g)| + 1
    case Some(c) => |Escape(g[..c + 1])|
  }

  lemma CloseHere(v: string)
    requires Lookahead(v)
    ensures CloseLen(['"'] + v) == Some(1)
  {
    assert (['"'] + v)[1..] == v;
  }

  lemma CloseStep(c: char, v: string)
    requires !IsLineTerminator(c) && !(c == '"' && Lookahead(v))
    requires CloseLen(v).Some?
    ensures CloseLen([c] + v) == Some(CloseLen(v).value + 1)
  {
    var u := [c] + v;
    assert u != [] && u[0] == c && u[1..] == v;
  }

  /** Where the quoted alternative closes when it starts at an exported field. */
  lemma {:induction false} CloseEscaped(g: string, t: string)
    requires NoLineTerminator(g) && Lookahead(t)
    ensures CloseLen(Escape(g) + ['"'] + t) == Some(EscapedClose(g))
  {
    if g == [] {
      assert Escape(g) + ['"'] + t == ['"'] + t;
      CloseHere(t);
    } else if g[0] == '"' && WsThenComma(g[1..]) {
      CloseAtCut(g, t);
    } else {
      CloseEscaped(g[1..], t);
      CloseBeyond(g, t);
    }
  }

  lemma CloseAtCut(g: string, t: string)
    requires g != [] && g[0] == '"' && WsThenComma(g[1..])
    ensures CloseLen(Escape(g) + ['"'] + t) == Some(EscapedClose(g))
  {
    var v := Escape(g[1..]) + ['"'] + t;
    var w := ['"'] + v;
    EscapeCons(g);
    QuoteAssoc(Escape(g[1..]), t);
    LookaheadEscaped(g[1..], t);
    CloseHere(v);
    NoLookaheadAtQuote(v);
    CloseStep('"', w);
    assert FirstCut(g) == Some(0);
    EscapeOneQuote(g[..1]);
  }

  lemma EscapeOneQuote(p: string)
    requires p == ['"']
    ensures |Escape(p)| == 2
  {
    assert p[1..] == [];
  }

  lemma CloseBeyond(g: string, t: string)
    requires g != [] && !IsLineTerminator(g[0]) && !(g[0] == '"' && WsThenComma(g[1..]))
    requires CloseLen(Escape(g[1..]) + ['"'] + t) == Some(EscapedClose(g[1..]))
    ensures CloseLen(Escape(g) + ['"'] + t) == Some(EscapedClose(g))
  {
    CutShift(g);
    if g[0] == '"' {
      CloseBeyondQuote(g, t);
    } else {
      CloseBeyondPlain(g, t);
    }
  }

  lemma CloseBeyondPlain(g: string, t: string)
    requires g != [] && g[0] != '"' && !IsLineTerminator(g[0])
    requires CloseLen(Escape(g[1..]) + ['"'] + t) == Some(EscapedClose(g[1..]))
    ensures CloseLen(Escape(g) + ['"'] + t) == Some(EscapedClose(g[1..]) + 1)
  {
    var v := Escape(g[1..]) + ['"'] + t;
    EscapeCons(g);
    assert EscapeChar(g[0]) == [g[0]];
    ConsAssoc(g[0], Escape(g[1..]), t);
    CloseStep(g[0], v);
  }

  lemma ConsAssoc(c: char, x: string, t: string)
    ensures [c] + x + ['"'] + t == [c] + (x + ['"'] + t)
  {
  }

  lemma CloseBeyondQuote(g: string, t: string)
    requires g != [] && g[0] == '"' && !WsThenComma(g[1..])
    requires CloseLen(Escape(g[1..]) + ['"'] + t) == Some(EscapedClose(g[1..]))
    ensures CloseLen(Escape(g) + ['"'] + t) == Some(EscapedClose(g[1..]) + 2)
  {
    var v := Escape(g[1..]) + ['"'] + t;
    var w := ['"'] + v;
    EscapeCons(g);
    assert EscapeChar(g[0]) == ['"', '"'];
    QuoteAssoc(Escape(g[1..]), t);
    LookaheadEscaped(g[1..], t);
    CloseStep('"', v);
    NoLookaheadAtQuote(v);
    CloseStep('"', w);
  }

  lemma QuoteAssoc(x: string, t: string)
    ensures ['"', '"'] + x + ['"'] + t == ['"'] + (['"'] + (x + ['"'] + t))
  {
  }

  lemma NoLookaheadAtQuote(v: string)
    ensures !Lookahead(['"'] + v)
  {
    assert (['"'] + v)[0] == '"';
  }

  lemma EscapeCons(g: string)
    requires g != []
    ensures Escape(g) == EscapeChar(g[0]) + Escape(g[1..])
  {
  }

  lemma CutShift(g: string)
    requires g != [] && !(g[0] == '"' && WsThenComma(g[1..]))
    ensures EscapedClose(g) == |EscapeChar(g[0])| + EscapedClose(g[1..])
  {
    match FirstCut(g[1..])
    case None =>
    case Some(c) =>
      assert g[..c + 2] == [g[0]] + g[1..][..c + 1];
      assert g[..c + 2][1..] == g[1..][..c + 1];
  }

  /** The token the scan takes at the start of an exported field, and the value it unquotes to. */
  lemma FieldToken(g: string, t: string)
    requires NoLineTerminator(g) && Lookahead(t)
    ensures MatchLen(Quote(g) + t).Some?
    ensures var n := MatchLen(Quote(g) + t).value;
      && n <= |Quote(g)|
      && (Recovered(g) == g ==> n == |Quote(g)|)
      && Unquote((Quote(g) + t)[..n]) == Recovered(g)
  {
    var s := Quote(g) + t;
    assert s == ['"'] + (Escape(g) + ['"'] + t);
    CloseEscaped(g, t);
    MatchQuoted(s);
    if FirstCut(g).None? {
      FieldTokenWhole(g, t);
    } else {
      FieldTokenCut(g, t, FirstCut(g).value);
    }
  }

  lemma MatchQuoted(s: string)
    requires s != [] && s[0] == '"' && CloseLen(s[1..]).Some?
    ensures MatchLen(s) == Some(CloseLen(s[1..]).value + 1)
  {
  }

  lemma FieldTokenWhole(g: string, t: string)
    requires FirstCut(g).None?
    ensures (Quote(g) + t)[..EscapedClose(g) + 1] == Quote(g)
    ensures Unquote(Quote(g)) == Recovered(g) == g
  {
    UnquoteQuote(g);
  }

  lemma FieldTokenCut(g: string, t: string, c: nat)
    requires FirstCut(g) == Some(c)
    ensures EscapedClose(g) + 1 <= |Quote(g)|
    ensures Unquote((Quote(g) + t)[..EscapedClose(g) + 1]) == Recovered(g) != g
  {
    var p := g[..c + 1];
    assert g == p + g[c + 1..];
    EscapeAppend(p, g[c + 1..]);
    var x, y := Escape(p), Escape(g[c + 1..]);
    assert Escape(g) == x + y;
    assert Quote(g) + t == ['"'] + (x + y) + ['"'] + t;
    QuotedPrefix(x, y, t);
    assert EscapedClose(g) == |x|;
    assert (Quote(g) + t)[..EscapedClose(g) + 1] == ['"'] + x;
    UnquoteCut(p);
    assert Recovered(g) == p;
  }

  lemma QuotedPrefix(x: string, y: string, t: string)
    ensures (['"'] + (x + y) + ['"'] + t)[..|x| + 1] == ['"'] + x
  {
    var s := ['"'] + (x + y) + ['"'] + t;
    forall i | 0 <= i < |x| + 1 ensures s[i] == (['"'] + x)[i] {
      if i > 0 {
        assert s[i] == x[i - 1];
      }
    }
  }

  /** Scanning an exported line past a field that comes back whole. */
  lemma SafeFieldTokens(g: string, rest: string)
    requires Safe(g)
    ensures Tokens(Quote(g) + ("," + rest)) == [Quote(g)] + Tokens(rest)
  {
    var s := Quote(g) + ("," + rest);
    FieldToken(g, "," + rest);
    assert s[..|Quote(g)|] == Quote(g);
    assert s[|Quote(g)|..] == "," + rest;
    assert ("," + rest)[1..] == rest;
  }

  /** The first `k` fields of an exported line come back as their own tokens when each of
      them is safe. */
  lemma {:induction false} TokensOfRowFrom(fs: seq<string>, k: nat)
    requires k < |fs|
    requires forall i :: 0 <= i < k ==> Safe(fs[i])
    ensures Tokens(Row(fs)) == QuoteAll(fs[..k]) + Tokens(Row(fs[k..]))
  {
    if k == 0 {
      assert fs[..0] == [] && fs[0..] == fs;
      assert QuoteAll([]) == [];
    } else {
      var rest := fs[1..];
      forall i | 0 <= i < k - 1 ensures Safe(rest[i]) {
        assert rest[i] == fs[i + 1];
      }
      TokensOfRowFrom(rest, k - 1);
      assert rest[k - 1..] == fs[k..];
      RowTokensCons(fs);
      QuoteAllPrefix(fs, k);
      AppendAssoc([Quote(fs[0])], QuoteAll(rest[..k - 1]), Tokens(Row(fs[k..])));
    }
  }

  lemma AppendAssoc<T>(a: seq<T>, b: seq<T>, c: seq<T>)
    ensures a + (b + c) == (a + b) + c
  {
  }

  lemma QuoteAllPrefix(fs: seq<string>, k: nat)
    requires 0 < k <= |fs|
    ensures QuoteAll(fs[..k]) == [Quote(fs[0])] + QuoteAll(fs[1..][..k - 1])
  {
  }

  lemma RowTokensCons(fs: seq<string>)
    requires |fs| >= 2 && Safe(fs[0])
    ensures Tokens(Row(fs)) == [Quote(fs[0])] + Tokens(Row(fs[1..]))
  {
    RowCons(fs);
    SafeFieldTokens(fs[0], Row(fs[1..]));
  }

  /** What follows field `k` on an exported line. */
  function After(fs: seq<string>, k: nat): string
    requires k < |fs|
  {
    if |fs| - k >= 2 then "," + Row(fs[k + 1..]) else ""
  }

  lemma RowAt(fs: seq<string>, k: nat)
    requires k < |fs|
    ensures Row(fs[k..]) == Quote(fs[k]) + After(fs, k)
    ensures Lookahead(After(fs, k))
  {
    if |fs| - k >= 2 {
      RowCons(fs[k..]);
      assert fs[k..][1..] == fs[k + 1..];
    } else {
      assert fs[k..] == [fs[k]];
      assert Quote(fs[k]) + "" == Quote(fs[k]);
    }
  }

  lemma TokensAt(s: string)
    requires s != [] && MatchLen(s).Some?
    ensures Tokens(s) == [s[..MatchLen(s).value]] + Tokens(s[MatchLen(s).value..])
  {
  }

  lemma IndexPast<T>(a: seq<T>, b: seq<T>)
    requires b != []
    ensures (a + b)[|a|] == b[0]
  {
  }

  /** Field `k` of an exported line, read back by the import: every field before it is
      safe, and it has no line terminator. */
  lemma FieldRecovered(fs: seq<string>, k: nat)
    requires k < |fs|
    requires forall i :: 0 <= i < k ==> Safe(fs[i])
    requires NoLineTerminator(fs[k])
    ensures |Fields(Row(fs))| > k
    ensures Fields(Row(fs))[k] == Recovered(fs[k])
  {
    TokensOfRowFrom(fs, k);
    RowAt(fs, k);
    var t := After(fs, k);
    var tail := Quote(fs[k]) + t;
    FieldToken(fs[k], t);
    TokensAt(tail);
    IndexPast(QuoteAll(fs[..k]), Tokens(tail));
  }

  /** An exported line whose fields are all safe yields exactly its fields. */
  lemma RowRoundTrip(fs: seq<string>)
    requires |fs| >= 1
    requires forall i :: 0 <= i < |fs| ==> Safe(fs[i])
    ensures Fields(Row(fs)) == fs
  {
    var k := |fs| - 1;
    TokensOfRowFrom(fs, k);
    RowAt(fs, k);
    var tail := Quote(fs[k]) + After(fs, k);
    FieldToken(fs[k], After(fs, k));
    TokensAt(tail);
    assert tail[|Quote(fs[k])|..] == [];
    forall i | 0 <= i < |fs| ensures Fields(Row(fs))[i] == fs[i] {
      FieldRecovered(fs, i);
    }
  }
}
