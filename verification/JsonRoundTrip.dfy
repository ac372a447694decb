/** Reading back what the writers wrote. The bridge between text and tree is the
    list of lexemes of a tree: a document spells a list of lexemes when it is that
    list with white space anywhere between them. Both writers spell the lexemes of
    their tree, and the reader reads any spelling of them. */
module JsonRoundTrip {
  import opened JsonValue
  import G = JsonGrammar
  import T = JsonText

  // ----- lexemes -----

  function Lexemes(fmt: T.Format, v: Value): seq<string>
    decreases v, 0
  {
    match v
    case Array(es) => ["["] + ElemLexemes(fmt, es, 0)
    case Object(ms) => ["{"] + MemberLexemes(fmt, ms, 0)
    case _ => [T.Inline(fmt, v)]
  }

  /** From before the k-th element to the end of the array. */
  function ElemLexemes(fmt: T.Format, es: seq<Value>, k: nat): seq<string>
    requires k <= |es|
    decreases es, |es| - k
  {
    if k == |es| then ["]"]
    else Separator(k) + (Lexemes(fmt, es[k]) + ElemLexemes(fmt, es, k + 1))
  }

  function MemberLexemes(fmt: T.Format, ms: seq<Member>, k: nat): seq<string>
    requires k <= |ms|
    decreases ms, |ms| - k
  {
    if k == |ms| then ["}"]
    else Separator(k) + ([T.Quoted(ms[k].name), ":"] + (Lexemes(fmt, ms[k].value) + MemberLexemes(fmt, ms, k + 1)))
  }

  function Separator(k: nat): seq<string> {
    if k > 0 then [","] else []
  }

  /** From position p on, the document is these lexemes and white space. */
  ghost predicate Spells(doc: string, p: nat, ls: seq<string>)
    requires p <= |doc|
    decreases |ls|
  {
    var k := G.SpacesEnd(doc, p);
    if ls == [] then k == |doc|
    else ls[0] != "" && G.HasAt(doc, k, ls[0]) && Spells(doc, k + |ls[0]|, ls[1..])
  }

  predicate IsBlank(text: string) {
    forall c :: c in text ==> G.IsSpace(c)
  }

  predicate IsLexeme(text: string) {
    text != "" && !G.IsSpace(text[0])
  }

  // ----- appending to a spelling -----

  lemma SpacesEndAppend(doc: string, p: nat, more: string)
    requires p <= |doc|
    ensures G.SpacesEnd(doc, p) < |doc| ==> G.SpacesEnd(doc + more, p) == G.SpacesEnd(doc, p)
    ensures G.SpacesEnd(doc, p) == |doc| ==> G.SpacesEnd(doc + more, p) == G.SpacesEnd(doc + more, |doc|)
    decreases |doc| - p
  {
    if p < |doc| && G.IsSpace(doc[p]) { SpacesEndAppend(doc, p + 1, more); }
  }

  lemma BlankEnd(doc: string, p: nat)
    requires p <= |doc| && IsBlank(doc[p..])
    ensures G.SpacesEnd(doc, p) == |doc|
    decreases |doc| - p
  {
    if p < |doc| {
      assert doc[p] == doc[p..][0] && doc[p] in doc[p..];
      assert forall c :: c in doc[p + 1..] ==> c in doc[p..];
      BlankEnd(doc, p + 1);
    }
  }

  lemma SpellsBlank(doc: string, p: nat, ls: seq<string>, blank: string)
    requires p <= |doc| && Spells(doc, p, ls) && IsBlank(blank)
    ensures Spells(doc + blank, p, ls)
    decreases |ls|
  {
    SpacesEndAppend(doc, p, blank);
    if ls == [] {
      assert (doc + blank)[|doc|..] == blank;
      BlankEnd(doc + blank, |doc|);
    } else {
      var k := G.SpacesEnd(doc, p);
      assert (doc + blank)[k..k + |ls[0]|] == doc[k..k + |ls[0]|];
      SpellsBlank(doc, k + |ls[0]|, ls[1..], blank);
    }
  }

  lemma SpellsLexeme(doc: string, p: nat, ls: seq<string>, lexeme: string)
    requires p <= |doc| && Spells(doc, p, ls) && IsLexeme(lexeme)
    ensures Spells(doc + lexeme, p, ls + [lexeme])
    decreases |ls|
  {
    SpacesEndAppend(doc, p, lexeme);
    if ls == [] {
      assert (doc + lexeme)[|doc|..|doc| + |lexeme|] == lexeme;
      assert G.HasAt(doc + lexeme, |doc|, lexeme);
      assert (ls + [lexeme])[1..] == [];
    } else {
      var k := G.SpacesEnd(doc, p);
      assert (doc + lexeme)[k..k + |ls[0]|] == doc[k..k + |ls[0]|];
      assert (ls + [lexeme])[1..] == ls[1..] + [lexeme];
      SpellsLexeme(doc, k + |ls[0]|, ls[1..], lexeme);
    }
  }

  // ----- both writers spell the lexemes of their tree -----

  /** A tree without real numbers, whose text is not modelled. */
  predicate NoReals(v: Value)
    decreases v
  {
    match v
    case Real(_) => false
    case Array(es) => forall k :: 0 <= k < |es| ==> NoReals(es[k])
    case Object(ms) => forall k :: 0 <= k < |ms| ==> NoReals(ms[k].value)
    case _ => true
  }

  lemma InlineIsLexeme(fmt: T.Format, v: Value)
    requires T.IsSmall(v) && NoReals(v)
    ensures IsLexeme(T.Inline(fmt, v))
  {
    match v
    case Int(i) => DigitsAreDigits(if i < 0 then 0 - (i as int) else i);
    case UInt(u) => DigitsAreDigits(u);
    case _ =>
  }

  lemma DigitsAreDigits(n: nat)
    ensures forall k :: 0 <= k < |T.Digits(n)| ==> G.IsDigit(T.Digits(n)[k])
  {
    if n >= 10 { DigitsAreDigits(n / 10); }
  }

  lemma SpellsSmall(fmt: T.Format, doc: string, ls: seq<string>, v: Value)
    requires Spells(doc, 0, ls) && T.IsSmall(v) && NoReals(v)
    ensures Spells(doc + T.Inline(fmt, v), 0, ls + Lexemes(fmt, v))
  {
    if v.Array? {
      SpellsTwo(doc, ls, "[", "]");
      assert "[" + "]" == "[]" && Lexemes(fmt, v) == ["[", "]"];
    } else if v.Object? {
      SpellsTwo(doc, ls, "{", "}");
      assert "{" + "}" == "{}" && Lexemes(fmt, v) == ["{", "}"];
    } else {
      InlineIsLexeme(fmt, v);
      SpellsLexeme(doc, 0, ls, T.Inline(fmt, v));
    }
  }

  lemma SpellsTwo(doc: string, ls: seq<string>, a: string, b: string)
    requires Spells(doc, 0, ls) && IsLexeme(a) && IsLexeme(b)
    ensures Spells(doc + (a + b), 0, ls + [a, b])
  {
    SpellsLexeme(doc, 0, ls, a);
    SpellsLexeme(doc + a, 0, ls + [a], b);
    assert doc + a + b == doc + (a + b) && ls + [a] + [b] == ls + [a, b];
  }

  /** A comma before every element but the first, then white space. */
  lemma SpellsComma(doc: string, ls: seq<string>, k: nat, blank: string)
    requires Spells(doc, 0, ls) && IsBlank(blank)
    ensures Spells(doc + T.Comma(k, ","), 0, ls + Separator(k))
    ensures Spells(doc + T.Comma(k, "," + blank), 0, ls + Separator(k))
  {
    if k > 0 {
      SpellsLexeme(doc, 0, ls, ",");
      SpellsBlank(doc + ",", 0, ls + [","], blank);
      assert doc + "," + blank == doc + ("," + blank);
    } else {
      assert doc + "" == doc && ls + [] == ls;
    }
  }

  lemma SpellsIndent(doc: string, ls: seq<string>, indent: string)
    requires Spells(doc, 0, ls) && IsBlank(indent)
    ensures Spells(T.IndentTo(doc, indent), 0, ls)
  {
    SpellsBlank(doc, 0, ls, indent);
    SpellsBlank(doc, 0, ls, "\n");
    SpellsBlank(doc + "\n", 0, ls, indent);
  }

  lemma SpellsName(doc: string, ls: seq<string>, name: string, colon: string)
    requires Spells(doc, 0, ls) && colon in {":", ": ", " : "}
    ensures Spells(doc + T.Quoted(name) + colon, 0, ls + [T.Quoted(name), ":"])
  {
    var q := T.Quoted(name);
    assert IsLexeme(q);
    hide Spells, T.Quoted;
    SpellsLexeme(doc, 0, ls, q);
    SpellsColon(doc + q, ls + [q], colon);
    assert ls + [q] + [":"] == ls + [q, ":"];
  }

  lemma SpellsColon(doc: string, ls: seq<string>, colon: string)
    requires Spells(doc, 0, ls) && colon in {":", ": ", " : "}
    ensures Spells(doc + colon, 0, ls + [":"])
  {
    hide Spells;
    if colon == " : " {
      SpellsBlank(doc, 0, ls, " ");
      SpellsLexeme(doc + " ", 0, ls, ":");
      SpellsBlank(doc + " " + ":", 0, ls + [":"], " ");
      assert doc + " " + ":" + " " == doc + colon;
    } else {
      SpellsLexeme(doc, 0, ls, ":");
      SpellsBlank(doc + ":", 0, ls + [":"], " ");
      assert doc + ":" + " " == doc + ": ";
    }
  }

  lemma Regroup(ls: seq<string>, a: seq<string>, b: seq<string>, c: seq<string>, d: seq<string>)
    ensures ls + a + b + c + d == ls + (a + (b + (c + d)))
  {
  }

  lemma {:induction false} FastSpells(fmt: T.Format, yaml: bool, doc: string, ls: seq<string>, v: Value)
    requires Spells(doc, 0, ls) && NoReals(v)
    ensures Spells(T.Fast(fmt, yaml, doc, v), 0, ls + Lexemes(fmt, v))
    decreases v, 0
  {
    hide Spells, ElemLexemes, MemberLexemes, T.FastElems, T.FastMembers, T.StyledElems, T.StyledMembers, T.IndentTo, T.Join;
    match v
    case Array(es) =>
      SpellsLexeme(doc, 0, ls, "[");
      FastSpellsElems(fmt, yaml, doc + "[", ls + ["["], es, 0);
      assert ls + ["["] + ElemLexemes(fmt, es, 0) == ls + Lexemes(fmt, v);
    case Object(ms) =>
      SpellsLexeme(doc, 0, ls, "{");
      FastSpellsMembers(fmt, yaml, doc + "{", ls + ["{"], ms, 0);
      assert ls + ["{"] + MemberLexemes(fmt, ms, 0) == ls + Lexemes(fmt, v);
    case _ => SpellsSmall(fmt, doc, ls, v);
  }

  lemma {:induction false} FastSpellsElems(fmt: T.Format, yaml: bool, doc: string, ls: seq<string>, es: seq<Value>, k: nat)
    requires k <= |es| && Spells(doc, 0, ls) && forall j :: 0 <= j < |es| ==> NoReals(es[j])
    ensures Spells(T.FastElems(fmt, yaml, doc, es, k) + "]", 0, ls + ElemLexemes(fmt, es, k))
    decreases es, |es| - k
  {
    hide Spells, T.Fast, Lexemes, T.Quoted, T.Comma, Separator;
    if k == |es| {
      SpellsLexeme(doc, 0, ls, "]");
    } else {
      SpellsComma(doc, ls, k, "");
      var doc1, ls1 := doc + T.Comma(k, ","), ls + Separator(k);
      FastSpells(fmt, yaml, doc1, ls1, es[k]);
      var ls2 := ls1 + Lexemes(fmt, es[k]);
      FastSpellsElems(fmt, yaml, T.Fast(fmt, yaml, doc1, es[k]), ls2, es, k + 1);
      assert ls2 + ElemLexemes(fmt, es, k + 1) == ls + ElemLexemes(fmt, es, k);
    }
  }

  lemma {:induction false} FastSpellsMembers(fmt: T.Format, yaml: bool, doc: string, ls: seq<string>,
                                             ms: seq<Member>, k: nat)
    requires k <= |ms| && Spells(doc, 0, ls) && forall j :: 0 <= j < |ms| ==> NoReals(ms[j].value)
    ensures Spells(T.FastMembers(fmt, yaml, doc, ms, k) + "}", 0, ls + MemberLexemes(fmt, ms, k))
    decreases ms, |ms| - k
  {
    hide Spells, T.Fast, Lexemes, T.Quoted, T.Comma, Separator;
    if k == |ms| {
      SpellsLexeme(doc, 0, ls, "}");
    } else {
      SpellsComma(doc, ls, k, "");
      var doc1, ls1 := doc + T.Comma(k, ","), ls + Separator(k);
      SpellsName(doc1, ls1, ms[k].name, T.Colon(yaml));
      var doc2, ls2 := doc1 + T.Quoted(ms[k].name) + T.Colon(yaml), ls1 + [T.Quoted(ms[k].name), ":"];
      FastSpells(fmt, yaml, doc2, ls2, ms[k].value);
      var ls3 := ls2 + Lexemes(fmt, ms[k].value);
      FastSpellsMembers(fmt, yaml, T.Fast(fmt, yaml, doc2, ms[k].value), ls3, ms, k + 1);
      Regroup(ls, Separator(k), [T.Quoted(ms[k].name), ":"], Lexemes(fmt, ms[k].value), MemberLexemes(fmt, ms, k + 1));
    }
  }

  lemma {:induction false} StyledSpells(fmt: T.Format, doc: string, indent: string, ls: seq<string>, v: Value)
    requires Spells(doc, 0, ls) && NoReals(v) && IsBlank(indent)
    ensures Spells(T.Styled(fmt, doc, indent, v), 0, ls + Lexemes(fmt, v))
    decreases v, 0
  {
    hide Spells, ElemLexemes, MemberLexemes, T.StyledElems, T.StyledMembers, T.IndentTo, T.Join, T.Inlines, T.Inline,
      T.TotalLength, IsBlank;
    if T.IsSmall(v) {
      SpellsSmall(fmt, doc, ls, v);
    } else if v.Array? && !T.IsMultiline(fmt, v.elems) {
      LineSpells(fmt, doc, ls, v.elems);
    } else {
      hide T.IsMultiline, T.IsSmall;
      SpellsIndent(doc, ls, indent);
      var doc1 := T.IndentTo(doc, indent);
      match v
      case Array(es) =>
        SpellsLexeme(doc1, 0, ls, "[");
        StyledSpellsElems(fmt, doc1 + "[", indent, ls + ["["], es, 0);
        assert ls + ["["] + ElemLexemes(fmt, es, 0) == ls + Lexemes(fmt, v);
      case Object(ms) =>
        SpellsLexeme(doc1, 0, ls, "{");
        StyledSpellsMembers(fmt, doc1 + "{", indent, ls + ["{"], ms, 0);
        assert ls + ["{"] + MemberLexemes(fmt, ms, 0) == ls + Lexemes(fmt, v);
    }
  }

  /** An array on one line. */
  lemma LineSpells(fmt: T.Format, doc: string, ls: seq<string>, es: seq<Value>)
    requires Spells(doc, 0, ls) && forall e :: e in es ==> T.IsSmall(e) && NoReals(e)
    ensures Spells(T.Join(doc + "[ ", T.Inlines(fmt, es), 0) + " ]", 0, ls + Lexemes(fmt, Array(es)))
  {
    hide Spells, ElemLexemes, T.Join, T.Inlines;
    SpellsLexeme(doc, 0, ls, "[");
    SpellsBlank(doc + "[", 0, ls + ["["], " ");
    assert doc + "[" + " " == doc + "[ ";
    JoinSpells(fmt, doc + "[ ", ls + ["["], es, 0);
    assert ls + ["["] + ElemLexemes(fmt, es, 0) == ls + Lexemes(fmt, Array(es));
  }

  lemma {:induction false} JoinSpells(fmt: T.Format, doc: string, ls: seq<string>, es: seq<Value>, k: nat)
    requires k <= |es| && Spells(doc, 0, ls)
    requires forall e :: e in es ==> T.IsSmall(e) && NoReals(e)
    ensures Spells(T.Join(doc, T.Inlines(fmt, es), k) + " ]", 0, ls + ElemLexemes(fmt, es, k))
    decreases |es| - k
  {
    hide Spells, Lexemes, T.Inline, T.Comma, Separator;
    if k == |es| {
      SpellsBlank(doc, 0, ls, " ");
      SpellsLexeme(doc + " ", 0, ls, "]");
      assert doc + " " + "]" == doc + " ]";
    } else {
      SpellsComma(doc, ls, k, " ");
      var doc1, ls1 := doc + T.Comma(k, ", "), ls + Separator(k);
      assert "," + " " == ", ";
      SpellsSmall(fmt, doc1, ls1, es[k]);
      var ls2 := ls1 + Lexemes(fmt, es[k]);
      JoinSpells(fmt, doc1 + T.Inline(fmt, es[k]), ls2, es, k + 1);
      assert ls2 + ElemLexemes(fmt, es, k + 1) == ls + ElemLexemes(fmt, es, k);
    }
  }

  lemma {:induction false} StyledSpellsElems(fmt: T.Format, doc: string, indent: string, ls: seq<string>,
                                             es: seq<Value>, k: nat)
    requires k <= |es| && Spells(doc, 0, ls) && IsBlank(indent)
    requires forall j :: 0 <= j < |es| ==> NoReals(es[j])
    ensures Spells(T.IndentTo(T.StyledElems(fmt, doc, indent + T.INDENT, es, k), indent) + "]", 0,
                   ls + ElemLexemes(fmt, es, k))
    decreases es, |es| - k
  {
    hide Spells, T.Styled, Lexemes, T.Quoted, T.Comma, T.IndentTo, Separator;
    var inner := indent + T.INDENT;
    if k == |es| {
      SpellsIndent(doc, ls, indent);
      SpellsLexeme(T.IndentTo(doc, indent), 0, ls, "]");
    } else {
      SpellsComma(doc, ls, k, "");
      var ls1 := ls + Separator(k);
      SpellsIndent(doc + T.Comma(k, ","), ls1, inner);
      var doc1 := T.IndentTo(doc + T.Comma(k, ","), inner);
      StyledSpells(fmt, doc1, inner, ls1, es[k]);
      var ls2 := ls1 + Lexemes(fmt, es[k]);
      StyledSpellsElems(fmt, T.Styled(fmt, doc1, inner, es[k]), indent, ls2, es, k + 1);
      assert ls2 + ElemLexemes(fmt, es, k + 1) == ls + ElemLexemes(fmt, es, k);
    }
  }

  lemma {:induction false} StyledSpellsMembers(fmt: T.Format, doc: string, indent: string, ls: seq<string>,
                                               ms: seq<Member>, k: nat)
    requires k <= |ms| && Spells(doc, 0, ls) && IsBlank(indent)
    requires forall j :: 0 <= j < |ms| ==> NoReals(ms[j].value)
    ensures Spells(T.IndentTo(T.StyledMembers(fmt, doc, indent + T.INDENT, ms, k), indent) + "}", 0,
                   ls + MemberLexemes(fmt, ms, k))
    decreases ms, |ms| - k
  {
    hide Spells, T.Styled, Lexemes, T.Quoted, T.Comma, T.IndentTo, Separator;
    var inner := indent + T.INDENT;
    if k == |ms| {
      SpellsIndent(doc, ls, indent);
      SpellsLexeme(T.IndentTo(doc, indent), 0, ls, "}");
    } else {
      SpellsComma(doc, ls, k, "");
      var ls1 := ls + Separator(k);
      SpellsIndent(doc + T.Comma(k, ","), ls1, inner);
      var doc1 := T.IndentTo(doc + T.Comma(k, ","), inner);
      SpellsName(doc1, ls1, ms[k].name, " : ");
      var doc2, ls2 := doc1 + T.Quoted(ms[k].name) + " : ", ls1 + [T.Quoted(ms[k].name), ":"];
      StyledSpells(fmt, doc2, inner, ls2, ms[k].value);
      var ls3 := ls2 + Lexemes(fmt, ms[k].value);
      StyledSpellsMembers(fmt, T.Styled(fmt, doc2, inner, ms[k].value), indent, ls3, ms, k + 1);
      Regroup(ls, Separator(k), [T.Quoted(ms[k].name), ":"], Lexemes(fmt, ms[k].value), MemberLexemes(fmt, ms, k + 1));
    }
  }

  // ----- reading one lexeme -----

  /** Where the k-th character of a text that stands at p is. */
  lemma HasAtIndex(doc: string, p: nat, text: string)
    requires G.HasAt(doc, p, text)
    ensures forall k :: 0 <= k < |text| ==> doc[p + k] == text[k]
  {
    forall k | 0 <= k < |text| ensures doc[p + k] == text[k] {
      assert doc[p..p + |text|][k] == text[k];
    }
  }

  lemma HasAtSplit(doc: string, p: nat, a: string, b: string)
    requires G.HasAt(doc, p, a + b)
    ensures G.HasAt(doc, p, a) && G.HasAt(doc, p + |a|, b)
  {
    var both := doc[p..p + |a + b|];
    assert doc[p..p + |a|] == both[..|a|] == a;
    assert doc[p + |a|..p + |a| + |b|] == both[|a|..] == b;
  }

  predicate Delimits(rest: seq<string>) {
    rest == [] || rest[0] in {",", "]", "}"}
  }

  lemma NumberStops(doc: string, p: nat, rest: seq<string>)
    requires p <= |doc| && Spells(doc, p, rest) && Delimits(rest)
    ensures G.NumberEnd(doc, p) == p
  {
    if p < |doc| && !G.IsSpace(doc[p]) {
      HasAtIndex(doc, p, rest[0]);
      assert doc[p] == rest[0][0];
    }
  }

  lemma NumberRuns(doc: string, p: nat, q: nat)
    requires p <= q <= |doc| && G.NumberEnd(doc, q) == q
    requires forall k :: p <= k < q ==> G.IsNumberChar(doc[k])
    ensures G.NumberEnd(doc, p) == q
    decreases q - p
  {
    if p < q { NumberRuns(doc, p + 1, q); }
  }

  /** Digits are read back as their number, unless it reaches ten times the threshold. */
  lemma {:induction false} DigitsRead(doc: string, p: nat, n: nat, threshold: nat)
    requires G.HasAt(doc, p, T.Digits(n)) && threshold > 0
    ensures G.DigitsFrom(doc, p, p + |T.Digits(n)|, 0, threshold)
      == if n < 10 * threshold then G.Whole(n) else G.TooBig
  {
    if n < 10 {
      HasAtIndex(doc, p, T.Digits(n));
      assert G.DigitsFrom(doc, p + 1, p + 1, n, threshold) == G.Whole(n);
    } else {
      var front, d := T.Digits(n / 10), T.DigitChar(n % 10);
      HasAtSplit(doc, p, front, [d]);
      DigitsRead(doc, p, n / 10, threshold);
      DigitsAreDigits(n);
      HasAtIndex(doc, p, T.Digits(n));
      assert doc[p + |front|] == d;
      DigitsSnoc(doc, p, p + |front|, 0, threshold);
    }
  }

  lemma DigitsSnoc(doc: string, p: nat, q: nat, value: nat, threshold: nat)
    requires p <= q < |doc| && G.IsDigit(doc[q]) && value < 10 * threshold
    ensures G.DigitsFrom(doc, p, q + 1, value, threshold) ==
      match G.DigitsFrom(doc, p, q, value, threshold)
      case Whole(n) => if n < threshold then G.Whole(n * 10 + (doc[q] - '0') as nat) else G.TooBig
      case other => other
    decreases q - p
  {
    if p < q && G.IsDigit(doc[p]) && value < threshold {
      DigitsSnoc(doc, p + 1, q, value * 10 + (doc[p] - '0') as nat, threshold);
    } else if p == q && value < threshold {
      assert G.DigitsFrom(doc, q + 1, q + 1, value * 10 + (doc[q] - '0') as nat, threshold).Whole?;
    }
  }

  /** The closing quote of a quoted string is found, and its text is decoded. */
  lemma {:induction false} QuotedScan(doc: string, p: nat, s: string)
    requires G.HasAt(doc, p, T.Escaped(s) + "\"")
    ensures G.StringScan(doc, p) == (true, p + |T.Escaped(s)| + 1)
    decreases |s|
  {
    hide T.EscapeOf;
    if s == "" {
      HasAtIndex(doc, p, T.Escaped(s) + "\"");
    } else {
      var e, tail := T.EscapeOf(s[0]), T.Escaped(s[1..]) + "\"";
      assert T.Escaped(s) + "\"" == e + tail;
      HasAtSplit(doc, p, e, tail);
      OneScans(doc, p, s[0]);
      QuotedScan(doc, p + |e|, s[1..]);
    }
  }

  lemma OneScans(doc: string, p: nat, c: char)
    requires G.HasAt(doc, p, T.EscapeOf(c))
    ensures G.StringScan(doc, p) == G.StringScan(doc, p + |T.EscapeOf(c)|)
  {
    var e := T.EscapeOf(c);
    HasAtIndex(doc, p, e);
    if |e| == 6 {
      PlainScans(doc, p + 2, p + 6);
    } else if |e| == 1 {
      PlainScans(doc, p, p + 1);
    }
  }

  lemma PlainScans(doc: string, p: nat, q: nat)
    requires p <= q <= |doc| && forall k :: p <= k < q ==> doc[k] != '\\' && doc[k] != '"'
    ensures G.StringScan(doc, p) == G.StringScan(doc, q)
    decreases q - p
  {
    if p < q { PlainScans(doc, p + 1, q); }
  }

  lemma {:induction false} QuotedDecodes(doc: string, p: nat, s: string, decoded: string)
    requires G.HasAt(doc, p, T.Escaped(s)) && NUL !in s
    ensures G.DecodeFrom(doc, p, p + |T.Escaped(s)|, decoded) == G.Good(decoded + s)
    decreases |s|
  {
    hide T.EscapeOf, T.Escaped, G.DecodeFrom, G.HasAt;
    QuotedStep(doc, p, s, decoded);
    if s != "" {
      var c, e, end := s[0], T.EscapeOf(s[0]), p + |T.Escaped(s)|;
      HasAtSplit(doc, p, e, T.Escaped(s[1..]));
      OneDecodes(doc, p, end, c, decoded);
      QuotedDecodes(doc, p + |e|, s[1..], decoded + [c]);
      assert s == [c] + s[1..];
      assert decoded + [c] + s[1..] == decoded + ([c] + s[1..]);
    } else {
      assert decoded + s == decoded;
    }
  }

  lemma QuotedStep(doc: string, p: nat, s: string, decoded: string)
    requires G.HasAt(doc, p, T.Escaped(s))
    ensures p + |T.Escaped(s)| <= |doc|
    ensures s != "" ==> T.Escaped(s) == T.EscapeOf(s[0]) + T.Escaped(s[1..])
    ensures s == "" ==> T.Escaped(s) == "" && G.DecodeFrom(doc, p, p, decoded) == G.Good(decoded)
  {
    hide T.EscapeOf;
  }

  lemma OneDecodes(doc: string, p: nat, end: nat, c: char, decoded: string)
    requires c != NUL && p + |T.EscapeOf(c)| <= end <= |doc| && G.HasAt(doc, p, T.EscapeOf(c))
    ensures G.DecodeFrom(doc, p, end, decoded) == G.DecodeFrom(doc, p + |T.EscapeOf(c)|, end, decoded + [c])
  {
    hide G.CodePoint, G.CodePointToUTF8;
    HasAtIndex(doc, p, T.EscapeOf(c));
    if |T.EscapeOf(c)| == 6 {
      ControlDecodes(doc, p + 2, end, c);
    } else if |T.EscapeOf(c)| == 2 {
      assert G.IsSimpleEscape(doc[p + 1]) && G.SimpleEscape(doc[p + 1]) == c;
    }
  }

  lemma ControlDecodes(doc: string, p: nat, end: nat, c: char)
    requires p + 4 <= end <= |doc| && T.IsControl(c)
    requires doc[p] == '0' && doc[p + 1] == '0'
    requires doc[p + 2] == T.HexChar(c as nat / 16) && doc[p + 3] == T.HexChar(c as nat % 16)
    ensures G.CodePoint(doc, p, end) == G.Good((c as nat, p + 4))
    ensures G.CodePointToUTF8(c as nat) == [c]
  {
    var n := c as nat;
    assert G.HexFrom(doc, p + 2, 2, 0) == G.HexFrom(doc, p, 4, 0);
    assert G.HexFrom(doc, p + 3, 1, n / 16) == G.HexFrom(doc, p + 2, 2, 0);
    assert G.HexFrom(doc, p + 4, 0, n) == G.HexFrom(doc, p + 3, 1, n / 16);
  }

  // ----- reading one token -----

  lemma PunctuationToken(doc: string, p: nat, mark: string, rest: seq<string>)
    requires p <= |doc| && Spells(doc, p, [mark] + rest)
    requires mark in {"{", "}", "[", "]", ",", ":"}
    ensures var t := G.ReadToken(doc, p);
      t.kind == (match mark[0]
                 case '{' => G.ObjectBegin
                 case '}' => G.ObjectEnd
                 case '[' => G.ArrayBegin
                 case ']' => G.ArrayEnd
                 case ',' => G.ArraySeparator
                 case _ => G.MemberSeparator) &&
      t.start == G.SpacesEnd(doc, p) && t.end == t.start + 1 && doc[t.start] == mark[0] &&
      Spells(doc, t.end, rest)
  {
    HasAtIndex(doc, G.SpacesEnd(doc, p), mark);
    assert ([mark] + rest)[1..] == rest;
  }

  lemma WordToken(doc: string, p: nat, word: string, rest: seq<string>)
    requires p <= |doc| && Spells(doc, p, [word] + rest)
    requires word in {"null", "true", "false"}
    ensures var t := G.ReadToken(doc, p);
      t.kind == (match word[0] case 'n' => G.NullToken case 't' => G.TrueToken case _ => G.FalseToken) &&
      Spells(doc, t.end, rest)
  {
    hide Spells, G.SpacesEnd;
    var k := G.SpacesEnd(doc, p);
    SpellsHead(doc, p, word, rest);
    HasAtIndex(doc, k, word);
    assert doc[k + 1..k + |word|] == word[1..];
  }

  lemma SpellsHead(doc: string, p: nat, lexeme: string, rest: seq<string>)
    requires p <= |doc| && Spells(doc, p, [lexeme] + rest)
    ensures var k := G.SpacesEnd(doc, p);
      G.HasAt(doc, k, lexeme) && k + |lexeme| <= |doc| && Spells(doc, k + |lexeme|, rest)
  {
    assert ([lexeme] + rest)[1..] == rest;
  }

  lemma QuotedToken(doc: string, p: nat, s: string, rest: seq<string>)
    requires p <= |doc| && Spells(doc, p, [T.Quoted(s)] + rest) && NUL !in s
    ensures var t := G.ReadToken(doc, p);
      t.kind == G.StringToken && G.DecodeString(doc, t) == G.Good(s) && Spells(doc, t.end, rest)
  {
    hide Spells, G.DecodeFrom, G.StringScan, T.Escaped;
    var k := G.SpacesEnd(doc, p);
    SpellsHead(doc, p, T.Quoted(s), rest);
    assert T.Quoted(s) == "\"" + (T.Escaped(s) + "\"");
    HasAtSplit(doc, k, "\"", T.Escaped(s) + "\"");
    HasAtSplit(doc, k + 1, T.Escaped(s), "\"");
    HasAtIndex(doc, k, "\"");
    QuotedScan(doc, k + 1, s);
    QuotedDecodes(doc, k + 1, s, "");
    assert "" + s == s;
  }

  /** What an integer is read back as: itself within the range that decodeNumber
      handles exactly, a real number beyond it. */
  function ReadBackInt(scan: G.Scanner, i: int): Value
    requires -0x8000_0000 <= i < 0x1_0000_0000
    requires IsExact(i) || scan(T.IntText(i)).Some?
  {
    if !IsExact(i) then Real(scan(T.IntText(i)).value)
    else if i <= G.MAX_INT then Int(i)
    else UInt(i)
  }

  predicate IsExact(i: int) {
    -2147483640 < i < 4294967290
  }

  lemma IntDigits(doc: string, p: nat, i: int)
    requires G.HasAt(doc, p, T.IntText(i))
    ensures i < 0 ==> doc[p] == '-' && G.HasAt(doc, p + 1, T.Digits(-i))
    ensures i >= 0 ==> G.IsDigit(doc[p])
    ensures forall j :: p < j < p + |T.IntText(i)| ==> G.IsDigit(doc[j])
  {
    if i < 0 { HasAtSplit(doc, p, "-", T.Digits(-i)); }
    var from := if i < 0 then p + 1 else p;
    var digits := T.Digits(if i < 0 then -i else i);
    DigitsAreDigits(if i < 0 then -i else i);
    HasAtIndex(doc, from, digits);
    HasAtIndex(doc, p, T.IntText(i));
    forall j | from <= j < p + |T.IntText(i)| ensures G.IsDigit(doc[j]) {
      assert doc[from + (j - from)] == digits[j - from];
    }
  }

  lemma IntDecodes(scan: G.Scanner, doc: string, t: G.Token, i: int)
    requires -0x8000_0000 <= i < 0x1_0000_0000
    requires t.end == t.start + |T.IntText(i)| && G.HasAt(doc, t.start, T.IntText(i))
    requires IsExact(i) || scan(T.IntText(i)).Some?
    ensures G.DecodeNumber(scan, doc, t) == G.Some(ReadBackInt(scan, i))
  {
    hide G.DigitsFrom, T.Digits;
    IntDigits(doc, t.start, i);
    DigitsRead(doc, if i < 0 then t.start + 1 else t.start, if i < 0 then -i else i, G.Threshold(i < 0));
  }

  lemma IntToken(scan: G.Scanner, doc: string, p: nat, i: int, rest: seq<string>)
    requires -0x8000_0000 <= i < 0x1_0000_0000
    requires p <= |doc| && Spells(doc, p, [T.IntText(i)] + rest) && Delimits(rest)
    requires IsExact(i) || scan(T.IntText(i)).Some?
    ensures var t := G.ReadToken(doc, p);
      t.kind == G.NumberToken && Spells(doc, t.end, rest) &&
      G.DecodeNumber(scan, doc, t) == G.Some(ReadBackInt(scan, i))
  {
    hide G.DecodeNumber, G.NumberEnd, T.IntText;
    var k, text := G.SpacesEnd(doc, p), T.IntText(i);
    var end := k + |text|;
    assert ([text] + rest)[1..] == rest;
    IntDigits(doc, k, i);
    NumberStops(doc, end, rest);
    NumberRuns(doc, k + 1, end);
    IntDecodes(scan, doc, G.Token(G.NumberToken, k, end), i);
  }

  // ----- reading a tree -----

  /** The trees that a Value can hold and a reader can read back: C strings, members
      in ascending order, no real numbers, and integers that the reader can decode. */
  ghost predicate Readable(scan: G.Scanner, v: Value)
    decreases v
  {
    match v
    case Int(i) => IsExact(i) || scan(T.IntText(i)).Some?
    case UInt(u) => IsExact(u) || scan(T.IntText(u)).Some?
    case Real(_) => false
    case String(s) => NUL !in s
    case Array(es) => forall k :: 0 <= k < |es| ==> Readable(scan, es[k])
    case Object(ms) =>
      Ascending(ms) && forall k :: 0 <= k < |ms| ==> NUL !in ms[k].name && Readable(scan, ms[k].value)
    case _ => true
  }

  /** What a readable tree is read back as. */
  ghost function ReadBack(scan: G.Scanner, v: Value): Value
    requires Readable(scan, v)
    decreases v
  {
    match v
    case Int(i) => ReadBackInt(scan, i)
    case UInt(u) => ReadBackInt(scan, u)
    case Array(es) => Array(seq(|es|, k requires 0 <= k < |es| => ReadBack(scan, es[k])))
    case Object(ms) =>
      Object(seq(|ms|, k requires 0 <= k < |ms| => Member(ms[k].name, ReadBack(scan, ms[k].value))))
    case _ => v
  }

  /** Reading from p gave this value, recorded no error, and left `rest` to be read. */
  ghost predicate Reads(doc: string, r: G.Read, v: Value, errors: seq<G.ErrorInfo>, rest: seq<string>) {
    r.ok && r.value == v && r.errors == errors && r.pos <= |doc| && Spells(doc, r.pos, rest)
  }

  /** The token that starts a value is no comment. */
  lemma SameToken(cfg: G.Config, doc: string, p: nat)
    requires p <= |doc| && G.ReadToken(doc, p).kind != G.CommentToken
    ensures G.SkipCommentTokens(cfg, doc, p) == G.ReadPastComments(doc, p) == G.ReadToken(doc, p)
  {
  }

  lemma {:induction false} ReadsLeaf(cfg: G.Config, fmt: T.Format, doc: string, p: nat, v: Value, rest: seq<string>,
                                     node: Value, errors: seq<G.ErrorInfo>)
    requires !T.IsContainer(v) && Readable(cfg.scan, v)
    requires p <= |doc| && Spells(doc, p, Lexemes(fmt, v) + rest) && Delimits(rest)
    ensures Reads(doc, G.ReadValue(cfg, doc, p, node, errors), ReadBack(cfg.scan, v), errors, rest)
  {
    hide Spells, G.ReadToken, G.DecodeNumber, G.DecodeString, G.ReadElements, G.ReadMembers, T.IntText, T.Quoted,
      G.SkipCommentTokens;
    match v
    case Int(i) => IntToken(cfg.scan, doc, p, i, rest); SameToken(cfg, doc, p);
    case UInt(u) => IntToken(cfg.scan, doc, p, u, rest); SameToken(cfg, doc, p);
    case String(s) => QuotedToken(doc, p, s, rest); SameToken(cfg, doc, p);
    case Null => WordToken(doc, p, "null", rest); SameToken(cfg, doc, p);
    case Bool(b) => WordToken(doc, p, if b then "true" else "false", rest); SameToken(cfg, doc, p);
  }

  /** An array or an object is read from after the bracket or the brace. */
  lemma Opens(cfg: G.Config, doc: string, p: nat, node: Value, errors: seq<G.ErrorInfo>)
    requires p <= |doc|
    ensures var t := G.ReadToken(doc, p);
      (t.kind == G.ObjectBegin ==>
        G.ReadValue(cfg, doc, p, node, errors) == G.ReadMembers(cfg, doc, t.end, [], "", errors)) &&
      (t.kind == G.ArrayBegin ==>
        var q := G.SpacesEnd(doc, t.end);
        G.ReadValue(cfg, doc, p, node, errors) ==
          if q < |doc| && doc[q] == ']' then G.Read(true, q + 1, Array([]), errors)
          else G.ReadElements(cfg, doc, q, [], errors))
  {
    hide G.ReadToken, G.ReadElements, G.ReadMembers, G.SpacesEnd, G.DecodeNumber, G.DecodeString, CStr;
    if G.ReadToken(doc, p).kind != G.CommentToken { SameToken(cfg, doc, p); }
  }

  /** The lexemes after the bracket or the brace, and what is read back. */
  lemma Opened(scan: G.Scanner, fmt: T.Format, v: Value, rest: seq<string>)
    requires Readable(scan, v)
    ensures v.Array? ==>
      Lexemes(fmt, v) + rest == ["["] + (ElemLexemes(fmt, v.elems, 0) + rest) &&
      ReadBack(scan, v) == Array(ReadBackElems(scan, v.elems, |v.elems|))
    ensures v.Object? ==>
      Lexemes(fmt, v) + rest == ["{"] + (MemberLexemes(fmt, v.members, 0) + rest) &&
      ReadBack(scan, v) == Object(ReadBackMembers(scan, v.members, |v.members|))
  {
    hide ElemLexemes, MemberLexemes, T.Quoted, T.Digits;
  }

  lemma {:induction false} ReadsValue(cfg: G.Config, fmt: T.Format, doc: string, p: nat, v: Value, rest: seq<string>,
                                      node: Value, errors: seq<G.ErrorInfo>)
    requires Readable(cfg.scan, v)
    requires p <= |doc| && Spells(doc, p, Lexemes(fmt, v) + rest) && Delimits(rest)
    ensures Reads(doc, G.ReadValue(cfg, doc, p, node, errors), ReadBack(cfg.scan, v), errors, rest)
    decreases v, 0
  {
    hide Spells, Lexemes, ElemLexemes, MemberLexemes, ReadBack;
    hide G.ReadToken, G.ReadValue, G.ReadElements, G.ReadMembers, G.SpacesEnd;
    Opened(cfg.scan, fmt, v, rest);
    match v
    case Array(es) =>
      var after := ElemLexemes(fmt, es, 0) + rest;
      PunctuationToken(doc, p, "[", after);
      Opens(cfg, doc, p, node, errors);
      ReadsArray(cfg, fmt, doc, G.ReadToken(doc, p).end, es, rest, errors);
    case Object(ms) =>
      var after := MemberLexemes(fmt, ms, 0) + rest;
      PunctuationToken(doc, p, "{", after);
      Opens(cfg, doc, p, node, errors);
      ReadsObject(cfg, fmt, doc, G.ReadToken(doc, p).end, ms, rest, errors);
    case _ => ReadsLeaf(cfg, fmt, doc, p, v, rest, node, errors);
  }

  ghost function ReadBackElems(scan: G.Scanner, es: seq<Value>, k: nat): seq<Value>
    requires k <= |es| && forall j :: 0 <= j < |es| ==> Readable(scan, es[j])
  {
    seq(k, j requires 0 <= j < k => ReadBack(scan, es[j]))
  }

  ghost function ReadBackMembers(scan: G.Scanner, ms: seq<Member>, k: nat): seq<Member>
    requires k <= |ms| && forall j :: 0 <= j < |ms| ==> Readable(scan, ms[j].value)
  {
    seq(k, j requires 0 <= j < k => Member(ms[j].name, ReadBack(scan, ms[j].value)))
  }

  /** From after the opening bracket. */
  lemma {:induction false} ReadsArray(cfg: G.Config, fmt: T.Format, doc: string, p: nat, es: seq<Value>, rest: seq<string>,
                                      errors: seq<G.ErrorInfo>)
    requires forall j :: 0 <= j < |es| ==> Readable(cfg.scan, es[j])
    requires p <= |doc| && Spells(doc, p, ElemLexemes(fmt, es, 0) + rest) && Delimits(rest)
    ensures var q := G.SpacesEnd(doc, p);
      Reads(doc, if q < |doc| && doc[q] == ']' then G.Read(true, q + 1, Array([]), errors)
                 else G.ReadElements(cfg, doc, q, [], errors),
            Array(ReadBackElems(cfg.scan, es, |es|)), errors, rest)
    decreases es, |es| + 1
  {
    hide G.ReadElements, G.ReadValue, ReadBack, Lexemes;
    var q := G.SpacesEnd(doc, p);
    if es == [] {
      hide Spells;
      PunctuationToken(doc, p, "]", rest);
    } else {
      var ls := Lexemes(fmt, es[0]) + (ElemLexemes(fmt, es, 1) + rest);
      assert ElemLexemes(fmt, es, 0) + rest == ls;
      assert Spells(doc, q, ls) by { assert G.SpacesEnd(doc, q) == q; }
      assert doc[q] != ']' by {
        FirstLexeme(fmt, es[0]);
        HasAtIndex(doc, q, ls[0]);
        assert doc[q] == ls[0][0];
      }
      assert ReadBackElems(cfg.scan, es, 0) == [];
      ReadsElems(cfg, fmt, doc, q, es, 0, rest, errors);
    }
  }

  /** No value starts like the end of an array. */
  lemma FirstLexeme(fmt: T.Format, v: Value)
    requires !v.Real?
    ensures Lexemes(fmt, v) != [] && Lexemes(fmt, v)[0] != "" && Lexemes(fmt, v)[0][0] != ']'
  {
    match v
    case Int(i) => DigitsAreDigits(if i < 0 then 0 - (i as int) else i);
      assert i >= 0 ==> G.IsDigit(T.Digits(i)[0]);
    case UInt(u) => DigitsAreDigits(u);
      assert G.IsDigit(T.Digits(u)[0]);
    case _ =>
  }

  /** From before the k-th element. */
  lemma {:induction false} ReadsElems(cfg: G.Config, fmt: T.Format, doc: string, p: nat, es: seq<Value>, k: nat,
                                      rest: seq<string>, errors: seq<G.ErrorInfo>)
    requires k < |es| && forall j :: 0 <= j < |es| ==> Readable(cfg.scan, es[j])
    requires p <= |doc| && Spells(doc, p, Lexemes(fmt, es[k]) + (ElemLexemes(fmt, es, k + 1) + rest)) && Delimits(rest)
    ensures Reads(doc, G.ReadElements(cfg, doc, p, ReadBackElems(cfg.scan, es, k), errors),
                  Array(ReadBackElems(cfg.scan, es, |es|)), errors, rest)
    decreases es, |es| - k
  {
    hide Spells, Lexemes, G.ReadToken, G.ReadValue, ReadBack, G.Recover, G.ReadPastComments;
    var after := ElemLexemes(fmt, es, k + 1) + rest;
    ReadsValue(cfg, fmt, doc, p, es[k], after, Null, errors);
    var r := G.ReadValue(cfg, doc, p, Null, errors);
    assert ReadBackElems(cfg.scan, es, k) + [r.value] == ReadBackElems(cfg.scan, es, k + 1);
    if k + 1 == |es| {
      assert after == ["]"] + rest;
      PunctuationToken(doc, r.pos, "]", rest);
      SameToken(cfg, doc, r.pos);
    } else {
      var next := Lexemes(fmt, es[k + 1]) + (ElemLexemes(fmt, es, k + 2) + rest);
      assert after == [","] + next;
      PunctuationToken(doc, r.pos, ",", next);
      SameToken(cfg, doc, r.pos);
      ReadsElems(cfg, fmt, doc, G.ReadToken(doc, r.pos).end, es, k + 1, rest, errors);
    }
  }

  /** From after the opening brace. */
  lemma {:induction false} ReadsObject(cfg: G.Config, fmt: T.Format, doc: string, p: nat, ms: seq<Member>, rest: seq<string>,
                                       errors: seq<G.ErrorInfo>)
    requires Ascending(ms)
    requires forall j :: 0 <= j < |ms| ==> NUL !in ms[j].name && Readable(cfg.scan, ms[j].value)
    requires p <= |doc| && Spells(doc, p, MemberLexemes(fmt, ms, 0) + rest) && Delimits(rest)
    ensures Reads(doc, G.ReadMembers(cfg, doc, p, [], "", errors),
                  Object(ReadBackMembers(cfg.scan, ms, |ms|)), errors, rest)
    decreases ms, |ms| + 1
  {
    hide Spells, G.ReadToken, G.AfterName, G.ReadPastComments, ReadBack, Lexemes, T.Quoted;
    if ms == [] {
      PunctuationToken(doc, p, "}", rest);
      SameToken(cfg, doc, p);
    } else {
      assert MemberLexemes(fmt, ms, 0) + rest == NameAndValue(fmt, ms, 0) + (MemberLexemes(fmt, ms, 1) + rest);
      assert ReadBackMembers(cfg.scan, ms, 0) == [];
      ReadsMembers(cfg, fmt, doc, p, ms, 0, "", rest, errors);
    }
  }

  function NameAndValue(fmt: T.Format, ms: seq<Member>, k: nat): seq<string>
    requires k < |ms|
  {
    [T.Quoted(ms[k].name), ":"] + Lexemes(fmt, ms[k].value)
  }

  /** A name above all others makes a new last member. */
  lemma ResolveAppends(ms: seq<Member>, name: string, v: Value)
    requires forall j :: 0 <= j < |ms| ==> Less(ms[j].name, name)
    ensures Resolve(ms, name) == ms + [Member(name, Null)]
    ensures Slot(Resolve(ms, name), name) == |ms|
    ensures Resolve(ms, name)[|ms| := Member(name, v)] == ms + [Member(name, v)]
  {
    SlotIs(ms, name, |ms|);
    LessTotal(name, name);
    SlotIs(ms + [Member(name, Null)], name, |ms|);
  }

  /** From before the k-th member. */
  lemma {:induction false} ReadsMembers(cfg: G.Config, fmt: T.Format, doc: string, p: nat, ms: seq<Member>, k: nat,
                                        name: string, rest: seq<string>, errors: seq<G.ErrorInfo>)
    requires k < |ms| && Ascending(ms)
    requires forall j :: 0 <= j < |ms| ==> NUL !in ms[j].name && Readable(cfg.scan, ms[j].value)
    requires p <= |doc| && Delimits(rest)
    requires Spells(doc, p, NameAndValue(fmt, ms, k) + (MemberLexemes(fmt, ms, k + 1) + rest))
    ensures Reads(doc, G.ReadMembers(cfg, doc, p, ReadBackMembers(cfg.scan, ms, k), name, errors),
                  Object(ReadBackMembers(cfg.scan, ms, |ms|)), errors, rest)
    decreases ms, |ms| - k, 0
  {
    hide Spells, Lexemes, G.ReadToken, G.ReadValue, ReadBack, G.Recover, G.ReadPastComments, G.AfterMember,
      T.Quoted, Slot, Resolve;
    var after := MemberLexemes(fmt, ms, k + 1) + rest;
    var before, n := ReadBackMembers(cfg.scan, ms, k), ms[k].name;
    var ls := [":"] + (Lexemes(fmt, ms[k].value) + after);
    assert NameAndValue(fmt, ms, k) + after == [T.Quoted(n)] + ls;
    QuotedToken(doc, p, n, ls);
    SameToken(cfg, doc, p);
    var q := G.ReadToken(doc, p).end;
    PunctuationToken(doc, q, ":", Lexemes(fmt, ms[k].value) + after);
    var colon := G.ReadToken(doc, q);
    ReadsValue(cfg, fmt, doc, colon.end, ms[k].value, after, Null, errors);
    var r := G.ReadValue(cfg, doc, colon.end, Null, errors);
    ResolveAppends(before, n, r.value);
    assert before + [Member(n, r.value)] == ReadBackMembers(cfg.scan, ms, k + 1);
    ReadsAfterMember(cfg, fmt, doc, r.pos, ms, k + 1, n, rest, errors);
  }

  /** From after the value of the member before the k-th. */
  lemma {:induction false} ReadsAfterMember(cfg: G.Config, fmt: T.Format, doc: string, p: nat, ms: seq<Member>, k: nat,
                                            name: string, rest: seq<string>, errors: seq<G.ErrorInfo>)
    requires 0 < k <= |ms| && Ascending(ms)
    requires forall j :: 0 <= j < |ms| ==> NUL !in ms[j].name && Readable(cfg.scan, ms[j].value)
    requires p <= |doc| && Delimits(rest) && Spells(doc, p, MemberLexemes(fmt, ms, k) + rest)
    ensures Reads(doc, G.AfterMember(cfg, doc, p, ReadBackMembers(cfg.scan, ms, k), name, errors),
                  Object(ReadBackMembers(cfg.scan, ms, |ms|)), errors, rest)
    decreases ms, |ms| - k, 1
  {
    hide Spells, Lexemes, G.ReadToken, G.ReadPastComments, G.ReadMembers, ReadBack, T.Quoted;
    if k == |ms| {
      assert MemberLexemes(fmt, ms, k) + rest == ["}"] + rest;
      PunctuationToken(doc, p, "}", rest);
      SameToken(cfg, doc, p);
    } else {
      var next := NameAndValue(fmt, ms, k) + (MemberLexemes(fmt, ms, k + 1) + rest);
      assert MemberLexemes(fmt, ms, k) + rest == [","] + next;
      PunctuationToken(doc, p, ",", next);
      SameToken(cfg, doc, p);
      ReadsMembers(cfg, fmt, doc, G.ReadToken(doc, p).end, ms, k, name, rest, errors);
    }
  }

  // ----- the round trip -----

  /** The document that a spelling of a tree's lexemes makes is parsed, without
      errors, into what the tree is read back as. */
  lemma ParsesSpelling(cfg: G.Config, fmt: T.Format, doc: string, v: Value, root: Value)
    requires Readable(cfg.scan, v) && Spells(doc, 0, Lexemes(fmt, v))
    requires cfg.features.strictRoot ==> G.IsArrayOrObject(v)
    ensures var r := G.ParseDocument(cfg, doc, root); r.ok && r.value == ReadBack(cfg.scan, v) && r.errors == []
  {
    assert Lexemes(fmt, v) + [] == Lexemes(fmt, v);
    ReadsValue(cfg, fmt, doc, 0, v, [], root, []);
  }

  lemma {:induction false} ReadableHasNoReals(scan: G.Scanner, v: Value)
    requires Readable(scan, v)
    ensures NoReals(v)
    decreases v
  {
    match v
    case Array(es) => forall k | 0 <= k < |es| ensures NoReals(es[k]) { ReadableHasNoReals(scan, es[k]); }
    case Object(ms) =>
      forall k | 0 <= k < |ms| ensures NoReals(ms[k].value) { ReadableHasNoReals(scan, ms[k].value); }
    case _ =>
  }

  /** Parsing the text of either writer: every readable tree comes back as ReadBack
      says, whatever the root held before. */
  lemma WriteThenParse(cfg: G.Config, fmt: T.Format, yaml: bool, v: Value, root: Value)
    requires Readable(cfg.scan, v)
    requires cfg.features.strictRoot ==> G.IsArrayOrObject(v)
    ensures var r := G.ParseDocument(cfg, T.Fast(fmt, yaml, "", v) + "\n", root);
      r.ok && r.value == ReadBack(cfg.scan, v) && r.errors == []
    ensures var r := G.ParseDocument(cfg, T.Styled(fmt, "", "", v) + "\n", root);
      r.ok && r.value == ReadBack(cfg.scan, v) && r.errors == []
  {
    hide G.ParseDocument, T.Fast, T.Styled;
    ReadableHasNoReals(cfg.scan, v);
    assert [] + Lexemes(fmt, v) == Lexemes(fmt, v);
    FastSpells(fmt, yaml, "", [], v);
    SpellsBlank(T.Fast(fmt, yaml, "", v), 0, Lexemes(fmt, v), "\n");
    ParsesSpelling(cfg, fmt, T.Fast(fmt, yaml, "", v) + "\n", v, root);
    StyledSpells(fmt, "", "", [], v);
    SpellsBlank(T.Styled(fmt, "", "", v), 0, Lexemes(fmt, v), "\n");
    ParsesSpelling(cfg, fmt, T.Styled(fmt, "", "", v) + "\n", v, root);
  }

  /** Integers that decodeNumber gives back unchanged, of the kind it gives them. */
  predicate IsExactTree(v: Value)
    decreases v
  {
    match v
    case Int(i) => IsExact(i)
    case UInt(u) => IsExact(u) && u > G.MAX_INT
    case Array(es) => forall k :: 0 <= k < |es| ==> IsExactTree(es[k])
    case Object(ms) => forall k :: 0 <= k < |ms| ==> IsExactTree(ms[k].value)
    case _ => true
  }

  /** A readable tree survives writing and parsing if and only if all its integers
      are in the exact range and of the right kind. */
  lemma {:induction false} ReadBackIsSame(scan: G.Scanner, v: Value)
    requires Readable(scan, v)
    ensures ReadBack(scan, v) == v <==> IsExactTree(v)
    decreases v
  {
    match v
    case Array(es) =>
      forall k | 0 <= k < |es| ensures ReadBack(scan, es[k]) == es[k] <==> IsExactTree(es[k]) {
        ReadBackIsSame(scan, es[k]);
      }
      var back := ReadBack(scan, v).elems;
      assert back == es <==> forall k :: 0 <= k < |es| ==> back[k] == es[k];
    case Object(ms) =>
      forall k | 0 <= k < |ms| ensures ReadBack(scan, ms[k].value) == ms[k].value <==> IsExactTree(ms[k].value) {
        ReadBackIsSame(scan, ms[k].value);
      }
      var back := ReadBack(scan, v).members;
      assert back == ms <==> forall k :: 0 <= k < |ms| ==> back[k] == ms[k];
    case _ =>
  }

  // ----- what the reader makes of any text -----

  /** What every tree is that the reader builds: real numbers apart, a tree that the
      writers can write and the reader reads back unchanged. */
  ghost predicate Canonical(v: Value)
    decreases v
  {
    match v
    case Int(i) => IsExact(i)
    case UInt(u) => IsExact(u) && u > G.MAX_INT
    case String(s) => NUL !in s
    case Array(es) => forall k :: 0 <= k < |es| ==> Canonical(es[k])
    case Object(ms) => CanonicalMembers(ms)
    case _ => true
  }

  ghost predicate CanonicalMembers(ms: seq<Member>)
    decreases ms
  {
    Ascending(ms) && forall k :: 0 <= k < |ms| ==> NUL !in ms[k].name && Canonical(ms[k].value)
  }

  lemma {:induction false} CanonicalIsReadable(scan: G.Scanner, v: Value)
    requires Canonical(v) && NoReals(v)
    ensures Readable(scan, v) && IsExactTree(v)
    decreases v
  {
    match v
    case Array(es) =>
      forall k | 0 <= k < |es| ensures Readable(scan, es[k]) && IsExactTree(es[k]) { CanonicalIsReadable(scan, es[k]); }
    case Object(ms) =>
      forall k | 0 <= k < |ms| ensures Readable(scan, ms[k].value) && IsExactTree(ms[k].value) {
        CanonicalIsReadable(scan, ms[k].value);
      }
    case _ =>
  }

  lemma {:induction false} ValueIsCanonical(cfg: G.Config, doc: string, p: nat, node: Value, errors: seq<G.ErrorInfo>)
    requires p <= |doc|
    ensures var r := G.ReadValue(cfg, doc, p, node, errors); r.ok ==> Canonical(r.value)
    decreases |doc| - p, 3
  {
    hide G.ReadElements, G.ReadMembers, G.SkipCommentTokens, G.DecodeString, G.DigitsFrom;
    var t := G.SkipCommentTokens(cfg, doc, p);
    match t.kind
    case ObjectBegin => MembersAreCanonical(cfg, doc, t.end, [], "", errors);
    case ArrayBegin =>
      var q := G.SpacesEnd(doc, t.end);
      ElementsAreCanonical(cfg, doc, q, [], errors);
    case _ =>
  }

  lemma {:induction false} ElementsAreCanonical(cfg: G.Config, doc: string, p: nat, elems: seq<Value>,
                                                errors: seq<G.ErrorInfo>)
    requires p <= |doc| && forall k :: 0 <= k < |elems| ==> Canonical(elems[k])
    ensures var r := G.ReadElements(cfg, doc, p, elems, errors); r.ok ==> Canonical(r.value)
    decreases |doc| - p, 4
  {
    hide G.ReadValue, G.ReadPastComments, G.Recover;
    ValueIsCanonical(cfg, doc, p, Null, errors);
    var r := G.ReadValue(cfg, doc, p, Null, errors);
    if r.ok {
      var t := G.ReadPastComments(doc, r.pos);
      if t.kind != G.ArrayEnd { ElementsAreCanonical(cfg, doc, t.end, elems + [r.value], r.errors); }
    }
  }

  lemma {:induction false} MembersAreCanonical(cfg: G.Config, doc: string, p: nat, ms: seq<Member>, name: string,
                                               errors: seq<G.ErrorInfo>)
    requires p <= |doc| && CanonicalMembers(ms)
    ensures var r := G.ReadMembers(cfg, doc, p, ms, name, errors); r.ok ==> Canonical(r.value)
    decreases |doc| - p, 2
  {
    hide G.ReadPastComments, G.Recover, G.DecodeString, G.AfterName;
    var t := G.ReadPastComments(doc, p);
    if t.kind == G.StringToken && G.DecodeString(doc, t).Good? {
      NamedIsCanonical(cfg, doc, t.end, ms, G.DecodeString(doc, t).value, errors);
    }
  }

  lemma {:induction false} NamedIsCanonical(cfg: G.Config, doc: string, p: nat, ms: seq<Member>, name: string,
                                            errors: seq<G.ErrorInfo>)
    requires p <= |doc| && CanonicalMembers(ms)
    ensures var r := G.AfterName(cfg, doc, p, ms, name, errors); r.ok ==> Canonical(r.value)
    decreases |doc| - p, 1
  {
    hide G.Recover, G.ReadToken, G.ReadValue, G.AfterMember, CStr, Canonical, CanonicalMembers, Slot, Resolve, Ascending;
    var colon := G.ReadToken(doc, p);
    if colon.kind == G.MemberSeparator {
      var ms1 := Resolve(ms, CStr(name));
      ResolveHasName(ms, CStr(name));
      var i := Slot(ms1, CStr(name));
      ValueIsCanonical(cfg, doc, colon.end, ms1[i].value, errors);
      var r := G.ReadValue(cfg, doc, colon.end, ms1[i].value, errors);
      if r.ok {
        MemberIsCanonical(ms, name, r.value);
        AfterMemberIsCanonical(cfg, doc, r.pos, ms1[i := Member(CStr(name), r.value)], name, r.errors);
      }
    }
  }

  lemma MemberIsCanonical(ms: seq<Member>, name: string, v: Value)
    requires CanonicalMembers(ms) && Canonical(v)
    ensures var ms1 := Resolve(ms, CStr(name));
      var i := Slot(ms1, CStr(name));
      i < |ms1| && CanonicalMembers(ms1[i := Member(CStr(name), v)])
  {
    hide Slot;
    ResolveHasName(ms, CStr(name));
    ResolveAscends(ms, CStr(name));
    hide CStr;
  }

  lemma {:induction false} AfterMemberIsCanonical(cfg: G.Config, doc: string, p: nat, ms: seq<Member>, name: string,
                                                  errors: seq<G.ErrorInfo>)
    requires p <= |doc| && CanonicalMembers(ms)
    ensures var r := G.AfterMember(cfg, doc, p, ms, name, errors); r.ok ==> Canonical(r.value)
    decreases |doc| - p, 1
  {
    assert Canonical(Object(ms));
    hide G.ReadPastComments, G.Recover, G.ReadToken, G.ReadMembers, Canonical, CanonicalMembers;
    var last := G.ReadPastComments(doc, p);
    if G.ReadToken(doc, p).kind in {G.ObjectEnd, G.ArraySeparator, G.CommentToken} && last.kind != G.ObjectEnd {
      MembersAreCanonical(cfg, doc, last.end, ms, name, errors);
    }
  }

  /** Whatever text is accepted, if no number in it needed a double, then writing the
      tree that it gave and parsing that text gives the same tree again. */
  lemma ReprintIsStable(cfg: G.Config, fmt: T.Format, yaml: bool, doc: string, root: Value, root': Value)
    requires var r := G.ParseDocument(cfg, doc, root); r.ok && NoReals(r.value)
    ensures var v := G.ParseDocument(cfg, doc, root).value;
      var r := G.ParseDocument(cfg, T.Fast(fmt, yaml, "", v) + "\n", root');
      var s := G.ParseDocument(cfg, T.Styled(fmt, "", "", v) + "\n", root');
      r.ok && r.value == v && s.ok && s.value == v
  {
    hide G.ReadValue, T.Fast, T.Styled;
    ValueIsCanonical(cfg, doc, 0, root, []);
    var v := G.ParseDocument(cfg, doc, root).value;
    CanonicalIsReadable(cfg.scan, v);
    ReadBackIsSame(cfg.scan, v);
    WriteThenParse(cfg, fmt, yaml, v, root');
  }
}
