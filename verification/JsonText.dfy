/** The text that jsoncpp's writers produce, as functions of the tree. FastWriter
    and StyledWriter (in JsonWriter.dfy) are proved to produce exactly this text. */
module JsonText {
  import opened JsonValue

  // ----- numbers -----

  function DigitChar(d: nat): (c: char)
    requires d < 10
  {
    '0' + d as char
  }

  function Digits(n: nat): (r: string)
    ensures r != ""
  {
    if n < 10 then [DigitChar(n)] else Digits(n / 10) + [DigitChar(n % 10)]
  }

  function IntText(i: int): string {
    if i < 0 then "-" + Digits(-i) else Digits(i)
  }

  // ----- strings -----

  predicate IsControl(c: char) {
    0 as char < c <= 0x1F as char
  }

  /** The characters that strpbrk looks for. */
  predicate IsSpecial(c: char) {
    c in {'"', '\\', 8 as char, 12 as char, '\n', '\r', '\t'}
  }

  function HexChar(d: nat): char
    requires d < 16
  {
    if d < 10 then '0' + d as char else 'A' + (d - 10) as char
  }

  function EscapeOf(c: char): (r: string)
    ensures r != ""
  {
    match c
    case '"' => "\\\""
    case '\\' => "\\\\"
    case '\n' => "\\n"
    case '\r' => "\\r"
    case '\t' => "\\t"
    case _ =>
      if c == 8 as char then "\\b"
      else if c == 12 as char then "\\f"
      else if IsControl(c) then "\\u00" + [HexChar(c as nat / 16), HexChar(c as nat % 16)]
      else [c]
  }

  function Escaped(s: string): string {
    if s == "" then "" else EscapeOf(s[0]) + Escaped(s[1..])
  }

  function Quoted(s: string): string {
    "\"" + Escaped(s) + "\""
  }

  lemma EscapedAppend(s: string, c: char)
    ensures Escaped(s + [c]) == Escaped(s) + EscapeOf(c)
  {
    if s == "" {
      assert [c][1..] == "";
    } else {
      assert (s + [c])[1..] == s[1..] + [c];
      EscapedAppend(s[1..], c);
    }
  }

  /** The writer's shortcut: nothing to escape. */
  lemma EscapedPlain(s: string)
    requires forall c :: c in s ==> !IsSpecial(c) && !IsControl(c)
    ensures Escaped(s) == s
  {
    if s != "" {
      EscapedPlain(s[1..]);
      assert s[0] in s;
      assert s == [s[0]] + s[1..] && EscapeOf(s[0]) == [s[0]];
    }
  }

  // ----- values -----

  /** `format` stands for sprintf("%#.16g") with its trailing zeroes cut. */
  type Format = real -> string

  predicate IsContainer(v: Value) { v.Array? || v.Object? }

  function Size(v: Value): nat {
    match v
    case Array(es) => |es|
    case Object(ms) => |ms|
    case _ => 0
  }

  /** Leaves and empty containers, which are written as one piece of text. */
  predicate IsSmall(v: Value) { IsContainer(v) ==> Size(v) == 0 }

  function Inline(fmt: Format, v: Value): string
    requires IsSmall(v)
  {
    match v
    case Null => "null"
    case Bool(b) => if b then "true" else "false"
    case Int(i) => IntText(i)
    case UInt(u) => IntText(u)
    case Real(r) => fmt(r)
    case String(s) => Quoted(s)
    case Array(_) => "[]"
    case Object(_) => "{}"
  }

  function Comma(k: nat, comma: string): string {
    if k > 0 then comma else ""
  }

  // ----- the fast writer -----

  /** The document after writeValue. */
  function Fast(fmt: Format, yaml: bool, doc: string, v: Value): string
    decreases v, 0
  {
    match v
    case Array(es) => FastElems(fmt, yaml, doc + "[", es, 0) + "]"
    case Object(ms) => FastMembers(fmt, yaml, doc + "{", ms, 0) + "}"
    case _ => doc + Inline(fmt, v)
  }

  /** ... after the elements from the k-th on. */
  function FastElems(fmt: Format, yaml: bool, doc: string, es: seq<Value>, k: nat): string
    requires k <= |es|
    decreases es, |es| - k
  {
    if k == |es| then doc
    else FastElems(fmt, yaml, Fast(fmt, yaml, doc + Comma(k, ","), es[k]), es, k + 1)
  }

  function Colon(yaml: bool): string {
    if yaml then ": " else ":"
  }

  function FastMembers(fmt: Format, yaml: bool, doc: string, ms: seq<Member>, k: nat): string
    requires k <= |ms|
    decreases ms, |ms| - k
  {
    if k == |ms| then doc
    else
      var before := doc + Comma(k, ",") + Quoted(ms[k].name) + Colon(yaml);
      FastMembers(fmt, yaml, Fast(fmt, yaml, before, ms[k].value), ms, k + 1)
  }

  // ----- the styled writer -----

  const RIGHT_MARGIN: nat := 74
  const INDENT: string := "   "

  /** The document after writeIndent. */
  function IndentTo(doc: string, indent: string): string {
    if doc != "" && doc[|doc| - 1] == ' ' then doc
    else if doc != "" && doc[|doc| - 1] != '\n' then doc + "\n" + indent
    else doc + indent
  }

  function Inlines(fmt: Format, es: seq<Value>): (r: seq<string>)
    requires forall e :: e in es ==> IsSmall(e)
    ensures |r| == |es|
    ensures forall k :: 0 <= k < |es| ==> r[k] == Inline(fmt, es[k])
  {
    if es == [] then [] else Inlines(fmt, es[..|es| - 1]) + [Inline(fmt, es[|es| - 1])]
  }

  function TotalLength(texts: seq<string>): nat {
    if texts == [] then 0 else TotalLength(texts[..|texts| - 1]) + |texts[|texts| - 1]|
  }

  /** Many elements, or one that is a non-empty container. */
  predicate IsNested(es: seq<Value>) {
    |es| * 3 >= RIGHT_MARGIN || exists k :: 0 <= k < |es| && !IsSmall(es[k])
  }

  predicate IsMultiline(fmt: Format, es: seq<Value>) {
    IsNested(es) || 4 + (|es| - 1) * 2 + TotalLength(Inlines(fmt, es)) >= RIGHT_MARGIN
  }

  function Join(doc: string, texts: seq<string>, k: nat): string
    requires k <= |texts|
    decreases |texts| - k
  {
    if k == |texts| then doc else Join(doc + Comma(k, ", ") + texts[k], texts, k + 1)
  }

  /** The document after writeValue at the given indentation. */
  function Styled(fmt: Format, doc: string, indent: string, v: Value): string
    decreases v, 0
  {
    if IsSmall(v) then doc + Inline(fmt, v)
    else match v
      case Array(es) =>
        if IsMultiline(fmt, es) then
          IndentTo(StyledElems(fmt, IndentTo(doc, indent) + "[", indent + INDENT, es, 0), indent) + "]"
        else Join(doc + "[ ", Inlines(fmt, es), 0) + " ]"
      case Object(ms) =>
        IndentTo(StyledMembers(fmt, IndentTo(doc, indent) + "{", indent + INDENT, ms, 0), indent) + "}"
  }

  function StyledElems(fmt: Format, doc: string, indent: string, es: seq<Value>, k: nat): string
    requires k <= |es|
    decreases es, |es| - k
  {
    if k == |es| then doc
    else StyledElems(fmt, Styled(fmt, IndentTo(doc + Comma(k, ","), indent), indent, es[k]), indent, es, k + 1)
  }

  function StyledMembers(fmt: Format, doc: string, indent: string, ms: seq<Member>, k: nat): string
    requires k <= |ms|
    decreases ms, |ms| - k
  {
    if k == |ms| then doc
    else
      var before := IndentTo(doc + Comma(k, ","), indent) + Quoted(ms[k].name) + " : ";
      StyledMembers(fmt, Styled(fmt, before, indent, ms[k].value), indent, ms, k + 1)
  }
}
