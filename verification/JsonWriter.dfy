/** jsoncpp's FastWriter and StyledWriter: both append to a document they own. */
module JsonWriter {
  import opened JsonValue
  import T = JsonText

  // ----- leaves -----

  lemma DigitsLength(n: nat, bound: nat)
    requires n < Pow10(bound) && bound > 0
    ensures |T.Digits(n)| <= bound
  {
    if n >= 10 { DigitsLength(n / 10, bound - 1); }
  }

  function Pow10(n: nat): nat {
    if n == 0 then 1 else 10 * Pow10(n - 1)
  }

  /** Writes a terminator and the digits of `value` backwards from `current`. */
  method UintToString(value: uint32, buffer: array<char>, current: nat) returns (next: nat)
    requires 12 <= current <= buffer.Length
    modifies buffer
    ensures current - 11 <= next < current - 1
    ensures buffer[next..current - 1] == T.Digits(value)
    ensures buffer[current - 1] == NUL
    ensures forall k :: 0 <= k < buffer.Length && !(next <= k < current) ==> buffer[k] == old(buffer[k])
  {
    assert Pow10(10) == 10_000_000_000 by { assert Pow10(5) == 100_000; }
    DigitsLength(value, 10);
    next := current - 1;
    buffer[next] := NUL;
    var rest: nat := value;
    ghost var written := "";
    while true
      invariant next + |written| == current - 1 && current - 1 - next + |T.Digits(rest)| <= 10
      invariant buffer[next..current - 1] == written
      invariant T.Digits(value) == T.Digits(rest) + written
      invariant buffer[current - 1] == NUL
      invariant forall k :: 0 <= k < buffer.Length && !(next <= k < current) ==> buffer[k] == old(buffer[k])
      decreases rest
    {
      next := next - 1;
      buffer[next] := T.DigitChar(rest % 10);
      assert buffer[next..current - 1] == [buffer[next]] + buffer[next + 1..current - 1];
      written := [T.DigitChar(rest % 10)] + written;
      if rest < 10 { break; }
      assert T.Digits(value) == T.Digits(rest / 10) + written;
      rest := rest / 10;
    }
  }

  /** Both integer forms of valueToString. Negating the least int wraps to itself,
      so the digits written are those of its magnitude. */
  method IntToString(value: int) returns (text: string)
    requires -0x8000_0000 <= value < 0x1_0000_0000
    ensures text == T.IntText(value)
  {
    var buffer := new char[32];
    var isNegative := value < 0;
    var current := UintToString(if isNegative then -value else value, buffer, buffer.Length);
    if isNegative {
      ghost var digits := buffer[current..31];
      current := current - 1;
      buffer[current] := '-';
      assert buffer[current..31] == "-" + digits;
    }
    text := buffer[current..buffer.Length - 1];
  }

  method ContainsControlCharacter(text: string) returns (found: bool)
    ensures found <==> exists c :: c in text && T.IsControl(c)
  {
    for k := 0 to |text|
      invariant forall j :: 0 <= j < k ==> !T.IsControl(text[j])
    {
      if T.IsControl(text[k]) { return true; }
    }
    return false;
  }

  method QuotedString(value: string) returns (result: string)
    ensures result == T.Quoted(value)
  {
    hide T.Escaped, T.EscapeOf;
    var control := ContainsControlCharacter(value);
    if !control && forall c :: c in value ==> !T.IsSpecial(c) {
      T.EscapedPlain(value);
      return "\"" + value + "\"";
    }
    result := EscapedFrom("\"", value);
    result := result + "\"";
  }

  /** The loop of valueToQuotedString over the characters. */
  method EscapedFrom(start: string, value: string) returns (result: string)
    ensures result == start + T.Escaped(value)
  {
    hide T.Escaped, T.EscapeOf;
    EscapedEnds(value);
    result := start;
    for k := 0 to |value|
      invariant result == start + T.Escaped(value[..k])
    {
      EscapedPrefix(start, value, k);
      result := result + T.EscapeOf(value[k]);
    }
  }

  lemma EscapedEnds(value: string)
    ensures T.Escaped(value[..0]) == "" && value[..|value|] == value
  {
  }

  lemma EscapedPrefix(start: string, value: string, k: nat)
    requires k < |value|
    ensures start + T.Escaped(value[..k + 1]) == start + T.Escaped(value[..k]) + T.EscapeOf(value[k])
  {
    hide T.Escaped, T.EscapeOf;
    T.EscapedAppend(value[..k], value[k]);
    assert value[..k + 1] == value[..k] + [value[k]];
  }

  method SmallText(fmt: T.Format, v: Value) returns (text: string)
    requires T.IsSmall(v)
    ensures text == T.Inline(fmt, v)
  {
    match v
    case Null => text := "null";
    case Bool(b) => text := if b then "true" else "false";
    case Int(i) => text := IntToString(i);
    case UInt(u) => text := IntToString(u);
    case Real(r) => text := fmt(r);
    case String(s) => text := QuotedString(s);
    case Array(_) => text := "[]";
    case Object(_) => text := "{}";
  }

  // ----- writers -----

  class FastWriter {
    const fmt: T.Format
    var document: string
    var yamlCompatibility: bool

    constructor (fmt: T.Format)
      ensures this.fmt == fmt && !yamlCompatibility
    {
      this.fmt := fmt;
      document, yamlCompatibility := "", false;
    }

    method Write(root: Value) returns (text: string)
      modifies this
      ensures text == T.Fast(fmt, yamlCompatibility, "", root) + "\n"
      ensures yamlCompatibility == old(yamlCompatibility)
    {
      document := "";
      WriteValue(root);
      document := document + "\n";
      return document;
    }

    method WriteValue(v: Value)
      modifies this`document
      ensures document == T.Fast(fmt, yamlCompatibility, old(document), v)
      decreases v
    {
      if v.Array? {
        document := document + "[";
        for index := 0 to |v.elems|
          invariant T.FastElems(fmt, yamlCompatibility, document, v.elems, index)
            == T.FastElems(fmt, yamlCompatibility, old(document) + "[", v.elems, 0)
        {
          document := document + T.Comma(index, ",");
          WriteValue(v.elems[index]);
        }
        document := document + "]";
      } else if v.Object? {
        document := document + "{";
        for index := 0 to |v.members|
          invariant T.FastMembers(fmt, yamlCompatibility, document, v.members, index)
            == T.FastMembers(fmt, yamlCompatibility, old(document) + "{", v.members, 0)
        {
          document := document + T.Comma(index, ",");
          var name := QuotedString(v.members[index].name);
          document := document + name;
          document := document + T.Colon(yamlCompatibility);
          WriteValue(v.members[index].value);
        }
        document := document + "}";
      } else {
        var text := SmallText(fmt, v);
        document := document + text;
      }
    }
  }

  class StyledWriter {
    const fmt: T.Format
    var document: string
    var indentString: string
    var addChildValues: bool
    var childValues: seq<string>

    constructor (fmt: T.Format)
      ensures this.fmt == fmt
    {
      this.fmt := fmt;
      document, indentString, addChildValues, childValues := "", "", false, [];
    }

    method Write(root: Value) returns (text: string)
      modifies this
      ensures text == T.Styled(fmt, "", "", root) + "\n"
    {
      document, addChildValues, indentString := "", false, "";
      WriteValue(root);
      document := document + "\n";
      return document;
    }

    method PushValue(text: string)
      modifies this`document, this`childValues
      ensures addChildValues ==> childValues == old(childValues) + [text] && document == old(document)
      ensures !addChildValues ==> childValues == old(childValues) && document == old(document) + text
    {
      if addChildValues { childValues := childValues + [text]; } else { document := document + text; }
    }

    method WriteIndent()
      modifies this`document
      ensures document == T.IndentTo(old(document), indentString)
    {
      if document != "" {
        var last := document[|document| - 1];
        if last == ' ' { return; }
        if last != '\n' { document := document + "\n"; }
      }
      document := document + indentString;
    }

    method WriteWithIndent(text: string)
      modifies this`document
      ensures document == T.IndentTo(old(document), indentString) + text
    {
      WriteIndent();
      document := document + text;
    }

    method Indent()
      modifies this`indentString
      ensures indentString == old(indentString) + T.INDENT
    {
      indentString := indentString + T.INDENT;
    }

    method Unindent()
      requires |indentString| >= |T.INDENT|
      modifies this`indentString
      ensures indentString == old(indentString)[..|old(indentString)| - |T.INDENT|]
    {
      indentString := indentString[..|indentString| - |T.INDENT|];
    }

    /** While child values are being collected the text goes to them; otherwise
        it goes to the document. */
    method WriteValue(v: Value)
      requires addChildValues ==> T.IsSmall(v)
      modifies this
      ensures indentString == old(indentString) && addChildValues == old(addChildValues)
      ensures addChildValues ==> childValues == old(childValues) + [T.Inline(fmt, v)] && document == old(document)
      ensures !addChildValues ==> document == T.Styled(fmt, old(document), indentString, v)
      decreases v, 2
    {
      if T.IsSmall(v) {
        var text := SmallText(fmt, v);
        PushValue(text);
      } else if v.Array? {
        WriteArrayValue(v.elems);
      } else {
        WriteWithIndent("{");
        Indent();
        ghost var inner := document;
        var index := 0;
        while index < |v.members|
          invariant 0 <= index <= |v.members|
          invariant indentString == old(indentString) + T.INDENT && !addChildValues
          invariant T.StyledMembers(fmt, document, indentString, v.members, index)
            == T.StyledMembers(fmt, inner, indentString, v.members, 0)
        {
          document := document + T.Comma(index, ",");
          var name := QuotedString(v.members[index].name);
          WriteWithIndent(name);
          document := document + " : ";
          WriteValue(v.members[index].value);
          index := index + 1;
        }
        Unindent();
        WriteWithIndent("}");
      }
    }

    method WriteArrayValue(es: seq<Value>)
      requires es != [] && !addChildValues
      modifies this
      ensures indentString == old(indentString) && !addChildValues
      ensures document == T.Styled(fmt, old(document), indentString, Array(es))
      decreases es, 2
    {
      hide T.IsMultiline, T.Inlines, T.IndentTo, T.StyledMembers;
      var multiline := IsMultilineArray(es);
      if multiline {
        WriteWithIndent("[");
        Indent();
        ghost var inner := document;
        var hasChildValue := childValues != [];
        var index := 0;
        while index < |es|
          invariant 0 <= index <= |es|
          invariant indentString == old(indentString) + T.INDENT && !addChildValues
          invariant hasChildValue ==> !T.IsNested(es) && childValues == T.Inlines(fmt, es)
          invariant T.StyledElems(fmt, document, indentString, es, index)
            == T.StyledElems(fmt, inner, indentString, es, 0)
        {
          document := document + T.Comma(index, ",");
          if hasChildValue {
            WriteWithIndent(childValues[index]);
          } else {
            WriteIndent();
            WriteValue(es[index]);
          }
          index := index + 1;
        }
        Unindent();
        WriteWithIndent("]");
      } else {
        document := document + "[ ";
        for index := 0 to |es|
          invariant indentString == old(indentString) && !addChildValues
          invariant childValues == T.Inlines(fmt, es)
          invariant T.Join(document, childValues, index) == T.Join(old(document) + "[ ", childValues, 0)
        {
          document := document + T.Comma(index, ", ");
          document := document + childValues[index];
        }
        document := document + " ]";
      }
    }

    /** Collects the texts of the elements, unless the array is nested. */
    method IsMultilineArray(es: seq<Value>) returns (multiline: bool)
      requires es != [] && !addChildValues
      modifies this
      ensures document == old(document) && indentString == old(indentString) && !addChildValues
      ensures multiline == T.IsMultiline(fmt, es) && (T.IsNested(es) ==> multiline)
      ensures if T.IsNested(es) then childValues == [] else childValues == T.Inlines(fmt, es)
      decreases es, 1
    {
      var size := |es|;
      multiline := size * 3 >= T.RIGHT_MARGIN;
      childValues := [];
      var index := 0;
      while index < size && !multiline
        invariant 0 <= index <= size
        invariant multiline <==> size * 3 >= T.RIGHT_MARGIN || exists k :: 0 <= k < index && !T.IsSmall(es[k])
        invariant childValues == [] && document == old(document) && indentString == old(indentString) && !addChildValues
      {
        multiline := T.IsContainer(es[index]) && T.Size(es[index]) > 0;
        index := index + 1;
      }
      if !multiline {
        var lineLength := CollectValues(es);
        multiline := lineLength >= T.RIGHT_MARGIN;
      }
    }

    /** The texts of small elements, and the length of the line with them. */
    method CollectValues(es: seq<Value>) returns (lineLength: int)
      requires es != [] && childValues == [] && !T.IsNested(es)
      modifies this
      ensures document == old(document) && indentString == old(indentString) && !addChildValues
      ensures childValues == T.Inlines(fmt, es) && lineLength == 4 + (|es| - 1) * 2 + T.TotalLength(childValues)
      decreases es, 0
    {
      addChildValues := true;
      var size := |es|;
      lineLength := 4 + (size - 1) * 2;
      for index := 0 to size
        invariant document == old(document) && indentString == old(indentString) && addChildValues
        invariant childValues == T.Inlines(fmt, es[..index])
        invariant lineLength == 4 + (size - 1) * 2 + T.TotalLength(childValues)
      {
        WriteValue(es[index]);
        assert es[..index + 1][..index] == es[..index];
        lineLength := lineLength + |childValues[index]|;
      }
      assert es[..size] == es;
      addChildValues := false;
    }
  }
}
