/** Scripts as words of text, and the elements that a script which only pushes leaves. */
module ScriptText {
  import opened Numerals
  import opened Bytes
  import opened BigNumber
  import Hex
  import JsonText
  import JsonWriter
  import S = Script
  import E = ScriptEval

  /** A pushed element as a word: a short one as a decimal number, else hexadecimal. */
  function ValueString(v: bytes): string {
    if |v| <= 4 then JsonText.IntText(FromVch(v)) else Hex.Text(v)
  }

  /** The name of an opcode. Those that can stand in a script that only pushes are named
      as in the source; the other names start with OP_ too. */
  function OpName(op: byte): string {
    if op == S.OP_1NEGATE then "-1"
    else if S.OP_1 <= op <= S.OP_16 then JsonText.IntText(op as int - 0x50)
    else "OP_" + Hex.Text([op])
  }

  /** The words of a script. */
  function Words(code: bytes): seq<string>
    decreases |code|
  {
    if code == [] then []
    else
      match S.Fetch(code)
      case Bad => ["[error]"]
      case Good(op, data, n) => [if op <= S.OP_PUSHDATA4 then ValueString(data) else OpName(op)] + Words(code[n..])
  }

  /** What one instruction that pushes puts on the stack. */
  function Element(op: byte, data: bytes): bytes {
    if op <= S.OP_PUSHDATA4 then data else ToVch(op as int - 0x50)
  }

  /** What the instructions of a script that only pushes put on the stack. */
  function Elements(code: bytes): seq<bytes>
    decreases |code|
  {
    match S.Fetch(code)
    case Bad => []
    case Good(op, data, n) => [Element(op, data)] + Elements(code[n..])
  }

  /** A script that only pushes, run to its end, leaves its elements, and its words are
      theirs. */
  lemma {:induction false} PushedElements(env: E.Env, code: bytes, s: E.Stack)
    requires E.IsPushOnly(code) && E.Run(env, code, E.Machine(s, [])).Machine?
    ensures E.Run(env, code, E.Machine(s, [])) == E.Machine(s + Elements(code), [])
    ensures |Words(code)| == |Elements(code)|
    ensures forall k :: 0 <= k < |Elements(code)| ==> Words(code)[k] == ValueString(Elements(code)[k])
    decreases |code|
  {
    hide S.Fetch, ToVch, ValueString, OpName, E.LockSatisfied;
    if code == [] {
      NoElements();
    } else {
      var f := S.Fetch(code);
      var rest := code[f.length..];
      var next := E.Step(env, f.opcode, f.data, E.Machine(s, []));
      assert E.Run(env, code, E.Machine(s, [])) == E.Run(env, rest, next);
      PushStep(env, f.opcode, f.data, s);
      RunsFrom(env, rest, next);
      var e := Element(f.opcode, f.data);
      PushedElements(env, rest, s + [e]);
      assert s + [e] + Elements(rest) == s + ([e] + Elements(rest));
      OneElement(f.opcode, f.data);
    }
  }

  lemma NoElements()
    ensures Elements([]) == [] && Words([]) == []
  {
  }

  lemma RunsFrom(env: E.Env, code: bytes, m: E.Machine)
    ensures E.Run(env, code, m).Machine? ==> m.Machine?
  {
  }

  lemma PushStep(env: E.Env, op: byte, data: bytes, s: E.Stack)
    requires op <= S.OP_16
    ensures var m := E.Step(env, op, data, E.Machine(s, []));
      m.Machine? ==> m == E.Machine(s + [Element(op, data)], []) && op != 0x50
  {
    hide ToVch, E.LockSatisfied;
  }

  /** The word of an instruction is that of its element: a small number's name is its
      element's word too. */
  lemma OneElement(op: byte, data: bytes)
    requires op <= S.OP_16 && op != 0x50
    ensures (if op <= S.OP_PUSHDATA4 then ValueString(data) else OpName(op)) == ValueString(Element(op, data))
  {
    if op > S.OP_PUSHDATA4 {
      var n := op as int - 0x50;
      FromToVch(n);
      SmallElement(n);
      MinusOne();
    }
  }

  lemma SmallElement(n: int)
    requires n == -1 || 1 <= n <= 16
    ensures |ToVch(n)| <= 4
  {
    S.VchLength(n);
    hide ToVch;
    assert Magnitude(n) < 0x80_0000;
    OneByteVch(n);
  }

  lemma OneByteVch(n: int)
    requires n == -1 || 1 <= n <= 16
    ensures |ToVch(n)| == 1
  {
    var m := Magnitude(n);
    DigitsStep(256, m);
    assert m / 256 == 0 && Digits(256, 0) == [];
  }

  lemma MinusOne()
    ensures JsonText.IntText(-1) == "-1"
  {
    assert JsonText.Digits(1) == "1";
  }

  // ----- words read as hexadecimal text -----

  lemma {:induction false} ParsedLength(s: string)
    ensures 2 * |Hex.Parsed(s)| <= |s|
  {
    hide Hex.DigitValue, Hex.IsSpace;
    if s != "" {
      ParsedLength(s[1..]);
      if |s| >= 2 { ParsedLength(s[2..]); }
    }
  }

  /** A long element's word parses to the element, a short one's to few bytes. */
  lemma ValueStringParsed(v: bytes)
    ensures if |v| <= 4 then |Hex.Parsed(ValueString(v))| < 32 else Hex.Parsed(ValueString(v)) == v
  {
    if |v| <= 4 {
      ShortNumber(v);
      ParsedLength(ValueString(v));
    } else {
      Hex.ParsedText(v, "");
      assert Hex.Text(v) + "" == Hex.Text(v);
    }
  }

  lemma ShortNumber(v: bytes)
    requires |v| <= 4
    ensures |JsonText.IntText(FromVch(v))| <= 11
  {
    FourBytesBound(v);
    hide FromVch;
    TenDigits(Magnitude(FromVch(v)));
  }

  lemma FourBytesBound(v: bytes)
    requires |v| <= 4
    ensures Magnitude(FromVch(v)) < 0x1_0000_0000
  {
    if v != [] {
      var m := |v| - 1;
      var w: bytes := v[..m] + [v[m] % 128];
      ValBound(256, w);
      Pow256(4);
      PowMonotone(256, |w|, 4);
    }
  }

  lemma TenDigits(n: nat)
    requires n < 0x1_0000_0000
    ensures |JsonText.Digits(n)| <= 10
  {
    assert JsonWriter.Pow10(10) == 10_000_000_000 by { assert JsonWriter.Pow10(5) == 100_000; }
    JsonWriter.DigitsLength(n, 10);
  }
}
