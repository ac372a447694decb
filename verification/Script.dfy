/** Scripts as byte strings: appending pushes, fetching instructions, and deleting
    a pattern while parsing. */
module Script {
  import opened Numerals
  import opened Bytes
  import opened BigNumber

  const OP_0: byte := 0x00
  const OP_PUSHDATA1: byte := 0x4c
  const OP_PUSHDATA2: byte := 0x4d
  const OP_PUSHDATA4: byte := 0x4e
  const OP_1NEGATE: byte := 0x4f
  const OP_1: byte := 0x51
  const OP_16: byte := 0x60
  const OP_NOP: byte := 0x61
  const OP_IF: byte := 0x63
  const OP_NOTIF: byte := 0x64
  const OP_ELSE: byte := 0x67
  const OP_ENDIF: byte := 0x68
  const OP_VERIFY: byte := 0x69
  const OP_DROP: byte := 0x75
  const OP_DUP: byte := 0x76
  const OP_EQUAL: byte := 0x87
  const OP_EQUALVERIFY: byte := 0x88
  const OP_RIPEMD160: byte := 0xa6
  const OP_HASH160: byte := 0xa9
  const OP_CODESEPARATOR: byte := 0xab
  const OP_CHECKSIG: byte := 0xac
  const OP_CHECKLOCKTIMEVERIFY: byte := 0xb1

  // ----- fetching -----

  datatype Fetched = Bad | Good(opcode: byte, data: bytes, length: nat)

  /** How many bytes of length follow a push opcode. */
  function LengthBytes(opcode: byte): nat {
    if opcode == OP_PUSHDATA1 then 1
    else if opcode == OP_PUSHDATA2 then 2
    else if opcode == OP_PUSHDATA4 then 4
    else 0
  }

  /** The instruction that a byte string starts with. */
  function Fetch(s: bytes): (r: Fetched)
    ensures r.Good? ==> 1 <= r.length <= |s| && r.opcode == s[0]
  {
    if s == [] then Bad
    else if s[0] > OP_PUSHDATA4 then Good(s[0], [], 1)
    else
      var k := 1 + LengthBytes(s[0]);
      if |s| < k then Bad
      else
        var size: nat := if s[0] < OP_PUSHDATA1 then s[0] else FromLE(s[1..k]);
        if |s| - k < size then Bad else Good(s[0], s[k..k + size], k + size)
  }

  lemma FetchPrefix(s: bytes, rest: bytes)
    requires Fetch(s).Good?
    ensures Fetch(s[..Fetch(s).length] + rest) == Fetch(s)
  {
    hide FromLE;
    var n := Fetch(s).length;
    var t := s[..n] + rest;
    if s[0] <= OP_PUSHDATA4 {
      var k := 1 + LengthBytes(s[0]);
      assert t[1..k] == s[1..k];
      assert t[k..n] == s[k..n];
    }
  }

  // ----- pushing -----

  function PushPrefix(size: nat): bytes {
    if size < 0x4c then [size]
    else if size <= 0xff then [OP_PUSHDATA1, size]
    else if size <= 0xffff then [OP_PUSHDATA2] + LE(size, 2)
    else [OP_PUSHDATA4] + LE(size, 4)
  }

  function Push(data: bytes): bytes {
    PushPrefix(|data|) + data
  }

  lemma PushNothing()
    ensures Push([]) == [OP_0]
  {
  }

  /** A push is fetched as the data pushed. */
  lemma FetchPush(data: bytes, rest: bytes)
    requires |data| < 0x1_0000_0000
    ensures var f := Fetch(Push(data) + rest);
      f.Good? && f.opcode <= OP_PUSHDATA4 && f.data == data && f.length == |Push(data)|
  {
    var size, s := |data|, Push(data) + rest;
    Pow256(1);
    if size < 0x4c {
      assert s[1..1 + size] == data;
    } else if size <= 0xff {
      assert s[1..2] == LE(size, 1);
      FromLELE(size, 1);
      assert s[2..2 + size] == data;
    } else if size <= 0xffff {
      assert s[1..3] == LE(size, 2);
      FromLELE(size, 2);
      assert s[3..3 + size] == data;
    } else {
      assert s[1..5] == LE(size, 4);
      FromLELE(size, 4);
      assert s[5..5 + size] == data;
    }
  }

  /** The conversion of a 64-bit integer to int: its low 32 bits, as a signed number. */
  function Int32(n: int): (r: int)
    ensures -0x8000_0000 <= r < 0x8000_0000
    ensures -0x8000_0000 <= n < 0x8000_0000 ==> r == n
  {
    (n + 0x8000_0000) % 0x1_0000_0000 - 0x8000_0000
  }

  predicate HasOpcode(n: int) { n == -1 || 1 <= n <= 16 }

  function PushInt64(n: int): bytes {
    if HasOpcode(n) then [n + 0x50] else Push(ToVch(Int32(n)))
  }

  // ----- instructions and deletion -----

  /** The instructions of a script, each as its bytes. */
  function Instructions(s: bytes): (r: seq<bytes>)
    decreases |s|
  {
    var f := Fetch(s);
    if f.Bad? then [] else [s[..f.length]] + Instructions(s[f.length..])
  }

  /** What is left when no further instruction can be fetched. */
  function Tail(s: bytes): bytes
    decreases |s|
  {
    var f := Fetch(s);
    if f.Bad? then s else Tail(s[f.length..])
  }

  function Flatten(parts: seq<bytes>): bytes {
    if parts == [] then [] else parts[0] + Flatten(parts[1..])
  }

  lemma OneInstruction(s: bytes)
    ensures var f := Fetch(s);
      if f.Bad? then Instructions(s) == [] && Tail(s) == s
      else Instructions(s) == [s[..f.length]] + Instructions(s[f.length..]) && Tail(s) == Tail(s[f.length..])
  {
  }

  /** A script is its instructions and what follows them. */
  lemma {:induction false} ScriptIsItsInstructions(s: bytes)
    ensures Flatten(Instructions(s)) + Tail(s) == s
    decreases |s|
  {
    hide Fetch, Instructions, Tail, Flatten;
    OneInstruction(s);
    var f := Fetch(s);
    if f.Good? {
      var first, rest := s[..f.length], s[f.length..];
      ScriptIsItsInstructions(rest);
      FlattenCons(first, Instructions(rest));
      assert first + (Flatten(Instructions(rest)) + Tail(rest)) == first + Flatten(Instructions(rest)) + Tail(rest);
      assert first + rest == s;
    } else {
      FlattenNone();
    }
  }

  lemma FlattenNone()
    ensures Flatten([]) == []
  {
  }

  lemma FlattenCons(first: bytes, rest: seq<bytes>)
    ensures Flatten([first] + rest) == first + Flatten(rest)
  {
    assert ([first] + rest)[1..] == rest;
  }

  function Without(parts: seq<bytes>, pattern: bytes): seq<bytes> {
    if parts == [] then []
    else (if parts[0] == pattern then [] else [parts[0]]) + Without(parts[1..], pattern)
  }

  function Occurrences(parts: seq<bytes>, pattern: bytes): nat {
    if parts == [] then 0
    else (if parts[0] == pattern then 1 else 0) + Occurrences(parts[1..], pattern)
  }

  /** FindAndDelete on the rest of a script: what becomes of it, and how many
      patterns are removed. */
  function Purge(s: bytes, pattern: bytes): (r: (bytes, nat))
    requires pattern != []
    decreases |s|
  {
    if pattern <= s then
      var (rest, n) := Purge(s[|pattern|..], pattern);
      (rest, n + 1)
    else
      var f := Fetch(s);
      if f.Bad? then (s, 0)
      else
        var (rest, n) := Purge(s[f.length..], pattern);
        (s[..f.length] + rest, n)
  }

  const SEPARATOR: bytes := [OP_CODESEPARATOR]

  /** One round of deleting code separators. */
  lemma PurgeStep(s: bytes)
    ensures var f := Fetch(s);
      if f.Bad? then Purge(s, SEPARATOR) == (s, 0)
      else
        var first, rest := s[..f.length], Purge(s[f.length..], SEPARATOR);
        (s[0] == OP_CODESEPARATOR <==> first == SEPARATOR) &&
        Purge(s, SEPARATOR)
          == if s[0] == OP_CODESEPARATOR then (rest.0, rest.1 + 1) else (first + rest.0, rest.1)
  {
    assert SEPARATOR <= s <==> s != [] && s[0] == OP_CODESEPARATOR;
    var f := Fetch(s);
    if f.Good? {
      assert s[..f.length][0] == s[0];
      if s[0] == OP_CODESEPARATOR { assert s[..1] == SEPARATOR && s[|SEPARATOR|..] == s[f.length..]; }
    }
  }

  /** Deleting code separators removes exactly the instructions that are one: bytes
      inside push data stay, and the count is the number removed. */
  lemma {:induction false} PurgeSeparators(s: bytes)
    ensures Purge(s, SEPARATOR).0 == Flatten(Without(Instructions(s), SEPARATOR)) + Tail(s)
    ensures Purge(s, SEPARATOR).1 == Occurrences(Instructions(s), SEPARATOR)
    decreases |s|
  {
    PurgeStep(s);
    var f := Fetch(s);
    hide Fetch, Purge;
    if f.Good? {
      PurgeSeparators(s[f.length..]);
      var first, rest := s[..f.length], Instructions(s[f.length..]);
      assert Instructions(s)[0] == first && Instructions(s)[1..] == rest;
      if s[0] == OP_CODESEPARATOR {
        assert Without(Instructions(s), SEPARATOR) == Without(rest, SEPARATOR);
      } else {
        assert Without(Instructions(s), SEPARATOR) == [first] + Without(rest, SEPARATOR);
        assert ([first] + Without(rest, SEPARATOR))[1..] == Without(rest, SEPARATOR);
        assert first + (Flatten(Without(rest, SEPARATOR)) + Tail(s)) == first + Flatten(Without(rest, SEPARATOR)) + Tail(s);
      }
    }
  }

  /** After the deletion the script has the other instructions, in order, and none
      that is a code separator. */
  lemma {:induction false} PurgedInstructions(s: bytes)
    ensures Instructions(Purge(s, SEPARATOR).0) == Without(Instructions(s), SEPARATOR)
    ensures Tail(Purge(s, SEPARATOR).0) == Tail(s)
    ensures Occurrences(Instructions(Purge(s, SEPARATOR).0), SEPARATOR) == 0
    decreases |s|
  {
    PurgeStep(s);
    var f := Fetch(s);
    hide Fetch, Purge;
    if f.Good? {
      PurgedInstructions(s[f.length..]);
      var first := s[..f.length];
      assert Instructions(s)[0] == first && Instructions(s)[1..] == Instructions(s[f.length..]);
      if s[0] == OP_CODESEPARATOR {
        assert Without(Instructions(s), SEPARATOR) == Without(Instructions(s)[1..], SEPARATOR);
      } else {
        var rest := Purge(s[f.length..], SEPARATOR).0;
        FetchPrefix(s, rest);
        assert (first + rest)[f.length..] == rest && (first + rest)[..f.length] == first;
        assert ([first] + Instructions(rest))[1..] == Instructions(rest);
      }
    }
  }

  /** A second deletion finds nothing. */
  lemma PurgeTwice(s: bytes)
    ensures Purge(Purge(s, SEPARATOR).0, SEPARATOR) == (Purge(s, SEPARATOR).0, 0)
  {
    var t := Purge(s, SEPARATOR).0;
    PurgedInstructions(s);
    PurgeSeparators(t);
    NothingWithout(Instructions(t), SEPARATOR);
    ScriptIsItsInstructions(t);
  }

  lemma {:induction false} NothingWithout(parts: seq<bytes>, pattern: bytes)
    requires Occurrences(parts, pattern) == 0
    ensures Without(parts, pattern) == parts
  {
    if parts != [] {
      NothingWithout(parts[1..], pattern);
      assert parts == [parts[0]] + parts[1..];
    }
  }

  // ----- the class -----

  class CScript {
    var code: bytes

    constructor ()
      ensures code == []
    {
      code := [];
    }

    constructor Of(code: bytes)
      ensures this.code == code
    {
      this.code := code;
    }

    method AppendOp(opcode: byte)
      modifies this
      ensures code == old(code) + [opcode]
    {
      code := code + [opcode];
    }

    /** A key id: 20 bytes, after a byte that says so. */
    method AppendUint160(id: bytes)
      requires |id| == 20
      modifies this
      ensures code == old(code) + Push(id)
    {
      code := code + [20];
      code := code + id;
      assert code == old(code) + Push(id);
    }

    method AppendPubKey(key: bytes)
      requires |key| < OP_PUSHDATA1
      modifies this
      ensures code == old(code) + Push(key)
    {
      code := code + [|key|];
      code := code + key;
      assert code == old(code) + Push(key);
    }

    method AppendVector(b: bytes)
      requires |b| < 0x1_0000_0000
      modifies this
      ensures code == old(code) + Push(b)
    {
      hide LE;
      if |b| < OP_PUSHDATA1 {
        code := code + [|b|];
      } else if |b| <= 0xff {
        code := code + [OP_PUSHDATA1];
        code := code + [|b|];
      } else if |b| <= 0xffff {
        code := code + [OP_PUSHDATA2];
        code := code + LE(|b|, 2);
      } else {
        code := code + [OP_PUSHDATA4];
        code := code + LE(|b|, 4);
      }
      assert code == old(code) + PushPrefix(|b|);
      code := code + b;
      hide PushPrefix;
      assert code == old(code) + Push(b);
    }

    method AppendInt64(n: int)
      requires -0x8000_0000_0000_0000 <= n < 0x8000_0000_0000_0000
      modifies this
      ensures code == old(code) + PushInt64(n)
    {
      if HasOpcode(n) {
        code := code + [n + 0x50];
      } else {
        var bn := new BigNum(Int32(n));
        var vch := bn.GetVch();
        Int32IsShort(n);
        AppendVector(vch);
      }
    }

    /** Whether an instruction was fetched at `pc`, and if so which one and where it ends. */
    method GetOp2(pc: nat) returns (ok: bool, opcode: byte, data: bytes, next: nat)
      requires pc <= |code| < 0x1_0000_0000
      ensures ok == Fetch(code[pc..]).Good?
      ensures ok ==> pc < next <= |code| && Good(opcode, data, next - pc) == Fetch(code[pc..])
    {
      hide FromLE;
      opcode, data, next, ok := 0xff, [], pc, false;
      if pc >= |code| { return; }
      var op := code[next];
      next := next + 1;
      if op <= OP_PUSHDATA4 {
        var size: nat := op;
        if op == OP_PUSHDATA1 {
          if |code| - next < 1 { return; }
          size := code[next];
          OneByte(code, next);
          SuffixSlice(code, pc, next, next + 1);
          next := next + 1;
        } else if op == OP_PUSHDATA2 {
          if |code| - next < 2 { return; }
          size := FromLE(code[next..next + 2]);
          SuffixSlice(code, pc, next, next + 2);
          next := next + 2;
        } else if op == OP_PUSHDATA4 {
          if |code| - next < 4 { return; }
          size := FromLE(code[next..next + 4]);
          SuffixSlice(code, pc, next, next + 4);
          next := next + 4;
        }
        if |code| - next < size { return; }
        data := code[next..next + size];
        SuffixSlice(code, pc, next, next + size);
        next := next + size;
      }
      opcode := op;
      ok := true;
    }

    method FindAndDelete(pattern: bytes) returns (found: nat)
      requires |code| < 0x1_0000_0000
      modifies this
      ensures pattern == [] ==> code == old(code) && found == 0
      ensures pattern != [] ==> (code, found) == Purge(old(code), pattern)
    {
      hide Purge, PurgesTo;
      found := 0;
      if pattern == [] { return; }
      var pc := 0;
      ghost var goal := Purge(code, pattern);
      PurgesStart(code, pattern);
      while true
        invariant 0 <= pc <= |code| <= |old(code)|
        invariant PurgesTo(code, pc, found, pattern, goal)
        decreases |code| - pc
      {
        while |code| - pc >= |pattern| && code[pc..pc + |pattern|] == pattern
          invariant 0 <= pc <= |code| <= |old(code)|
          invariant PurgesTo(code, pc, found, pattern, goal)
          decreases |code|
        {
          PurgesMatch(code, pc, found, pattern, goal);
          code := code[..pc] + code[pc + |pattern|..];
          found := found + 1;
        }
        PurgesFetched(code, pc, found, pattern, goal);
        var ok, opcode, data, next := GetOp2(pc);
        if !ok { break; }
        pc := next;
      }
    }
  }

  /** The part before `pc` is final, and purging the rest leads to the goal. */
  ghost predicate PurgesTo(code: bytes, pc: nat, found: nat, pattern: bytes, goal: (bytes, nat))
    requires pc <= |code| && pattern != []
  {
    var r := Purge(code[pc..], pattern);
    code[..pc] + r.0 == goal.0 && found + r.1 == goal.1
  }

  lemma PurgesStart(code: bytes, pattern: bytes)
    requires pattern != []
    ensures PurgesTo(code, 0, 0, pattern, Purge(code, pattern))
  {
    hide Purge;
    assert code[0..] == code && code[..0] + Purge(code, pattern).0 == Purge(code, pattern).0;
  }

  lemma PurgesMatch(code: bytes, pc: nat, found: nat, pattern: bytes, goal: (bytes, nat))
    requires pattern != [] && pc + |pattern| <= |code| && code[pc..pc + |pattern|] == pattern
    requires PurgesTo(code, pc, found, pattern, goal)
    ensures PurgesTo(code[..pc] + code[pc + |pattern|..], pc, found + 1, pattern, goal)
  {
    var rest, code' := code[pc..], code[..pc] + code[pc + |pattern|..];
    assert rest[..|pattern|] == pattern && rest[|pattern|..] == code[pc + |pattern|..];
    assert code'[pc..] == rest[|pattern|..] && code'[..pc] == code[..pc];
  }

  lemma PurgeUnmatched(s: bytes, pattern: bytes)
    requires pattern != [] && (|pattern| <= |s| ==> s[..|pattern|] != pattern)
    ensures var f := Fetch(s);
      if f.Bad? then Purge(s, pattern) == (s, 0)
      else
        var r := Purge(s[f.length..], pattern);
        Purge(s, pattern) == (s[..f.length] + r.0, r.1)
  {
    hide Fetch;
  }

  lemma PurgesFetched(code: bytes, pc: nat, found: nat, pattern: bytes, goal: (bytes, nat))
    requires pattern != [] && pc <= |code|
    requires pc + |pattern| <= |code| ==> code[pc..pc + |pattern|] != pattern
    requires PurgesTo(code, pc, found, pattern, goal)
    ensures var f := Fetch(code[pc..]);
      if f.Good? then PurgesTo(code, pc + f.length, found, pattern, goal) else (code, found) == goal
  {
    hide Fetch, Purge;
    var rest := code[pc..];
    assert pc + |pattern| <= |code| ==> rest[..|pattern|] == code[pc..pc + |pattern|];
    var f := Fetch(rest);
    PurgeUnmatched(rest, pattern);
    if f.Good? {
      var next := pc + f.length;
      assert rest[f.length..] == code[next..] && code[..next] == code[..pc] + rest[..f.length];
      var after := Purge(code[next..], pattern).0;
      assert code[..pc] + (rest[..f.length] + after) == code[..next] + after;
    } else {
      assert code[..pc] + rest == code;
    }
  }

  lemma SuffixSlice(s: bytes, p: nat, i: nat, j: nat)
    requires p <= i <= j <= |s|
    ensures s[p..][i - p..j - p] == s[i..j]
  {
  }

  lemma OneByte(s: bytes, i: nat)
    requires i < |s|
    ensures FromLE(s[i..i + 1]) == s[i]
  {
    ValOne(256, s[i]);
    assert s[i..i + 1] == [s[i]];
  }

  lemma Int32IsShort(n: int)
    ensures |ToVch(Int32(n))| <= 5
  {
    VchLength(Int32(n));
  }

  lemma VchLength(n: int)
    requires -0x8000_0000 <= n < 0x8000_0000
    ensures |ToVch(n)| <= 5
    ensures 0x80_0000 <= Magnitude(n) < 0x8000_0000 <==> |ToVch(n)| == 4
  {
    if n != 0 {
      var m := Magnitude(n);
      var ds := Digits(256, m);
      DigitsLength(256, m);
      Pow256(4);
      assert Pow(256, 3) == 0x100_0000;
      if |ds| > 4 { PowMonotone(256, 4, |ds| - 1); }
      if |ds| < 3 { PowMonotone(256, |ds|, 2); }
      TopDigit(m);
    }
  }

  /** Whether the top digit of a three- or four-byte number leaves room for a sign. */
  lemma TopDigit(m: nat)
    requires 0 < m <= 0x8000_0000
    ensures var ds := Digits(256, m);
      (|ds| == 4 ==> (ds[3] < 128 <==> m < 0x8000_0000)) && (|ds| == 3 ==> (ds[2] < 128 <==> m < 0x80_0000))
  {
    var ds := Digits(256, m);
    ValDigits(256, m);
    if |ds| == 4 {
      Four(ds);
    } else if |ds| == 3 {
      Four(ds + [0]);
      ValSnoc(256, ds, 0);
      TimesLaws(Pow(256, 3), 0, 0);
    }
  }
}
