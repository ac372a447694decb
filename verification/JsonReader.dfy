/** jsoncpp's Reader: a recursive-descent parser over a character cursor that
    assigns to the node on top of a stack of pointers into the tree. */
module JsonReader {
  import opened JsonValue
  import G = JsonGrammar

  class Reader {
    const features: G.Features
    const scan: G.Scanner
    var document: string
    var current: nat
    var errors: seq<G.ErrorInfo>
    var nodes: seq<Path>
    var root: Value

    constructor (features: G.Features, scan: G.Scanner)
      ensures this.features == features && this.scan == scan
    {
      this.features, this.scan := features, scan;
      document, current, errors, nodes, root := "", 0, [], [], Null;
    }

    function Cfg(): G.Config { G.Config(features, scan) }

    ghost predicate InDocument()
      reads this
    {
      current <= |document|
    }

    // ----- characters -----

    method GetNextChar() returns (c: char)
      requires InDocument()
      modifies this`current
      ensures old(current) == |document| ==> c == NUL && current == old(current)
      ensures old(current) < |document| ==> c == document[old(current)] && current == old(current) + 1
    {
      if current == |document| { return NUL; }
      c := document[current];
      current := current + 1;
    }

    /** What `*current_` yields: the terminator at the end of the document. */
    function Peek(): (c: char)
      requires InDocument()
      reads this
    {
      if current < |document| then document[current] else NUL
    }

    method SkipSpaces()
      requires InDocument()
      modifies this`current
      ensures current == G.SpacesEnd(document, old(current))
    {
      while current != |document|
        invariant InDocument()
        invariant G.SpacesEnd(document, current) == G.SpacesEnd(document, old(current))
        decreases |document| - current
      {
        if !G.IsSpace(document[current]) { break; }
        current := current + 1;
      }
    }

    method Match(pattern: string) returns (ok: bool)
      requires InDocument()
      modifies this`current
      ensures (ok, current) == G.MatchScan(document, old(current), pattern)
    {
      if |document| - current < |pattern| { return false; }
      var index := |pattern|;
      while index > 0
        invariant 0 <= index <= |pattern|
        invariant forall k :: index <= k < |pattern| ==> document[current + k] == pattern[k]
        invariant current == old(current)
      {
        index := index - 1;
        if document[current + index] != pattern[index] {
          assert document[current..current + |pattern|][index] != pattern[index];
          return false;
        }
      }
      assert document[current..current + |pattern|] == pattern;
      current := current + |pattern|;
      return true;
    }

    // ----- tokens -----

    method ReadCStyleComment() returns (ok: bool)
      requires InDocument()
      modifies this`current
      ensures (ok, current) == G.CStyleScan(document, old(current))
    {
      while current != |document|
        invariant InDocument()
        invariant G.CStyleScan(document, current) == G.CStyleScan(document, old(current))
        decreases |document| - current
      {
        var c := GetNextChar();
        if c == '*' && Peek() == '/' { break; }
      }
      var c := GetNextChar();
      ok := c == '/';
    }

    method ReadCppStyleComment() returns (ok: bool)
      requires InDocument()
      modifies this`current
      ensures ok && current == G.CppStyleScan(document, old(current))
    {
      while current != |document|
        invariant InDocument()
        invariant G.CppStyleScan(document, current) == G.CppStyleScan(document, old(current))
        decreases |document| - current
      {
        var c := GetNextChar();
        if c == '\r' || c == '\n' { break; }
      }
      return true;
    }

    method ReadComment() returns (ok: bool)
      requires InDocument()
      modifies this`current
      ensures (ok, current) == G.CommentScan(document, old(current))
    {
      var c := GetNextChar();
      ok := false;
      if c == '*' {
        ok := ReadCStyleComment();
      } else if c == '/' {
        ok := ReadCppStyleComment();
      }
    }

    method ReadNumber()
      requires InDocument()
      modifies this`current
      ensures current == G.NumberEnd(document, old(current))
    {
      while current != |document|
        invariant InDocument()
        invariant G.NumberEnd(document, current) == G.NumberEnd(document, old(current))
        decreases |document| - current
      {
        if !G.IsNumberChar(document[current]) { break; }
        current := current + 1;
      }
    }

    method ReadString() returns (ok: bool)
      requires InDocument()
      modifies this`current
      ensures (ok, current) == G.StringScan(document, old(current))
    {
      var c := NUL;
      while current != |document|
        invariant InDocument()
        invariant G.StringScan(document, current) == G.StringScan(document, old(current))
        invariant c != '"'
        decreases |document| - current
      {
        c := GetNextChar();
        if c == '\\' {
          var skipped := GetNextChar();
        } else if c == '"' {
          break;
        }
      }
      ok := c == '"';
    }

    method ReadToken() returns (token: G.Token)
      requires InDocument()
      modifies this`current
      ensures token == G.ReadToken(document, old(current)) && current == token.end
    {
      SkipSpaces();
      var start := current;
      var c := GetNextChar();
      var ok, kind := true, G.ErrorToken;
      if start == |document| { kind := G.EndOfStream; }
      else if c == '{' { kind := G.ObjectBegin; }
      else if c == '}' { kind := G.ObjectEnd; }
      else if c == '[' { kind := G.ArrayBegin; }
      else if c == ']' { kind := G.ArrayEnd; }
      else if c == '"' { kind := G.StringToken; ok := ReadString(); }
      else if c == '/' { kind := G.CommentToken; ok := ReadComment(); }
      else if G.IsDigit(c) || c == '-' { kind := G.NumberToken; ReadNumber(); }
      else if c == 't' { kind := G.TrueToken; ok := Match("rue"); }
      else if c == 'f' { kind := G.FalseToken; ok := Match("alse"); }
      else if c == 'n' { kind := G.NullToken; ok := Match("ull"); }
      else if c == ',' { kind := G.ArraySeparator; }
      else if c == ':' { kind := G.MemberSeparator; }
      else if c == NUL { kind := G.EndOfStream; }
      else { ok := false; }
      if !ok { kind := G.ErrorToken; }
      token := G.Token(kind, start, current);
    }

    /** Reads on while the token read last is a comment. */
    method SkipComments(first: G.Token) returns (token: G.Token)
      requires InDocument() && first.end == current
      modifies this`current
      ensures token == (if first.kind == G.CommentToken then G.ReadPastComments(document, old(current)) else first)
      ensures current == token.end <= |document|
    {
      token := first;
      while token.kind == G.CommentToken
        invariant InDocument() && current == token.end
        invariant first.kind != G.CommentToken ==> token == first
        invariant first.kind == G.CommentToken ==>
          (if token.kind == G.CommentToken then G.ReadPastComments(document, current) else token)
            == G.ReadPastComments(document, old(current))
        decreases token.kind == G.CommentToken, |document| - current
      {
        token := ReadToken();
      }
    }

    method ReadTokenPastComments() returns (token: G.Token)
      requires InDocument()
      modifies this`current
      ensures token == G.ReadPastComments(document, old(current)) && current == token.end
    {
      hide G.ReadToken;
      token := ReadToken();
      token := SkipComments(token);
    }

    method SkipCommentTokens() returns (token: G.Token)
      requires InDocument()
      modifies this`current
      ensures token == G.SkipCommentTokens(Cfg(), document, old(current)) && current == token.end
    {
      token := ReadToken();
      if features.allowComments {
        token := SkipComments(token);
      }
    }

    // ----- errors -----

    method AddError(kind: G.ErrorKind, token: G.Token, extra: G.Option<nat>) returns (ok: bool)
      modifies this`errors
      ensures !ok && errors == old(errors) + [G.ErrorInfo(kind, token, extra)]
    {
      errors := errors + [G.ErrorInfo(kind, token, extra)];
      return false;
    }

    method RecoverFromError(until: G.TokenType) returns (ok: bool)
      requires InDocument()
      modifies this`current
      ensures !ok && current == G.Recover(document, old(current), until)
    {
      while true
        invariant InDocument()
        invariant G.Recover(document, current, until) == G.Recover(document, old(current), until)
        decreases |document| - current
      {
        var skip := ReadToken();
        if skip.kind == until || skip.kind == G.EndOfStream { break; }
      }
      return false;
    }

    method AddErrorAndRecover(kind: G.ErrorKind, token: G.Token, until: G.TokenType) returns (ok: bool)
      requires InDocument()
      modifies this`current, this`errors
      ensures !ok && current == G.Recover(document, old(current), until)
      ensures errors == old(errors) + [G.ErrorInfo(kind, token, G.None)]
    {
      ok := AddError(kind, token, G.None);
      ok := RecoverFromError(until);
    }

    // ----- the node being read -----

    ghost predicate Valid()
      reads this
    {
      InDocument() && nodes != [] && Has(root, nodes[|nodes| - 1])
    }

    function Top(): Path
      requires nodes != []
      reads this
    {
      nodes[|nodes| - 1]
    }

    function CurrentValue(): Value
      requires Valid()
      reads this
    {
      At(root, Top())
    }

    method SetCurrentValue(v: Value)
      requires Valid()
      modifies this`root
      ensures Valid() && root == Put(old(root), Top(), v) && CurrentValue() == v
    {
      PutLaws(root, Top(), v, v);
      root := Put(root, Top(), v);
    }

    /** The whole effect of a reading method that began with this document, tree and
        stack of nodes: its verdict, the cursor, the errors, and the assignment to
        the node on top of the stack. */
    ghost predicate Performed(ok: bool, r: G.Read, doc: string, tree: Value, stack: seq<Path>)
      requires stack != [] && Has(tree, stack[|stack| - 1])
      reads this
    {
      Valid() && document == doc && nodes == stack &&
      ok == r.ok && current == r.pos && errors == r.errors && root == Put(tree, stack[|stack| - 1], r.value)
    }

    // ----- leaves -----

    method DecodeDouble(token: G.Token) returns (ok: bool)
      requires Valid() && token.start < token.end <= |document|
      modifies this`root, this`errors
      ensures var v := G.DecodeDouble(scan, document, token);
        Performed(ok, if v.None?
          then G.Read(false, current, old(CurrentValue()), old(errors) + [G.ErrorInfo(G.NotANumber, token, G.None)])
          else G.Read(true, current, v.value, old(errors)), old(document), old(root), old(nodes))
    {
      var count := scan(document[token.start..token.end]);
      if count.None? {
        PutLaws(root, Top(), Null, Null);
        ok := AddError(G.NotANumber, token, G.None);
        return;
      }
      SetCurrentValue(Real(count.value));
      return true;
    }

    method DecodeNumber(token: G.Token) returns (ok: bool)
      requires Valid() && token.start < token.end <= |document|
      modifies this`root, this`errors
      ensures var v := G.DecodeNumber(scan, document, token);
        Performed(ok, if v.None?
          then G.Read(false, current, old(CurrentValue()), old(errors) + [G.ErrorInfo(G.NotANumber, token, G.None)])
          else G.Read(true, current, v.value, old(errors)), old(document), old(root), old(nodes))
    {
      hide G.DigitsFrom, G.DecodeDouble, G.LooksReal, Put, At, Has;
      PutLaws(root, Top(), Null, Null);
      var isDouble := HasRealMark(token);
      if isDouble {
        ok := DecodeDouble(token);
        return;
      }
      var isNegative := document[token.start] == '-';
      var digits := DecodeDigits(if isNegative then token.start + 1 else token.start, token.end, G.Threshold(isNegative));
      match digits
      case NotDigits => ok := AddError(G.NotANumber, token, G.None); return;
      case TooBig => ok := DecodeDouble(token); return;
      case Whole(value) =>
        if isNegative {
          SetCurrentValue(Int(0 - value));
        } else if value <= G.MAX_INT {
          SetCurrentValue(Int(value));
        } else {
          SetCurrentValue(UInt(value));
        }
        return true;
    }

    /** The search of decodeNumber for a mark of a real number. */
    method HasRealMark(token: G.Token) returns (isDouble: bool)
      requires token.start <= token.end <= |document|
      ensures isDouble == G.LooksReal(document, token)
    {
      isDouble := false;
      var inspect := token.start;
      while inspect != token.end
        invariant token.start <= inspect <= token.end
        invariant isDouble <==> exists k :: token.start <= k < inspect && G.RealMark(document[k], k == token.start)
      {
        isDouble := isDouble || G.RealMark(document[inspect], inspect == token.start);
        inspect := inspect + 1;
      }
    }

    /** The loop of decodeNumber over the digits. */
    method DecodeDigits(start: nat, end: nat, threshold: nat) returns (digits: G.Scanned)
      requires start <= end <= |document| && threshold > 0
      ensures digits == G.DigitsFrom(document, start, end, 0, threshold)
    {
      var cursor, value: nat := start, 0;
      while cursor < end
        invariant start <= cursor <= end && value < 10 * threshold
        invariant G.DigitsFrom(document, cursor, end, value, threshold) == G.DigitsFrom(document, start, end, 0, threshold)
      {
        var c := document[cursor];
        if c < '0' || c > '9' { return G.NotDigits; }
        if value >= threshold { return G.TooBig; }
        cursor := cursor + 1;
        value := value * 10 + (c - '0') as nat;
      }
      return G.Whole(value);
    }

    method DecodeUnicodeEscapeSequence(token: G.Token, cursor: nat, end: nat)
      returns (ok: bool, next: nat, unicode: nat)
      requires cursor <= end <= |document|
      modifies this`errors
      ensures var r := G.Hex4(document, cursor, end);
        ok == r.Good? &&
        (ok ==> unicode == r.value && next == cursor + 4 <= end && errors == old(errors)) &&
        (!ok ==> errors == old(errors) + [G.ErrorInfo(r.kind, token, G.Some(r.extra))])
    {
      next, unicode := cursor, 0;
      if end - cursor < 4 {
        ok := AddError(G.FourDigitsExpected, token, G.Some(cursor));
        return;
      }
      for index := 0 to 4
        invariant next == cursor + index && errors == old(errors)
        invariant G.HexFrom(document, next, 4 - index, unicode) == G.HexFrom(document, cursor, 4, 0)
      {
        var c := document[next];
        next := next + 1;
        if !G.IsHex(c) {
          ok := AddError(G.HexDigitExpected, token, G.Some(next));
          return;
        }
        unicode := unicode * 16 + G.HexValue(c);
      }
      return true, next, unicode;
    }

    method DecodeUnicodeCodePoint(token: G.Token, cursor: nat, end: nat)
      returns (ok: bool, next: nat, unicode: nat)
      requires cursor <= end <= |document|
      modifies this`errors
      ensures var r := G.CodePoint(document, cursor, end);
        ok == r.Good? &&
        (ok ==> (unicode, next) == r.value && errors == old(errors)) &&
        (!ok ==> errors == old(errors) + [G.ErrorInfo(r.kind, token, G.Some(r.extra))])
    {
      hide G.Hex4, G.HexFrom, G.HexValue, G.IsHex;
      ok, next, unicode := DecodeUnicodeEscapeSequence(token, cursor, end);
      if !ok { return; }
      if 0xD800 <= unicode <= 0xDBFF {
        if end - next < 6 {
          ok := AddError(G.SixCharactersExpected, token, G.Some(next));
          return;
        }
        next := next + 1;
        var escaped := document[next - 1] == '\\';
        if escaped {
          next := next + 1;
          escaped := document[next - 1] == 'u';
        }
        if !escaped {
          ok := AddError(G.SecondSurrogateExpected, token, G.Some(next));
          return;
        }
        var low;
        ok, next, low := DecodeUnicodeEscapeSequence(token, next, end);
        if !ok { return; }
        unicode := 0x10000 + unicode % 0x400 * 0x400 + low % 0x400;
      }
      return true, next, unicode;
    }

    method DecodeStringInto(token: G.Token) returns (ok: bool, decoded: string)
      requires token.start + 2 <= token.end <= |document|
      modifies this`errors
      ensures var r := G.DecodeString(document, token);
        ok == r.Good? &&
        (ok ==> decoded == r.value && errors == old(errors)) &&
        (!ok ==> errors == old(errors) + [G.ErrorInfo(r.kind, token, G.Some(r.extra))])
    {
      decoded := "";
      var cursor, end := token.start + 1, token.end - 1;
      while cursor != end
        invariant cursor <= end && errors == old(errors)
        invariant G.DecodeFrom(document, cursor, end, decoded) == G.DecodeString(document, token)
        decreases end - cursor
      {
        var c := document[cursor];
        cursor := cursor + 1;
        if c == '"' {
          return true, decoded;
        } else if c == '\\' {
          if cursor == end {
            ok := AddError(G.EmptyEscape, token, G.Some(cursor));
            return;
          }
          var escape := document[cursor];
          cursor := cursor + 1;
          if G.IsSimpleEscape(escape) {
            decoded := decoded + [G.SimpleEscape(escape)];
          } else if escape == 'u' {
            var unicode;
            ok, cursor, unicode := DecodeUnicodeCodePoint(token, cursor, end);
            if !ok { return; }
            decoded := decoded + G.CodePointToUTF8(unicode);
          } else {
            ok := AddError(G.BadEscape, token, G.Some(cursor));
            return;
          }
        } else {
          decoded := decoded + [c];
        }
      }
      return true, decoded;
    }

    // ----- values -----

    method ReadValue() returns (ok: bool)
      requires Valid()
      modifies this`current, this`errors, this`nodes, this`root
      ensures Performed(ok, G.ReadValue(Cfg(), document, old(current), old(CurrentValue()), old(errors)),
                        old(document), old(root), old(nodes))
      decreases |document| - current, 1
    {
      hide G.ReadElements, G.ReadMembers, G.DecodeString, G.DecodeNumber, G.SkipCommentTokens, G.SpacesEnd, CStr, Put, At, Has;
      ghost var node := CurrentValue();
      PutLaws(root, Top(), Null, Null);
      var token := SkipCommentTokens();
      match token.kind
      case ObjectBegin => ok := ReadObject();
      case ArrayBegin => ok := ReadArray();
      case NumberToken => ok := DecodeNumber(token);
      case StringToken =>
        var decoded;
        ok, decoded := DecodeStringInto(token);
        if ok { SetCurrentValue(String(CStr(decoded))); }
      case TrueToken => SetCurrentValue(Bool(true)); ok := true;
      case FalseToken => SetCurrentValue(Bool(false)); ok := true;
      case NullToken => SetCurrentValue(Null); ok := true;
      case _ => ok := AddError(G.ValueExpected, token, G.None);
    }

    method ReadArray() returns (ok: bool)
      requires Valid()
      modifies this`current, this`errors, this`nodes, this`root
      ensures var q := G.SpacesEnd(document, old(current));
        Performed(ok, if q < |document| && document[q] == ']' then G.Read(true, q + 1, Array([]), old(errors))
                      else G.ReadElements(Cfg(), document, q, [], old(errors)),
                  old(document), old(root), old(nodes))
      decreases |document| - current, 6
    {
      hide G.ReadElements, Put, At, Has;
      ghost var path := Top();
      SetCurrentValue(Array([]));
      SkipSpaces();
      if Peek() == ']' {
        var endArray := ReadToken();
        return true;
      }
      hide G.SpacesEnd;
      ghost var all := G.ReadElements(Cfg(), document, current, [], errors);
      PutLaws(old(root), path, Array([]), all.value);
      ok := ReadElements();
    }

    /** The loop of readArray, from the first element on. */
    method ReadElements() returns (ok: bool)
      requires Valid() && CurrentValue() == Array([])
      modifies this`current, this`errors, this`nodes, this`root
      ensures Performed(ok, G.ReadElements(Cfg(), document, old(current), [], old(errors)),
                        old(document), old(root), old(nodes))
      decreases |document| - current, 5
    {
      hide G.ReadElements, G.ReadValue, Put, At, Has;
      ghost var path, start, elems := Top(), current, [];
      ghost var all := G.ReadElements(Cfg(), document, start, [], errors);
      PutLaws(root, path, Array([]), all.value);
      var done := false;
      while !done
        invariant errors == old(errors) && start <= current
        invariant !done ==>
          Performed(true, G.Read(true, current, Array(elems), errors), old(document), old(root), old(nodes)) &&
          CurrentValue() == Array(elems) &&
          G.ReadElements(Cfg(), document, current, elems, errors) == all
        invariant done ==> Performed(true, all, old(document), old(root), old(nodes))
        decreases !done, |document| - current
      {
        ghost var next := Array(elems + [G.ReadValue(Cfg(), document, current, Null, errors).value]);
        PutLaws(old(root), path, Array(elems), all.value);
        PutLaws(old(root), path, Array(elems), next);
        PutLaws(old(root), path, next, Null);
        ok, done := ReadElementAndSeparator(elems);
        if !ok { return; }
        elems := next.elems;
      }
      return true;
    }

    /** One round of readArray's loop. */
    method ReadElementAndSeparator(ghost elems: seq<Value>) returns (ok: bool, done: bool)
      requires Valid() && CurrentValue() == Array(elems)
      modifies this`current, this`errors, this`nodes, this`root
      ensures var all := G.ReadElements(Cfg(), document, old(current), elems, old(errors));
        if !ok || done then Performed(ok, all, old(document), old(root), old(nodes))
        else
          var next := elems + [G.ReadValue(Cfg(), document, old(current), Null, old(errors)).value];
          Performed(true, G.Read(true, current, Array(next), old(errors)), old(document), old(root), old(nodes)) &&
          old(current) < current && all == G.ReadElements(Cfg(), document, current, next, errors)
      decreases |document| - current, 4
    {
      hide G.ReadValue, G.ReadMembers, G.Recover, G.ReadPastComments, G.ReadToken, Put, At, Has, CStr, Slot, Resolve;
      ok := ReadElement(elems);
      done := false;
      if !ok {
        ok := RecoverFromError(G.ArrayEnd);
        return;
      }
      var token := ReadTokenPastComments();
      done := token.kind == G.ArrayEnd;
    }

    /** Appends a null element to the array on top of the stack and reads into it. */
    method ReadElement(ghost elems: seq<Value>) returns (ok: bool)
      requires Valid() && CurrentValue() == Array(elems)
      modifies this`current, this`errors, this`nodes, this`root
      ensures var r := G.ReadValue(Cfg(), document, old(current), Null, old(errors));
        Performed(ok, r.(value := Array(elems + [r.value])), old(document), old(root), old(nodes))
      ensures CurrentValue().Array?
      decreases |document| - current, 3
    {
      hide G.ReadValue, Put, At, Has;
      var path := Top();
      var items := CurrentValue().elems;
      var index := |items|;
      SetCurrentValue(Array(items + [Null]));
      ghost var r := G.ReadValue(Cfg(), document, current, Null, errors);
      PathAppend(root, path, Elem(index), r.value);
      PutLaws(old(root), path, Array(items + [Null]), Array((items + [Null])[index := r.value]));
      assert (items + [Null])[index := r.value] == items + [r.value];
      nodes := nodes + [path + [Elem(index)]];
      ok := ReadValue();
      nodes := nodes[..|nodes| - 1];
      assert nodes == old(nodes);
      PutLaws(old(root), path, Array(items + [r.value]), Null);
    }

    method ReadObject() returns (ok: bool)
      requires Valid()
      modifies this`current, this`errors, this`nodes, this`root
      ensures Performed(ok, G.ReadMembers(Cfg(), document, old(current), [], "", old(errors)),
                        old(document), old(root), old(nodes))
      decreases |document| - current, 5
    {
      hide G.ReadMembers, Put, At, Has;
      ghost var path := Top();
      var name: string := "";
      ghost var all := G.ReadMembers(Cfg(), document, current, [], "", errors);
      SetCurrentValue(Object([]));
      ghost var ms := [];
      var done := false;
      while !done
        invariant errors == old(errors) && old(current) <= current
        invariant !done ==>
          Performed(true, G.Read(true, current, Object(ms), errors), old(document), old(root), old(nodes)) &&
          CurrentValue() == Object(ms) &&
          G.ReadMembers(Cfg(), document, current, ms, name, errors) == all
        invariant done ==> Performed(true, all, old(document), old(root), old(nodes))
        decreases !done, |document| - current
      {
        PutLaws(old(root), path, Object(ms), all.value);
        ok, done, name := ReadMemberAndSeparator(name, ms);
        if !ok { return; }
        if !done {
          ghost var next := CurrentValue();
          PutLaws(old(root), path, Object(ms), next);
          ms := next.members;
        }
      }
      return true;
    }

    /** One round of readObject's loop. */
    method ReadMemberAndSeparator(name: string, ghost ms: seq<Member>) returns (ok: bool, done: bool, next: string)
      requires Valid() && CurrentValue() == Object(ms)
      modifies this`current, this`errors, this`nodes, this`root
      ensures var all := G.ReadMembers(Cfg(), document, old(current), ms, name, old(errors));
        if !ok || done then Performed(ok, all, old(document), old(root), old(nodes))
        else
          Valid() && CurrentValue().Object? &&
          Performed(true, G.Read(true, current, CurrentValue(), old(errors)), old(document), old(root), old(nodes)) &&
          old(current) < current &&
          all == G.ReadMembers(Cfg(), document, current, CurrentValue().members, next, errors)
      decreases |document| - current, 4
    {
      hide G.ReadValue, G.AfterName, G.Recover, G.ReadPastComments, G.ReadToken, G.DecodeString, Put, At, Has, CStr, Slot, Resolve;
      PutLaws(root, Top(), Null, Null);
      next, done := name, false;
      var tokenName := ReadTokenPastComments();
      if tokenName.kind == G.ObjectEnd && name == "" { return true, true, name; }
      if tokenName.kind != G.StringToken {
        ok := AddErrorAndRecover(G.MissingBraceOrName, tokenName, G.ObjectEnd);
        return;
      }
      ok, next := DecodeStringInto(tokenName);
      if !ok {
        ok := RecoverFromError(G.ObjectEnd);
        return;
      }
      ok, done := ReadColonValueAndSeparator(next, ms);
    }

    method ReadColonValueAndSeparator(name: string, ghost ms: seq<Member>) returns (ok: bool, done: bool)
      requires Valid() && CurrentValue() == Object(ms)
      modifies this`current, this`errors, this`nodes, this`root
      ensures var all := G.AfterName(Cfg(), document, old(current), ms, name, old(errors));
        if !ok || done then Performed(ok, all, old(document), old(root), old(nodes))
        else
          Valid() && CurrentValue().Object? &&
          Performed(true, G.Read(true, current, CurrentValue(), old(errors)), old(document), old(root), old(nodes)) &&
          old(current) < current &&
          all == G.ReadMembers(Cfg(), document, current, CurrentValue().members, name, errors)
      decreases |document| - current, 3
    {
      hide G.ReadValue, G.AfterMember, G.ReadMembers, G.Recover, G.ReadToken, Put, At, Has, CStr, Slot, Resolve;
      PutLaws(root, Top(), Null, Null);
      done := false;
      var colon := ReadToken();
      if colon.kind != G.MemberSeparator {
        ok := AddErrorAndRecover(G.MissingColon, colon, G.ObjectEnd);
        return;
      }
      ok := ReadMember(name, ms);
      if !ok {
        ok := RecoverFromError(G.ObjectEnd);
        return;
      }
      ok, done := ReadSeparator(name, CurrentValue().members);
    }

    method ReadSeparator(name: string, ghost ms: seq<Member>) returns (ok: bool, done: bool)
      requires Valid()
      modifies this`current, this`errors
      ensures Valid()
      ensures var all := G.AfterMember(Cfg(), document, old(current), ms, name, old(errors));
        if !ok || done then
          ok == all.ok && current == all.pos && errors == all.errors && all.value == Object(ms)
        else
          errors == old(errors) && old(current) < current &&
          all == G.ReadMembers(Cfg(), document, current, ms, name, errors)
    {
      hide G.ReadMembers, G.Recover, G.ReadToken, Put, At, Has;
      done := false;
      var comma := ReadToken();
      if comma.kind !in {G.ObjectEnd, G.ArraySeparator, G.CommentToken} {
        ok := AddErrorAndRecover(G.MissingCommaOrBrace, comma, G.ObjectEnd);
        return;
      }
      comma := SkipComments(comma);
      ok, done := true, comma.kind == G.ObjectEnd;
    }

    /** Reads into the member of that name, which is created if it is missing. */
    method ReadMember(name: string, ghost ms: seq<Member>) returns (ok: bool)
      requires Valid() && CurrentValue() == Object(ms)
      modifies this`current, this`errors, this`nodes, this`root
      ensures var ms1 := Resolve(ms, CStr(name));
        var i := Slot(ms1, CStr(name));
        i < |ms1| &&
        var r := G.ReadValue(Cfg(), document, old(current), ms1[i].value, old(errors));
        Performed(ok, r.(value := Object(ms1[i := Member(CStr(name), r.value)])), old(document), old(root), old(nodes)) &&
        CurrentValue() == Object(ms1[i := Member(CStr(name), r.value)])
      decreases |document| - current, 2
    {
      hide G.ReadValue, Put, At, Has, Slot;
      var path := Top();
      var key := CStr(name);
      var ms1 := Resolve(CurrentValue().members, key);
      ResolveHasName(ms, key);
      ghost var i := Slot(ms1, key);
      SetCurrentValue(Object(ms1));
      ghost var r := G.ReadValue(Cfg(), document, current, ms1[i].value, errors);
      ghost var ms2 := ms1[i := Member(key, r.value)];
      PathAppend(root, path, Name(key), r.value);
      PutLaws(old(root), path, Object(ms1), Object(ms2));
      nodes := nodes + [path + [Name(key)]];
      ok := ReadValue();
      nodes := nodes[..|nodes| - 1];
      assert nodes == old(nodes);
      PutLaws(old(root), path, Object(ms2), Null);
    }

    method Parse(text: string, value: Value) returns (ok: bool)
      modifies this
      ensures var r := G.ParseDocument(Cfg(), text, value);
        ok == r.ok && root == r.value && errors == r.errors && current == r.pos
      ensures nodes == [[]]
      ensures ok <==> errors == []
    {
      document, current, errors := text, 0, [];
      root := value;
      nodes := [[]];
      ok := ReadValue();
      var token := SkipCommentTokens();
      if features.strictRoot && !G.IsArrayOrObject(root) {
        ok := AddError(G.RootNotContainer, G.Token(G.ErrorToken, 0, |document|), G.None);
      }
    }
  }
}
