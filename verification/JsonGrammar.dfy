/** What jsoncpp's Reader computes, as functions of the document and a position.
    Documents are C++ byte strings, a char standing for a byte. Reader (in
    JsonReader.dfy) is proved to compute exactly these functions. */
module JsonGrammar {
  import opened JsonValue

  datatype Option<+T> = None | Some(value: T)

  // ----- tokens -----

  datatype TokenType =
    | EndOfStream | ObjectBegin | ObjectEnd | ArrayBegin | ArrayEnd
    | StringToken | NumberToken | TrueToken | FalseToken | NullToken
    | ArraySeparator | MemberSeparator | CommentToken | ErrorToken

  datatype Token = Token(kind: TokenType, start: nat, end: nat)

  predicate IsSpace(c: char) {
    c == ' ' || c == '\t' || c == '\r' || c == '\n'
  }

  function SpacesEnd(doc: string, p: nat): (q: nat)
    requires p <= |doc|
    ensures p <= q <= |doc|
    ensures q < |doc| ==> !IsSpace(doc[q])
    decreases |doc| - p
  {
    if p < |doc| && IsSpace(doc[p]) then SpacesEnd(doc, p + 1) else p
  }

  predicate HasAt(doc: string, p: nat, text: string) {
    p + |text| <= |doc| && doc[p..p + |text|] == text
  }

  /** Scanning for the closing quote: whether it was found, and where scanning stopped. */
  function StringScan(doc: string, p: nat): (r: (bool, nat))
    requires p <= |doc|
    ensures p <= r.1 <= |doc|
    ensures r.0 ==> p < r.1
    decreases |doc| - p
  {
    if p == |doc| then (false, p)
    else if doc[p] == '\\' then StringScan(doc, if p + 2 <= |doc| then p + 2 else |doc|)
    else if doc[p] == '"' then (true, p + 1)
    else StringScan(doc, p + 1)
  }

  function CStyleScan(doc: string, p: nat): (r: (bool, nat))
    requires p <= |doc|
    ensures p <= r.1 <= |doc|
    decreases |doc| - p
  {
    if p == |doc| then (false, p)
    else if doc[p] == '*' && p + 1 < |doc| && doc[p + 1] == '/' then (true, p + 2)
    else CStyleScan(doc, p + 1)
  }

  function CppStyleScan(doc: string, p: nat): (q: nat)
    requires p <= |doc|
    ensures p <= q <= |doc|
    decreases |doc| - p
  {
    if p == |doc| then p
    else if doc[p] == '\r' || doc[p] == '\n' then p + 1
    else CppStyleScan(doc, p + 1)
  }

  /** From just after the first slash. */
  function CommentScan(doc: string, p: nat): (r: (bool, nat))
    requires p <= |doc|
    ensures p <= r.1 <= |doc|
  {
    if p == |doc| then (false, p)
    else if doc[p] == '*' then CStyleScan(doc, p + 1)
    else if doc[p] == '/' then (true, CppStyleScan(doc, p + 1))
    else (false, p + 1)
  }

  predicate IsDigit(c: char) { '0' <= c <= '9' }

  predicate IsNumberChar(c: char) {
    IsDigit(c) || c == '.' || c == 'e' || c == 'E' || c == '+' || c == '-'
  }

  function NumberEnd(doc: string, p: nat): (q: nat)
    requires p <= |doc|
    ensures p <= q <= |doc|
    ensures forall k :: p <= k < q ==> IsNumberChar(doc[k])
    ensures q < |doc| ==> !IsNumberChar(doc[q])
    decreases |doc| - p
  {
    if p < |doc| && IsNumberChar(doc[p]) then NumberEnd(doc, p + 1) else p
  }

  /** A token of the given kind when the text is right, an error token otherwise. */
  function Checked(kind: TokenType, start: nat, scan: (bool, nat)): Token {
    Token(if scan.0 then kind else ErrorToken, start, scan.1)
  }

  function MatchScan(doc: string, p: nat, text: string): (r: (bool, nat))
    requires p <= |doc|
    ensures p <= r.1 <= |doc|
  {
    if HasAt(doc, p, text) then (true, p + |text|) else (false, p)
  }

  /** The token after position p. Every token but the end of the stream consumes input. */
  function ReadToken(doc: string, p: nat): (t: Token)
    requires p <= |doc|
    ensures p <= t.start <= t.end <= |doc|
    ensures t.kind != EndOfStream ==> t.start < t.end
    ensures t.kind == StringToken ==> t.start + 2 <= t.end
    ensures t.kind == NumberToken ==> forall k :: t.start < k < t.end ==> IsNumberChar(doc[k])
    ensures t.kind == NumberToken ==> IsDigit(doc[t.start]) || doc[t.start] == '-'
  {
    var s := SpacesEnd(doc, p);
    if s == |doc| then Token(EndOfStream, s, s) else
    var c := doc[s];
    if c == '{' then Token(ObjectBegin, s, s + 1)
    else if c == '}' then Token(ObjectEnd, s, s + 1)
    else if c == '[' then Token(ArrayBegin, s, s + 1)
    else if c == ']' then Token(ArrayEnd, s, s + 1)
    else if c == '"' then Checked(StringToken, s, StringScan(doc, s + 1))
    else if c == '/' then Checked(CommentToken, s, CommentScan(doc, s + 1))
    else if IsDigit(c) || c == '-' then Token(NumberToken, s, NumberEnd(doc, s + 1))
    else if c == 't' then Checked(TrueToken, s, MatchScan(doc, s + 1, "rue"))
    else if c == 'f' then Checked(FalseToken, s, MatchScan(doc, s + 1, "alse"))
    else if c == 'n' then Checked(NullToken, s, MatchScan(doc, s + 1, "ull"))
    else if c == ',' then Token(ArraySeparator, s, s + 1)
    else if c == ':' then Token(MemberSeparator, s, s + 1)
    else if c == NUL then Token(EndOfStream, s, s + 1)
    else Token(ErrorToken, s, s + 1)
  }

  /** The first token that is not a comment. */
  function ReadPastComments(doc: string, p: nat): (t: Token)
    requires p <= |doc|
    ensures p <= t.start <= t.end <= |doc|
    ensures t.kind != EndOfStream ==> t.start < t.end
    ensures t.kind != CommentToken
    ensures t.kind == StringToken ==> t.start + 2 <= t.end
    ensures t.kind == NumberToken ==> forall k :: t.start < k < t.end ==> IsNumberChar(doc[k])
    ensures t.kind == NumberToken ==> IsDigit(doc[t.start]) || doc[t.start] == '-'
    decreases |doc| - p
  {
    var t := ReadToken(doc, p);
    if t.kind == CommentToken then ReadPastComments(doc, t.end) else t
  }

  // ----- errors -----

  datatype ErrorKind =
    | ValueExpected | NotANumber | EmptyEscape | BadEscape | FourDigitsExpected
    | HexDigitExpected | SixCharactersExpected | SecondSurrogateExpected
    | MissingColon | MissingCommaOrBrace | MissingBraceOrName | MissingCommaOrBracket
    | RootNotContainer

  datatype ErrorInfo = ErrorInfo(kind: ErrorKind, token: Token, extra: Option<nat>)

  /** Skipping to the end of the container in which an error was found. */
  function Recover(doc: string, p: nat, until: TokenType): (q: nat)
    requires p <= |doc|
    ensures p <= q <= |doc|
    decreases |doc| - p
  {
    var t := ReadToken(doc, p);
    if t.kind == until || t.kind == EndOfStream then t.end else Recover(doc, t.end, until)
  }

  // ----- numbers -----

  datatype Scanned = Whole(value: nat) | TooBig | NotDigits

  /** The unsigned digits in [p, end), given the value of the digits before. */
  function DigitsFrom(doc: string, p: nat, end: nat, value: nat, threshold: nat): (r: Scanned)
    requires p <= end <= |doc|
    requires value < 10 * threshold
    ensures r.Whole? ==> r.value < 10 * threshold
    decreases end - p
  {
    if p == end then Whole(value)
    else if !IsDigit(doc[p]) then NotDigits
    else if value >= threshold then TooBig
    else DigitsFrom(doc, p + 1, end, value * 10 + (doc[p] - '0') as nat, threshold)
  }

  const MAX_INT: int := 0x7fff_ffff
  const MIN_INT: int := -0x8000_0000
  const MAX_UINT: int := 0xffff_ffff

  /** Whether the token has a fraction, an exponent or an inner sign. */
  predicate LooksReal(doc: string, t: Token)
    requires t.start <= t.end <= |doc|
  {
    exists k :: t.start <= k < t.end && RealMark(doc[k], k == t.start)
  }

  predicate RealMark(c: char, first: bool) {
    c == '.' || c == 'e' || c == 'E' || c == '+' || (c == '-' && !first)
  }

  /** `scan` stands for sscanf("%lf"): the number read from a text, if any. */
  type Scanner = string -> Option<real>

  function DecodeDouble(scan: Scanner, doc: string, t: Token): Option<Value>
    requires t.start <= t.end <= |doc|
  {
    match scan(doc[t.start..t.end])
    case None => None
    case Some(r) => Some(Real(r))
  }

  function Threshold(negative: bool): nat {
    (if negative then -MIN_INT else MAX_UINT) / 10
  }

  function DecodeNumber(scan: Scanner, doc: string, t: Token): (r: Option<Value>)
    requires t.start < t.end <= |doc|
  {
    if LooksReal(doc, t) then DecodeDouble(scan, doc, t) else
    var negative := doc[t.start] == '-';
    match DigitsFrom(doc, if negative then t.start + 1 else t.start, t.end, 0, Threshold(negative))
    case NotDigits => None
    case TooBig => DecodeDouble(scan, doc, t)
    case Whole(n) => Some(if negative then Int(0 - n) else if n <= MAX_INT then Int(n) else UInt(n))
  }

  // ----- strings -----

  datatype Decoded<+T> = Good(value: T) | Bad(kind: ErrorKind, extra: nat)

  predicate IsHex(c: char) {
    IsDigit(c) || 'a' <= c <= 'f' || 'A' <= c <= 'F'
  }

  function HexValue(c: char): nat
    requires IsHex(c)
  {
    if IsDigit(c) then (c - '0') as nat
    else if 'a' <= c <= 'f' then (c - 'a') as nat + 10
    else (c - 'A') as nat + 10
  }

  /** `left` more hexadecimal digits. */
  function HexFrom(doc: string, p: nat, left: nat, value: nat): (r: Decoded<nat>)
    requires p + left <= |doc|
    decreases left
  {
    if left == 0 then Good(value)
    else if !IsHex(doc[p]) then Bad(HexDigitExpected, p + 1)
    else HexFrom(doc, p + 1, left - 1, value * 16 + HexValue(doc[p]))
  }

  function Hex4(doc: string, p: nat, end: nat): Decoded<nat>
    requires p <= end <= |doc|
  {
    if end - p < 4 then Bad(FourDigitsExpected, p) else HexFrom(doc, p, 4, 0)
  }

  /** A code point escape from just after its `\u`, and the position after it. */
  function CodePoint(doc: string, p: nat, end: nat): (r: Decoded<(nat, nat)>)
    requires p <= end <= |doc|
    ensures r.Good? ==> p + 4 <= r.value.1 <= end
  {
    match Hex4(doc, p, end)
    case Bad(k, x) => Bad(k, x)
    case Good(u) =>
      if !(0xD800 <= u <= 0xDBFF) then Good((u, p + 4))
      else
        var q := p + 4;
        if end - q < 6 then Bad(SixCharactersExpected, q)
        else if doc[q] != '\\' then Bad(SecondSurrogateExpected, q + 1)
        else if doc[q + 1] != 'u' then Bad(SecondSurrogateExpected, q + 2)
        else match Hex4(doc, q + 2, end)
          case Bad(k, x) => Bad(k, x)
          case Good(low) => Good((0x10000 + u % 0x400 * 0x400 + low % 0x400, q + 6))
  }

  function Byte(n: nat): char
    requires n < 256
  {
    n as char
  }

  function CodePointToUTF8(cp: nat): string {
    if cp <= 0x7f then [Byte(cp)]
    else if cp <= 0x7FF then
      [Byte(0xC0 + cp / 0x40 % 0x20), Byte(0x80 + cp % 0x40)]
    else if cp <= 0xFFFF then
      [Byte(0xE0 + cp / 0x1000 % 0x10), Byte(0x80 + cp / 0x40 % 0x40), Byte(0x80 + cp % 0x40)]
    else if cp <= 0x10FFFF then
      [Byte(0xF0 + cp / 0x40000 % 8), Byte(0x80 + cp / 0x1000 % 0x40),
       Byte(0x80 + cp / 0x40 % 0x40), Byte(0x80 + cp % 0x40)]
    else ""
  }

  predicate IsSimpleEscape(c: char) {
    c in {'"', '/', '\\', 'b', 'f', 'n', 'r', 't'}
  }

  function SimpleEscape(c: char): char
    requires IsSimpleEscape(c)
  {
    match c
    case 'b' => 8 as char
    case 'f' => 12 as char
    case 'n' => '\n'
    case 'r' => '\r'
    case 't' => '\t'
    case _ => c
  }

  function DecodeFrom(doc: string, p: nat, end: nat, decoded: string): Decoded<string>
    requires p <= end <= |doc|
    decreases end - p
  {
    if p == end || doc[p] == '"' then Good(decoded)
    else if doc[p] != '\\' then DecodeFrom(doc, p + 1, end, decoded + [doc[p]])
    else if p + 1 == end then Bad(EmptyEscape, p + 1)
    else if IsSimpleEscape(doc[p + 1]) then
      DecodeFrom(doc, p + 2, end, decoded + [SimpleEscape(doc[p + 1])])
    else if doc[p + 1] != 'u' then Bad(BadEscape, p + 2)
    else match CodePoint(doc, p + 2, end)
      case Bad(k, x) => Bad(k, x)
      case Good((cp, q)) => DecodeFrom(doc, q, end, decoded + CodePointToUTF8(cp))
  }

  function DecodeString(doc: string, t: Token): Decoded<string>
    requires t.start + 2 <= t.end <= |doc|
  {
    DecodeFrom(doc, t.start + 1, t.end - 1, "")
  }

  // ----- values -----

  datatype Features = Features(allowComments: bool, strictRoot: bool)

  datatype Config = Config(features: Features, scan: Scanner)

  /** The outcome of reading into a node: the verdict, the position reached, the
      node's new value, and the errors recorded so far. */
  datatype Read = Read(ok: bool, pos: nat, value: Value, errors: seq<ErrorInfo>)

  function SkipCommentTokens(cfg: Config, doc: string, p: nat): (t: Token)
    requires p <= |doc|
    ensures p <= t.start <= t.end <= |doc|
    ensures t.kind != EndOfStream ==> t.start < t.end
    ensures t.kind == StringToken ==> t.start + 2 <= t.end
  {
    if cfg.features.allowComments then ReadPastComments(doc, p) else ReadToken(doc, p)
  }

  /** Reading goes forward and stays inside the document; it succeeds when it
      records no error, and otherwise adds at least one to those it was given. */
  ghost predicate Proceeds(doc: string, p: nat, errors: seq<ErrorInfo>, r: Read) {
    p <= r.pos <= |doc| &&
    if r.ok then p < r.pos && r.errors == errors
    else |errors| < |r.errors| && r.errors[..|errors|] == errors
  }

  /** Reads a value into a node that holds `node`. */
  function ReadValue(cfg: Config, doc: string, p: nat, node: Value, errors: seq<ErrorInfo>): (r: Read)
    requires p <= |doc|
    ensures Proceeds(doc, p, errors, r)
    decreases |doc| - p, 3
  {
    var t := SkipCommentTokens(cfg, doc, p);
    match t.kind
    case ObjectBegin => ReadMembers(cfg, doc, t.end, [], "", errors)
    case ArrayBegin =>
      var q := SpacesEnd(doc, t.end);
      if q < |doc| && doc[q] == ']' then Read(true, q + 1, Array([]), errors)
      else ReadElements(cfg, doc, q, [], errors)
    case NumberToken =>
      (match DecodeNumber(cfg.scan, doc, t)
       case None => Read(false, t.end, node, errors + [ErrorInfo(NotANumber, t, None)])
       case Some(v) => Read(true, t.end, v, errors))
    case StringToken =>
      (match DecodeString(doc, t)
       case Bad(k, x) => Read(false, t.end, node, errors + [ErrorInfo(k, t, Some(x))])
       case Good(s) => Read(true, t.end, String(CStr(s)), errors))
    case TrueToken => Read(true, t.end, Bool(true), errors)
    case FalseToken => Read(true, t.end, Bool(false), errors)
    case NullToken => Read(true, t.end, Null, errors)
    case _ => Read(false, t.end, node, errors + [ErrorInfo(ValueExpected, t, None)])
  }

  /** The rest of an array, from before an element. */
  function ReadElements(cfg: Config, doc: string, p: nat, elems: seq<Value>, errors: seq<ErrorInfo>): (r: Read)
    requires p <= |doc|
    ensures Proceeds(doc, p, errors, r)
    decreases |doc| - p, 4
  {
    var r := ReadValue(cfg, doc, p, Null, errors);
    var elems' := elems + [r.value];
    if !r.ok then Read(false, Recover(doc, r.pos, ArrayEnd), Array(elems'), r.errors)
    else
      var t := ReadPastComments(doc, r.pos);
      if t.kind == ArrayEnd then Read(true, t.end, Array(elems'), r.errors)
      else ReadElements(cfg, doc, t.end, elems', r.errors)
  }

  /** The rest of an object, from before a member; `name` is the name of the member before. */
  function ReadMembers(cfg: Config, doc: string, p: nat, ms: seq<Member>, name: string,
                       errors: seq<ErrorInfo>): (r: Read)
    requires p <= |doc|
    ensures Proceeds(doc, p, errors, r)
    decreases |doc| - p, 2
  {
    var t := ReadPastComments(doc, p);
    if t.kind == ObjectEnd && name == "" then Read(true, t.end, Object(ms), errors)
    else if t.kind != StringToken then
      Read(false, Recover(doc, t.end, ObjectEnd), Object(ms), errors + [ErrorInfo(MissingBraceOrName, t, None)])
    else match DecodeString(doc, t)
      case Bad(k, x) =>
        Read(false, Recover(doc, t.end, ObjectEnd), Object(ms), errors + [ErrorInfo(k, t, Some(x))])
      case Good(raw) => AfterName(cfg, doc, t.end, ms, raw, errors)
  }

  /** The rest of an object, from after a member's name. */
  function AfterName(cfg: Config, doc: string, p: nat, ms: seq<Member>, name: string,
                     errors: seq<ErrorInfo>): (r: Read)
    requires p <= |doc|
    ensures Proceeds(doc, p, errors, r)
    decreases |doc| - p, 1
  {
    var colon := ReadToken(doc, p);
    if colon.kind != MemberSeparator then
      Read(false, Recover(doc, colon.end, ObjectEnd), Object(ms), errors + [ErrorInfo(MissingColon, colon, None)])
    else
      var ms1 := Resolve(ms, CStr(name));
      ResolveHasName(ms, CStr(name));
      var i := Slot(ms1, CStr(name));
      var r := ReadValue(cfg, doc, colon.end, ms1[i].value, errors);
      var ms2 := ms1[i := Member(CStr(name), r.value)];
      if !r.ok then Read(false, Recover(doc, r.pos, ObjectEnd), Object(ms2), r.errors)
      else AfterMember(cfg, doc, r.pos, ms2, name, r.errors)
  }

  /** The rest of an object, from after a member's value. */
  function AfterMember(cfg: Config, doc: string, p: nat, ms: seq<Member>, name: string,
                       errors: seq<ErrorInfo>): (r: Read)
    requires p <= |doc|
    ensures Proceeds(doc, p, errors, r)
    decreases |doc| - p, 1
  {
    var comma := ReadToken(doc, p);
    if comma.kind !in {ObjectEnd, ArraySeparator, CommentToken} then
      Read(false, Recover(doc, comma.end, ObjectEnd), Object(ms), errors + [ErrorInfo(MissingCommaOrBrace, comma, None)])
    else
      var last := ReadPastComments(doc, p);
      if last.kind == ObjectEnd then Read(true, last.end, Object(ms), errors)
      else ReadMembers(cfg, doc, last.end, ms, name, errors)
  }

  /** Whether isArray or isObject holds: both do of null. */
  predicate IsArrayOrObject(v: Value) { v.Null? || v.Array? || v.Object? }

  /** Parsing a document into a root that holds `root`. */
  function ParseDocument(cfg: Config, doc: string, root: Value): (r: Read)
    ensures r.ok <==> r.errors == []
  {
    var r := ReadValue(cfg, doc, 0, root, []);
    var t := SkipCommentTokens(cfg, doc, r.pos);
    if cfg.features.strictRoot && !IsArrayOrObject(r.value) then
      Read(false, t.end, r.value, r.errors + [ErrorInfo(RootNotContainer, Token(ErrorToken, 0, |doc|), None)])
    else Read(r.ok, t.end, r.value, r.errors)
  }
}
