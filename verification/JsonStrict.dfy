/** Where jsoncpp's reader accepts what RFC 8259 does not, as to the marks between the
    parts of a container and to the ends of strings. A second reader, with the same
    tokens, that insists on the commas; and exactly when the two differ. */
module JsonStrict {
  import opened JsonValue
  import G = JsonGrammar

  datatype Strict = Rejected | Accepted(pos: nat, value: Value)

  // ----- the strict reader -----

  function StrictValue(cfg: G.Config, doc: string, p: nat): (r: Strict)
    requires p <= |doc|
    ensures r.Accepted? ==> p < r.pos <= |doc|
    decreases |doc| - p, 3
  {
    var t := G.SkipCommentTokens(cfg, doc, p);
    match t.kind
    case ObjectBegin =>
      var first := G.ReadPastComments(doc, t.end);
      if first.kind == G.ObjectEnd then Accepted(first.end, Object([])) else StrictMembers(cfg, doc, t.end, [])
    case ArrayBegin =>
      var q := G.SpacesEnd(doc, t.end);
      if q < |doc| && doc[q] == ']' then Accepted(q + 1, Array([])) else StrictElements(cfg, doc, q, [])
    case NumberToken => Leaf(t.end, G.DecodeNumber(cfg.scan, doc, t))
    case StringToken =>
      (match G.DecodeString(doc, t) case Bad(_, _) => Rejected case Good(s) => Accepted(t.end, String(CStr(s))))
    case TrueToken => Accepted(t.end, Bool(true))
    case FalseToken => Accepted(t.end, Bool(false))
    case NullToken => Accepted(t.end, Null)
    case _ => Rejected
  }

  function Leaf(pos: nat, v: G.Option<Value>): Strict {
    if v.None? then Rejected else Accepted(pos, v.value)
  }

  /** An element, then a comma and more elements, or the end of the array. */
  function StrictElements(cfg: G.Config, doc: string, p: nat, elems: seq<Value>): (r: Strict)
    requires p <= |doc|
    ensures r.Accepted? ==> p < r.pos <= |doc|
    decreases |doc| - p, 4
  {
    match StrictValue(cfg, doc, p)
    case Rejected => Rejected
    case Accepted(q, v) =>
      var t := G.ReadPastComments(doc, q);
      if t.kind == G.ArrayEnd then Accepted(t.end, Array(elems + [v]))
      else if t.kind == G.ArraySeparator then StrictElements(cfg, doc, t.end, elems + [v])
      else Rejected
  }

  /** A name, a colon and a value, then a comma and more members, or the end of the object. */
  function StrictMembers(cfg: G.Config, doc: string, p: nat, ms: seq<Member>): (r: Strict)
    requires p <= |doc|
    ensures r.Accepted? ==> p < r.pos <= |doc|
    decreases |doc| - p, 2
  {
    var name := G.ReadPastComments(doc, p);
    if name.kind != G.StringToken || G.DecodeString(doc, name).Bad? then Rejected
    else
      var colon := G.ReadToken(doc, name.end);
      if colon.kind != G.MemberSeparator then Rejected
      else
        match StrictValue(cfg, doc, colon.end)
        case Rejected => Rejected
        case Accepted(q, v) =>
          var ms' := With(ms, CStr(G.DecodeString(doc, name).value), v);
          var t := G.ReadPastComments(doc, q);
          if t.kind == G.ObjectEnd then Accepted(t.end, Object(ms'))
          else if t.kind == G.ArraySeparator then StrictMembers(cfg, doc, t.end, ms')
          else Rejected
  }

  /** The members with a name assigned. */
  function With(ms: seq<Member>, name: string, v: Value): seq<Member> {
    ResolveHasName(ms, name);
    var r := Resolve(ms, name);
    r[Slot(r, name) := Member(name, v)]
  }

  // ----- what the lenient reader meets -----

  /** A token that it takes as the mark after an element or a member, or the end of an
      object that it takes after such a mark. */
  datatype Mark = Between(kind: G.TokenType) | EndAfterComma

  predicate OnlyCommas(marks: seq<Mark>) {
    forall m :: m in marks ==> m == Between(G.ArraySeparator)
  }

  /** The marks met in reading a value. */
  function ValueMarks(cfg: G.Config, doc: string, p: nat, node: Value, errors: seq<G.ErrorInfo>): seq<Mark>
    requires p <= |doc|
    decreases |doc| - p, 3
  {
    var t := G.SkipCommentTokens(cfg, doc, p);
    match t.kind
    case ObjectBegin => MemberMarks(cfg, doc, t.end, [], "", errors)
    case ArrayBegin =>
      var q := G.SpacesEnd(doc, t.end);
      if q < |doc| && doc[q] == ']' then [] else ElementMarks(cfg, doc, q, [], errors)
    case _ => []
  }

  function ElementMarks(cfg: G.Config, doc: string, p: nat, elems: seq<Value>, errors: seq<G.ErrorInfo>): seq<Mark>
    requires p <= |doc|
    decreases |doc| - p, 4
  {
    var r := G.ReadValue(cfg, doc, p, Null, errors);
    var inner := ValueMarks(cfg, doc, p, Null, errors);
    if !r.ok then inner
    else
      var t := G.ReadPastComments(doc, r.pos);
      if t.kind == G.ArrayEnd then inner
      else inner + [Between(t.kind)] + ElementMarks(cfg, doc, t.end, elems + [r.value], r.errors)
  }

  function MemberMarks(cfg: G.Config, doc: string, p: nat, ms: seq<Member>, name: string,
                       errors: seq<G.ErrorInfo>): seq<Mark>
    requires p <= |doc|
    decreases |doc| - p, 2
  {
    var t := G.ReadPastComments(doc, p);
    if t.kind == G.ObjectEnd && name == "" then if ms == [] then [] else [EndAfterComma]
    else if t.kind != G.StringToken || G.DecodeString(doc, t).Bad? then []
    else MarksAfterName(cfg, doc, t.end, ms, G.DecodeString(doc, t).value, errors)
  }

  function MarksAfterName(cfg: G.Config, doc: string, p: nat, ms: seq<Member>, name: string,
                          errors: seq<G.ErrorInfo>): seq<Mark>
    requires p <= |doc|
    decreases |doc| - p, 1
  {
    var colon := G.ReadToken(doc, p);
    if colon.kind != G.MemberSeparator then []
    else
      var ms1 := Resolve(ms, CStr(name));
      ResolveHasName(ms, CStr(name));
      var i := Slot(ms1, CStr(name));
      var r := G.ReadValue(cfg, doc, colon.end, ms1[i].value, errors);
      var inner := ValueMarks(cfg, doc, colon.end, ms1[i].value, errors);
      if !r.ok then inner
      else inner + MarksAfterMember(cfg, doc, r.pos, ms1[i := Member(CStr(name), r.value)], name, r.errors)
  }

  function MarksAfterMember(cfg: G.Config, doc: string, p: nat, ms: seq<Member>, name: string,
                            errors: seq<G.ErrorInfo>): seq<Mark>
    requires p <= |doc|
    decreases |doc| - p, 1
  {
    var comma := G.ReadToken(doc, p);
    if comma.kind !in {G.ObjectEnd, G.ArraySeparator, G.CommentToken} then []
    else
      var last := G.ReadPastComments(doc, p);
      if last.kind == G.ObjectEnd then []
      else [Between(last.kind)] + MemberMarks(cfg, doc, last.end, ms, name, errors)
  }

  // ----- exactly when they differ -----

  /** What the strict reader does, said of the lenient one. */
  function Said(r: G.Read, marks: seq<Mark>): Strict {
    if r.ok && OnlyCommas(marks) then Accepted(r.pos, r.value) else Rejected
  }

  lemma CommasApart(a: seq<Mark>, b: seq<Mark>)
    ensures OnlyCommas(a + b) <==> OnlyCommas(a) && OnlyCommas(b)
    ensures OnlyCommas([]) && forall k :: OnlyCommas([Between(k)]) <==> k == G.ArraySeparator
    ensures !OnlyCommas([EndAfterComma])
  {
    if OnlyCommas(a + b) {
      forall m | m in a || m in b ensures m == Between(G.ArraySeparator) { assert m in a + b; }
    }
    forall k ensures OnlyCommas([Between(k)]) <==> k == G.ArraySeparator {
      assert Between(k) in [Between(k)];
    }
    assert EndAfterComma in [EndAfterComma];
  }

  lemma {:induction false} ValueSaid(cfg: G.Config, doc: string, p: nat, node: Value, errors: seq<G.ErrorInfo>)
    requires p <= |doc|
    ensures StrictValue(cfg, doc, p)
      == Said(G.ReadValue(cfg, doc, p, node, errors), ValueMarks(cfg, doc, p, node, errors))
    decreases |doc| - p, 3
  {
    hide G.ReadElements, G.SkipCommentTokens, G.DecodeString, G.DecodeNumber, G.ReadPastComments, G.SpacesEnd, CStr;
    hide StrictElements, StrictMembers, ElementMarks;
    CommasApart([], []);
    var t := G.SkipCommentTokens(cfg, doc, p);
    match t.kind
    case ObjectBegin =>
      if G.ReadPastComments(doc, t.end).kind != G.ObjectEnd { MembersSaid(cfg, doc, t.end, [], "", errors); }
    case ArrayBegin => ElementsSaid(cfg, doc, G.SpacesEnd(doc, t.end), [], errors);
    case _ =>
  }

  lemma {:induction false} ElementsSaid(cfg: G.Config, doc: string, p: nat, elems: seq<Value>, errors: seq<G.ErrorInfo>)
    requires p <= |doc|
    ensures StrictElements(cfg, doc, p, elems)
      == Said(G.ReadElements(cfg, doc, p, elems, errors), ElementMarks(cfg, doc, p, elems, errors))
    decreases |doc| - p, 4
  {
    hide G.ReadValue, G.ReadPastComments, G.Recover, StrictValue, ValueMarks, OnlyCommas;
    ValueSaid(cfg, doc, p, Null, errors);
    var r := G.ReadValue(cfg, doc, p, Null, errors);
    var inner := ValueMarks(cfg, doc, p, Null, errors);
    if r.ok {
      var t := G.ReadPastComments(doc, r.pos);
      if t.kind != G.ArrayEnd {
        var more := ElementMarks(cfg, doc, t.end, elems + [r.value], r.errors);
        ElementsSaid(cfg, doc, t.end, elems + [r.value], r.errors);
        CommasApart(inner + [Between(t.kind)], more);
        CommasApart(inner, [Between(t.kind)]);
      }
    }
  }

  /** Where a member has to follow. */
  lemma {:induction false} MembersSaid(cfg: G.Config, doc: string, p: nat, ms: seq<Member>, name: string,
                                       errors: seq<G.ErrorInfo>)
    requires p <= |doc| && (ms == [] ==> G.ReadPastComments(doc, p).kind != G.ObjectEnd)
    ensures StrictMembers(cfg, doc, p, ms)
      == Said(G.ReadMembers(cfg, doc, p, ms, name, errors), MemberMarks(cfg, doc, p, ms, name, errors))
    decreases |doc| - p, 2
  {
    hide G.ReadPastComments, G.ReadToken, G.Recover, G.DecodeString, G.AfterName, MarksAfterName, StrictValue, OnlyCommas;
    hide With, CStr;
    CommasApart([], []);
    var t := G.ReadPastComments(doc, p);
    if t.kind == G.StringToken && G.DecodeString(doc, t).Good? {
      NamedSaid(cfg, doc, t, ms, errors);
    }
  }

  /** The rest of the strict reader's member, after the name. */
  function StrictAfterName(cfg: G.Config, doc: string, p: nat, ms: seq<Member>, name: string): Strict
    requires p <= |doc|
  {
    var colon := G.ReadToken(doc, p);
    if colon.kind != G.MemberSeparator then Rejected
    else
      match StrictValue(cfg, doc, colon.end)
      case Rejected => Rejected
      case Accepted(q, v) => StrictAfterMember(cfg, doc, q, With(ms, CStr(name), v))
  }

  function StrictAfterMember(cfg: G.Config, doc: string, p: nat, ms: seq<Member>): Strict
    requires p <= |doc|
  {
    var t := G.ReadPastComments(doc, p);
    if t.kind == G.ObjectEnd then Accepted(t.end, Object(ms))
    else if t.kind == G.ArraySeparator then StrictMembers(cfg, doc, t.end, ms)
    else Rejected
  }

  lemma {:induction false} NamedSaid(cfg: G.Config, doc: string, t: G.Token, ms: seq<Member>, errors: seq<G.ErrorInfo>)
    requires t.start + 2 <= t.end <= |doc| && G.DecodeString(doc, t).Good?
    ensures var name := G.DecodeString(doc, t).value;
      StrictAfterName(cfg, doc, t.end, ms, name)
      == Said(G.AfterName(cfg, doc, t.end, ms, name, errors), MarksAfterName(cfg, doc, t.end, ms, name, errors))
    decreases |doc| - t.end, 1
  {
    hide G.ReadToken, G.Recover, G.AfterMember, MarksAfterMember, StrictAfterMember, StrictValue, ValueMarks, G.ReadValue;
    hide G.DecodeString, CStr, OnlyCommas, Resolve, Slot, HasName;
    var name := G.DecodeString(doc, t).value;
    CommasApart([], []);
    var colon := G.ReadToken(doc, t.end);
    if colon.kind == G.MemberSeparator {
      var ms1 := Resolve(ms, CStr(name));
      ResolveHasName(ms, CStr(name));
      NameIsInside(ms1, CStr(name));
      var i := Slot(ms1, CStr(name));
      ValueSaid(cfg, doc, colon.end, ms1[i].value, errors);
      var r := G.ReadValue(cfg, doc, colon.end, ms1[i].value, errors);
      if r.ok {
        var ms2 := ms1[i := Member(CStr(name), r.value)];
        AfterMemberSaid(cfg, doc, r.pos, ms2, name, r.errors);
        CommasApart(ValueMarks(cfg, doc, colon.end, ms1[i].value, errors),
                    MarksAfterMember(cfg, doc, r.pos, ms2, name, r.errors));
      }
    }
  }

  lemma NameIsInside(ms: seq<Member>, name: string)
    requires HasName(ms, name)
    ensures Slot(ms, name) < |ms|
  {
  }

  lemma {:induction false} AfterMemberSaid(cfg: G.Config, doc: string, p: nat, ms: seq<Member>, name: string,
                                           errors: seq<G.ErrorInfo>)
    requires p <= |doc| && ms != []
    ensures StrictAfterMember(cfg, doc, p, ms)
      == Said(G.AfterMember(cfg, doc, p, ms, name, errors), MarksAfterMember(cfg, doc, p, ms, name, errors))
    decreases |doc| - p, 1
  {
    hide G.ReadToken, G.Recover, G.ReadMembers, MemberMarks, StrictMembers, OnlyCommas;
    CommasApart([], []);
    var comma, last := G.ReadToken(doc, p), G.ReadPastComments(doc, p);
    if comma.kind in {G.ObjectEnd, G.ArraySeparator, G.CommentToken} && last.kind != G.ObjectEnd {
      MembersSaid(cfg, doc, last.end, ms, name, errors);
      CommasApart([Between(last.kind)], MemberMarks(cfg, doc, last.end, ms, name, errors));
    }
  }

  function StrictDocument(cfg: G.Config, doc: string): Strict {
    match StrictValue(cfg, doc, 0)
    case Rejected => Rejected
    case Accepted(q, v) =>
      if cfg.features.strictRoot && !G.IsArrayOrObject(v) then Rejected
      else Accepted(G.SkipCommentTokens(cfg, doc, q).end, v)
  }

  /** On every text and whatever the root held: the strict reader accepts nothing that
      the lenient one does not, and gives the same value; the lenient one accepts more
      exactly when it meets a mark other than a comma between two parts, or the end of
      an object after a comma. */
  lemma DocumentsDiffer(cfg: G.Config, doc: string, root: Value)
    ensures var r, s := G.ParseDocument(cfg, doc, root), StrictDocument(cfg, doc);
      (s.Accepted? ==> r.ok && s == Accepted(r.pos, r.value)) &&
      (r.ok && s.Rejected? <==> r.ok && !OnlyCommas(ValueMarks(cfg, doc, 0, root, [])))
  {
    hide G.ReadValue, StrictValue, ValueMarks, G.SkipCommentTokens;
    ValueSaid(cfg, doc, 0, root, []);
  }

  /** The end of an object is taken after a comma only when the name before the comma is
      empty. */
  lemma EndAfterEmptyName(cfg: G.Config, doc: string, p: nat, ms: seq<Member>, name: string, errors: seq<G.ErrorInfo>)
    requires p <= |doc| && ms != [] && G.ReadPastComments(doc, p).kind == G.ObjectEnd
    ensures G.ReadMembers(cfg, doc, p, ms, name, errors).ok <==> name == ""
    ensures EndAfterComma in MemberMarks(cfg, doc, p, ms, name, errors) <==> name == ""
  {
    hide G.ReadPastComments, G.Recover;
  }

  // ----- inputs on which they differ -----

  lemma NullToken(doc: string, p: nat)
    requires p + 4 <= |doc| && doc[p..p + 4] == "null"
    ensures G.ReadToken(doc, p) == G.ReadPastComments(doc, p) == G.Token(G.NullToken, p, p + 4)
  {
    assert doc[p] == doc[p..p + 4][0] && doc[p + 1..p + 4] == doc[p..p + 4][1..];
  }

  lemma NullValue(cfg: G.Config, doc: string, p: nat, node: Value, errors: seq<G.ErrorInfo>)
    requires p + 4 <= |doc| && doc[p..p + 4] == "null"
    ensures G.ReadValue(cfg, doc, p, node, errors) == G.Read(true, p + 4, Null, errors)
    ensures ValueMarks(cfg, doc, p, node, errors) == []
  {
    NullToken(doc, p);
    hide G.ReadToken, G.ReadPastComments;
  }

  lemma OneCharToken(doc: string, p: nat)
    requires p < |doc| && doc[p] in "{}[],:"
    ensures G.ReadToken(doc, p) == G.ReadPastComments(doc, p) && G.SpacesEnd(doc, p) == p
    ensures var t := G.ReadToken(doc, p);
      t.start == p && t.end == p + 1 &&
      match doc[p]
      case '{' => t.kind == G.ObjectBegin
      case '}' => t.kind == G.ObjectEnd
      case '[' => t.kind == G.ArrayBegin
      case ']' => t.kind == G.ArrayEnd
      case ',' => t.kind == G.ArraySeparator
      case _ => t.kind == G.MemberSeparator
  {
  }

  lemma ArrayStep(cfg: G.Config, doc: string, p: nat, node: Value, errors: seq<G.ErrorInfo>)
    requires p + 1 < |doc| && doc[p] == '[' && doc[p + 1] != ']' && !G.IsSpace(doc[p + 1])
    ensures G.ReadValue(cfg, doc, p, node, errors) == G.ReadElements(cfg, doc, p + 1, [], errors)
    ensures ValueMarks(cfg, doc, p, node, errors) == ElementMarks(cfg, doc, p + 1, [], errors)
  {
    OneCharToken(doc, p);
    hide G.ReadToken, G.ReadPastComments, G.ReadElements, ElementMarks;
  }

  /** One element, and the token after it. */
  lemma ElementStep(cfg: G.Config, doc: string, p: nat, elems: seq<Value>, errors: seq<G.ErrorInfo>, q: nat, v: Value)
    requires p <= q <= |doc|
    requires G.ReadValue(cfg, doc, p, Null, errors) == G.Read(true, q, v, errors)
    requires ValueMarks(cfg, doc, p, Null, errors) == []
    ensures var t := G.ReadPastComments(doc, q);
      if t.kind == G.ArrayEnd then
        G.ReadElements(cfg, doc, p, elems, errors) == G.Read(true, t.end, Array(elems + [v]), errors) &&
        ElementMarks(cfg, doc, p, elems, errors) == []
      else
        G.ReadElements(cfg, doc, p, elems, errors) == G.ReadElements(cfg, doc, t.end, elems + [v], errors) &&
        ElementMarks(cfg, doc, p, elems, errors)
        == [Between(t.kind)] + ElementMarks(cfg, doc, t.end, elems + [v], errors)
  {
    hide G.ReadValue, ValueMarks, G.ReadPastComments;
    assert p < q;
  }

  /** A document of which an array or object is read, with these marks. */
  lemma ContainerDocument(cfg: G.Config, doc: string, root: Value, q: nat, v: Value)
    requires G.ReadValue(cfg, doc, 0, root, []) == G.Read(true, q, v, []) && G.IsArrayOrObject(v)
    requires !OnlyCommas(ValueMarks(cfg, doc, 0, root, []))
    ensures var r := G.ParseDocument(cfg, doc, root); r.ok && r.value == v
    ensures StrictDocument(cfg, doc) == Rejected
  {
    hide G.ReadValue, G.SkipCommentTokens, ValueMarks, StrictDocument;
    DocumentsDiffer(cfg, doc, root);
  }

  lemma NullColonNull(cfg: G.Config, doc: string, root: Value)
    requires |doc| == 11 && doc[0] == '[' && doc[1] == 'n' && doc[1..5] == doc[6..10] == "null"
    requires doc[5] == ':' && doc[10] == ']'
    ensures G.ReadValue(cfg, doc, 0, root, []) == G.Read(true, 11, Array([Null, Null]), [])
    ensures !OnlyCommas(ValueMarks(cfg, doc, 0, root, []))
  {
    hide G.ReadToken, G.ReadPastComments, G.SpacesEnd, G.ReadValue, G.ReadElements, ValueMarks, ElementMarks;
    OneCharToken(doc, 5);
    OneCharToken(doc, 10);
    NullValue(cfg, doc, 1, Null, []);
    NullValue(cfg, doc, 6, Null, []);
    ArrayStep(cfg, doc, 0, root, []);
    ElementStep(cfg, doc, 1, [], [], 5, Null);
    ElementStep(cfg, doc, 6, [Null], [], 10, Null);
    assert [] + [Null] == [Null] && [Null] + [Null] == [Null, Null];
    assert Between(G.MemberSeparator) in ValueMarks(cfg, doc, 0, root, []);
  }

  /** A colon between the elements of an array. */
  lemma ColonSeparatesElements(cfg: G.Config, root: Value)
    ensures var r := G.ParseDocument(cfg, "[null:null]", root); r.ok && r.value == Array([Null, Null])
    ensures StrictDocument(cfg, "[null:null]") == Rejected
  {
    hide G.ReadValue, ValueMarks, StrictDocument, G.ParseDocument, OnlyCommas;
    var doc := "[null:null]";
    assert doc[1..5] == doc[6..10] == "null";
    NullColonNull(cfg, doc, root);
    ContainerDocument(cfg, doc, root, 11, Array([Null, Null]));
  }

  lemma ObjectStep(cfg: G.Config, doc: string, p: nat, node: Value, errors: seq<G.ErrorInfo>)
    requires p < |doc| && doc[p] == '{'
    ensures G.ReadValue(cfg, doc, p, node, errors) == G.ReadMembers(cfg, doc, p + 1, [], "", errors)
    ensures ValueMarks(cfg, doc, p, node, errors) == MemberMarks(cfg, doc, p + 1, [], "", errors)
  {
    OneCharToken(doc, p);
    hide G.ReadToken, G.ReadPastComments, G.ReadMembers, MemberMarks;
  }

  /** One member with an empty name and a value of null, at the start of an object. */
  lemma MemberStep(cfg: G.Config, doc: string, p: nat, errors: seq<G.ErrorInfo>)
    requires p + 8 <= |doc| && doc[p..p + 7] == "\"\":null"
    ensures var ms := [Member("", Null)];
      G.ReadMembers(cfg, doc, p, [], "", errors) == G.AfterMember(cfg, doc, p + 7, ms, "", errors) &&
      MemberMarks(cfg, doc, p, [], "", errors) == MarksAfterMember(cfg, doc, p + 7, ms, "", errors)
  {
    var s := doc[p..p + 7];
    assert doc[p] == s[0] && doc[p + 1] == s[1] && doc[p + 2] == s[2] && doc[p + 3..p + 7] == s[3..];
    EmptyNameToken(doc, p);
    OneCharToken(doc, p + 2);
    NullValue(cfg, doc, p + 3, Null, errors);
    EmptyNameResolved();
    hide G.ReadToken, G.ReadPastComments, G.DecodeString, Resolve, Slot, HasName, CStr, G.AfterMember, MarksAfterMember;
    hide G.ReadValue, ValueMarks;
    assert [Member("", Null)][0 := Member("", Null)] == [Member("", Null)];
    assert G.AfterName(cfg, doc, p + 2, [], "", errors) == G.AfterMember(cfg, doc, p + 7, [Member("", Null)], "", errors);
  }

  /** A comma and the end of the object. */
  lemma CommaStep(cfg: G.Config, doc: string, p: nat, ms: seq<Member>, name: string, errors: seq<G.ErrorInfo>)
    requires p + 2 <= |doc| && doc[p] == ',' && doc[p + 1] == '}' && ms != []
    ensures G.AfterMember(cfg, doc, p, ms, name, errors) == G.ReadMembers(cfg, doc, p + 1, ms, name, errors)
    ensures name == "" ==> G.ReadMembers(cfg, doc, p + 1, ms, name, errors) == G.Read(true, p + 2, Object(ms), errors)
    ensures name == "" ==> EndAfterComma in MarksAfterMember(cfg, doc, p, ms, name, errors)
  {
    OneCharToken(doc, p);
    OneCharToken(doc, p + 1);
    hide G.ReadToken, G.ReadPastComments, G.Recover;
    if name == "" { assert MemberMarks(cfg, doc, p + 1, ms, name, errors) == [EndAfterComma]; }
  }

  lemma EmptyNamedAndComma(cfg: G.Config, doc: string, root: Value)
    requires |doc| == 10 && doc[0] == '{' && doc[1..8] == "\"\":null" && doc[8] == ',' && doc[9] == '}'
    ensures G.ReadValue(cfg, doc, 0, root, []) == G.Read(true, 10, Object([Member("", Null)]), [])
    ensures !OnlyCommas(ValueMarks(cfg, doc, 0, root, []))
  {
    hide G.ReadPastComments, G.ReadToken, G.ReadValue, G.ReadMembers, G.AfterMember, ValueMarks, MemberMarks, MarksAfterMember;
    ObjectStep(cfg, doc, 0, root, []);
    MemberStep(cfg, doc, 1, []);
    CommaStep(cfg, doc, 8, [Member("", Null)], "", []);
    assert EndAfterComma in ValueMarks(cfg, doc, 0, root, []);
  }

  /** A comma after the last member, when its name is empty. */
  lemma CommaBeforeEnd(cfg: G.Config, root: Value)
    ensures var r := G.ParseDocument(cfg, "{\"\":null,}", root); r.ok && r.value == Object([Member("", Null)])
    ensures StrictDocument(cfg, "{\"\":null,}") == Rejected
  {
    hide G.ReadValue, ValueMarks, StrictDocument, G.ParseDocument, OnlyCommas;
    var doc := "{\"\":null,}";
    assert doc[1..8] == "\"\":null";
    EmptyNamedAndComma(cfg, doc, root);
    ContainerDocument(cfg, doc, root, 10, Object([Member("", Null)]));
  }

  lemma EmptyNameToken(doc: string, p: nat)
    requires p + 2 <= |doc| && doc[p] == '"' && doc[p + 1] == '"'
    ensures G.ReadPastComments(doc, p) == G.Token(G.StringToken, p, p + 2)
    ensures G.DecodeString(doc, G.Token(G.StringToken, p, p + 2)) == G.Good("")
  {
  }

  lemma EmptyNameResolved()
    ensures CStr("") == "" && Resolve([], "") == [Member("", Null)] && Slot([Member("", Null)], "") == 0
  {
  }

  // ----- the ends of strings -----

  /** A string is read as its text exactly when that has no NUL: else it ends there. */
  lemma StringsEndAtNul(cfg: G.Config, doc: string, p: nat, node: Value, errors: seq<G.ErrorInfo>)
    requires p <= |doc| && G.SkipCommentTokens(cfg, doc, p).kind == G.StringToken
    requires G.DecodeString(doc, G.SkipCommentTokens(cfg, doc, p)).Good?
    ensures var r := G.ReadValue(cfg, doc, p, node, errors);
      var s := G.DecodeString(doc, G.SkipCommentTokens(cfg, doc, p)).value;
      r.ok && r.value.String? && r.value.s <= s && (r.value == String(s) <==> NUL !in s) &&
      (NUL in s ==> s[|r.value.s|] == NUL)
  {
    hide G.SkipCommentTokens, G.DecodeString;
    CStrCuts(G.DecodeString(doc, G.SkipCommentTokens(cfg, doc, p)).value);
  }

  lemma {:induction false} CStrCuts(s: string)
    ensures CStr(s) <= s && (NUL in s ==> |CStr(s)| < |s| && s[|CStr(s)|] == NUL)
  {
    if s != "" && s[0] != NUL {
      CStrCuts(s[1..]);
      assert s == [s[0]] + s[1..];
    }
  }

  /** A string of one NUL is read as the empty string. */
  lemma NulString(cfg: G.Config, root: Value)
    requires !cfg.features.strictRoot
    ensures var doc := ['"', NUL, '"'];
      G.ParseDocument(cfg, doc, root).ok && G.ParseDocument(cfg, doc, root).value == String("")
  {
    var doc := ['"', NUL, '"'];
    assert G.StringScan(doc, 2) == (true, 3);
    assert G.StringScan(doc, 1) == (true, 3);
    assert G.DecodeFrom(doc, 2, 2, [NUL]) == G.Good([NUL]);
    assert "" + [NUL] == [NUL];
    assert G.DecodeFrom(doc, 1, 2, "") == G.Good([NUL]);
    hide G.StringScan, G.DecodeFrom;
    assert G.ReadToken(doc, 0) == G.ReadPastComments(doc, 0) == G.Token(G.StringToken, 0, 3);
    assert G.DecodeString(doc, G.Token(G.StringToken, 0, 3)) == G.Good([NUL]);
    assert CStr([NUL]) == "";
  }
}
