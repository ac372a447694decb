/** JSON trees as both JSON libraries of the repository build them, and the
    pointers into a tree that their parsers keep. Objects are ordered maps, so a
    tree lists its members in ascending name order. A pointer to a node is the
    path that leads to it from the root. */
module JsonValue {

  type int32 = i: int | -0x8000_0000 <= i < 0x8000_0000
  type uint32 = u: int | 0 <= u < 0x1_0000_0000

  datatype Value =
    | Null
    | Bool(b: bool)
    | Int(i: int32)
    | UInt(u: uint32)
    | Real(r: real)
    | String(s: string)
    | Array(elems: seq<Value>)
    | Object(members: seq<Member>)

  datatype Member = Member(name: string, value: Value)

  // ----- member names -----

  const NUL: char := 0 as char

  /** The part of a std::string that survives a trip through a C string. */
  function CStr(s: string): (r: string)
    ensures NUL !in r
    ensures NUL !in s ==> r == s
  {
    if s == "" || s[0] == NUL then "" else
    assert s == [s[0]] + s[1..];
    [s[0]] + CStr(s[1..])
  }

  /** Lexicographic order, the order of strcmp and of std::string. */
  predicate Less(a: string, b: string) {
    b != "" && (a == "" || a[0] < b[0] || (a[0] == b[0] && Less(a[1..], b[1..])))
  }

  lemma LessTotal(a: string, b: string)
    ensures !Less(a, a)
    ensures Less(a, b) || Less(b, a) || a == b
    ensures !(Less(a, b) && Less(b, a))
  {
    if a != "" && b != "" && a[0] == b[0] {
      LessTotal(a[1..], b[1..]);
      assert a == [a[0]] + a[1..] && b == [b[0]] + b[1..];
    }
    if a != "" { LessTotal(a[1..], a[1..]); }
  }

  lemma LessTransitive(a: string, b: string, c: string)
    requires Less(a, b) && Less(b, c)
    ensures Less(a, c)
  {
    if a != "" && a[0] == b[0] == c[0] {
      LessTransitive(a[1..], b[1..], c[1..]);
    }
  }

  ghost predicate Ascending(ms: seq<Member>) {
    forall i, j :: 0 <= i < j < |ms| ==> Less(ms[i].name, ms[j].name)
  }

  /** Where `name` is, or where it has to be inserted. */
  function Slot(ms: seq<Member>, name: string): (i: nat)
    ensures i <= |ms|
    ensures forall j :: 0 <= j < i ==> Less(ms[j].name, name)
    ensures i < |ms| ==> !Less(ms[i].name, name)
  {
    if ms == [] || !Less(ms[0].name, name) then 0 else 1 + Slot(ms[1..], name)
  }

  predicate HasName(ms: seq<Member>, name: string) {
    var i := Slot(ms, name);
    i < |ms| && ms[i].name == name
  }

  /** The members after `object[name]`, which creates a null member if needed. */
  function Resolve(ms: seq<Member>, name: string): (r: seq<Member>) {
    if HasName(ms, name) then ms
    else var i := Slot(ms, name); ms[..i] + [Member(name, Null)] + ms[i..]
  }

  lemma SlotIs(ms: seq<Member>, name: string, i: nat)
    requires i <= |ms|
    requires forall j :: 0 <= j < i ==> Less(ms[j].name, name)
    requires i < |ms| ==> !Less(ms[i].name, name)
    ensures Slot(ms, name) == i
  {
  }

  lemma ResolveHasName(ms: seq<Member>, name: string)
    ensures HasName(Resolve(ms, name), name)
    ensures Slot(Resolve(ms, name), name) == Slot(ms, name)
  {
    var i := Slot(ms, name);
    LessTotal(name, name);
    SlotIs(Resolve(ms, name), name, i);
  }

  lemma SlotKeepsName(ms: seq<Member>, name: string, v: Value)
    requires HasName(ms, name)
    ensures Slot(ms[Slot(ms, name) := Member(name, v)], name) == Slot(ms, name)
  {
    SlotIs(ms[Slot(ms, name) := Member(name, v)], name, Slot(ms, name));
  }

  lemma ResolveAscends(ms: seq<Member>, name: string)
    requires Ascending(ms)
    ensures Ascending(Resolve(ms, name))
  {
    var i := Slot(ms, name);
    var r := Resolve(ms, name);
    if !HasName(ms, name) {
      forall j, k | 0 <= j < k < |r| ensures Less(r[j].name, r[k].name) {
        if i < |ms| { LessTotal(ms[i].name, name); }
        if j == i { if k > i + 1 { LessTransitive(name, ms[i].name, ms[k - 1].name); } }
      }
    }
  }

  // ----- pointers -----

  datatype Step = Elem(index: nat) | Name(name: string)

  type Path = seq<Step>

  predicate HasChild(v: Value, s: Step) {
    match s
    case Elem(i) => v.Array? && i < |v.elems|
    case Name(n) => v.Object? && HasName(v.members, n)
  }

  function Child(v: Value, s: Step): Value
    requires HasChild(v, s)
  {
    match s
    case Elem(i) => v.elems[i]
    case Name(n) => v.members[Slot(v.members, n)].value
  }

  function SetChild(v: Value, s: Step, w: Value): Value
    requires HasChild(v, s)
  {
    match s
    case Elem(i) => Array(v.elems[i := w])
    case Name(n) => Object(v.members[Slot(v.members, n) := Member(n, w)])
  }

  lemma ChildLaws(v: Value, s: Step, w: Value, x: Value)
    requires HasChild(v, s)
    ensures HasChild(SetChild(v, s, w), s)
    ensures Child(SetChild(v, s, w), s) == w
    ensures SetChild(SetChild(v, s, w), s, x) == SetChild(v, s, x)
    ensures SetChild(v, s, Child(v, s)) == v
  {
    match s
    case Elem(i) =>
      assert v.elems[i := v.elems[i]] == v.elems;
    case Name(n) =>
      SlotKeepsName(v.members, n, w);
      var i := Slot(v.members, n);
      assert v.members[i := Member(n, w)][i := Member(n, x)] == v.members[i := Member(n, x)];
      assert v.members[i := v.members[i]] == v.members;
  }

  predicate Has(v: Value, p: Path) {
    p == [] || (HasChild(v, p[0]) && Has(Child(v, p[0]), p[1..]))
  }

  function At(v: Value, p: Path): Value
    requires Has(v, p)
  {
    if p == [] then v else At(Child(v, p[0]), p[1..])
  }

  function Put(v: Value, p: Path, w: Value): Value
    requires Has(v, p)
  {
    if p == [] then w else SetChild(v, p[0], Put(Child(v, p[0]), p[1..], w))
  }

  /** Assigning through a pointer keeps the pointer valid, changes what it
      points to, and nothing else. */
  lemma PutLaws(v: Value, p: Path, w: Value, x: Value)
    requires Has(v, p)
    ensures Has(Put(v, p, w), p)
    ensures At(Put(v, p, w), p) == w
    ensures Put(Put(v, p, w), p, x) == Put(v, p, x)
    ensures Put(v, p, At(v, p)) == v
  {
    if p != [] {
      var c := Child(v, p[0]);
      PutLaws(c, p[1..], w, x);
      ChildLaws(v, p[0], Put(c, p[1..], w), Put(c, p[1..], x));
    }
  }

  /** Following a path and then one more step. */
  lemma PathAppend(v: Value, p: Path, s: Step, w: Value)
    requires Has(v, p)
    ensures Has(v, p + [s]) <==> HasChild(At(v, p), s)
    ensures Has(v, p + [s]) ==>
      At(v, p + [s]) == Child(At(v, p), s) && Put(v, p + [s], w) == Put(v, p, SetChild(At(v, p), s, w))
  {
    if p == [] {
      assert p + [s] == [s] && [s][1..] == [];
    } else {
      assert (p + [s])[1..] == p[1..] + [s];
      PathAppend(Child(v, p[0]), p[1..], s, w);
    }
  }
}
