/** Semantic_actions: what a parse of JSON text does, event by event, to the value that
    it builds. A pointer into the value is the path to what it points to. */
module SemanticActions {
  import opened JsonValue

  datatype Event = BeginObj | EndObj | BeginArray | EndArray | NewName(name: string) | NewScalar(scalar: Value)

  datatype Pointer = NoPointer | To(path: Path)

  /** The fields: `current` is the container under construction. */
  datatype State = State(value: Value, current: Pointer, stack: seq<Path>, name: string)

  predicate IsCompound(v: Value) { v.Array? || v.Object? }

  // ----- one event -----

  /** obj[name] = value. */
  function Assign(ms: seq<Member>, name: string, v: Value): seq<Member> {
    ResolveHasName(ms, name);
    var r := Resolve(ms, name);
    r[Slot(r, name) := Member(name, v)]
  }

  /** A container with one more value in it, and the step that leads to that. */
  function Added(c: Value, name: string, v: Value): Value
    requires IsCompound(c)
  {
    if c.Array? then Array(c.elems + [v]) else Object(Assign(c.members, name, v))
  }

  function AddedStep(c: Value, name: string): Step
    requires IsCompound(c)
  {
    if c.Array? then Elem(|c.elems|) else Name(name)
  }

  /** Whether something can be added: at the start, or to a container. */
  predicate CanAdd(m: State) {
    m.current.NoPointer? || (Has(m.value, m.current.path) && IsCompound(At(m.value, m.current.path)))
  }

  function Add(m: State, v: Value): State
    requires CanAdd(m)
  {
    if m.current.NoPointer? then m.(value := v, current := To([]))
    else m.(value := Put(m.value, m.current.path, Added(At(m.value, m.current.path), m.name, v)))
  }

  function Begin(m: State, empty: Value): State
    requires CanAdd(m)
  {
    if m.current.NoPointer? then Add(m, empty)
    else
      var p := m.current.path;
      Add(m, empty).(stack := m.stack + [p], current := To(p + [AddedStep(At(m.value, p), m.name)]))
  }

  /** Whether the code's assertions hold and its stack is not empty when it is popped. */
  predicate CanAct(m: State, e: Event) {
    match e
    case NewName(_) => m.current.To? && Has(m.value, m.current.path) && At(m.value, m.current.path).Object?
    case EndObj => m.current == To([]) || m.stack != []
    case EndArray => m.current == To([]) || m.stack != []
    case _ => CanAdd(m)
  }

  function Act(m: State, e: Event): State
    requires CanAct(m, e)
  {
    match e
    case BeginObj => Begin(m, Object([]))
    case BeginArray => Begin(m, Array([]))
    case EndObj => End(m)
    case EndArray => End(m)
    case NewName(name) => m.(name := name)
    case NewScalar(scalar) => Add(m, scalar)
  }

  function End(m: State): State
    requires m.current == To([]) || m.stack != []
  {
    if m.current == To([]) then m
    else m.(current := To(m.stack[|m.stack| - 1]), stack := m.stack[..|m.stack| - 1])
  }

  class Semantic_actions {
    var value: Value
    var current: Pointer
    var stack: seq<Path>
    var name: string

    constructor (value: Value)
      ensures Contents() == State(value, NoPointer, [], "")
    {
      this.value := value;
      current := NoPointer;
      stack := [];
      name := "";
    }

    function Contents(): State
      reads this
    {
      State(value, current, stack, name)
    }

    method AddFirst(v: Value)
      requires current == NoPointer
      modifies this`value, this`current
      ensures value == v && current == To([])
    {
      value := v;
      current := To([]);
    }

    method AddToCurrent(v: Value) returns (added: Path)
      requires CanAdd(Contents())
      modifies this`value, this`current
      ensures Contents() == Add(old(Contents()), v)
      ensures added == if old(current).NoPointer? then []
        else old(current).path + [AddedStep(At(old(value), old(current).path), name)]
    {
      if current.NoPointer? {
        AddFirst(v);
        return [];
      }
      var c := At(value, current.path);
      if c.Array? {
        value := Put(value, current.path, Array(c.elems + [v]));
        return current.path + [Elem(|c.elems|)];
      }
      value := Put(value, current.path, Object(Assign(c.members, name, v)));
      return current.path + [Name(name)];
    }

    method BeginCompound(empty: Value)
      requires CanAdd(Contents())
      modifies this`value, this`current, this`stack
      ensures Contents() == Begin(old(Contents()), empty)
    {
      if current.NoPointer? {
        AddFirst(empty);
      } else {
        stack := stack + [current.path];
        var added := AddToCurrent(empty);
        current := To(added);
      }
    }

    method EndCompound()
      requires current == To([]) || stack != []
      modifies this`current, this`stack
      ensures Contents() == End(old(Contents()))
    {
      if current != To([]) {
        current := To(stack[|stack| - 1]);
        stack := stack[..|stack| - 1];
      }
    }

    method Handle(e: Event)
      requires CanAct(Contents(), e)
      modifies this`value, this`current, this`stack, this`name
      ensures Contents() == Act(old(Contents()), e)
    {
      match e
      case BeginObj => BeginCompound(Object([]));
      case BeginArray => BeginCompound(Array([]));
      case EndObj => EndCompound();
      case EndArray => EndCompound();
      case NewName(newName) => name := newName;
      case NewScalar(scalar) => var _ := AddToCurrent(scalar);
    }

    method HandleAll(es: seq<Event>)
      requires CanRun(Contents(), es)
      modifies this`value, this`current, this`stack, this`name
      ensures Contents() == Run(old(Contents()), es)
    {
      hide Act, CanAct;
      for k := 0 to |es|
        invariant CanRun(Contents(), es[k..]) && Run(Contents(), es[k..]) == Run(old(Contents()), es)
      {
        assert es[k..][0] == es[k] && es[k..][1..] == es[k + 1..];
        Handle(es[k]);
      }
    }
  }

  // ----- runs -----

  predicate CanRun(m: State, es: seq<Event>)
    decreases |es|
  {
    es == [] || (CanAct(m, es[0]) && CanRun(Act(m, es[0]), es[1..]))
  }

  function Run(m: State, es: seq<Event>): State
    requires CanRun(m, es)
    decreases |es|
  {
    if es == [] then m else Run(Act(m, es[0]), es[1..])
  }

  lemma {:induction false} RunAppend(m: State, a: seq<Event>, b: seq<Event>)
    requires CanRun(m, a)
    ensures CanRun(m, a + b) <==> CanRun(Run(m, a), b)
    ensures CanRun(m, a + b) ==> Run(m, a + b) == Run(Run(m, a), b)
    decreases |a|
  {
    hide Act, CanAct;
    if a == [] {
      assert a + b == b;
    } else {
      assert (a + b)[1..] == a[1..] + b;
      RunAppend(Act(m, a[0]), a[1..], b);
    }
  }

  // ----- the invariant -----

  /** The stack followed by the current container is the path of open containers from
      the root. */
  predicate IsOpenPath(m: State) {
    match m.current
    case NoPointer => m.stack == []
    case To(p) => Has(m.value, p) && |m.stack| == |p| && forall k :: 0 <= k < |p| ==> m.stack[k] == p[..k]
  }

  lemma AddKeepsPath(m: State, v: Value)
    requires IsOpenPath(m) && CanAdd(m)
    ensures IsOpenPath(Add(m, v))
  {
    hide Added;
    if m.current.To? {
      var p := m.current.path;
      PutLaws(m.value, p, Added(At(m.value, p), m.name, v), v);
    }
  }

  /** In a container with a value added, that value is where the step leads; setting it
      there is adding another. */
  lemma AddedLaws(c: Value, name: string, v: Value, w: Value)
    requires IsCompound(c)
    ensures var s, d := AddedStep(c, name), Added(c, name, v);
      HasChild(d, s) && Child(d, s) == v && SetChild(d, s, w) == Added(c, name, w)
  {
    if c.Object? {
      ResolveHasName(c.members, name);
      SlotKeepsName(Resolve(c.members, name), name, v);
    }
  }

  lemma BeginKeepsPath(m: State, empty: Value)
    requires IsOpenPath(m) && CanAdd(m)
    ensures IsOpenPath(Begin(m, empty))
    ensures m.current.To? ==>
      At(Begin(m, empty).value, Begin(m, empty).current.path) == empty && Begin(m, empty).current.path != []
  {
    hide Added, AddedStep, HasChild, Child, SetChild;
    if m.current.To? {
      var p := m.current.path;
      var c := At(m.value, p);
      var d, s := Added(c, m.name, empty), AddedStep(c, m.name);
      PutLaws(m.value, p, d, empty);
      AddedLaws(c, m.name, empty, empty);
      PathAppend(Put(m.value, p, d), p, s, empty);
      assert (p + [s])[..|p|] == p;
      assert forall k :: 0 <= k < |p| ==> (p + [s])[..k] == p[..k];
    }
  }

  lemma EndKeepsPath(m: State)
    requires IsOpenPath(m) && (m.current == To([]) || m.stack != [])
    ensures IsOpenPath(End(m))
  {
    if m.current.To? && m.current.path != [] {
      var p := m.current.path;
      var q := p[..|p| - 1];
      assert p == q + [p[|p| - 1]];
      HasPrefix(m.value, q, [p[|p| - 1]]);
      assert forall k :: 0 <= k < |q| ==> q[..k] == p[..k];
    }
  }

  lemma {:induction false} HasPrefix(v: Value, p: Path, q: Path)
    requires Has(v, p + q)
    ensures Has(v, p)
    decreases |p|
  {
    if p != [] {
      assert (p + q)[1..] == p[1..] + q;
      HasPrefix(Child(v, p[0]), p[1..], q);
    }
  }

  lemma ActKeepsPath(m: State, e: Event)
    requires IsOpenPath(m) && CanAct(m, e)
    ensures IsOpenPath(Act(m, e))
  {
    hide Begin, Add, End, IsOpenPath;
    match e
    case BeginObj => BeginKeepsPath(m, Object([]));
    case BeginArray => BeginKeepsPath(m, Array([]));
    case EndObj => EndKeepsPath(m);
    case EndArray => EndKeepsPath(m);
    case NewName(name) => assert IsOpenPath(m.(name := name)) by { NamelessPath(m, name); }
    case NewScalar(scalar) => AddKeepsPath(m, scalar);
  }

  lemma NamelessPath(m: State, name: string)
    ensures IsOpenPath(m.(name := name)) == IsOpenPath(m)
  {
  }

  /** Throughout any run the stack and the current container are the open containers. */
  lemma {:induction false} StackIsOpenPath(m: State, es: seq<Event>)
    requires IsOpenPath(m) && CanRun(m, es)
    ensures IsOpenPath(Run(m, es))
    decreases |es|
  {
    hide Act, CanAct, IsOpenPath;
    if es != [] {
      ActKeepsPath(m, es[0]);
      StackIsOpenPath(Act(m, es[0]), es[1..]);
    }
  }

  // ----- the events of a document, and what is built from them -----

  /** A document is a tree whose objects list their members in the order of the text. */
  function Events(d: Value): seq<Event>
    decreases d
  {
    match d
    case Array(es) => [BeginArray] + (ElemEvents(es) + [EndArray])
    case Object(ms) => [BeginObj] + (MemberEvents(ms) + [EndObj])
    case _ => [NewScalar(d)]
  }

  function ElemEvents(es: seq<Value>): seq<Event>
    decreases es
  {
    if es == [] then [] else Events(es[0]) + ElemEvents(es[1..])
  }

  function MemberEvents(ms: seq<Member>): seq<Event>
    decreases ms
  {
    if ms == [] then [] else [NewName(ms[0].name)] + (Events(ms[0].value) + MemberEvents(ms[1..]))
  }

  function Built(d: Value): Value
    decreases d
  {
    match d
    case Array(es) => Array(BuiltAll(es))
    case Object(ms) => Object(AssignedAll([], ms))
    case _ => d
  }

  function BuiltAll(es: seq<Value>): seq<Value>
    decreases es
  {
    if es == [] then [] else [Built(es[0])] + BuiltAll(es[1..])
  }

  /** The members of a map after more assignments. */
  function AssignedAll(done: seq<Member>, ms: seq<Member>): seq<Member>
    decreases ms
  {
    if ms == [] then done else AssignedAll(Assign(done, ms[0].name, Built(ms[0].value)), ms[1..])
  }

  /** The state after a container's content changed to this, whatever name was read last. */
  predicate NowHolds(m: State, c: Value, m': State) {
    m.current.To? && Has(m.value, m.current.path) &&
    m'.value == Put(m.value, m.current.path, c) && m'.current == m.current && m'.stack == m.stack
  }

  lemma NowHoldsLaws(m: State, c: Value, m': State)
    requires NowHolds(m, c, m')
    ensures Has(m'.value, m.current.path) && At(m'.value, m.current.path) == c
    ensures forall c', m'' :: NowHolds(m', c', m'') ==> NowHolds(m, c', m'')
    ensures NowHolds(m, At(m.value, m.current.path), m)
  {
    var p := m.current.path;
    PutLaws(m.value, p, c, c);
    forall c', m'' | NowHolds(m', c', m'') ensures NowHolds(m, c', m'') { PutLaws(m.value, p, c, c'); }
  }

  lemma NoEvents(m: State)
    ensures CanRun(m, []) && Run(m, []) == m
  {
  }

  lemma OneEvent(m: State, e: Event)
    ensures CanRun(m, [e]) <==> CanAct(m, e)
    ensures CanAct(m, e) ==> Run(m, [e]) == Act(m, e)
  {
    hide CanAct, Act;
    assert [e][1..] == [];
    if CanAct(m, e) { NoEvents(Act(m, e)); }
  }

  /** Beginning an empty container and then changing its content is adding it with that
      content; ending it leads back. */
  lemma BeginThenEnd(m: State, empty: Value, m1: State, c: Value, m2: State)
    requires CanAdd(m) && IsOpenPath(m) && IsCompound(empty) && m1 == Begin(m, empty) && NowHolds(m1, c, m2)
    ensures m.current.NoPointer? ==> m1.value == empty && m1.current == To([])
    ensures m2.current == To([]) || m2.stack != []
    ensures var m3 := End(m2);
      m3.value == Add(m, c).value && m3.stack == m.stack && m3.current == Add(m, c).current
  {
    hide Added, AddedStep, Has, HasChild;
    if m.current.NoPointer? {
    } else {
      var p := m.current.path;
      var was := At(m.value, p);
      var d, s := Added(was, m.name, empty), AddedStep(was, m.name);
      PutLaws(m.value, p, d, Added(was, m.name, c));
      AddedLaws(was, m.name, empty, c);
      PathAppend(Put(m.value, p, d), p, s, c);
      assert p + [s] != [];
    }
  }

  lemma {:induction false} RunDocument(m: State, d: Value)
    requires CanAdd(m) && IsOpenPath(m)
    ensures CanRun(m, Events(d))
    ensures var m', x := Run(m, Events(d)), Add(m, Built(d));
      m'.value == x.value && m'.current == x.current && m'.stack == m.stack
    decreases d
  {
    hide IsOpenPath, Add, Begin, End, NowHolds, CanRun, Run, Has;
    match d {
      case Array(es) =>
        var m1 := Begin(m, Array([]));
        BeginHolds(m, Array([]));
        RunElems(m1, es, []);
        assert [] + BuiltAll(es) == BuiltAll(es);
        RunCompound(m, BeginArray, Array([]), ElemEvents(es), Array(BuiltAll(es)), EndArray);
      case Object(ms) =>
        var m1 := Begin(m, Object([]));
        BeginHolds(m, Object([]));
        RunMembers(m1, ms, []);
        RunCompound(m, BeginObj, Object([]), MemberEvents(ms), Object(AssignedAll([], ms)), EndObj);
      case _ =>
        OneEvent(m, NewScalar(d));
        AddKeepsStack(m, d);
    }
  }

  lemma AddKeepsStack(m: State, v: Value)
    requires CanAdd(m)
    ensures Add(m, v).stack == m.stack
  {
  }

  lemma BeginHolds(m: State, empty: Value)
    requires CanAdd(m) && IsOpenPath(m)
    ensures var m1 := Begin(m, empty);
      IsOpenPath(m1) && m1.current.To? && Has(m1.value, m1.current.path) && At(m1.value, m1.current.path) == empty
  {
    BeginKeepsPath(m, empty);
  }

  lemma RunCompound(m: State, begin: Event, empty: Value, inner: seq<Event>, c: Value, end: Event)
    requires CanAdd(m) && IsOpenPath(m)
    requires (begin == BeginArray && empty == Array([])) || (begin == BeginObj && empty == Object([]))
    requires end == EndArray || end == EndObj
    requires CanRun(Begin(m, empty), inner) && NowHolds(Begin(m, empty), c, Run(Begin(m, empty), inner))
    ensures var es := [begin] + (inner + [end]);
      CanRun(m, es) && Run(m, es).value == Add(m, c).value && Run(m, es).current == Add(m, c).current &&
      Run(m, es).stack == m.stack
  {
    hide IsOpenPath, Add, Begin, End, NowHolds, CanRun, Run, Has, CanAdd;
    var m1 := Begin(m, empty);
    assert CanAct(m, begin) && Act(m, begin) == m1;
    var m2 := Run(m1, inner);
    BeginThenEnd(m, empty, m1, c, m2);
    OneEvent(m2, end);
    RunAppend(m1, inner, [end]);
    OneEvent(m, begin);
    RunAppend(m, [begin], inner + [end]);
  }

  lemma {:induction false} RunElems(m: State, es: seq<Value>, done: seq<Value>)
    requires IsOpenPath(m) && m.current.To? && Has(m.value, m.current.path)
    requires At(m.value, m.current.path) == Array(done)
    ensures CanRun(m, ElemEvents(es)) && NowHolds(m, Array(done + BuiltAll(es)), Run(m, ElemEvents(es)))
    decreases es
  {
    hide IsOpenPath, Begin, End, CanRun, Run, Has, At;
    if es == [] {
      NoEvents(m);
      PutLaws(m.value, m.current.path, m.value, m.value);
      assert done + [] == done;
    } else {
      var first := Events(es[0]);
      RunDocument(m, es[0]);
      var m1, more := Run(m, first), done + [Built(es[0])];
      assert NowHolds(m, Array(more), m1);
      NowHoldsLaws(m, Array(more), m1);
      StackIsOpenPath(m, first);
      RunElems(m1, es[1..], more);
      RunAppend(m, first, ElemEvents(es[1..]));
      assert more + BuiltAll(es[1..]) == done + BuiltAll(es);
      hide NowHolds;
    }
  }

  lemma {:induction false} RunMembers(m: State, ms: seq<Member>, done: seq<Member>)
    requires IsOpenPath(m) && m.current.To? && Has(m.value, m.current.path)
    requires At(m.value, m.current.path) == Object(done)
    ensures CanRun(m, MemberEvents(ms)) && NowHolds(m, Object(AssignedAll(done, ms)), Run(m, MemberEvents(ms)))
    decreases ms
  {
    hide IsOpenPath, Begin, End, CanRun, Run, Has, At, Assign;
    if ms == [] {
      NoEvents(m);
      PutLaws(m.value, m.current.path, m.value, m.value);
    } else {
      var n, first := ms[0].name, Events(ms[0].value);
      var m0 := m.(name := n);
      NamelessPath(m, n);
      RunDocument(m0, ms[0].value);
      var m1, more := Run(m0, first), Assign(done, n, Built(ms[0].value));
      assert NowHolds(m0, Object(more), m1);
      assert NowHolds(m, Object(more), m1);
      NowHoldsLaws(m, Object(more), m1);
      StackIsOpenPath(m0, first);
      RunMembers(m1, ms[1..], more);
      RunAppend(m0, first, MemberEvents(ms[1..]));
      OneEvent(m, NewName(n));
      RunAppend(m, [NewName(n)], first + MemberEvents(ms[1..]));
    }
  }

  /** The events of any document, from the start: no assertion fails, and at the end the
      value is the one built, `current` is the root and the stack is empty. */
  lemma DocumentIsBuilt(before: Value, name: string, d: Value)
    ensures var m := State(before, NoPointer, [], name);
      CanRun(m, Events(d)) &&
      var m' := Run(m, Events(d));
      m'.value == Built(d) && m'.current == To([]) && m'.stack == []
  {
    RunDocument(State(before, NoPointer, [], name), d);
  }

  // ----- what is built -----

  /** A tree as a map holds it: members in ascending name order. */
  ghost predicate IsTree(d: Value)
    decreases d
  {
    match d
    case Array(es) => forall e :: e in es ==> IsTree(e)
    case Object(ms) => Ascending(ms) && forall k :: k in ms ==> IsTree(k.value)
    case _ => true
  }

  /** What is built of a tree is the tree. */
  lemma {:induction false} BuiltIsSame(d: Value)
    requires IsTree(d)
    ensures Built(d) == d
    decreases d
  {
    match d
    case Array(es) => BuiltAllSame(es);
    case Object(ms) => AssignedAllSame([], ms); assert [] + ms == ms;
    case _ =>
  }

  lemma {:induction false} BuiltAllSame(es: seq<Value>)
    requires forall e :: e in es ==> IsTree(e)
    ensures BuiltAll(es) == es
    decreases es
  {
    if es != [] {
      BuiltIsSame(es[0]);
      BuiltAllSame(es[1..]);
      assert es == [es[0]] + es[1..];
    }
  }

  lemma {:induction false} AssignedAllSame(done: seq<Member>, ms: seq<Member>)
    requires Ascending(done + ms) && forall k :: k in ms ==> IsTree(k.value)
    ensures AssignedAll(done, ms) == done + ms
    decreases ms
  {
    if ms == [] {
      assert done + ms == done;
    } else {
      var all := done + ms;
      BuiltIsSame(ms[0].value);
      forall k | 0 <= k < |done| ensures Less(done[k].name, ms[0].name) {
        assert all[k] == done[k] && all[|done|] == ms[0];
      }
      AssignLast(done, ms[0].name, ms[0].value);
      assert done + [ms[0]] + ms[1..] == all;
      assert ms[0] == Member(ms[0].name, ms[0].value);
      AssignedAllSame(done + [ms[0]], ms[1..]);
    }
  }

  lemma AssignLast(done: seq<Member>, name: string, v: Value)
    requires forall k :: 0 <= k < |done| ==> Less(done[k].name, name)
    ensures Assign(done, name, v) == done + [Member(name, v)]
  {
    SlotIs(done, name, |done|);
    assert Resolve(done, name) == done + [Member(name, Null)];
    ResolveHasName(done, name);
  }

  /** What a map holds for a name. */
  datatype Held = Nothing | Something(value: Value)

  function Lookup(ms: seq<Member>, name: string): Held {
    if HasName(ms, name) then Something(ms[Slot(ms, name)].value) else Nothing
  }

  /** The last member of that name in the text. */
  function LastNamed(ms: seq<Member>, name: string): Held {
    if ms == [] then Nothing
    else
      var m := |ms| - 1;
      if ms[m].name == name then Something(Built(ms[m].value)) else LastNamed(ms[..m], name)
  }

  lemma AssignShape(ms: seq<Member>, name: string, v: Value)
    ensures var i := Slot(ms, name);
      Assign(ms, name, v)
        == if HasName(ms, name) then ms[i := Member(name, v)] else ms[..i] + [Member(name, v)] + ms[i..]
  {
    hide HasName, Slot;
    ResolveHasName(ms, name);
  }

  lemma AssignAscends(ms: seq<Member>, name: string, v: Value)
    requires Ascending(ms)
    ensures Ascending(Assign(ms, name, v))
  {
    ResolveHasName(ms, name);
    ResolveAscends(ms, name);
    hide Slot, Resolve;
    var r, a := Resolve(ms, name), Assign(ms, name, v);
    assert forall k :: 0 <= k < |a| ==> a[k].name == r[k].name;
  }

  /** In an ascending list the one member of a name is where it is looked for. */
  lemma HeldAnywhere(ms: seq<Member>, name: string)
    requires Ascending(ms)
    ensures forall k :: 0 <= k < |ms| && ms[k].name == name ==> HasName(ms, name) && Slot(ms, name) == k
  {
    forall k | 0 <= k < |ms| && ms[k].name == name ensures HasName(ms, name) && Slot(ms, name) == k {
      LessTotal(name, name);
      SlotIs(ms, name, k);
    }
  }

  /** A map holds exactly its members. */
  lemma LookupIsMember(ms: seq<Member>, name: string)
    requires Ascending(ms)
    ensures forall v :: Lookup(ms, name) == Something(v) <==> Member(name, v) in ms
  {
    HeldAnywhere(ms, name);
    hide Slot, Ascending;
  }

  /** Around the place where a name is or belongs there are only other names. */
  lemma OthersAround(ms: seq<Member>, name: string)
    requires Ascending(ms)
    ensures var i := Slot(ms, name);
      (forall k :: k in ms[..i] ==> k.name != name) &&
      (HasName(ms, name) ==> forall k :: k in ms[i + 1..] ==> k.name != name) &&
      (!HasName(ms, name) ==> forall k :: k in ms[i..] ==> k.name != name)
  {
    HeldAnywhere(ms, name);
  }

  lemma InThree(before: seq<Member>, x: Member, after: seq<Member>, k: Member)
    ensures k in before + [x] + after <==> k in before || k == x || k in after
    ensures k in before + after <==> k in before || k in after
  {
  }

  /** The members before and after the place where a name is or belongs, and what is
      there: one member of that name, or none. */
  lemma AssignParts(ms: seq<Member>, name: string, v: Value) returns (before: seq<Member>, here: seq<Member>, after: seq<Member>)
    requires Ascending(ms)
    ensures ms == before + here + after && Assign(ms, name, v) == before + [Member(name, v)] + after
    ensures here == [] || (|here| == 1 && here[0].name == name)
    ensures forall k :: k in before || k in after ==> k.name != name
  {
    AssignShape(ms, name, v);
    OthersAround(ms, name);
    var i := Slot(ms, name);
    SplitAt(ms, i, Member(name, v));
    before := ms[..i];
    if HasName(ms, name) {
      here, after := [ms[i]], ms[i + 1..];
    } else {
      here, after := [], ms[i..];
    }
    hide Ascending, Assign, Slot, HasName;
  }

  lemma SplitAt(ms: seq<Member>, i: nat, x: Member)
    requires i <= |ms|
    ensures ms == ms[..i] + [] + ms[i..]
    ensures i < |ms| ==> ms == ms[..i] + [ms[i]] + ms[i + 1..] && ms[i := x] == ms[..i] + [x] + ms[i + 1..]
  {
  }

  lemma AssignMembers(ms: seq<Member>, name: string, v: Value)
    requires Ascending(ms)
    ensures forall k :: k in Assign(ms, name, v) <==> if k.name == name then k.value == v else k in ms
  {
    var before, here, after := AssignParts(ms, name, v);
    hide Ascending, Assign;
    forall k ensures k in Assign(ms, name, v) <==> if k.name == name then k.value == v else k in ms {
      InThree(before, Member(name, v), after, k);
      if here == [] { assert before + here == before; } else { assert here == [here[0]]; InThree(before, here[0], after, k); }
    }
  }

  /** After an assignment the map holds the value for that name, and for the others
      what it held. */
  lemma AssignLooksUp(ms: seq<Member>, name: string, v: Value, other: string)
    requires Ascending(ms)
    ensures Ascending(Assign(ms, name, v))
    ensures Lookup(Assign(ms, name, v), other) == if other == name then Something(v) else Lookup(ms, other)
  {
    AssignAscends(ms, name, v);
    AssignMembers(ms, name, v);
    hide Assign, Ascending, Lookup;
    var a := Assign(ms, name, v);
    LookupIsMember(a, other);
    LookupIsMember(ms, other);
    if other == name {
      assert Member(name, v) in a;
    } else {
      SameLookup(Lookup(ms, other), Lookup(a, other), ms, a, other);
    }
  }

  lemma SameLookup(h: Held, h': Held, ms: seq<Member>, a: seq<Member>, name: string)
    requires forall v :: Member(name, v) in ms <==> Member(name, v) in a
    requires forall v :: h == Something(v) <==> Member(name, v) in ms
    requires forall v :: h' == Something(v) <==> Member(name, v) in a
    ensures h == h'
  {
    var v := if h.Something? then h.value else Null;
    var v' := if h'.Something? then h'.value else Null;
    assert h == Something(v) <==> Member(name, v) in ms;
    assert h' == Something(v') <==> Member(name, v') in a;
  }

  /** An object built from any members, in any order and with names that repeat, is
      ascending and holds for each name its last member. */
  lemma {:induction false} ObjectHoldsLast(done: seq<Member>, ms: seq<Member>, name: string)
    requires Ascending(done)
    ensures Ascending(AssignedAll(done, ms))
    ensures Lookup(AssignedAll(done, ms), name)
      == if LastNamed(ms, name).Something? then LastNamed(ms, name) else Lookup(done, name)
    decreases |ms|
  {
    hide Assign, Lookup;
    if ms != [] {
      var m := |ms| - 1;
      ObjectHoldsLast(done, ms[..m], name);
      AssignedAllSnoc(done, ms[..m], ms[m]);
      assert ms == ms[..m] + [ms[m]];
      AssignLooksUp(AssignedAll(done, ms[..m]), ms[m].name, Built(ms[m].value), name);
    }
  }

  lemma {:induction false} AssignedAllSnoc(done: seq<Member>, ms: seq<Member>, last: Member)
    ensures AssignedAll(done, ms + [last]) == Assign(AssignedAll(done, ms), last.name, Built(last.value))
    decreases |ms|
  {
    hide Assign, Built;
    if ms == [] {
      assert [] + [last] == [last] && [last][1..] == [];
    } else {
      assert (ms + [last])[1..] == ms[1..] + [last];
      AssignedAllSnoc(Assign(done, ms[0].name, Built(ms[0].value)), ms[1..], last);
    }
  }

  /** The events of a tree leave that tree. */
  lemma TreeIsBuilt(before: Value, name: string, d: Value)
    requires IsTree(d)
    ensures var m := State(before, NoPointer, [], name);
      CanRun(m, Events(d)) &&
      var m' := Run(m, Events(d));
      m'.value == d && m'.current == To([]) && m'.stack == []
  {
    DocumentIsBuilt(before, name, d);
    BuiltIsSame(d);
  }
}
