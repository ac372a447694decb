/** CDataStream: a byte vector with a read cursor, standing in for a queue of bytes. */
module DataStream {
  import opened Bytes

  datatype IoBit = EofBit | FailBit | BadBit

  /** The bytes already read and still in the vector, and the unread ones. */
  datatype Buffer = Buffer(behind: bytes, unread: bytes)

  // ----- the operations on buffers -----

  function Written(b: Buffer, data: bytes): Buffer { b.(unread := b.unread + data) }

  /** Taking bytes from the front. Taking the last ones clears the vector. */
  function Taken(b: Buffer, n: nat): Buffer
    requires n <= |b.unread|
  {
    if n == |b.unread| then Buffer([], []) else Buffer(b.behind + b.unread[..n], b.unread[n..])
  }

  /** Insertion. In front of the unread bytes, the place of bytes already read is used
      when there are enough of them. */
  function Inserted(b: Buffer, at: nat, data: bytes): Buffer
    requires at <= |b.unread|
  {
    if at == 0 && |data| <= |b.behind| then Buffer(b.behind[..|b.behind| - |data|], data + b.unread)
    else b.(unread := b.unread[..at] + data + b.unread[at..])
  }

  /** Erasing. From the front it is taking. */
  function Erased(b: Buffer, first: nat, last: nat): Buffer
    requires first <= last <= |b.unread|
  {
    if first == 0 then Taken(b, last) else b.(unread := b.unread[..first] + b.unread[last..])
  }

  function Rewound(b: Buffer, n: nat): Buffer {
    if n > |b.behind| then b
    else Buffer(b.behind[..|b.behind| - n], b.behind[|b.behind| - n..] + b.unread)
  }

  /** What a read gives. `Overrun`: the cursor's 32 bits wrap, the end of the data is
      not noticed, and the copy runs past it. */
  datatype ReadResult = Data(data: bytes) | Failure | Overrun

  /** The position after a read, in 32 bits. */
  function NextPos(pos: nat, n: nat): nat { (pos + n) % 0x1_0000_0000 }

  class CDataStream {
    var vch: bytes
    var nReadPos: nat
    var state: set<IoBit>
    var exceptmask: set<IoBit>

    ghost predicate Valid()
      reads this
    {
      nReadPos <= |vch| < 0x1_0000_0000
    }

    ghost function Contents(): Buffer
      requires Valid()
      reads this
    {
      Buffer(vch[..nReadPos], vch[nReadPos..])
    }

    constructor (data: bytes)
      requires |data| < 0x1_0000_0000
      ensures Valid() && Contents() == Buffer([], data)
      ensures state == {} && exceptmask == {BadBit, FailBit}
    {
      vch := data;
      nReadPos := 0;
      state := {};
      exceptmask := {BadBit, FailBit};
    }

    function Size(): (n: nat)
      requires Valid()
      reads this
      ensures n == |Contents().unread|
    {
      |vch| - nReadPos
    }

    predicate Empty()
      requires Valid()
      reads this
      ensures Empty() <==> Contents().unread == []
    {
      |vch| == nReadPos
    }

    /** Whether an exception is thrown. */
    method SetState(bits: set<IoBit>) returns (throws: bool)
      modifies this`state
      ensures state == old(state) + bits && (throws <==> state * exceptmask != {})
    {
      state := state + bits;
      throws := state * exceptmask != {};
    }

    method SetExceptions(mask: set<IoBit>) returns (prev: set<IoBit>, throws: bool)
      modifies this`exceptmask, this`state
      ensures prev == old(exceptmask) && exceptmask == mask && state == old(state)
      ensures throws <==> state * mask != {}
    {
      prev := exceptmask;
      exceptmask := mask;
      throws := SetState({});
    }

    method Write(data: bytes)
      requires Valid() && |vch| + |data| < 0x1_0000_0000
      modifies this`vch
      ensures Valid() && Contents() == Written(old(Contents()), data)
    {
      vch := vch + data;
      assert vch[nReadPos..] == old(vch)[nReadPos..] + data;
    }

    /** A read of what is there gives it. A longer one fails: as long as failures throw,
        it changes no bytes; else it gives what is there and then zeros, and the vector
        is cleared. */
    method Read(nSize: nat) returns (r: ReadResult)
      requires Valid()
      modifies this`vch, this`nReadPos, this`state
      ensures r.Overrun? <==> old(nReadPos) + nSize >= 0x1_0000_0000 && NextPos(old(nReadPos), nSize) <= |old(vch)|
      ensures r.Overrun? ==> vch == old(vch) && nReadPos == old(nReadPos) && state == old(state)
      ensures !r.Overrun? ==> Valid()
      ensures !r.Overrun? && nSize <= |old(Contents()).unread| ==>
        r == Data(old(Contents()).unread[..nSize]) && Contents() == Taken(old(Contents()), nSize) && state == old(state)
      ensures !r.Overrun? && nSize > |old(Contents()).unread| ==> state == old(state) + {FailBit}
      ensures !r.Overrun? && nSize > |old(Contents()).unread| && state * exceptmask != {} ==>
        r == Failure && Contents() == old(Contents())
      ensures !r.Overrun? && nSize > |old(Contents()).unread| && state * exceptmask == {} ==>
        Contents() == Buffer([], []) &&
        r == Data(old(Contents()).unread + seq(nSize - |old(Contents()).unread|, k => 0))
    {
      var nReadPosNext := NextPos(nReadPos, nSize);
      ghost var was := Contents();
      if nReadPosNext >= |vch| {
        var out: bytes := vch[nReadPos..];
        if nReadPosNext > |vch| {
          var throws := SetState({FailBit});
          if throws { return Failure; }
          out := out + seq(nSize - |out|, k => 0);
        } else if nSize > |vch| - nReadPos {
          return Overrun;
        }
        nReadPos := 0;
        vch := [];
        return Data(out);
      }
      if nSize > |vch| - nReadPos { return Overrun; }
      r := Data(vch[nReadPos..nReadPosNext]);
      nReadPos := nReadPosNext;
      assert vch[..nReadPos] == was.behind + was.unread[..nSize];
    }

    /** Skipping bytes. When the cursor's 32 bits wrap, and the wrapped position lies in
        the vector, the cursor goes back to it instead. */
    method Ignore(nSize: nat) returns (throws: bool)
      requires Valid() && nSize < 0x8000_0000
      modifies this`vch, this`nReadPos, this`state
      ensures Valid()
      ensures nSize <= |old(Contents()).unread| ==>
        !throws && Contents() == Taken(old(Contents()), nSize) && state == old(state)
      ensures nSize > |old(Contents()).unread| && NextPos(old(nReadPos), nSize) > |old(vch)| ==>
        state == old(state) + {FailBit} && (throws <==> state * exceptmask != {}) &&
        Contents() == if throws then old(Contents()) else Buffer([], [])
      ensures nSize > |old(Contents()).unread| && NextPos(old(nReadPos), nSize) < |old(vch)| ==>
        !throws && vch == old(vch) && nReadPos == NextPos(old(nReadPos), nSize) < old(nReadPos) && state == old(state)
      ensures nSize > |old(Contents()).unread| && NextPos(old(nReadPos), nSize) == |old(vch)| ==>
        !throws && Contents() == Buffer([], []) && state == old(state)
    {
      var nReadPosNext := NextPos(nReadPos, nSize);
      ghost var was := Contents();
      throws := false;
      if nReadPosNext >= |vch| {
        if nReadPosNext > |vch| {
          throws := SetState({FailBit});
          if throws { return; }
        }
        nReadPos := 0;
        vch := [];
        return;
      }
      nReadPos := nReadPosNext;
      assert nSize <= |was.unread| ==> vch[..nReadPos] == was.behind + was.unread[..nSize];
    }

    /** Insertion at a position counted from the first unread byte. */
    method Insert(at: nat, data: bytes)
      requires Valid() && at <= |Contents().unread| && |vch| + |data| < 0x1_0000_0000
      modifies this`vch, this`nReadPos
      ensures Valid() && Contents() == Inserted(old(Contents()), at, data)
    {
      var it := nReadPos + at;
      ghost var was := Contents();
      if it == nReadPos && |data| <= nReadPos {
        nReadPos := nReadPos - |data|;
        vch := vch[..nReadPos] + data + vch[nReadPos + |data|..];
        assert vch[..nReadPos] == was.behind[..|was.behind| - |data|];
        assert vch[nReadPos..] == data + was.unread;
      } else {
        vch := vch[..it] + data + vch[it..];
        assert vch[..nReadPos] == was.behind;
        assert vch[nReadPos..] == was.unread[..at] + data + was.unread[at..];
      }
    }

    method EraseOne(at: nat)
      requires Valid() && at < |Contents().unread|
      modifies this`vch, this`nReadPos
      ensures Valid() && Contents() == Erased(old(Contents()), at, at + 1)
    {
      var it := nReadPos + at;
      ghost var was := Contents();
      if it == nReadPos {
        nReadPos := nReadPos + 1;
        if nReadPos >= |vch| {
          nReadPos := 0;
          vch := [];
        } else {
          assert vch[..nReadPos] == was.behind + was.unread[..1];
        }
      } else {
        vch := vch[..it] + vch[it + 1..];
        assert vch[..nReadPos] == was.behind;
        assert vch[nReadPos..] == was.unread[..at] + was.unread[at + 1..];
      }
    }

    method Erase(first: nat, last: nat)
      requires Valid() && first <= last <= |Contents().unread|
      modifies this`vch, this`nReadPos
      ensures Valid() && Contents() == Erased(old(Contents()), first, last)
    {
      var begin, end := nReadPos + first, nReadPos + last;
      ghost var was := Contents();
      if begin == nReadPos {
        if end == |vch| {
          nReadPos := 0;
          vch := [];
        } else {
          nReadPos := end;
          assert vch[..nReadPos] == was.behind + was.unread[..last];
        }
      } else {
        vch := vch[..begin] + vch[end..];
        assert vch[..nReadPos] == was.behind;
        assert vch[nReadPos..] == was.unread[..first] + was.unread[last..];
      }
    }

    method Compact()
      requires Valid()
      modifies this`vch, this`nReadPos
      ensures Valid() && Contents() == Buffer([], old(Contents()).unread)
    {
      vch := vch[nReadPos..];
      nReadPos := 0;
    }

    method Rewind(n: nat) returns (ok: bool)
      requires Valid()
      modifies this`nReadPos
      ensures Valid() && (ok <==> n <= |old(Contents()).behind|) && Contents() == Rewound(old(Contents()), n)
    {
      if n > nReadPos { return false; }
      nReadPos := nReadPos - n;
      ok := true;
    }

    method Clear()
      requires Valid()
      modifies this`vch, this`nReadPos
      ensures Valid() && Contents() == Buffer([], [])
    {
      vch := [];
      nReadPos := 0;
    }

    method GetAndClear(data: bytes) returns (data': bytes)
      requires Valid()
      modifies this`vch, this`nReadPos
      ensures Valid() && data' == data + old(Contents()).unread && Contents() == Buffer([], [])
    {
      data' := data + vch[nReadPos..];
      Clear();
    }
  }

  // ----- sequences of operations -----

  datatype Op =
    | Write(data: bytes) | Read(n: nat) | Insert(at: nat, data: bytes) | Erase(first: nat, last: nat)
    | Compact | Clear

  /** The buffer after an operation, as the methods have it; a failed one throws and
      changes nothing. */
  function Do(b: Buffer, op: Op): Buffer {
    match op
    case Write(data) => Written(b, data)
    case Read(n) => if n <= |b.unread| then Taken(b, n) else b
    case Insert(at, data) => if at <= |b.unread| then Inserted(b, at, data) else b
    case Erase(first, last) => if first <= last <= |b.unread| then Erased(b, first, last) else b
    case Compact => Buffer([], b.unread)
    case Clear => Buffer([], [])
  }

  /** The plain queue after an operation. */
  function DoQueue(q: bytes, op: Op): bytes {
    match op
    case Write(data) => q + data
    case Read(n) => if n <= |q| then q[n..] else q
    case Insert(at, data) => if at <= |q| then q[..at] + data + q[at..] else q
    case Erase(first, last) => if first <= last <= |q| then q[..first] + q[last..] else q
    case Compact => q
    case Clear => []
  }

  function DoAll(b: Buffer, ops: seq<Op>): Buffer
    decreases |ops|
  {
    if ops == [] then b else DoAll(Do(b, ops[0]), ops[1..])
  }

  function DoAllQueue(q: bytes, ops: seq<Op>): bytes
    decreases |ops|
  {
    if ops == [] then q else DoAllQueue(DoQueue(q, ops[0]), ops[1..])
  }

  lemma OneRefines(b: Buffer, op: Op)
    ensures Do(b, op).unread == DoQueue(b.unread, op)
  {
    match op
    case Insert(at, data) =>
      if at == 0 { assert b.unread[..0] + data + b.unread[0..] == data + b.unread; }
    case Erase(first, last) =>
      if first == 0 && last <= |b.unread| { assert b.unread[..0] + b.unread[last..] == b.unread[last..]; }
    case _ =>
  }

  /** After any sequence of operations the unread bytes are those of the queue. */
  lemma {:induction false} RefinesQueue(b: Buffer, ops: seq<Op>)
    ensures DoAll(b, ops).unread == DoAllQueue(b.unread, ops)
    decreases |ops|
  {
    hide Do, DoQueue;
    if ops != [] {
      OneRefines(b, ops[0]);
      RefinesQueue(Do(b, ops[0]), ops[1..]);
    }
  }

  /** An operation that leaves the bytes already read where they are. */
  predicate Keeps(b: Buffer, op: Op) {
    match op
    case Write(_) => true
    case Read(n) => n != |b.unread|
    case Insert(at, data) => at > 0 || data == [] || |data| > |b.behind|
    case Erase(first, last) => first > 0 || last != |b.unread|
    case _ => false
  }

  /** How many bytes an operation takes from the front. */
  function Reads(b: Buffer, op: Op): nat {
    match op
    case Read(n) => if n <= |b.unread| then n else 0
    case Erase(first, last) => if first == 0 && last <= |b.unread| then last else 0
    case _ => 0
  }

  /** A read that does not reach the end of the data can be taken back, and one that
      does cannot: exactly then does rewinding restore the buffer. */
  lemma RewindAfterRead(b: Buffer, n: nat)
    requires n <= |b.unread|
    ensures Rewound(Taken(b, n), n) == b <==> n < |b.unread| || b == Buffer([], [])
  {
    var t := Taken(b, n);
    if n < |b.unread| {
      assert t.behind[..|t.behind| - n] == b.behind;
      assert t.behind[|t.behind| - n..] + t.unread == b.unread;
    }
  }

  predicate AllKeep(b: Buffer, ops: seq<Op>)
    decreases |ops|
  {
    ops == [] || (Keeps(b, ops[0]) && AllKeep(Do(b, ops[0]), ops[1..]))
  }

  function AllReads(b: Buffer, ops: seq<Op>): nat
    decreases |ops|
  {
    if ops == [] then 0 else Reads(b, ops[0]) + AllReads(Do(b, ops[0]), ops[1..])
  }

  /** Whatever happens without discarding the bytes already read, they stay behind the
      cursor, followed by those read since: so rewinding can give them back. */
  lemma {:induction false} BehindGrows(b: Buffer, ops: seq<Op>)
    requires AllKeep(b, ops)
    ensures b.behind <= DoAll(b, ops).behind && |DoAll(b, ops).behind| == |b.behind| + AllReads(b, ops)
    decreases |ops|
  {
    if ops != [] {
      var b' := Do(b, ops[0]);
      assert b.behind <= b'.behind && |b'.behind| == |b.behind| + Reads(b, ops[0]) by { OneGrows(b, ops[0]); }
      hide Do, Keeps, Reads;
      BehindGrows(b', ops[1..]);
    }
  }

  lemma OneGrows(b: Buffer, op: Op)
    requires Keeps(b, op)
    ensures b.behind <= Do(b, op).behind && |Do(b, op).behind| == |b.behind| + Reads(b, op)
  {
  }

  /** After reading `n` bytes, short of the end, and then only operations that keep
      them, rewinding by all that was taken since puts exactly those bytes in front
      again. */
  lemma RewindRestores(b: Buffer, n: nat, ops: seq<Op>)
    requires n < |b.unread| && AllKeep(Taken(b, n), ops)
    ensures var t := Taken(b, n); var u := DoAll(t, ops); var back := n + AllReads(t, ops);
      back <= |u.behind| && Rewound(u, back).unread[..n] == b.unread[..n] && Rewound(u, back).behind == b.behind
  {
    var t := Taken(b, n);
    var u, more := DoAll(t, ops), AllReads(t, ops);
    BehindGrows(t, ops);
    hide DoAll, AllReads;
    assert u.behind[..|t.behind|] == t.behind;
    var from := |b.behind|;
    assert |u.behind| - (n + more) == from;
    assert u.behind[..from] == t.behind[..from] == b.behind;
    assert u.behind[from..][..n] == t.behind[from..];
  }
}
