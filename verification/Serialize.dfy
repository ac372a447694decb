/** Compact sizes and the containers. A stream is its unread bytes: DataStream shows
    that CDataStream is a queue of them. */
module Serialize {
  import opened Numerals
  import opened Bytes

  const MAX_SIZE: nat := 0x0200_0000

  /** What reading gives: a value and the rest of the stream, or an exception. */
  datatype Parsed<T> = Failed | Ok(value: T, rest: bytes)

  function ReadBytes(s: bytes, n: nat): Parsed<bytes> {
    if |s| < n then Failed else Ok(s[..n], s[n..])
  }

  // ----- compact size -----

  function CompactSize(n: nat): bytes
    requires n < 0x1_0000_0000_0000_0000
  {
    if n < 253 then [n]
    else if n <= 0xffff then [253] + LE(n, 2)
    else if n <= 0xffff_ffff then [254] + LE(n, 4)
    else [255] + LE(n, 8)
  }

  /** The number of bytes that a first byte promises, and the least number they may say. */
  function FormLength(first: byte): nat { if first == 253 then 2 else if first == 254 then 4 else 8 }

  function FormLeast(first: byte): nat {
    if first == 253 then 253 else if first == 254 then 0x1_0000 else 0x1_0000_0000
  }

  function CompactSizeRead(s: bytes): Parsed<nat> {
    if s == [] then Failed
    else if s[0] < 253 then Ok(s[0], s[1..])
    else
      match ReadBytes(s[1..], FormLength(s[0]))
      case Failed => Failed
      case Ok(data, rest) =>
        if FromLE(data) < FormLeast(s[0]) || FromLE(data) > MAX_SIZE then Failed else Ok(FromLE(data), rest)
  }

  method GetSizeOfCompactSize(nSize: nat) returns (size: nat)
    requires nSize < 0x1_0000_0000_0000_0000
    ensures size == |CompactSize(nSize)|
  {
    if nSize < 253 { return 1; }
    else if nSize <= 0xffff { return 1 + 2; }
    else if nSize <= 0xffff_ffff { return 1 + 4; }
    else { return 1 + 8; }
  }

  method WriteCompactSize(os: bytes, nSize: nat) returns (os': bytes)
    requires nSize < 0x1_0000_0000_0000_0000
    ensures os' == os + CompactSize(nSize)
  {
    hide LE;
    os' := os;
    if nSize < 253 {
      os' := os' + [nSize];
    } else if nSize <= 0xffff {
      os' := os' + [253];
      os' := os' + LE(nSize, 2);
    } else if nSize <= 0xffff_ffff {
      os' := os' + [254];
      os' := os' + LE(nSize, 4);
    } else {
      os' := os' + [255];
      os' := os' + LE(nSize, 8);
    }
  }

  method ReadCompactSize(s: bytes) returns (r: Parsed<nat>)
    ensures r == CompactSizeRead(s)
  {
    hide FromLE;
    var ch := ReadBytes(s, 1);
    if ch.Failed? { return Failed; }
    var chSize := ch.value[0];
    var nSizeRet: nat := 0;
    var rest := ch.rest;
    if chSize < 253 {
      nSizeRet := chSize;
    } else if chSize == 253 {
      var x := ReadBytes(rest, 2);
      if x.Failed? { return Failed; }
      nSizeRet, rest := FromLE(x.value), x.rest;
      if nSizeRet < 253 { return Failed; }
    } else if chSize == 254 {
      var x := ReadBytes(rest, 4);
      if x.Failed? { return Failed; }
      nSizeRet, rest := FromLE(x.value), x.rest;
      if nSizeRet < 0x1_0000 { return Failed; }
    } else {
      var x := ReadBytes(rest, 8);
      if x.Failed? { return Failed; }
      nSizeRet, rest := FromLE(x.value), x.rest;
      if nSizeRet < 0x1_0000_0000 { return Failed; }
    }
    if nSizeRet > MAX_SIZE { return Failed; }
    return Ok(nSizeRet, rest);
  }

  /** Reading accepts exactly the written form of a size up to the maximum, and so of
      the four forms only the shortest. */
  lemma CompactSizeExact(s: bytes, n: nat, rest: bytes)
    ensures CompactSizeRead(s) == Ok(n, rest) <==> n <= MAX_SIZE && s == CompactSize(n) + rest
  {
    hide FromLE, LE;
    Pow256(0);
    if CompactSizeRead(s) == Ok(n, rest) && s[0] >= 253 {
      var len := FormLength(s[0]);
      LEFromLE(s[1..1 + len]);
      assert s[1..][..len] == s[1..1 + len] && s[1..][len..] == rest;
      assert s == [s[0]] + s[1..1 + len] + rest;
    } else if CompactSizeRead(s) == Ok(n, rest) {
      assert s == [s[0]] + rest;
    }
    if n <= MAX_SIZE && s == CompactSize(n) + rest {
      if n < 253 {
        assert s[1..] == rest;
      } else {
        var len := FormLength(s[0]);
        FromLELE(n, len);
        assert s[1..] == LE(n, len) + rest;
        assert s[1..][..len] == LE(n, len) && s[1..][len..] == rest;
      }
    }
  }

  /** No written size, of any magnitude, begins another. */
  lemma CompactSizeUnique(n: nat, m: nat, r: bytes, q: bytes)
    requires n < 0x1_0000_0000_0000_0000 && m < 0x1_0000_0000_0000_0000
    requires CompactSize(n) + r == CompactSize(m) + q
    ensures n == m && r == q
  {
    hide LE;
    Pow256(0);
    var s, t := CompactSize(n) + r, CompactSize(m) + q;
    assert s[0] == CompactSize(n)[0] && t[0] == CompactSize(m)[0];
    var len := |CompactSize(n)|;
    assert s[len..] == r && t[len..] == q;
    if len > 1 {
      assert s[1..len] == LE(n, len - 1) && t[1..len] == LE(m, len - 1);
      FromLELE(n, len - 1);
      FromLELE(m, len - 1);
    }
  }

  // ----- codecs -----

  /** How a type is written and read, and what its size is said to be. */
  datatype Codec<!T> = Codec(fits: T -> bool, enc: T -> bytes, dec: bytes -> Parsed<T>, size: T -> nat)

  /** Reading undoes writing and leaves the rest of the stream; the size is that of
      what is written. */
  ghost predicate RoundTrips<T(!new)>(c: Codec<T>) {
    forall x, rest :: c.fits(x) ==> c.dec(c.enc(x) + rest) == Ok(x, rest) && c.size(x) == |c.enc(x)|
  }

  /** No encoding begins another. */
  ghost predicate IsUnique<T(!new)>(fits: T -> bool, enc: T -> bytes) {
    forall x, y, r, q :: fits(x) && fits(y) && enc(x) + r == enc(y) + q ==> x == y && r == q
  }

  lemma RoundTripsUnique<T(!new)>(c: Codec<T>)
    requires RoundTrips(c)
    ensures IsUnique(c.fits, c.enc)
  {
    forall x, y, r, q | c.fits(x) && c.fits(y) && c.enc(x) + r == c.enc(y) + q ensures x == y && r == q {
      assert c.dec(c.enc(x) + r) == Ok(x, r);
      assert c.dec(c.enc(y) + q) == Ok(y, q);
    }
  }

  // ----- elements one after another -----

  function EncAll<T>(enc: T -> bytes, v: seq<T>): bytes {
    if v == [] then [] else enc(v[0]) + EncAll(enc, v[1..])
  }

  function SizeAll<T>(c: Codec<T>, v: seq<T>): nat {
    if v == [] then 0 else c.size(v[0]) + SizeAll(c, v[1..])
  }

  function DecAll<T>(c: Codec<T>, s: bytes, n: nat): Parsed<seq<T>>
    decreases n
  {
    if n == 0 then Ok([], s)
    else
      match c.dec(s)
      case Failed => Failed
      case Ok(x, s1) =>
        match DecAll(c, s1, n - 1)
        case Failed => Failed
        case Ok(xs, rest) => Ok([x] + xs, rest)
  }

  predicate AllFit<T>(c: Codec<T>, v: seq<T>) {
    forall k :: 0 <= k < |v| ==> c.fits(v[k])
  }

  lemma {:induction false} DecEncAll<T(!new)>(c: Codec<T>, v: seq<T>, rest: bytes)
    requires RoundTrips(c) && AllFit(c, v)
    ensures DecAll(c, EncAll(c.enc, v) + rest, |v|) == Ok(v, rest)
    ensures SizeAll(c, v) == |EncAll(c.enc, v)|
  {
    if v == [] {
      assert EncAll(c.enc, v) + rest == rest;
    } else {
      DecEncAll(c, v[1..], rest);
      assert EncAll(c.enc, v) + rest == c.enc(v[0]) + (EncAll(c.enc, v[1..]) + rest);
      assert c.dec(c.enc(v[0]) + (EncAll(c.enc, v[1..]) + rest)) == Ok(v[0], EncAll(c.enc, v[1..]) + rest);
      assert v == [v[0]] + v[1..];
    }
  }

  /** The count, then the elements. */
  function EncVector<T>(enc: T -> bytes, v: seq<T>): bytes
    requires |v| < 0x1_0000_0000_0000_0000
  {
    CompactSize(|v|) + EncAll(enc, v)
  }

  function DecVector<T>(c: Codec<T>, s: bytes): Parsed<seq<T>> {
    match CompactSizeRead(s)
    case Failed => Failed
    case Ok(n, rest) => DecAll(c, rest, n)
  }

  /** Vectors of up to the maximum number of elements round-trip when the elements do. */
  lemma VectorRoundTrips<T(!new)>(c: Codec<T>, v: seq<T>, rest: bytes)
    requires RoundTrips(c) && AllFit(c, v) && |v| <= MAX_SIZE
    ensures DecVector(c, EncVector(c.enc, v) + rest) == Ok(v, rest)
  {
    hide CompactSizeRead, CompactSize;
    CompactSizeExact(EncVector(c.enc, v) + rest, |v|, EncAll(c.enc, v) + rest);
    assert EncVector(c.enc, v) + rest == CompactSize(|v|) + (EncAll(c.enc, v) + rest);
    DecEncAll(c, v, rest);
  }

  /** No written vector begins another, whatever the number of elements. */
  lemma VectorUnique<T(!new)>(fits: T -> bool, enc: T -> bytes, v: seq<T>, w: seq<T>, r: bytes, q: bytes)
    requires IsUnique(fits, enc) && (forall x :: x in v || x in w ==> fits(x))
    requires |v| < 0x1_0000_0000_0000_0000 && |w| < 0x1_0000_0000_0000_0000
    requires EncVector(enc, v) + r == EncVector(enc, w) + q
    ensures v == w && r == q
  {
    hide CompactSize;
    assert EncVector(enc, v) + r == CompactSize(|v|) + (EncAll(enc, v) + r);
    assert EncVector(enc, w) + q == CompactSize(|w|) + (EncAll(enc, w) + q);
    CompactSizeUnique(|v|, |w|, EncAll(enc, v) + r, EncAll(enc, w) + q);
    EncAllUnique(fits, enc, v, w, r, q);
  }

  lemma {:induction false} EncAllUnique<T(!new)>(fits: T -> bool, enc: T -> bytes, v: seq<T>, w: seq<T>, r: bytes, q: bytes)
    requires IsUnique(fits, enc) && (forall x :: x in v || x in w ==> fits(x))
    requires |v| == |w| && EncAll(enc, v) + r == EncAll(enc, w) + q
    ensures v == w && r == q
  {
    if v == [] {
      assert EncAll(enc, v) + r == r && EncAll(enc, w) + q == q;
    } else {
      var r', q' := EncAll(enc, v[1..]) + r, EncAll(enc, w[1..]) + q;
      assert EncAll(enc, v) + r == enc(v[0]) + r' && EncAll(enc, w) + q == enc(w[0]) + q';
      assert v[0] in v && w[0] in w;
      assert v[0] == w[0] && r' == q';
      hide IsUnique, EncAll;
      EncAllUnique(fits, enc, v[1..], w[1..], r, q);
      assert v == [v[0]] + v[1..] && w == [w[0]] + w[1..];
    }
  }

  // ----- the loops over elements -----

  method SerializeElements<T>(c: Codec<T>, os: bytes, v: seq<T>) returns (os': bytes)
    requires |v| < 0x1_0000_0000_0000_0000
    ensures os' == os + EncVector(c.enc, v)
  {
    hide CompactSize;
    os' := WriteCompactSize(os, |v|);
    assert v[0..] == v && os + EncVector(c.enc, v) == os' + EncAll(c.enc, v);
    for k := 0 to |v|
      invariant os' + EncAll(c.enc, v[k..]) == os + EncVector(c.enc, v)
    {
      assert v[k..][1..] == v[k + 1..];
      assert os' + (c.enc(v[k]) + EncAll(c.enc, v[k + 1..])) == os' + c.enc(v[k]) + EncAll(c.enc, v[k + 1..]);
      os' := os' + c.enc(v[k]);
    }
    assert v[|v|..] == [];
  }

  /** The size, in 32 bits. */
  method GetSerializeSizeElements<T>(c: Codec<T>, v: seq<T>) returns (nSize: nat)
    requires |v| < 0x1_0000_0000_0000_0000
    ensures nSize == (|CompactSize(|v|)| + SizeAll(c, v)) % 0x1_0000_0000
  {
    hide CompactSize;
    nSize := GetSizeOfCompactSize(|v|);
    ghost var total: nat := nSize;
    CompactSizeIsShort(|v|);
    assert v[0..] == v;
    for k := 0 to |v|
      invariant nSize == total % 0x1_0000_0000
      invariant total + SizeAll(c, v[k..]) == |CompactSize(|v|)| + SizeAll(c, v)
    {
      assert v[k..][1..] == v[k + 1..];
      total := total + c.size(v[k]);
      nSize := (nSize + c.size(v[k])) % 0x1_0000_0000;
    }
    assert v[|v|..] == [];
  }

  lemma CompactSizeIsShort(n: nat)
    requires n < 0x1_0000_0000_0000_0000
    ensures 1 <= |CompactSize(n)| <= 9
  {
  }

  /** The size that is computed is that of the bytes written, in 32 bits. */
  lemma VectorSize<T(!new)>(c: Codec<T>, v: seq<T>)
    requires RoundTrips(c) && AllFit(c, v) && |v| < 0x1_0000_0000_0000_0000
    ensures |CompactSize(|v|)| + SizeAll(c, v) == |EncVector(c.enc, v)|
  {
    hide CompactSize;
    DecEncAll(c, v, []);
  }

  /** How far the vector is made after one more round. */
  function NextMid(nMid: nat, nSize: nat, sizeOf: nat): nat
    requires sizeOf > 0
  {
    if nMid + 5000000 / sizeOf > nSize then nSize else nMid + 5000000 / sizeOf
  }

  /** A round makes no progress, so that the loop does not end, exactly when one element
      takes more than 5000000 bytes of memory. */
  lemma RoundsProgress(nMid: nat, nSize: nat, sizeOf: nat)
    requires nMid < nSize && sizeOf > 0
    ensures NextMid(nMid, nSize, sizeOf) == nMid <==> sizeOf > 5000000
  {
    DivMod(5000000, sizeOf);
    if sizeOf <= 5000000 && 5000000 / sizeOf == 0 {
      TimesLaws(0, sizeOf, 0);
      TimesLaws(sizeOf, 0, 0);
      assert false;
    }
    if sizeOf > 5000000 { DivModUnique(5000000, sizeOf, 0, 5000000); }
  }

  /** The elements are read in chunks of at most 5000000 bytes of memory, so that a
      bogus count does not exhaust it. */
  method UnserializeElements<T>(c: Codec<T>, sizeOf: nat, s: bytes) returns (r: Parsed<seq<T>>)
    requires 0 < sizeOf <= 5000000
    ensures r == DecVector(c, s)
  {
    hide CompactSizeRead, DecAll;
    var size := ReadCompactSize(s);
    if size.Failed? { return Failed; }
    var nSize, rest := size.value, size.rest;
    var v: seq<T> := [];
    var i, nMid := 0, 0;
    DecAllStart(c, rest, nSize);
    while nMid < nSize
      invariant i == nMid == |v| <= nSize
      invariant Prepend(v, DecAll(c, rest, nSize - i)) == DecVector(c, s)
    {
      ghost var next := NextMid(nMid, nSize, sizeOf);
      nMid := nMid + 5000000 / sizeOf;
      if nMid > nSize { nMid := nSize; }
      assert nMid == next;
      while i < nMid
        invariant i == |v| <= nMid <= nSize
        invariant Prepend(v, DecAll(c, rest, nSize - i)) == DecVector(c, s)
      {
        DecAllStep(c, v, rest, nSize - i);
        var x := c.dec(rest);
        if x.Failed? { return Failed; }
        v, rest := v + [x.value], x.rest;
        i := i + 1;
      }
    }
    DecAllStart(c, rest, 0);
    assert v + [] == v;
    r := Ok(v, rest);
  }

  function Prepend<T>(v: seq<T>, r: Parsed<seq<T>>): Parsed<seq<T>> {
    match r case Failed => Failed case Ok(w, rest) => Ok(v + w, rest)
  }

  lemma DecAllStart<T>(c: Codec<T>, s: bytes, n: nat)
    ensures Prepend([], DecAll(c, s, n)) == DecAll(c, s, n)
    ensures n == 0 ==> DecAll(c, s, n) == Ok([], s)
  {
    match DecAll(c, s, n)
    case Failed =>
    case Ok(w, rest) => assert [] + w == w;
  }

  lemma DecAllStep<T>(c: Codec<T>, v: seq<T>, s: bytes, n: nat)
    requires n > 0
    ensures var x := c.dec(s);
      Prepend(v, DecAll(c, s, n))
        == if x.Failed? then Failed else Prepend(v + [x.value], DecAll(c, x.rest, n - 1))
  {
    match c.dec(s)
    case Failed =>
    case Ok(x, s1) =>
      match DecAll(c, s1, n - 1)
      case Failed =>
      case Ok(xs, rest) => assert v + ([x] + xs) == v + [x] + xs;
  }

  // ----- raw memory: strings, and vectors of a fundamental type -----

  /** A count, then as many elements of a fixed size, as they are in memory. */
  function EncRaw(memory: bytes, n: nat): bytes
    requires n < 0x1_0000_0000_0000_0000
  {
    CompactSize(n) + memory
  }

  function DecRaw(s: bytes, sizeOf: nat): Parsed<bytes> {
    match CompactSizeRead(s)
    case Failed => Failed
    case Ok(n, rest) => ReadBytes(rest, Times(n, sizeOf))
  }

  lemma RawRoundTrips(memory: bytes, n: nat, sizeOf: nat, rest: bytes)
    requires n <= MAX_SIZE && |memory| == Times(n, sizeOf)
    ensures DecRaw(EncRaw(memory, n) + rest, sizeOf) == Ok(memory, rest)
  {
    hide CompactSizeRead, CompactSize, Times;
    assert EncRaw(memory, n) + rest == CompactSize(n) + (memory + rest);
    CompactSizeExact(EncRaw(memory, n) + rest, n, memory + rest);
    assert (memory + rest)[..|memory|] == memory && (memory + rest)[|memory|..] == rest;
  }

  method SerializeRaw(os: bytes, memory: bytes, n: nat) returns (os': bytes)
    requires n < 0x1_0000_0000_0000_0000 && (n == 0 <==> memory == [])
    ensures os' == os + EncRaw(memory, n)
  {
    hide CompactSize;
    os' := WriteCompactSize(os, n);
    if n != 0 { os' := os' + memory; }
  }

  /** A string is read at once. */
  method UnserializeString(s: bytes) returns (r: Parsed<bytes>)
    ensures r == DecRaw(s, 1)
  {
    hide CompactSizeRead;
    var size := ReadCompactSize(s);
    if size.Failed? { return Failed; }
    var nSize := size.value;
    TimesLaws(nSize, 1, 0);
    r := Ok([], size.rest);
    if nSize != 0 { r := ReadBytes(size.rest, nSize); }
  }

  /** A vector of a fundamental type is read in blocks, and that is one whole read. */
  method UnserializeRaw(sizeOf: nat, s: bytes) returns (r: Parsed<bytes>)
    requires sizeOf > 0
    ensures r == DecRaw(s, sizeOf)
  {
    hide CompactSizeRead, Times;
    var size := ReadCompactSize(s);
    if size.Failed? { return Failed; }
    var nSize := size.value;
    ghost var all := size.rest;
    var rest := size.rest;
    var v: bytes := [];
    var i := 0;
    TimesLaws(sizeOf, 0, 0);
    while i < nSize
      invariant i <= nSize && |v| == Times(i, sizeOf) <= |all|
      invariant v == all[..|v|] && rest == all[|v|..]
    {
      var blk := if nSize - i < 1 + 4999999 / sizeOf then nSize - i else 1 + 4999999 / sizeOf;
      BlockSize(i, blk, nSize, sizeOf);
      var x := ReadBytes(rest, Times(blk, sizeOf));
      if x.Failed? { return Failed; }
      assert all[..|v| + Times(blk, sizeOf)] == v + x.value;
      v, rest := v + x.value, x.rest;
      i := i + blk;
    }
    r := Ok(v, rest);
  }

  lemma BlockSize(i: nat, blk: nat, n: nat, sizeOf: nat)
    requires i + blk <= n
    ensures Times(i + blk, sizeOf) == Times(i, sizeOf) + Times(blk, sizeOf) <= Times(n, sizeOf)
  {
    TimesMonotone(sizeOf, i + blk, n);
    TimesLaws(sizeOf, i, blk);
  }

  // ----- pairs, maps and sets -----

  function PairCodec<K, T>(k: Codec<K>, t: Codec<T>): Codec<(K, T)> {
    Codec(
      (p: (K, T)) => k.fits(p.0) && t.fits(p.1),
      (p: (K, T)) => k.enc(p.0) + t.enc(p.1),
      s => match k.dec(s)
           case Failed => Failed
           case Ok(x, s1) => (match t.dec(s1) case Failed => Failed case Ok(y, rest) => Ok((x, y), rest)),
      (p: (K, T)) => (var n: nat := k.size(p.0) + t.size(p.1); n))
  }

  lemma PairRoundTrips<K(!new), T(!new)>(k: Codec<K>, t: Codec<T>)
    requires RoundTrips(k) && RoundTrips(t)
    ensures RoundTrips(PairCodec(k, t))
  {
    var c := PairCodec(k, t);
    forall p: (K, T), rest | c.fits(p) ensures c.dec(c.enc(p) + rest) == Ok(p, rest) && c.size(p) == |c.enc(p)| {
      assert c.enc(p) + rest == k.enc(p.0) + (t.enc(p.1) + rest);
      assert k.dec(k.enc(p.0) + (t.enc(p.1) + rest)) == Ok(p.0, t.enc(p.1) + rest);
    }
  }

  /** An ordered container is its elements in ascending order. */
  ghost predicate Ordered<T(!new)>(less: (T, T) -> bool) {
    (forall x :: !less(x, x)) && (forall x, y, z :: less(x, y) && less(y, z) ==> less(x, z))
  }

  predicate Ascending<T>(less: (T, T) -> bool, v: seq<T>) {
    forall i, j :: 0 <= i < j < |v| ==> less(v[i], v[j])
  }

  /** Insertion into a map or set: nothing happens if an equivalent element is there. */
  function Insert<T>(less: (T, T) -> bool, v: seq<T>, x: T): seq<T> {
    if v == [] then [x]
    else if less(x, v[0]) then [x] + v
    else if less(v[0], x) then [v[0]] + Insert(less, v[1..], x)
    else v
  }

  function InsertAll<T>(less: (T, T) -> bool, v: seq<T>, xs: seq<T>): seq<T>
    decreases |xs|
  {
    if xs == [] then v else InsertAll(less, Insert(less, v, xs[0]), xs[1..])
  }

  lemma Asymmetric<T(!new)>(less: (T, T) -> bool, x: T, y: T)
    requires Ordered(less)
    ensures !(less(x, y) && less(y, x))
  {
  }

  lemma {:induction false} InsertLast<T(!new)>(less: (T, T) -> bool, v: seq<T>, x: T)
    requires Ordered(less) && forall k :: 0 <= k < |v| ==> less(v[k], x)
    ensures Insert(less, v, x) == v + [x]
  {
    if v != [] {
      InsertLast(less, v[1..], x);
      Asymmetric(less, v[0], x);
      assert v + [x] == [v[0]] + (v[1..] + [x]);
    }
  }

  lemma {:induction false} InsertAscending<T(!new)>(less: (T, T) -> bool, v: seq<T>, xs: seq<T>)
    requires Ordered(less) && Ascending(less, v + xs)
    ensures InsertAll(less, v, xs) == v + xs
    decreases |xs|
  {
    if xs == [] {
      assert v + xs == v;
    } else {
      var all := v + xs;
      forall k | 0 <= k < |v| ensures less(v[k], xs[0]) {
        assert less(all[k], all[|v|]);
      }
      InsertLast(less, v, xs[0]);
      assert v + [xs[0]] + xs[1..] == all;
      InsertAscending(less, v + [xs[0]], xs[1..]);
    }
  }

  /** What a map or set is after reading: the elements read, inserted one by one. */
  function DecOrdered<T>(c: Codec<T>, less: (T, T) -> bool, s: bytes): Parsed<seq<T>> {
    match DecVector(c, s)
    case Failed => Failed
    case Ok(v, rest) => Ok(InsertAll(less, [], v), rest)
  }

  lemma OrderedRoundTrips<T(!new)>(c: Codec<T>, less: (T, T) -> bool, v: seq<T>, rest: bytes)
    requires RoundTrips(c) && AllFit(c, v) && |v| <= MAX_SIZE && Ordered(less) && Ascending(less, v)
    ensures DecOrdered(c, less, EncVector(c.enc, v) + rest) == Ok(v, rest)
  {
    VectorRoundTrips(c, v, rest);
    assert [] + v == v;
    InsertAscending(less, [], v);
  }

  method UnserializeOrdered<T>(c: Codec<T>, less: (T, T) -> bool, s: bytes) returns (r: Parsed<seq<T>>)
    ensures r == DecOrdered(c, less, s)
  {
    hide CompactSizeRead, DecAll, InsertAll;
    var size := ReadCompactSize(s);
    if size.Failed? { return Failed; }
    var nSize, rest := size.value, size.rest;
    var m: seq<T> := [];
    ghost var read: seq<T> := [];
    DecAllStart(c, rest, nSize);
    InsertAllMore(less, [], [], []);
    for i := 0 to nSize
      invariant Prepend(read, DecAll(c, rest, nSize - i)) == DecVector(c, s)
      invariant m == InsertAll(less, [], read)
    {
      DecAllStep(c, read, rest, nSize - i);
      var item := c.dec(rest);
      if item.Failed? { return Failed; }
      InsertAllMore(less, [], read, [item.value]);
      InsertAllOne(less, m, item.value);
      m, rest := Insert(less, m, item.value), item.rest;
      read := read + [item.value];
    }
    DecAllStart(c, rest, 0);
    assert read + [] == read;
    r := Ok(m, rest);
  }

  lemma InsertAllOne<T>(less: (T, T) -> bool, v: seq<T>, x: T)
    ensures InsertAll(less, v, [x]) == Insert(less, v, x)
  {
    assert [x][1..] == [];
    assert InsertAll(less, Insert(less, v, x), []) == Insert(less, v, x);
  }

  lemma {:induction false} InsertAllMore<T>(less: (T, T) -> bool, v: seq<T>, xs: seq<T>, ys: seq<T>)
    ensures InsertAll(less, v, xs + ys) == InsertAll(less, InsertAll(less, v, xs), ys)
    ensures InsertAll(less, v, []) == v
    decreases |xs|
  {
    if xs == [] {
      assert xs + ys == ys;
    } else {
      assert (xs + ys)[1..] == xs[1..] + ys;
      InsertAllMore(less, Insert(less, v, xs[0]), xs[1..], ys);
    }
  }
}
