/** Reading a byte stream front to back.  Encoders take the bytes that follow, so that what a
    reader leaves behind can be named. */
module Parsing {
  import opened Bytes

  /** `Short`: the stream ended inside the item.  `Bad`: the item was read and refused. */
  datatype Parse<+T> = Short | Bad | Parsed(value: T, rest: bytes) {
    predicate IsFailure() {
      !Parsed?
    }

    function PropagateFailure<U>(): Parse<U>
      requires IsFailure()
    {
      if Short? then Short else Bad
    }

    function Extract(): (T, bytes)
      requires Parsed?
    {
      (value, rest)
    }
  }

  // A negative length turns into a size no stream can fill.
  function PBytes(n: int, s: bytes): Parse<bytes> {
    if 0 <= n <= |s| then Parsed(s[..n], s[n..]) else Short
  }

  function PInt(s: bytes): Parse<int> {
    var (b, r) :- PBytes(4, s);
    Parsed(LoadInt(b), r)
  }

  function PU32(s: bytes): Parse<u32> {
    var (b, r) :- PBytes(4, s);
    Parsed(U32(b), r)
  }

  function PByte(s: bytes): Parse<byte> {
    var (b, r) :- PBytes(1, s);
    Parsed(Byte(b), r)
  }

  function PU64(s: bytes): Parse<u64> {
    var (b, r) :- PBytes(8, s);
    Parsed(U64(b), r)
  }

  function PU64s(n: int, s: bytes): Parse<seq<u64>> {
    var (b, r) :- PBytes(8 * n, s);
    Parsed(LoadU64s(b), r)
  }

  function Repeat<T>(n: int, p: bytes -> Parse<T>, s: bytes): Parse<seq<T>>
    decreases n
  {
    if n <= 0 then Parsed([], s)
    else
      var (x, r) :- p(s);
      var (xs, t) :- Repeat(n - 1, p, r);
      Parsed([x] + xs, t)
  }

  ghost function EncodeAll<T>(e: (T, bytes) -> bytes, xs: seq<T>, tail: bytes): bytes {
    if xs == [] then tail else e(xs[0], EncodeAll(e, xs[1..], tail))
  }

  lemma BytesBack(a: bytes, tail: bytes)
    ensures PBytes(|a|, a + tail) == Parsed(a, tail)
  {
    assert (a + tail)[..|a|] == a && (a + tail)[|a|..] == tail;
  }

  lemma IntBack(i: int, tail: bytes)
    requires -0x8000_0000 <= i < 0x8000_0000
    ensures PInt(StoreInt(i) + tail) == Parsed(i, tail)
  {
    BytesBack(StoreInt(i), tail);
    StoredInt(i);
  }

  lemma U32Back(n: u32, tail: bytes)
    ensures PU32(LE(n, 4) + tail) == Parsed(n, tail)
  {
    BytesBack(LE(n, 4), tail);
    StoredU32(n);
  }

  lemma ByteBack(b: byte, tail: bytes)
    ensures PByte([b] + tail) == Parsed(b, tail)
  {
    BytesBack([b], tail);
  }

  lemma U64Back(n: u64, tail: bytes)
    ensures PU64(LE(n, 8) + tail) == Parsed(n, tail)
  {
    BytesBack(LE(n, 8), tail);
    StoredU64(n);
  }

  lemma U64sBack(xs: seq<u64>, tail: bytes)
    ensures PU64s(|xs|, StoreU64s(xs) + tail) == Parsed(xs, tail)
  {
    BytesBack(StoreU64s(xs), tail);
    StoredU64s(xs);
  }

  /** If a reader inverts an encoder on every element, the counted reader inverts the list encoder. */
  lemma {:induction false} RepeatBack<T>(p: bytes -> Parse<T>, e: (T, bytes) -> bytes, xs: seq<T>, tail: bytes)
    requires forall i, t :: 0 <= i < |xs| ==> p(e(xs[i], t)) == Parsed(xs[i], t)
    ensures Repeat(|xs|, p, EncodeAll(e, xs, tail)) == Parsed(xs, tail)
  {
    if xs == [] {
    } else {
      RepeatBack(p, e, xs[1..], tail);
      assert xs == [xs[0]] + xs[1..];
      assert p(e(xs[0], EncodeAll(e, xs[1..], tail))) == Parsed(xs[0], EncodeAll(e, xs[1..], tail));
    }
  }

  // More bytes after a complete item, accepted or refused, do not change what is read.
  ghost predicate Extends<T>(a: Parse<T>, b: Parse<T>, t: bytes) {
    && (a.Parsed? ==> b == Parsed(a.value, a.rest + t))
    && (a.Bad? ==> b.Bad?)
  }

  lemma BytesExtend(n: int, s: bytes, t: bytes)
    ensures Extends(PBytes(n, s), PBytes(n, s + t), t)
  {
    if 0 <= n <= |s| {
      assert (s + t)[..n] == s[..n] && (s + t)[n..] == s[n..] + t;
    }
  }

  lemma {:induction false} RepeatExtends<T>(n: int, p: bytes -> Parse<T>, s: bytes, t: bytes)
    requires forall u {:trigger p(u + t)} :: Extends(p(u), p(u + t), t)
    ensures Extends(Repeat(n, p, s), Repeat(n, p, s + t), t)
    decreases n
  {
    if n <= 0 {
    } else {
      assert Extends(p(s), p(s + t), t);
      if p(s).Parsed? { RepeatExtends(n - 1, p, p(s).rest, t); }
    }
  }

  // The state of a loop that has read `xs` and has `n` items to go.
  ghost function After<T>(xs: seq<T>, todo: Parse<seq<T>>): Parse<seq<T>> {
    if todo.Parsed? then Parsed(xs + todo.value, todo.rest) else todo
  }

  lemma AfterNone<T>(todo: Parse<seq<T>>)
    ensures After([], todo) == todo
  {
    if todo.Parsed? { assert [] + todo.value == todo.value; }
  }

  lemma AfterOne<T>(xs: seq<T>, n: int, p: bytes -> Parse<T>, s: bytes)
    requires n > 0
    ensures match p(s)
            case Parsed(x, r) => After(xs, Repeat(n, p, s)) == After(xs + [x], Repeat(n - 1, p, r))
            case Short => After(xs, Repeat(n, p, s)) == Short
            case Bad => After(xs, Repeat(n, p, s)) == Bad
  {
    if p(s).Parsed? {
      var x, todo := p(s).value, Repeat(n - 1, p, p(s).rest);
      if todo.Parsed? { assert xs + ([x] + todo.value) == xs + [x] + todo.value; }
    }
  }

  // A loop that reads items knows its item reader only where `At` marks the stream, so that the
  // verifier does not open the reader at every position.
  ghost predicate At(s: bytes) {
    true
  }

  ghost predicate Same<T>(p: bytes -> Parse<T>, q: bytes -> Parse<T>) {
    forall s {:trigger At(s)} :: p(s) == q(s)
  }

  // One round of a counted loop that has read `xs` of `all`.
  lemma Round<T>(p: bytes -> Parse<T>, all: Parse<seq<T>>, xs: seq<T>, n: int, s: bytes)
    requires n > 0 && all == After(xs, Repeat(n, p, s))
    ensures match p(s)
            case Short => all == Short
            case Bad => all == Bad
            case Parsed(x, t) => all == After(xs + [x], Repeat(n - 1, p, t))
  {
    AfterOne(xs, n, p, s);
  }

  lemma LoopEnds<T>(p: bytes -> Parse<T>, all: Parse<seq<T>>, xs: seq<T>, n: int, s: bytes)
    requires n <= 0 && all == After(xs, Repeat(n, p, s))
    ensures all == Parsed(xs, s)
  {
    assert xs + [] == xs;
  }
}
