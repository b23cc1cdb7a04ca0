/** Writers as functions to bytes, readers as functions from bytes to a value and what is left,
    and the three laws every pair in the wire formats is proved to keep. */
module Codec {
  import opened Outcomes
  import opened ByteStrings

  type Parse<T> = Outcome<(T, Bytes)>

  const EOF_ERROR := "unexpected EOF"

  /** The next `n` bytes. */
  function Take(n: nat, b: Bytes): (r: Parse<Bytes>)
    ensures r.Ok? ==> |r.value.0| == n && r.value.0 + r.value.1 == b
  {
    if n > |b| then Err(EOF_ERROR) else Ok((b[..n], b[n..]))
  }

  function TakeU8(b: Bytes): Parse<byte> {
    var (v, rest) :- Take(1, b);
    Ok((v[0], rest))
  }

  function U16Bytes(n: u16): (b: Bytes)
    ensures |b| == 2
  {
    BeBytes(n, 2)
  }

  function U32Bytes(n: u32): (b: Bytes)
    ensures |b| == 4
  {
    BeBytes(n, 4)
  }

  function U64Bytes(n: u64): (b: Bytes)
    ensures |b| == 8
  {
    BeBytes(n, 8)
  }

  function U16Value(b: Bytes): u16
    requires |b| == 2
  {
    Widths(); BeBytesOfValue(b); BeValue(b)
  }

  function U32Value(b: Bytes): u32
    requires |b| == 4
  {
    Widths(); BeBytesOfValue(b); BeValue(b)
  }

  function U64Value(b: Bytes): u64
    requires |b| == 8
  {
    Widths(); BeBytesOfValue(b); BeValue(b)
  }

  function TakeU16(b: Bytes): Parse<u16> {
    var (v, rest) :- Take(2, b);
    Ok((U16Value(v), rest))
  }

  function TakeU32(b: Bytes): Parse<u32> {
    var (v, rest) :- Take(4, b);
    Ok((U32Value(v), rest))
  }

  function TakeU64(b: Bytes): Parse<u64> {
    var (v, rest) :- Take(8, b);
    Ok((U64Value(v), rest))
  }

  lemma TakeWritten(v: Bytes, t: Bytes)
    ensures Take(|v|, v + t) == Ok((v, t))
  {
    assert (v + t)[..|v|] == v && (v + t)[|v|..] == t;
  }

  lemma WordsWritten(a: u16, b: u32, c: u64, t: Bytes)
    ensures TakeU16(U16Bytes(a) + t) == Ok((a, t))
    ensures TakeU32(U32Bytes(b) + t) == Ok((b, t))
    ensures TakeU64(U64Bytes(c) + t) == Ok((c, t))
  {
    Widths();
    TakeWritten(U16Bytes(a), t);
    TakeWritten(U32Bytes(b), t);
    TakeWritten(U64Bytes(c), t);
    BeValueOfBytes(a, 2);
    BeValueOfBytes(b, 4);
    BeValueOfBytes(c, 8);
  }

  /** The words on the wire are numbers with the first byte weighing most. */
  lemma WordValues(a: u16, b: u32, c: u64)
    ensures BeValue(U16Bytes(a)) == a && BeValue(U32Bytes(b)) == b && BeValue(U64Bytes(c)) == c
  {
    Widths();
    BeValueOfBytes(a, 2);
    BeValueOfBytes(b, 4);
    BeValueOfBytes(c, 8);
  }

  /** What was read, followed by more bytes, is read the same and leaves those bytes too. */
  ghost predicate Extends<T>(r: Bytes -> Parse<T>, b: Bytes, t: Bytes) {
    r(b).Ok? ==> r(b + t) == Ok((r(b).value.0, r(b).value.1 + t))
  }

  /** Reading back what was written gives the value and leaves what followed it. */
  ghost predicate RoundTrips<T>(w: T -> Bytes, r: Bytes -> Parse<T>, v: T, t: Bytes) {
    r(w(v) + t) == Ok((v, t))
  }

  /** A value that was read takes no more bytes to write than were consumed. */
  ghost predicate Normalises<T>(w: T -> Bytes, r: Bytes -> Parse<T>, b: Bytes) {
    r(b).Ok? ==> |w(r(b).value.0)| + |r(b).value.1| <= |b|
  }

  /** A cursor does what the format says on what it had left: the same outcome, and on success the
      same bytes left over. */
  ghost predicate Follows<T>(spec: Parse<T>, r: Outcome<T>, left: Bytes) {
    match spec
    case Ok((v, rest)) => r == Ok(v) && left == rest
    case Err(e) => r == Err(e)
    case Panic(w) => r == Panic(w)
  }

  lemma TakeExtends(n: nat, b: Bytes, t: Bytes)
    requires n <= |b|
    ensures Take(n, b + t) == Ok((b[..n], b[n..] + t))
  {
    assert (b + t)[..n] == b[..n] && (b + t)[n..] == b[n..] + t;
  }

  /** The items of a counted list, written one after another. */
  function WriteMany<T>(w: T -> Bytes, items: seq<T>): Bytes {
    if items == [] then [] else w(items[0]) + WriteMany(w, items[1..])
  }

  function ReadMany<T>(r: Bytes -> Parse<T>, n: nat, b: Bytes): Parse<seq<T>> {
    if n == 0 then Ok(([], b)) else
    var (v, rest) :- r(b);
    var (vs, rest') :- ReadMany(r, n - 1, rest);
    Ok(([v] + vs, rest'))
  }

  lemma {:induction false} WriteManyAppend<T>(w: T -> Bytes, a: seq<T>, b: seq<T>)
    ensures WriteMany(w, a + b) == WriteMany(w, a) + WriteMany(w, b)
  {
    if a == [] {
      assert a + b == b;
    } else {
      WriteManyAppend(w, a[1..], b);
      assert (a + b)[0] == a[0] && (a + b)[1..] == a[1..] + b;
      var head, mid, tail := w(a[0]), WriteMany(w, a[1..]), WriteMany(w, b);
      assert (head + mid) + tail == head + (mid + tail);
    }
  }

  /** One more turn of a writing loop. */
  lemma WriteManySnoc<T>(w: T -> Bytes, items: seq<T>, i: nat)
    requires i < |items|
    ensures WriteMany(w, items[..i + 1]) == WriteMany(w, items[..i]) + w(items[i])
  {
    WriteManyAppend(w, items[..i], [items[i]]);
    assert items[..i + 1] == items[..i] + [items[i]];
  }

  /** One item among the others. */
  lemma WriteManyAround<T>(w: T -> Bytes, items: seq<T>, i: nat)
    requires i < |items|
    ensures WriteMany(w, items) == WriteMany(w, items[..i]) + w(items[i]) + WriteMany(w, items[i + 1..])
  {
    hide WriteMany;
    WriteManySnoc(w, items, i);
    var front, back := items[..i + 1], items[i + 1..];
    WriteManyAppend(w, front, back);
    assert items == front + back;
  }

  lemma Middle(a: Bytes, b: Bytes, c: Bytes)
    ensures (a + b + c)[|a|..|a| + |b|] == b
  {
  }

  lemma {:induction false} ReadManyAppend<T>(r: Bytes -> Parse<T>, m: nat, n: nat, b: Bytes)
    ensures ReadMany(r, m + n, b) == (
      var (vs, rest) :- ReadMany(r, m, b);
      var (ws, rest') :- ReadMany(r, n, rest);
      Ok((vs + ws, rest')))
  {
    if m > 0 && r(b).Ok? {
      var (v, rest) := r(b).value;
      ReadManyAppend(r, m - 1, n, rest);
      assert m + n - 1 == m - 1 + n;
      if ReadMany(r, m + n, b).Ok? {
        var (vs, rest1) := ReadMany(r, m - 1, rest).value;
        var (ws, _) := ReadMany(r, n, rest1).value;
        assert [v] + (vs + ws) == ([v] + vs) + ws;
      }
    } else if m == 0 && ReadMany(r, n, b).Ok? {
      var (ws, _) := ReadMany(r, n, b).value;
      assert [] + ws == ws;
    }
  }

  lemma {:induction false} ReadManyExtends<T>(r: Bytes -> Parse<T>, n: nat, b: Bytes, t: Bytes)
    requires forall b', t' :: Extends(r, b', t')
    requires ReadMany(r, n, b).Ok?
    ensures ReadMany(r, n, b + t) == Ok((ReadMany(r, n, b).value.0, ReadMany(r, n, b).value.1 + t))
  {
    if n > 0 {
      assert Extends(r, b, t);
      ReadManyExtends(r, n - 1, r(b).value.1, t);
    }
  }

  lemma {:induction false} ReadManyRoundTrips<T>(w: T -> Bytes, r: Bytes -> Parse<T>, items: seq<T>, t: Bytes)
    requires forall v, t' | v in items :: RoundTrips(w, r, v, t')
    ensures ReadMany(r, |items|, WriteMany(w, items) + t) == Ok((items, t))
  {
    if items == [] {
      assert [] + t == t;
    } else {
      var rest := WriteMany(w, items[1..]) + t;
      ReadManyRoundTrips(w, r, items[1..], t);
      assert RoundTrips(w, r, items[0], rest);
      assert WriteMany(w, items) + t == w(items[0]) + rest;
      assert r(WriteMany(w, items) + t) == Ok((items[0], rest));
      assert [items[0]] + items[1..] == items;
    }
  }

  lemma {:induction false} ReadManyNormalises<T>(w: T -> Bytes, r: Bytes -> Parse<T>, n: nat, b: Bytes)
    requires forall b' :: Normalises(w, r, b')
    requires ReadMany(r, n, b).Ok?
    ensures var (vs, rest) := ReadMany(r, n, b).value;
            |vs| == n && |WriteMany(w, vs)| + |rest| <= |b|
  {
    if n > 0 {
      assert Normalises(w, r, b);
      var (v, rest) := r(b).value;
      ReadManyNormalises(w, r, n - 1, rest);
      var (vs, _) := ReadMany(r, n - 1, rest).value;
      assert ([v] + vs)[1..] == vs;
    }
  }
}
