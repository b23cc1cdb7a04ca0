/** Base-128 integers, least significant group first, as one-time keys hash them
    (crates/smirk-wasm/src/output.rs) and address prefixes carry them (crates/smirk-wasm/src/signing.rs).
    The form is unsigned LEB128, section 7.6 of DWARF version 4. */
module Varint {
  import opened Outcomes
  import opened ByteStrings
  import opened Codec
  import opened Modular

  const TWO_64 := 0x1_0000_0000_0000_0000

  function Pow128(k: nat): (p: nat)
    ensures p >= 1
  {
    if k == 0 then 1 else 128 * Pow128(k - 1)
  }

  lemma Powers()
    ensures Pow128(9) == 0x8000_0000_0000_0000
    ensures Pow128(10) == 128 * 0x8000_0000_0000_0000
  {
    assert Pow128(2) == 0x4000;
    assert Pow128(4) == 128 * Pow128(3) == 0x1000_0000;
    assert Pow128(6) == 128 * Pow128(5) == 0x400_0000_0000;
    assert Pow128(8) == 128 * Pow128(7) == 0x100_0000_0000_0000;
  }

  /** Groups of seven bits, each byte but the last marked. */
  function Encode(n: nat): (b: Bytes)
    ensures b != []
  {
    if n < 128 then [n] else [n % 128 + 128] + Encode(n / 128)
  }

  /** The loop that writes it. */
  method WriteVarint(n: u64) returns (out: Bytes)
    ensures out == Encode(n)
  {
    out := [];
    var rest: u64 := n;
    while true
      invariant Encode(n) == out + Encode(rest)
      decreases rest
    {
      var group: byte := rest % 128;
      rest := rest / 128;
      if rest == 0 {
        out := out + [group];
        break;
      }
      out := out + [group + 128];
    }
  }

  /** The number seven-bit groups spell, whatever their marks. */
  function Value(b: Bytes): nat {
    if b == [] then 0 else b[0] % 128 + 128 * Value(b[1..])
  }

  /** Every byte marked. */
  predicate Marked(b: Bytes) {
    forall i | 0 <= i < |b| :: b[i] >= 128
  }

  /** A whole varint and nothing else: only the last byte is unmarked. */
  predicate Complete(b: Bytes) {
    b != [] && b[|b| - 1] < 128 && Marked(b[..|b| - 1])
  }

  // ----- the reader --------------------------------------------------------------------------

  /** A group moved to its place in a 64-bit word; what is shifted out is lost. */
  function Shifted(group: nat, i: nat): u64
    requires group < 128
  {
    group * Pow128(i) % TWO_64
  }

  /** What the reader makes of any bytes: the number of the first complete varint modulo 2^64 and its
      length, if that is within ten bytes. */
  function Read(b: Bytes, i: nat): Outcome<(u64, nat)>
    requires i <= |b|
    decreases |b| - i
  {
    if i == |b| then Err("Incomplete varint")
    else if i >= 10 then Err("Varint too long")
    else if b[i] < 128 then Ok((Value(b[..i + 1]) % TWO_64, i + 1))
    else Read(b, i + 1)
  }

  /** `read_varint`. The shift never reaches the width of the word, and a group never meets a bit that is
      already set, so the `|=` of the original is the sum here. */
  method ReadVarint(b: Bytes) returns (r: Outcome<(u64, nat)>)
    ensures r == Read(b, 0)
  {
    hide Shifted, Pow128;
    var result: u64 := 0;
    var shift := 0;
    for i := 0 to |b|
      invariant shift == 7 * i && i <= 10
      invariant i <= 9 ==> result == Value(b[..i])
      invariant Read(b, 0) == Read(b, i)
    {
      if i >= 10 {
        return Err("Varint too long");
      }
      assert shift < 64;
      GroupFits(b, i);
      result := result + Shifted(b[i] % 128, i);
      if b[i] < 128 {
        return Ok((result, i + 1));
      }
      shift := shift + 7;
    }
    return Err("Incomplete varint");
  }

  lemma {:induction false} ValueBound(b: Bytes)
    ensures Value(b) < Pow128(|b|)
  {
    if b != [] {
      ValueBound(b[1..]);
    }
  }

  lemma {:induction false} ValueSnoc(b: Bytes, i: nat)
    requires i < |b|
    ensures Value(b[..i + 1]) == Value(b[..i]) + b[i] % 128 * Pow128(i)
    decreases i
  {
    if i == 0 {
      assert b[..1][1..] == [];
    } else {
      ValueSnoc(b[1..], i - 1);
      assert b[..i + 1][1..] == b[1..][..i] && b[..i][1..] == b[1..][..i - 1];
      assert 128 * (b[i] % 128 * Pow128(i - 1)) == b[i] % 128 * Pow128(i);
    }
  }

  lemma {:induction false} PowersGrow(i: nat, j: nat)
    requires i <= j
    ensures Pow128(i) <= Pow128(j)
    decreases j - i
  {
    if i < j {
      PowersGrow(i + 1, j);
    }
  }

  lemma AddLow(low: nat, high: nat, n: nat)
    requires n > 0 && low + high % n < n
    ensures (low + high) % n == low + high % n
  {
    RemainderUnique(low + high, high / n, low + high % n, n);
  }

  /** One more group: within the word, and exact but for the tenth. */
  lemma GroupFits(b: Bytes, i: nat)
    requires i < |b| && i <= 9
    ensures Value(b[..i]) + Shifted(b[i] % 128, i) == Value(b[..i + 1]) % TWO_64
    ensures i <= 8 ==> Value(b[..i + 1]) < TWO_64
  {
    hide Value;
    Powers();
    ValueBound(b[..i]);
    ValueBound(b[..i + 1]);
    ValueSnoc(b, i);
    var low, high := Value(b[..i]), b[i] % 128 * Pow128(i);
    if i <= 8 {
      PowersGrow(i + 1, 9);
      SmallIsRemainder(low + high, TWO_64);
      SmallIsRemainder(high, TWO_64);
    } else {
      TopGroup(b[i] % 128);
      AddLow(low, high, TWO_64);
    }
  }

  /** Of the tenth group one bit is left. */
  lemma TopGroup(group: nat)
    requires group < 128
    ensures group * 0x8000_0000_0000_0000 % TWO_64 == group % 2 * 0x8000_0000_0000_0000
  {
    RemainderUnique(group * 0x8000_0000_0000_0000, group / 2, group % 2 * 0x8000_0000_0000_0000, TWO_64);
  }

  // ----- round trips -------------------------------------------------------------------------

  lemma {:induction false} EncodeFacts(n: nat)
    ensures Complete(Encode(n)) && Value(Encode(n)) == n
    ensures Encode(n)[|Encode(n)| - 1] == 0 <==> n == 0
  {
    if n >= 128 {
      EncodeFacts(n / 128);
      var rest := Encode(n / 128);
      assert Encode(n)[1..] == rest;
      assert Encode(n)[..|rest|] == [n % 128 + 128] + rest[..|rest| - 1];
    } else {
      assert Encode(n)[1..] == [];
    }
  }

  /** Group `i` is the number's `i`-th digit in base 128, marked unless it is the last. */
  lemma {:induction false} EncodeDigits(n: nat, i: nat)
    requires i < |Encode(n)|
    ensures Encode(n)[i] % 128 == n / Pow128(i) % 128
    ensures Encode(n)[i] >= 128 <==> i < |Encode(n)| - 1
    decreases i
  {
    if i > 0 {
      EncodeDigits(n / 128, i - 1);
      var p := Pow128(i - 1);
      DividedTwice(n, p);
      assert Encode(n)[i] == Encode(n / 128)[i - 1];
    }
  }

  lemma DividedTwice(n: nat, p: nat)
    requires p > 0
    ensures n / 128 / p == n / (128 * p)
  {
    var q := n / 128 / p;
    var r := n - q * (128 * p);
    assert n / 128 == q * p + n / 128 % p;
    assert q * (128 * p) == 128 * (q * p);
    assert 0 <= r < 128 * p;
    RemainderUnique(n, q, r, 128 * p);
  }

  lemma {:induction false} EncodeLength(n: nat, k: nat)
    requires k >= 1
    ensures n < Pow128(k) <==> |Encode(n)| <= k
  {
    if n >= 128 {
      if k > 1 {
        EncodeLength(n / 128, k - 1);
        assert n / 128 < Pow128(k - 1) <==> n < 128 * Pow128(k - 1);
      }
    } else {
      PowersGrow(1, k);
    }
  }

  /** The reader on bytes that begin with a complete varint. */
  lemma {:induction false} ReadComplete(v: Bytes, tail: Bytes, i: nat)
    requires Complete(v) && |v| <= 10 && i < |v|
    ensures Read(v + tail, i) == Ok((Value(v) % TWO_64, |v|))
    decreases |v| - i
  {
    var b := v + tail;
    if i < |v| - 1 {
      assert b[i] == v[..|v| - 1][i];
      ReadComplete(v, tail, i + 1);
    } else {
      assert b[..i + 1] == v;
    }
  }

  /** Every 64-bit number is written in at most ten bytes and read back from them, whatever follows. */
  lemma VarintRoundTrips(n: u64, tail: Bytes)
    ensures |Encode(n)| <= 10
    ensures Read(Encode(n) + tail, 0) == Ok((n, |Encode(n)|))
  {
    Powers();
    EncodeFacts(n);
    EncodeLength(n, 10);
    ReadComplete(Encode(n), tail, 0);
    SmallIsRemainder(n, TWO_64);
  }

  /** No encoding begins another. */
  lemma PrefixFree(m: u64, n: u64, tail: Bytes)
    requires Encode(m) + tail == Encode(n)
    ensures m == n && tail == []
  {
    VarintRoundTrips(m, tail);
    VarintRoundTrips(n, []);
    assert Encode(n) + [] == Encode(n);
  }

  /** Where the reader stops. */
  lemma {:induction false} ReadStops(b: Bytes, i: nat)
    requires i <= |b| && Marked(b[..i])
    ensures Read(b, i).Ok? ==>
      var (v, k) := Read(b, i).value;
      i < k <= |b| && k <= 10 && Complete(b[..k]) && v == Value(b[..k]) % TWO_64
    decreases |b| - i
  {
    if i < |b| && i < 10 {
      if b[i] >= 128 {
        ReadStops(b, i + 1);
      } else {
        assert b[..i + 1][..i] == b[..i];
      }
    }
  }

  /** What the reader makes of any bytes: the number of the varint they begin with, in 64 bits, if it is complete
      within ten bytes. */
  lemma ReadExact(b: Bytes, v: u64, k: nat)
    ensures Read(b, 0) == Ok((v, k)) <==>
      0 < k <= |b| && k <= 10 && Complete(b[..k]) && v == Value(b[..k]) % TWO_64
  {
    hide Read, Value, Complete;
    assert Marked(b[..0]);
    ReadStops(b, 0);
    if 0 < k <= |b| && k <= 10 && Complete(b[..k]) {
      ReadComplete(b[..k], b[k..], 0);
      assert b[..k] + b[k..] == b;
    }
  }

  /** A complete varint with no empty last group is the encoding of its number. */
  lemma {:induction false} NoPaddingIsEncoding(b: Bytes)
    requires Complete(b) && (|b| > 1 ==> b[|b| - 1] != 0)
    ensures Encode(Value(b)) == b && (|b| > 1 ==> Value(b) >= 128)
  {
    if |b| == 1 {
      assert b[1..] == [];
    } else {
      var rest := b[1..];
      assert b[0] == b[..|b| - 1][0];
      assert rest[..|rest| - 1] == b[..|b| - 1][1..];
      NoPaddingIsEncoding(rest);
      LastNonZero(rest);
      assert b == [b[0]] + rest;
    }
  }

  lemma {:induction false} LastNonZero(b: Bytes)
    requires Complete(b) && b[|b| - 1] != 0
    ensures Value(b) > 0
  {
    if |b| > 1 {
      assert b[1..][..|b| - 2] == b[..|b| - 1][1..];
      LastNonZero(b[1..]);
    } else {
      assert b[1..] == [];
    }
  }

  /** A complete varint and the number it is read as. */
  lemma CompleteIsWrittenExactly(b: Bytes, v: nat)
    requires Complete(b) && v == Value(b) % TWO_64
    ensures b == Encode(v) <==> (|b| == 1 || b[|b| - 1] != 0) && Value(b) < TWO_64
    ensures Value(b) < TWO_64 ==> |Encode(v)| <= |b|
  {
    hide Pow128, Marked;
    EncodeFacts(v);
    if Value(b) < TWO_64 {
      SmallIsRemainder(Value(b), TWO_64);
      ValueBound(b);
      EncodeLength(v, |b|);
      if |b| == 1 || b[|b| - 1] != 0 {
        NoPaddingIsEncoding(b);
      }
    }
  }

  /** The reader accepts more than the writer writes: padding groups and numbers past 64 bits. What it
      accepted is what the writer would have written exactly when the last group is not empty, unless it
      is the only one, and the number fits. */
  lemma AcceptedIsWrittenExactly(b: Bytes)
    requires Read(b, 0).Ok?
    ensures var (v, k) := Read(b, 0).value;
      && 0 < k <= |b|
      && (b[..k] == Encode(v) <==> (k == 1 || b[k - 1] != 0) && Value(b[..k]) < TWO_64)
      && (Value(b[..k]) < TWO_64 ==> |Encode(v)| <= k)
  {
    hide Read, Value, Encode, Complete;
    assert b[..0] == [];
    ReadStops(b, 0);
    var (v, k) := Read(b, 0).value;
    assert b[..k][k - 1] == b[k - 1];
    CompleteIsWrittenExactly(b[..k], v);
  }

  // ----- the signing library's reader --------------------------------------------------------

  /** How many numbers the groups from the `i`-th on can spell in a 64-bit word. */
  function Room(i: nat): nat
    requires i <= 9
    decreases 9 - i
  {
    if i == 9 then 2 else 128 * Room(i + 1)
  }

  /** `VarInt::read` from the `i`-th group on: padding and overflow are refused. */
  function TakeGroups(b: Bytes, i: nat): Parse<nat> {
    var (group, rest) :- TakeU8(b);
    if i != 0 && group == 0 then Err("non-canonical varint")
    else if i >= 9 && group >= 2 then Err("varint overflow")
    else if group < 128 then Ok((group, rest))
    else
      var (high, rest) :- TakeGroups(rest, i + 1);
      Ok((group % 128 + 128 * high, rest))
  }

  /** This reader accepts what the writer writes and nothing else. */
  lemma {:induction false} TakeGroupsExact(b: Bytes, i: nat, n: nat, t: Bytes)
    requires i <= 9
    ensures TakeGroups(b, i) == Ok((n, t)) <==> b == Encode(n) + t && n < Room(i) && (i != 0 ==> n != 0)
    decreases 9 - i
  {
    if b != [] && b[0] >= 128 && i < 9 {
      TakeGroupsExact(b[1..], i + 1, n / 128, t);
      MarkedGroup(b, i, n, t);
    } else {
      UnmarkedGroup(b, i, n, t);
    }
  }

  lemma MarkedGroup(b: Bytes, i: nat, n: nat, t: Bytes)
    requires i < 9 && b != [] && b[0] >= 128
    ensures b == Encode(n) + t <==> n >= 128 && b[0] == n % 128 + 128 && b[1..] == Encode(n / 128) + t
    ensures n < Room(i) <==> n / 128 < Room(i + 1)
    ensures TakeGroups(b, i) == Ok((n, t)) <==> TakeGroups(b[1..], i + 1) == Ok((n / 128, t)) && n % 128 == b[0] % 128
  {
    hide TakeGroups, Room;
    FirstGroup(b, n, t);
    assert n < Room(i) <==> n / 128 < Room(i + 1) by { RoomLeft(i, n); }
    GroupTaken(b, i, n, t);
  }

  lemma FirstGroup(b: Bytes, n: nat, t: Bytes)
    requires b != [] && b[0] >= 128
    ensures b == Encode(n) + t <==> n >= 128 && b[0] == n % 128 + 128 && b[1..] == Encode(n / 128) + t
  {
    if n >= 128 {
      var head, rest := [n % 128 + 128], Encode(n / 128);
      assert head + (rest + t) == (head + rest) + t;
      if b[0] == n % 128 + 128 && b[1..] == rest + t {
        assert b == head + (rest + t);
      }
    }
  }

  lemma RoomLeft(i: nat, n: nat)
    requires i < 9
    ensures n < Room(i) <==> n / 128 < Room(i + 1)
  {
  }

  lemma GroupTaken(b: Bytes, i: nat, n: nat, t: Bytes)
    requires i < 9 && b != [] && b[0] >= 128
    ensures TakeGroups(b, i) == Ok((n, t)) <==> TakeGroups(b[1..], i + 1) == Ok((n / 128, t)) && n % 128 == b[0] % 128
  {
    assert b[..1] == [b[0]];
    assert TakeU8(b) == Ok((b[0], b[1..]));
  }

  lemma UnmarkedGroup(b: Bytes, i: nat, n: nat, t: Bytes)
    requires i <= 9 && (b != [] && b[0] >= 128 ==> i == 9)
    ensures TakeGroups(b, i) == Ok((n, t)) <==> b == Encode(n) + t && n < Room(i) && (i != 0 ==> n != 0)
  {
    AtLeastTwo(i);
    assert b == Encode(n) + t ==> b != [] && b[0] == Encode(n)[0];
    if n < 128 && b != [] {
      assert b == [n] + t <==> b[0] == n && b[1..] == t;
    }
  }

  lemma AtLeastTwo(i: nat)
    requires i <= 9
    ensures Room(i) >= (if i == 9 then 2 else 256)
    decreases 9 - i
  {
    if i < 9 {
      AtLeastTwo(i + 1);
    }
  }

  lemma WholeWord()
    ensures Room(0) == TWO_64
  {
    assert Room(8) == 256 && Room(7) == 128 * Room(8) && Room(6) == 128 * Room(7);
    assert Room(5) == 128 * Room(6) && Room(4) == 128 * Room(5) && Room(3) == 128 * Room(4);
    assert Room(2) == 128 * Room(3) && Room(1) == 128 * Room(2);
  }
}
