/** How a ring is laid out for signing: sorted by global index, written as offsets, with the place of the
    output being spent (crates/smirk-wasm/src/signing.rs). */
module RingEncoding {
  import opened Outcomes
  import opened ByteStrings
  import opened StableSort
  import DecoyRings

  /** A ring member: its global index and whatever the signer needs of it. */
  datatype Member<T> = Member(index: u64, points: T)

  function Index<T>(): Member<T> -> int {
    (m: Member<T>) => m.index
  }

  /** The output being spent goes in first, then the sort keeps equal indices in their order. */
  function Ring<T>(own: Member<T>, decoys: seq<Member<T>>): seq<Member<T>> {
    SortBy(Index(), [own] + decoys)
  }

  /** Each index as its distance from the one before. */
  function Deltas<T>(ring: seq<Member<T>>): (offsets: seq<int>)
    ensures |offsets| == |ring|
    ensures forall i | 0 < i < |ring| :: offsets[i] == ring[i].index - ring[i - 1].index
    ensures ring != [] ==> offsets[0] == ring[0].index
  {
    if ring == [] then []
    else if |ring| == 1 then [ring[0].index]
    else Deltas(ring[..|ring| - 1]) + [ring[|ring| - 1].index - ring[|ring| - 2].index]
  }

  datatype Encoded<T> = Encoded(offsets: seq<u64>, signer: byte, ring: seq<Member<T>>)

  /** The place of the first member with an index. */
  ghost predicate FirstAt<T>(ring: seq<Member<T>>, index: u64, at: nat) {
    at < |ring| && ring[at].index == index && forall j | 0 <= j < at :: ring[j].index != index
  }

  lemma FirstHasTheClass<T>(ring: seq<Member<T>>, index: u64, at: nat)
    requires FirstAt(ring, index, at)
    ensures KeyClass(Index(), index, ring) != [] && KeyClass(Index(), index, ring)[0] == ring[at]
  {
    if at > 0 {
      assert forall j | 0 <= j < at - 1 :: ring[1..][j] == ring[j + 1];
      FirstHasTheClass(ring[1..], index, at - 1);
    }
  }

  lemma SortedRing<T>(own: Member<T>, decoys: seq<Member<T>>)
    ensures |Ring(own, decoys)| == |decoys| + 1
    ensures forall i | 0 < i < |Ring(own, decoys)| :: Ring(own, decoys)[i - 1].index <= Ring(own, decoys)[i].index
    ensures own in Ring(own, decoys)
    ensures multiset(Ring(own, decoys)) == multiset([own] + decoys)
    ensures KeyClass(Index(), own.index, Ring(own, decoys)) == [own] + KeyClass(Index(), own.index, decoys)
  {
    var all, ring := [own] + decoys, Ring(own, decoys);
    SortBySorts(Index(), all);
    assert |ring| == |multiset(ring)| == |multiset(all)| == |all|;
    assert all[0] in multiset(all) && own in multiset(ring);
    ClassCons(Index(), own.index, own, decoys);
    forall i | 0 < i < |ring|
      ensures ring[i - 1].index <= ring[i].index
    {
      assert Index()(ring[i - 1]) <= Index()(ring[i]);
    }
  }

  /** The first member with the spent output's index is the spent output, even where a decoy repeats the
      index. */
  lemma FirstIsOwn<T>(own: Member<T>, decoys: seq<Member<T>>, at: nat)
    requires FirstAt(Ring(own, decoys), own.index, at)
    ensures Ring(own, decoys)[at] == own
  {
    SortedRing(own, decoys);
    FirstHasTheClass(Ring(own, decoys), own.index, at);
  }

  lemma FirstBound<T>(ring: seq<Member<T>>, index: u64, at: nat)
    requires FirstAt(ring, index, at)
    ensures at < |ring| && ring[at].index == index && forall j | 0 <= j < at :: ring[j].index != index
  {
  }

  method SignerPlace<T>(ring: seq<Member<T>>, index: u64) returns (at: nat)
    requires exists m | m in ring :: m.index == index
    ensures FirstAt(ring, index, at)
  {
    at := 0;
    while at < |ring| && ring[at].index != index
      invariant at <= |ring|
      invariant forall j | 0 <= j < at :: ring[j].index != index
    {
      at := at + 1;
    }
  }

  /** No difference underflows. */
  method Differences<T>(ring: seq<Member<T>>) returns (offsets: seq<u64>)
    requires ring != [] && forall i | 0 < i < |ring| :: ring[i - 1].index <= ring[i].index
    ensures offsets == Deltas(ring)
  {
    offsets := [ring[0].index];
    for i := 1 to |ring|
      invariant |offsets| == i && offsets[0] == ring[0].index
      invariant forall j | 0 < j < i :: offsets[j] == ring[j].index - ring[j - 1].index
    {
      offsets := offsets + [ring[i].index - ring[i - 1].index];
    }
    var deltas := Deltas(ring);
    forall j | 0 <= j < |ring|
      ensures offsets[j] == deltas[j]
    {
      assert j > 0 ==> offsets[j] == ring[j].index - ring[j - 1].index;
      assert j > 0 ==> deltas[j] == ring[j].index - ring[j - 1].index;
      assert offsets[0] == deltas[0];
    }
  }

  /** Sort, find the signer, take differences. The search never fails. The signer's place is kept in one
      byte, which names the spent output exactly when the place is below 256. */
  method EncodeRing<T>(own: Member<T>, decoys: seq<Member<T>>) returns (r: Encoded<T>, ghost at: nat)
    ensures r.ring == Ring(own, decoys) && r.offsets == Deltas(r.ring)
    ensures FirstAt(r.ring, own.index, at) && r.ring[at] == own && r.signer == at % 0x100
    ensures r.ring[r.signer] == own <==> at < 0x100
  {
    hide SortBy, FirstAt;
    var ring := SortBy(Index(), [own] + decoys);
    SortedRing(own, decoys);
    var place := SignerPlace(ring, own.index);
    at := place;
    FirstIsOwn(own, decoys, at);
    var offsets := Differences(ring);
    var signer: byte := place % 0x100;
    OneByte(at);
    r := Encoded(offsets, signer, ring);
    assert FirstAt(r.ring, own.index, at);
    FirstBound(ring, own.index, at);
  }

  lemma OneByte(at: nat)
    ensures at % 0x100 <= at && (at % 0x100 == at <==> at < 0x100)
  {
  }

  /** The running sum of the first `n` offsets. */
  function Running(offsets: seq<int>, n: nat): int
    requires n <= |offsets|
  {
    if n == 0 then 0 else Running(offsets, n - 1) + offsets[n - 1]
  }

  /** The offsets give the sorted indices back, and none is negative. */
  lemma {:induction false} OffsetsRestoreIndices<T>(own: Member<T>, decoys: seq<Member<T>>, i: nat)
    requires i <= |decoys|
    ensures |Ring(own, decoys)| == |decoys| + 1
    ensures var ring := Ring(own, decoys);
            Running(Deltas(ring), i + 1) == ring[i].index && Deltas(ring)[i] >= 0
  {
    hide Ring;
    SortedRing(own, decoys);
    if i > 0 {
      OffsetsRestoreIndices(own, decoys, i - 1);
    } else {
      assert Running(Deltas(Ring(own, decoys)), 0) == 0;
    }
  }

  /** Every offset after the first moves the running sum on. */
  ghost predicate Representable(offsets: seq<int>) {
    forall i | 0 < i < |offsets| :: offsets[i] > 0
  }

  /** A ring can be represented exactly when no index occurs twice in it. */
  lemma RepresentableExact<T>(own: Member<T>, decoys: seq<Member<T>>)
    ensures Representable(Deltas(Ring(own, decoys))) <==> DistinctKeys(Index(), [own] + decoys)
  {
    var ring := Ring(own, decoys);
    StrictlySortedExact(Index(), [own] + decoys);
    if Representable(Deltas(ring)) {
      forall i, j | 0 <= i < j < |ring|
        ensures Index()(ring[i]) < Index()(ring[j])
      {
        Climbs(ring, i, j);
      }
    }
    if StrictlySorted(Index<T>(), ring) {
      forall i | 0 < i < |ring|
        ensures Deltas(ring)[i] > 0
      {
        assert Index()(ring[i - 1]) < Index()(ring[i]);
      }
    }
  }

  lemma {:induction false} Climbs<T>(ring: seq<Member<T>>, i: nat, j: nat)
    requires Representable(Deltas(ring)) && i < j < |ring|
    ensures ring[i].index < ring[j].index
    decreases j
  {
    assert Deltas(ring)[j] > 0;
    if i < j - 1 {
      Climbs(ring, i, j - 1);
    }
  }

  lemma {:induction false} NotAmongIsEmpty<T>(k: int, s: seq<Member<T>>)
    requires k !in DecoyRings.Indices(Index(), s)
    ensures KeyClass(Index(), k, s) == []
  {
    ClassMember(Index(), s, k);
    forall x | x in s
      ensures Index()(x) != k
    {
      var i :| 0 <= i < |s| && s[i] == x;
      assert Index()(s[i]) in DecoyRings.Indices(Index(), s);
    }
  }

  lemma {:induction false} DistinctRing<T>(s: seq<Member<T>>)
    requires DecoyRings.Distinct(Index(), s)
    ensures DistinctKeys(Index(), s)
  {
    if s != [] {
      DistinctRing(s[1..]);
      assert forall i | 0 <= i < |s[1..]| :: s[1..][i] == s[i + 1];
      assert forall i | 0 < i < |s| :: Index()(s[0]) != Index()(s[i]);
      NotAmongIsEmpty(s[0].index, s[1..]);
    }
  }

  /** Distinct positions have distinct keys exactly when no key class has two members. */
  lemma {:induction false} DistinctKeysExact<T>(s: seq<Member<T>>)
    ensures DecoyRings.Distinct(Index(), s) <==> DistinctKeys(Index(), s)
  {
    if DecoyRings.Distinct(Index(), s) {
      DistinctRing(s);
    }
    if DistinctKeys(Index<T>(), s) && s != [] {
      forall k
        ensures |KeyClass(Index(), k, s[1..])| <= 1
      {
        assert |KeyClass(Index(), k, s)| <= 1;
      }
      DistinctKeysExact(s[1..]);
      ClassMember(Index(), s[1..], s[0].index);
      assert |KeyClass(Index(), s[0].index, s)| <= 1;
      forall i, j | 0 <= i < j < |s|
        ensures Index()(s[i]) != Index()(s[j])
      {
        assert s[j] == s[1..][j - 1] && s[j] in s[1..];
        if i > 0 {
          assert s[i] == s[1..][i - 1];
        }
      }
    }
  }

  /** Every ring built from a pool can be represented together with the output it is for. */
  lemma BuiltRingsAreRepresentable<T>(
    pool: DecoyRings.Pool<Member<T>>, own: seq<Member<T>>, reals: seq<int>, size: nat,
    rings: seq<seq<Member<T>>>, i: nat)
    requires DecoyRings.Build(Index(), pool, reals, size) == Ok(rings)
    requires |own| == |reals| && forall j | 0 <= j < |own| :: own[j].index == reals[j]
    requires i < |own|
    ensures |rings| == |own| && Representable(Deltas(Ring(own[i], rings[i])))
  {
    DecoyRings.RingsAreGood(Index(), pool, reals, size);
    assert DecoyRings.GoodRing(Index(), pool, reals[i], size, rings[i]);
    RepresentableExact(own[i], rings[i]);
    DistinctRing(rings[i]);
    NotAmongIsEmpty(own[i].index, rings[i]);
    forall k
      ensures |KeyClass(Index(), k, [own[i]] + rings[i])| <= 1
    {
      ClassCons(Index(), k, own[i], rings[i]);
      assert |KeyClass(Index(), k, rings[i])| <= 1;
    }
  }

  // ----- the ring library --------------------------------------------------------------------

  /** A ring as the signing library keeps it. */
  datatype Decoys<T> = Decoys(offsets: seq<u64>, signer: byte, ring: seq<T>)

  /** The running sum of the first `n` offsets in a 64-bit word, which wraps. */
  function Wrapped(offsets: seq<u64>, n: nat): u64
    requires n <= |offsets|
  {
    if n == 0 then 0 else (Wrapped(offsets, n - 1) + offsets[n - 1]) % 0x1_0000_0000_0000_0000
  }

  /** The `i`-th offset moves the running sum on. */
  predicate Moves(offsets: seq<u64>, i: nat)
    requires i < |offsets|
  {
    Wrapped(offsets, i) < Wrapped(offsets, i + 1)
  }

  predicate Grows(offsets: seq<u64>) {
    forall i | 0 < i < |offsets| :: Moves(offsets, i)
  }

  /** What `Decoys::new` accepts: at most 255 members, a signer among them, as many offsets, and a running
      sum that every offset after the first moves on. */
  predicate Acceptable(offsets: seq<u64>, signer: byte, length: nat) {
    length <= 0xFF && signer < length && |offsets| == length && Grows(offsets)
  }

  /** `Decoys::new`: the length is compared by its low byte once the rest is known to be zero. */
  method NewDecoys<T>(offsets: seq<u64>, signer: byte, ring: seq<T>) returns (r: Option<Decoys<T>>)
    ensures r == if Acceptable(offsets, signer, |ring|) then Some(Decoys(offsets, signer, ring)) else None
  {
    var withinMax := |ring| / 0x100 == 0 && |ring| % 0x100 <= 0xFF;
    var pointsToMember := signer < |ring| % 0x100;
    var aligned := |offsets| == |ring|;
    var representable := true;
    var sum: u64 := 0;
    for i := 0 to |offsets|
      invariant sum == Wrapped(offsets, i)
      invariant representable <==> forall j | 0 < j < i :: Moves(offsets, j)
    {
      var newSum: u64 := (sum + offsets[i]) % 0x1_0000_0000_0000_0000;
      assert newSum > sum <==> Moves(offsets, i);
      if i != 0 {
        representable := representable && newSum > sum;
      }
      sum := newSum;
    }
    LowByte(|ring|);
    r := if withinMax && pointsToMember && aligned && representable then Some(Decoys(offsets, signer, ring)) else None;
  }

  function Points<T>(ring: seq<Member<T>>): (points: seq<T>)
    ensures |points| == |ring| && forall i | 0 <= i < |ring| :: points[i] == ring[i].points
  {
    if ring == [] then [] else [ring[0].points] + Points(ring[1..])
  }

  /** The ring for an output, if the library takes it: exactly when there are fewer than 255 decoys and no
      index occurs twice. The signer's byte then names the output being spent. */
  method MakeRing<T>(own: Member<T>, decoys: seq<Member<T>>) returns (r: Option<Decoys<T>>)
    ensures r.Some? <==> |decoys| < 0xFF && DistinctKeys(Index(), [own] + decoys)
    ensures r.Some? ==>
      var ring := Ring(own, decoys);
      && r.value.offsets == Deltas(ring) && r.value.ring == Points(ring)
      && Acceptable(r.value.offsets, r.value.signer, |r.value.ring|)
      && r.value.signer < |ring| && ring[r.value.signer] == own
  {
    hide Ring, FirstAt, Grows, DistinctKeys;
    var encoded, at := EncodeRing(own, decoys);
    AcceptedExact(own, decoys, encoded.offsets, at);
    SortedRing(own, decoys);
    FirstBound(encoded.ring, own.index, at);
    r := NewDecoys(encoded.offsets, encoded.signer, Points(encoded.ring));
  }

  lemma LowByte(n: nat)
    ensures n / 0x100 == 0 <==> n <= 0xFF
    ensures n <= 0xFF ==> n % 0x100 == n
  {
  }

  /** A sorted ring's offsets never wrap: the running sums are the indices. */
  lemma {:induction false} NothingWraps<T>(ring: seq<Member<T>>, offsets: seq<u64>, i: nat)
    requires offsets == Deltas(ring) && i < |ring|
    ensures Wrapped(offsets, i + 1) == ring[i].index
  {
    if i > 0 {
      NothingWraps(ring, offsets, i - 1);
      assert offsets[i] == ring[i].index - ring[i - 1].index;
    } else {
      assert Wrapped(offsets, 0) == 0;
    }
  }

  lemma GrowsExact<T>(ring: seq<Member<T>>, offsets: seq<u64>)
    requires offsets == Deltas(ring)
    ensures Grows(offsets) <==> Representable(offsets)
  {
    forall i | 0 < i < |offsets|
      ensures Moves(offsets, i) <==> offsets[i] > 0
    {
      NothingWraps(ring, offsets, i);
      NothingWraps(ring, offsets, i - 1);
    }
  }

  /** The library accepts the ring made for an output exactly when it has fewer than 255 decoys and no index
      occurs twice; the byte then names the spent output. */
  lemma AcceptedExact<T>(own: Member<T>, decoys: seq<Member<T>>, offsets: seq<u64>, at: nat)
    requires offsets == Deltas(Ring(own, decoys)) && FirstAt(Ring(own, decoys), own.index, at)
    ensures Acceptable(offsets, at % 0x100, |Ring(own, decoys)|)
       <==> |decoys| < 0xFF && DistinctKeys(Index(), [own] + decoys)
  {
    hide Ring, Grows, Representable, DistinctKeys;
    SortedRing(own, decoys);
    GrowsExact(Ring(own, decoys), offsets);
    RepresentableExact(own, decoys);
    OneByte(at);
  }

  /** Every ring built from a pool is accepted, unless it is larger than any the library takes. */
  lemma BuiltRingsAreAccepted<T>(
    pool: DecoyRings.Pool<Member<T>>, own: seq<Member<T>>, reals: seq<int>, size: nat, rings: seq<seq<Member<T>>>,
    i: nat, offsets: seq<u64>, at: nat)
    requires DecoyRings.Build(Index(), pool, reals, size) == Ok(rings)
    requires |own| == |reals| && forall j | 0 <= j < |own| :: own[j].index == reals[j]
    requires i < |own| && i < |rings|
    requires offsets == Deltas(Ring(own[i], rings[i])) && FirstAt(Ring(own[i], rings[i]), own[i].index, at)
    ensures Acceptable(offsets, at % 0x100, |Ring(own[i], rings[i])|) <==> size < 0xFF
  {
    hide Ring, Acceptable;
    BuiltRingsAreRepresentable(pool, own, reals, size, rings, i);
    RepresentableExact(own[i], rings[i]);
    AcceptedExact(own[i], rings[i], offsets, at);
    DecoyRings.RingsAreGood(Index(), pool, reals, size);
    assert DecoyRings.GoodRing(Index(), pool, reals[i], size, rings[i]);
  }
}
