/** Splitting a pool of random outputs into one decoy ring per input (packages/core/src/decoy-ring.ts). A
    pool row is any value with a global index; a hole in the pool is `None`. */
module DecoyRings {
  import opened Outcomes

  type Pool<T> = seq<Option<T>>

  const TOO_MANY_DUPLICATES := "Could not assemble a full ring"

  /** A ring being filled: its members, every index given to some ring so far, and the next row to look at. */
  datatype Filling<T> = Filling(ring: seq<T>, consumed: set<int>, cursor: nat)

  function Indices<T>(key: T -> int, rows: seq<T>): set<int> {
    set i | 0 <= i < |rows| :: key(rows[i])
  }

  /** The distinct indices the pool offers. */
  function Offered<T>(key: T -> int, pool: Pool<T>): set<int> {
    set i | 0 <= i < |pool| && pool[i].Some? :: key(pool[i].value)
  }

  /** Take rows in pool order, passing over the spent output and whatever some ring already has. */
  function Fill<T>(key: T -> int, pool: Pool<T>, size: nat, own: int, f: Filling<T>): (r: Filling<T>)
    requires f.cursor <= |pool|
    ensures f.cursor <= r.cursor <= |pool|
    decreases |pool| - f.cursor
  {
    if |f.ring| >= size || f.cursor == |pool| then f else
    match pool[f.cursor]
    case None => Fill(key, pool, size, own, f.(cursor := f.cursor + 1))
    case Some(row) =>
      if key(row) == own || key(row) in f.consumed
      then Fill(key, pool, size, own, f.(cursor := f.cursor + 1))
      else Fill(key, pool, size, own, Filling(f.ring + [row], f.consumed + {key(row)}, f.cursor + 1))
  }

  /** The rings of the remaining inputs, given what earlier rings consumed. */
  function BuildFrom<T>(key: T -> int, pool: Pool<T>, reals: seq<int>, size: nat, consumed: set<int>, cursor: nat)
    : Outcome<seq<seq<T>>>
    requires cursor <= |pool|
    decreases |reals|
  {
    if reals == [] then Ok([]) else
    var f := Fill(key, pool, size, reals[0], Filling([], consumed, cursor));
    if |f.ring| < size then Err(TOO_MANY_DUPLICATES) else
    var rest :- BuildFrom(key, pool, reals[1..], size, f.consumed, f.cursor);
    Ok([f.ring] + rest)
  }

  function Build<T>(key: T -> int, pool: Pool<T>, reals: seq<int>, size: nat): Outcome<seq<seq<T>>> {
    BuildFrom(key, pool, reals, size, {}, 0)
  }

  /** `buildDecoyRings`. */
  method BuildDecoyRings<T>(key: T -> int, pool: Pool<T>, reals: seq<int>, size: nat) returns (r: Outcome<seq<seq<T>>>)
    ensures r == Build(key, pool, reals, size)
  {
    var rings: seq<seq<T>> := [];
    PrependNone(Build(key, pool, reals, size));
    assert reals[0..] == reals;
    var consumed: set<int> := {};
    var cursor: nat := 0;
    for i := 0 to |reals|
      invariant cursor <= |pool|
      invariant Build(key, pool, reals, size)
            == Prepend(rings, BuildFrom(key, pool, reals[i..], size, consumed, cursor))
    {
      var own := reals[i];
      var ring: seq<T> := [];
      var used: set<int> := {own};
      ghost var start := Filling([], consumed, cursor);
      while |ring| < size && cursor < |pool|
        invariant cursor <= |pool|
        invariant used == {own} + Indices(key, ring) && Indices(key, ring) <= consumed
        invariant Fill(key, pool, size, own, Filling(ring, consumed, cursor)) == Fill(key, pool, size, own, start)
        decreases |pool| - cursor
      {
        var candidate := pool[cursor];
        cursor := cursor + 1;
        if candidate.None? {
          continue;
        }
        var index := key(candidate.value);
        if index in used || index in consumed {
          continue;
        }
        used := used + {index};
        consumed := consumed + {index};
        IndicesSnoc(key, ring, candidate.value);
        ring := ring + [candidate.value];
      }
      assert reals[i..][0] == own && reals[i..][1..] == reals[i + 1..];
      if |ring| < size {
        return Err(TOO_MANY_DUPLICATES);
      }
      PrependSnoc(rings, ring, BuildFrom(key, pool, reals[i + 1..], size, consumed, cursor));
      rings := rings + [ring];
    }
    assert reals[|reals|..] == [];
    assert rings + [] == rings;
    return Ok(rings);
  }

  ghost function Prepend<T>(rings: seq<seq<T>>, rest: Outcome<seq<seq<T>>>): Outcome<seq<seq<T>>> {
    match rest
    case Ok(more) => Ok(rings + more)
    case _ => rest
  }

  lemma PrependNone<T>(rest: Outcome<seq<seq<T>>>)
    ensures Prepend([], rest) == rest
  {
    if rest.Ok? {
      assert [] + rest.value == rest.value;
    }
  }

  lemma PrependSnoc<T>(rings: seq<seq<T>>, ring: seq<T>, rest: Outcome<seq<seq<T>>>)
    ensures Prepend(rings + [ring], rest) == Prepend(rings, Prepend([ring], rest))
  {
    if rest.Ok? {
      assert (rings + [ring]) + rest.value == rings + ([ring] + rest.value);
    }
  }

  lemma IndicesSnoc<T>(key: T -> int, ring: seq<T>, row: T)
    ensures Indices(key, ring + [row]) == Indices(key, ring) + {key(row)}
  {
    var all := ring + [row];
    assert all[|ring|] == row;
    assert forall i | 0 <= i < |ring| :: all[i] == ring[i];
  }

  // ----- which rows are taken ----------------------------------------------------------------

  /** The members of a ring are the rows at these positions, in their order. */
  ghost predicate Placed<T>(pool: Pool<T>, ring: seq<T>, at: seq<nat>, from: nat, to: nat) {
    && |at| == |ring| && to <= |pool|
    && (forall i | 0 <= i < |at| :: from <= at[i] < to && pool[at[i]] == Some(ring[i]))
    && (forall i, j | 0 <= i < j < |at| :: at[i] < at[j])
  }

  /** A row between two positions that is not taken is a hole, the spent output, consumed before, or the repeat of a
      row taken ahead of it. */
  ghost predicate PassedOver<T>(
    key: T -> int, pool: Pool<T>, own: int, consumed: set<int>, at: seq<nat>, from: nat, to: nat)
  {
    to <= |pool| && forall k | from <= k < to && k !in at && pool[k].Some? ::
      var index := key(pool[k].value);
      index == own || index in consumed
        || exists j :: 0 <= j < k && j in at && pool[j].Some? && key(pool[j].value) == index
  }

  /** Filling goes from `f` to `r` by taking the rows at these positions, and looks at nothing beyond the last one it
      needs. */
  ghost predicate Takes<T>(key: T -> int, pool: Pool<T>, own: int, f: Filling<T>, at: seq<nat>, r: Filling<T>) {
    && |f.ring| <= |r.ring| && r.ring[..|f.ring|] == f.ring
    && Placed(pool, r.ring[|f.ring|..], at, f.cursor, r.cursor)
    && PassedOver(key, pool, own, f.consumed, at, f.cursor, r.cursor)
    && (r.cursor < |pool| ==> r.cursor == if at == [] then f.cursor else at[|at| - 1] + 1)
  }

  /** A ring is filled with the first rows that may be taken, in pool order. */
  lemma {:induction false} FillTakesFirst<T>(key: T -> int, pool: Pool<T>, size: nat, own: int, f: Filling<T>)
    returns (at: seq<nat>)
    requires f.cursor <= |pool|
    ensures Takes(key, pool, own, f, at, Fill(key, pool, size, own, f))
    ensures at != [] || |f.ring| >= size || Fill(key, pool, size, own, f).cursor == |pool|
    decreases |pool| - f.cursor
  {
    hide Takes;
    at := [];
    var c := f.cursor;
    if |f.ring| >= size || c == |pool| {
      NothingTaken(key, pool, own, f);
    } else if pool[c].Some? && key(pool[c].value) != own && key(pool[c].value) !in f.consumed {
      var row := pool[c].value;
      var next := Filling(f.ring + [row], f.consumed + {key(row)}, c + 1);
      var rest := FillTakesFirst(key, pool, size, own, next);
      at := [c] + rest;
      RowTaken(key, pool, own, f, rest, Fill(key, pool, size, own, next));
    } else {
      at := FillTakesFirst(key, pool, size, own, f.(cursor := c + 1));
      var r := Fill(key, pool, size, own, f);
      RowSkipped(key, pool, own, f, at, r);
    }
  }

  lemma NothingTaken<T>(key: T -> int, pool: Pool<T>, own: int, f: Filling<T>)
    requires f.cursor <= |pool|
    ensures Takes(key, pool, own, f, [], f)
  {
  }

  lemma RowSkipped<T>(
    key: T -> int, pool: Pool<T>, own: int, f: Filling<T>, at: seq<nat>, r: Filling<T>)
    requires f.cursor < |pool| && Takes(key, pool, own, f.(cursor := f.cursor + 1), at, r)
    requires pool[f.cursor].Some? ==> key(pool[f.cursor].value) == own || key(pool[f.cursor].value) in f.consumed
    requires at != [] || r.cursor == |pool|
    ensures Takes(key, pool, own, f, at, r)
  {
    hide PassedOver;
    SkipPassed(key, pool, own, f.consumed, f.cursor, at, r.cursor);
  }

  lemma SkipPassed<T>(
    key: T -> int, pool: Pool<T>, own: int, consumed: set<int>, c: nat, at: seq<nat>, to: nat)
    requires c < |pool| && PassedOver(key, pool, own, consumed, at, c + 1, to)
    requires pool[c].Some? ==> key(pool[c].value) == own || key(pool[c].value) in consumed
    ensures PassedOver(key, pool, own, consumed, at, c, to)
  {
  }

  lemma RowTaken<T>(key: T -> int, pool: Pool<T>, own: int, f: Filling<T>, rest: seq<nat>, r: Filling<T>)
    requires f.cursor < |pool| && pool[f.cursor].Some?
    requires var row := pool[f.cursor].value;
      Takes(key, pool, own, Filling(f.ring + [row], f.consumed + {key(row)}, f.cursor + 1), rest, r)
    requires f.cursor < r.cursor
    ensures Takes(key, pool, own, f, [f.cursor] + rest, r)
  {
    hide PassedOver, Placed;
    var row := pool[f.cursor].value;
    var n := |f.ring|;
    assert r.ring[..n] == r.ring[..n + 1][..n] == f.ring;
    assert r.ring[n..][1..] == r.ring[n + 1..] && r.ring[n..][0] == r.ring[..n + 1][n] == row;
    OneMorePlaced(pool, r.ring[n..], f.cursor, rest, r.cursor, r.ring[n + 1..], row);
    OneMorePassed(key, pool, own, f.consumed, f.cursor, rest, r.cursor);
  }

  lemma OneMorePlaced<T>(pool: Pool<T>, ring: seq<T>, c: nat, rest: seq<nat>, to: nat, tail: seq<T>, row: T)
    requires c < |pool| && pool[c] == Some(row) && Placed(pool, tail, rest, c + 1, to) && c < to
    requires |ring| == |tail| + 1 && ring[0] == row && ring[1..] == tail
    ensures Placed(pool, ring, [c] + rest, c, to)
  {
    var at := [c] + rest;
    forall i | 0 <= i < |at|
      ensures c <= at[i] < to && pool[at[i]] == Some(ring[i])
    {
      if i > 0 {
        assert at[i] == rest[i - 1] && ring[i] == tail[i - 1];
      }
    }
    forall i, j | 0 <= i < j < |at|
      ensures at[i] < at[j]
    {
      assert at[j] == rest[j - 1];
      if i > 0 {
        assert at[i] == rest[i - 1];
      }
    }
  }

  lemma OneMorePassed<T>(
    key: T -> int, pool: Pool<T>, own: int, consumed: set<int>, c: nat, rest: seq<nat>, to: nat)
    requires c < |pool| && pool[c].Some? && c < to
    requires PassedOver(key, pool, own, consumed + {key(pool[c].value)}, rest, c + 1, to)
    ensures PassedOver(key, pool, own, consumed, [c] + rest, c, to)
  {
    var at := [c] + rest;
    assert c in at && forall j | j in rest :: j in at;
    forall k | c <= k < to && k !in at && pool[k].Some?
      ensures var index := key(pool[k].value);
        index == own || index in consumed
          || exists j :: 0 <= j < k && j in at && pool[j].Some? && key(pool[j].value) == index
    {
      assert k !in rest;
      var index := key(pool[k].value);
      if index == key(pool[c].value) {
        assert 0 <= c < k && c in at && key(pool[c].value) == index;
      }
    }
  }

  // ----- what a ring is ----------------------------------------------------------------------

  ghost predicate Distinct<T>(key: T -> int, ring: seq<T>) {
    forall i, j | 0 <= i < j < |ring| :: key(ring[i]) != key(ring[j])
  }

  /** Every member is a row of the pool. */
  ghost predicate FromPool<T>(pool: Pool<T>, ring: seq<T>) {
    forall i | 0 <= i < |ring| :: Some(ring[i]) in pool
  }

  /** A filling's books: the ring's indices are distinct, consumed, new since `before`, and not the spent
      output's; everything seen so far is consumed or spent. */
  ghost predicate Books<T>(key: T -> int, pool: Pool<T>, own: int, spent: set<int>, before: set<int>, f: Filling<T>) {
    && f.cursor <= |pool| && own in spent
    && Distinct(key, f.ring) && FromPool(pool, f.ring)
    && Indices(key, f.ring) !! before && own !in Indices(key, f.ring)
    && f.consumed == before + Indices(key, f.ring)
    && |f.consumed| == |before| + |f.ring|
    && Offered(key, pool[..f.cursor]) <= f.consumed + spent
    && f.consumed <= Offered(key, pool)
  }

  lemma OfferedSnoc<T>(key: T -> int, pool: Pool<T>, cursor: nat)
    requires cursor < |pool|
    ensures Offered(key, pool[..cursor + 1])
         == Offered(key, pool[..cursor]) + (if pool[cursor].Some? then {key(pool[cursor].value)} else {})
    ensures pool[cursor].Some? ==> key(pool[cursor].value) in Offered(key, pool)
  {
    var longer, shorter := pool[..cursor + 1], pool[..cursor];
    assert longer[cursor] == pool[cursor];
    assert forall i | 0 <= i < cursor :: longer[i] == shorter[i];
  }

  lemma {:induction false} FillKeepsBooks<T>(
    key: T -> int, pool: Pool<T>, size: nat, own: int, spent: set<int>, before: set<int>, f: Filling<T>)
    requires Books(key, pool, own, spent, before, f) && |f.ring| <= size
    ensures var r := Fill(key, pool, size, own, f);
      && Books(key, pool, own, spent, before, r) && |r.ring| <= size
      && (|r.ring| < size ==> r.cursor == |pool|)
    decreases |pool| - f.cursor
  {
    hide Books;
    CursorWithin(key, pool, own, spent, before, f);
    if |f.ring| < size && f.cursor < |pool| {
      if pool[f.cursor].Some? && key(pool[f.cursor].value) != own && key(pool[f.cursor].value) !in f.consumed {
        TakeRow(key, pool, own, spent, before, f);
        var row := pool[f.cursor].value;
        FillKeepsBooks(key, pool, size, own, spent, before,
                       Filling(f.ring + [row], f.consumed + {key(row)}, f.cursor + 1));
      } else {
        SkipRow(key, pool, own, spent, before, f);
        FillKeepsBooks(key, pool, size, own, spent, before, f.(cursor := f.cursor + 1));
      }
    }
  }

  lemma CursorWithin<T>(key: T -> int, pool: Pool<T>, own: int, spent: set<int>, before: set<int>, f: Filling<T>)
    requires Books(key, pool, own, spent, before, f)
    ensures f.cursor <= |pool|
  {
  }

  lemma TakeRow<T>(key: T -> int, pool: Pool<T>, own: int, spent: set<int>, before: set<int>, f: Filling<T>)
    requires Books(key, pool, own, spent, before, f) && f.cursor < |pool| && pool[f.cursor].Some?
    requires key(pool[f.cursor].value) != own && key(pool[f.cursor].value) !in f.consumed
    ensures var row := pool[f.cursor].value;
      Books(key, pool, own, spent, before, Filling(f.ring + [row], f.consumed + {key(row)}, f.cursor + 1))
  {
    hide Indices, Offered;
    var row := pool[f.cursor].value;
    OfferedSnoc(key, pool, f.cursor);
    IndicesSnoc(key, f.ring, row);
    NewRow(key, pool, f.ring, row);
  }

  lemma SkipRow<T>(key: T -> int, pool: Pool<T>, own: int, spent: set<int>, before: set<int>, f: Filling<T>)
    requires Books(key, pool, own, spent, before, f) && f.cursor < |pool|
    requires pool[f.cursor].Some? ==> key(pool[f.cursor].value) == own || key(pool[f.cursor].value) in f.consumed
    ensures Books(key, pool, own, spent, before, f.(cursor := f.cursor + 1))
  {
    hide Indices;
    OfferedSnoc(key, pool, f.cursor);
  }

  lemma NewRow<T>(key: T -> int, pool: Pool<T>, ring: seq<T>, row: T)
    requires Distinct(key, ring) && FromPool(pool, ring) && Some(row) in pool && key(row) !in Indices(key, ring)
    ensures Distinct(key, ring + [row]) && FromPool(pool, ring + [row])
  {
    forall i | 0 <= i < |ring|
      ensures key(ring[i]) != key(row)
    {
      assert key(ring[i]) in Indices(key, ring);
    }
  }

  // ----- the rings ---------------------------------------------------------------------------

  /** Full size, no repeats, from the pool, without its own spent output. */
  ghost predicate GoodRing<T>(key: T -> int, pool: Pool<T>, own: int, size: nat, ring: seq<T>) {
    |ring| == size && Distinct(key, ring) && FromPool(pool, ring) && own !in Indices(key, ring)
  }

  ghost predicate GoodRings<T>(key: T -> int, pool: Pool<T>, reals: seq<int>, size: nat, rings: seq<seq<T>>) {
    && |rings| == |reals|
    && (forall i | 0 <= i < |rings| :: GoodRing(key, pool, reals[i], size, rings[i]))
    && (forall i, j | 0 <= i < j < |rings| :: Indices(key, rings[i]) !! Indices(key, rings[j]))
  }

  /** What earlier rings leave for the rest. */
  ghost predicate Ledger<T>(key: T -> int, pool: Pool<T>, spent: set<int>, consumed: set<int>, cursor: nat) {
    && cursor <= |pool|
    && Offered(key, pool[..cursor]) <= consumed + spent && consumed <= Offered(key, pool)
  }

  ghost function Spent(reals: seq<int>): set<int> {
    set i | 0 <= i < |reals| :: reals[i]
  }

  /** Building never makes a bad ring, and runs short only when what the pool offers beyond the spent
      outputs is used up. */
  lemma {:induction false} BuildFromFacts<T>(
    key: T -> int, pool: Pool<T>, reals: seq<int>, size: nat, spent: set<int>, consumed: set<int>, cursor: nat)
    requires Ledger(key, pool, spent, consumed, cursor) && Spent(reals) <= spent
    ensures var r := BuildFrom(key, pool, reals, size, consumed, cursor);
      match r
      case Ok(rings) =>
        && GoodRings(key, pool, reals, size, rings)
        && (forall i | 0 <= i < |rings| :: Indices(key, rings[i]) !! consumed)
        && |Offered(key, pool)| >= |consumed| + |reals| * size
      case _ => |Offered(key, pool) - spent| < |consumed| + |reals| * size
    decreases |reals|
  {
    hide Books, Indices, Offered, Distinct, FromPool, Spent, Fill;
    if reals == [] {
      LedgerSize(key, pool, spent, consumed, cursor);
      assert 0 * size == 0;
    } else {
      RestOfRings(|reals|, size);
      SpentSplit(reals);
      var f := Fill(key, pool, size, reals[0], Filling([], consumed, cursor));
      OneRing(key, pool, reals[0], size, spent, consumed, cursor);
      if |f.ring| == size {
        BuildFromFacts(key, pool, reals[1..], size, spent, f.consumed, f.cursor);
        if BuildFrom(key, pool, reals, size, consumed, cursor).Ok? {
          var rest := BuildFrom(key, pool, reals[1..], size, f.consumed, f.cursor).value;
          MoreRings(key, pool, reals, size, f.ring, rest, f.consumed);
        }
      }
    }
  }

  lemma LedgerSize<T>(key: T -> int, pool: Pool<T>, spent: set<int>, consumed: set<int>, cursor: nat)
    requires Ledger(key, pool, spent, consumed, cursor)
    ensures |Offered(key, pool)| >= |consumed|
  {
    SubsetSize(consumed, Offered(key, pool));
  }

  lemma SpentSplit(reals: seq<int>)
    requires reals != []
    ensures reals[0] in Spent(reals) && Spent(reals[1..]) <= Spent(reals)
  {
    assert forall i | 0 <= i < |reals[1..]| :: reals[1..][i] == reals[i + 1];
  }

  /** One ring: good when full; when short, nothing the pool offers is left but spent outputs. */
  lemma OneRing<T>(
    key: T -> int, pool: Pool<T>, own: int, size: nat, spent: set<int>, consumed: set<int>, cursor: nat)
    requires Ledger(key, pool, spent, consumed, cursor) && own in spent
    ensures var f := Fill(key, pool, size, own, Filling([], consumed, cursor));
      && Ledger(key, pool, spent, f.consumed, f.cursor)
      && f.consumed == consumed + Indices(key, f.ring) && Indices(key, f.ring) !! consumed
      && |f.consumed| == |consumed| + |f.ring| && |f.ring| <= size
      && (|f.ring| == size ==> GoodRing(key, pool, own, size, f.ring))
      && (|f.ring| < size ==> |Offered(key, pool) - spent| < |consumed| + size)
  {
    hide Offered, Fill;
    var start: Filling<T> := Filling([], consumed, cursor);
    assert Indices(key, start.ring) == {};
    FillKeepsBooks(key, pool, size, own, spent, consumed, start);
    var f := Fill(key, pool, size, own, start);
    if |f.ring| < size {
      assert pool[..f.cursor] == pool;
      SubsetSize(Offered(key, pool) - spent, f.consumed);
    }
  }

  lemma MoreRings<T>(
    key: T -> int, pool: Pool<T>, reals: seq<int>, size: nat, ring: seq<T>, rest: seq<seq<T>>, consumed: set<int>)
    requires reals != [] && GoodRing(key, pool, reals[0], size, ring)
    requires GoodRings(key, pool, reals[1..], size, rest)
    requires Indices(key, ring) <= consumed && forall i | 0 <= i < |rest| :: Indices(key, rest[i]) !! consumed
    ensures GoodRings(key, pool, reals, size, [ring] + rest)
  {
    hide GoodRing, Indices;
    var rings := [ring] + rest;
    forall i | 0 <= i < |rings|
      ensures GoodRing(key, pool, reals[i], size, rings[i])
    {
      if i > 0 {
        assert rings[i] == rest[i - 1] && reals[i] == reals[1..][i - 1];
      }
    }
    forall i, j | 0 <= i < j < |rings|
      ensures Indices(key, rings[i]) !! Indices(key, rings[j])
    {
      assert rings[j] == rest[j - 1];
      if i > 0 {
        assert rings[i] == rest[i - 1];
      }
    }
  }

  lemma RestOfRings(n: nat, size: nat)
    requires n > 0
    ensures n * size == size + (n - 1) * size && (n - 1) * size >= 0
  {
  }

  lemma {:induction false} SubsetSize(a: set<int>, b: set<int>)
    requires a <= b
    ensures |a| <= |b|
  {
    assert b == a + (b - a) && a !! (b - a);
  }

  /** On success every input has a full ring of distinct pool rows without its own spent output, and no
      index is in two rings. */
  lemma RingsAreGood<T>(key: T -> int, pool: Pool<T>, reals: seq<int>, size: nat)
    requires Build(key, pool, reals, size).Ok?
    ensures GoodRings(key, pool, reals, size, Build(key, pool, reals, size).value)
  {
    assert Offered(key, pool[..0]) == {};
    BuildFromFacts(key, pool, reals, size, Spent(reals), {}, 0);
  }

  /** Enough distinct indices outside the spent outputs always suffice; fewer distinct indices than the
      rings have members never do. */
  lemma SuccessBounds<T>(key: T -> int, pool: Pool<T>, reals: seq<int>, size: nat)
    ensures |Offered(key, pool) - Spent(reals)| >= |reals| * size ==> Build(key, pool, reals, size).Ok?
    ensures Build(key, pool, reals, size).Ok? ==> |Offered(key, pool)| >= |reals| * size
  {
    assert Offered(key, pool[..0]) == {};
    BuildFromFacts(key, pool, reals, size, Spent(reals), {}, 0);
  }

  /** With no spent output in the pool the condition is exact. */
  lemma SuccessExact<T>(key: T -> int, pool: Pool<T>, reals: seq<int>, size: nat)
    requires Offered(key, pool) !! Spent(reals)
    ensures Build(key, pool, reals, size).Ok? <==> |Offered(key, pool)| >= |reals| * size
  {
    SuccessBounds(key, pool, reals, size);
    assert Offered(key, pool) - Spent(reals) == Offered(key, pool);
  }

  lemma NextRing<T>(
    key: T -> int, pool: Pool<T>, reals: seq<int>, size: nat, consumed: set<int>, cursor: nat, f: Filling<T>,
    rest: seq<seq<T>>)
    requires cursor <= |pool| && f.cursor <= |pool| && reals != []
    requires Fill(key, pool, size, reals[0], Filling([], consumed, cursor)) == f && |f.ring| == size
    requires BuildFrom(key, pool, reals[1..], size, f.consumed, f.cursor) == Ok(rest)
    ensures BuildFrom(key, pool, reals, size, consumed, cursor) == Ok([f.ring] + rest)
  {
  }

  function Self(index: int): int {
    index
  }

  /** Between the two bounds the order of the pool decides. The first pool has as many indices as the ring
      needs and fails; in the second a spent output serves as another input's decoy; in the third the same
      rows the other way round do not. */
  lemma BoundsAreNotExact()
    ensures Build(Self, [Some(1)], [1], 1).Err?
    ensures Build(Self, [Some(2), Some(1)], [1, 2], 1) == Ok([[2], [1]])
    ensures Build(Self, [Some(1), Some(2)], [1, 2], 1).Err?
  {
    var first: Pool<int> := [Some(1)];
    assert Fill(Self, first, 1, 1, Filling([], {}, 0)) == Filling([], {}, 1);
    assert [1, 2][1..] == [2] && [2][1..] == [];
    var swapped: Pool<int> := [Some(2), Some(1)];
    assert Fill(Self, swapped, 1, 1, Filling([], {}, 0)) == Filling([2], {2}, 1);
    var second := Fill(Self, swapped, 1, 2, Filling([], {2}, 1));
    assert second == Filling([1], {2, 1}, 2);
    assert BuildFrom(Self, swapped, [], 1, {2, 1}, 2) == Ok([]);
    NextRing(Self, swapped, [2], 1, {2}, 1, second, []);
    assert [second.ring] + [] == [[1]] && [[2]] + [[1]] == [[2], [1]];
    NextRing(Self, swapped, [1, 2], 1, {}, 0, Filling([2], {2}, 1), [[1]]);
    var straight: Pool<int> := [Some(1), Some(2)];
    assert Fill(Self, straight, 1, 1, Filling([], {}, 0)) == Filling([2], {2}, 2);
    assert Fill(Self, straight, 1, 2, Filling([], {2}, 2)) == Filling([], {2}, 2);
    assert BuildFrom(Self, straight, [2], 1, {2}, 2).Err?;
  }
}
