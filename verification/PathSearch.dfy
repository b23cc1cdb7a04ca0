/** Finding the derivation that opens an output's commitment (crates/grin-ext/src/wallet_flows.rs). */
module PathSearch {
  import opened Outcomes
  import opened ByteStrings
  import opened Curves
  import opened Keychains

  datatype UnspentOutput = UnspentOutput(path: Path4, amount: u64, commitment: Bytes33, isCoinbase: bool)

  datatype Candidate = Candidate(tag: string, ext: Bytes64, switch: Switch, path: seq<u32>)

  /** One switch type's candidates: the new key before the legacy one, the full path before its first
      three steps, which are tried only when the fourth is padding. */
  function CandidatesFor(v3: Bytes64, legacy: Option<Bytes64>, path: Path4, switch: Switch): seq<Candidate> {
    [Candidate(Tag(false, switch, true), v3, switch, path)]
      + (if legacy.Some? then [Candidate(Tag(true, switch, true), legacy.value, switch, path)] else [])
      + (if path[3] != 0 then [] else
           [Candidate(Tag(false, switch, false), v3, switch, path[..3])]
             + (if legacy.Some? then [Candidate(Tag(true, switch, false), legacy.value, switch, path[..3])] else []))
  }

  /** What a candidate is called in diagnostics: key, switch and depth. */
  function Tag(legacy: bool, switch: Switch, deep: bool): string {
    match switch
    case Regular =>
      if legacy then (if deep then "legacy+Regular+d4" else "legacy+Regular+d3")
      else (if deep then "v3+Regular+d4" else "v3+Regular+d3")
    case NoSwitch =>
      if legacy then (if deep then "legacy+None+d4" else "legacy+None+d3")
      else (if deep then "v3+None+d4" else "v3+None+d3")
  }

  function Candidates(v3: Bytes64, legacy: Option<Bytes64>, path: Path4): seq<Candidate> {
    CandidatesFor(v3, legacy, path, Regular) + CandidatesFor(v3, legacy, path, NoSwitch)
  }

  /** The blind a candidate derives, when it reproduces the output's commitment. */
  function Tried(lib: Library, candidate: Candidate, input: UnspentOutput): Option<Bytes32>
    requires lib.curve.order > 0
  {
    match DeriveBlind(lib, candidate.ext, candidate.path, input.amount, candidate.switch)
    case Ok(blind) =>
      if PedersenCommit(lib.curve, input.amount, blind) == Ok(input.commitment) then Some(blind) else None
    case _ => None
  }

  ghost predicate Opens(lib: Library, input: UnspentOutput, blind: Bytes32)
    requires lib.curve.order > 0
  {
    PedersenCommit(lib.curve, input.amount, blind) == Ok(input.commitment)
  }

  const MISMATCH := "input commitment mismatch"

  /** `derive_input_blind_with_fallback`: it succeeds exactly when some candidate reproduces the commitment,
      with the first that does, whose blind opens it. A derivation that fails is passed over. */
  method DeriveInputBlind(lib: Library, v3: Bytes64, legacy: Option<Bytes64>, input: UnspentOutput)
    returns (r: Outcome<(Bytes32, string)>)
    requires lib.curve.order > 0
    ensures r == Fallback(lib, v3, legacy, input)
    ensures var all := Candidates(v3, legacy, input.path);
      && (r.Ok? <==> exists k | 0 <= k < |all| :: Tried(lib, all[k], input).Some?)
      && (r.Ok? ==> Opens(lib, input, r.value.0) && exists k | 0 <= k < |all| ::
            && Tried(lib, all[k], input) == Some(r.value.0) && all[k].tag == r.value.1
            && forall j | 0 <= j < k :: Tried(lib, all[j], input).None?)
  {
    var candidates := ListCandidates(v3, legacy, input.path);
    for i := 0 to |candidates|
      invariant forall k | 0 <= k < i :: Tried(lib, candidates[k], input).None?
      invariant FirstOpening(lib, candidates, input) == FirstOpening(lib, candidates[i..], input)
    {
      var candidate := candidates[i];
      assert candidates[i..][0] == candidate && candidates[i..][1..] == candidates[i + 1..];
      var derived := DeriveBlind(lib, candidate.ext, candidate.path, input.amount, candidate.switch);
      if !derived.Ok? {
        continue;
      }
      var commit := PedersenCommit(lib.curve, input.amount, derived.value);
      if !commit.Ok? {
        continue;
      }
      if commit.value == input.commitment {
        return Ok((derived.value, candidate.tag));
      }
    }
    return Err(MISMATCH);
  }

  /** The candidate list, pushed in the order it is tried. */
  method ListCandidates(v3: Bytes64, legacy: Option<Bytes64>, path: Path4) returns (candidates: seq<Candidate>)
    ensures candidates == Candidates(v3, legacy, path)
  {
    var allowDepth3 := path[3] == 0;
    candidates := [];
    candidates := candidates + [Candidate("v3+Regular+d4", v3, Regular, path)];
    if legacy.Some? {
      candidates := candidates + [Candidate("legacy+Regular+d4", legacy.value, Regular, path)];
    }
    if allowDepth3 {
      candidates := candidates + [Candidate("v3+Regular+d3", v3, Regular, path[..3])];
      if legacy.Some? {
        candidates := candidates + [Candidate("legacy+Regular+d3", legacy.value, Regular, path[..3])];
      }
    }
    assert candidates == CandidatesFor(v3, legacy, path, Regular);
    candidates := candidates + [Candidate("v3+None+d4", v3, NoSwitch, path)];
    if legacy.Some? {
      candidates := candidates + [Candidate("legacy+None+d4", legacy.value, NoSwitch, path)];
    }
    if allowDepth3 {
      candidates := candidates + [Candidate("v3+None+d3", v3, NoSwitch, path[..3])];
      if legacy.Some? {
        candidates := candidates + [Candidate("legacy+None+d3", legacy.value, NoSwitch, path[..3])];
      }
    }
  }

  function FirstOpening(lib: Library, candidates: seq<Candidate>, input: UnspentOutput): Outcome<(Bytes32, string)>
    requires lib.curve.order > 0
  {
    if candidates == [] then Err(MISMATCH)
    else match Tried(lib, candidates[0], input)
    case Some(blind) => Ok((blind, candidates[0].tag))
    case None => FirstOpening(lib, candidates[1..], input)
  }

  function Fallback(lib: Library, v3: Bytes64, legacy: Option<Bytes64>, input: UnspentOutput)
    : Outcome<(Bytes32, string)>
    requires lib.curve.order > 0
  {
    FirstOpening(lib, Candidates(v3, legacy, input.path), input)
  }

  /** The same search as a function: which outcome it has, for any candidates. */
  lemma {:induction false} FirstOpeningExact(lib: Library, candidates: seq<Candidate>, input: UnspentOutput)
    requires lib.curve.order > 0
    ensures var r := FirstOpening(lib, candidates, input);
      && (r.Ok? <==> exists candidate | candidate in candidates :: Tried(lib, candidate, input).Some?)
      && (r.Ok? ==> Opens(lib, input, r.value.0))
  {
    if candidates != [] {
      FirstOpeningExact(lib, candidates[1..], input);
      assert forall x :: x in candidates <==> x == candidates[0] || x in candidates[1..];
    }
  }

  /** What is tried, in order: the full path with the switch, then its first three steps if the fourth is padding,
      then both without the switch; under each the new key and then the old one, if there is an old one. */
  lemma CandidateList(v3: Bytes64, prior: Bytes64, path: Path4)
    ensures Candidates(v3, Some(prior), path) ==
      if path[3] == 0 then
        [Candidate("v3+Regular+d4", v3, Regular, path), Candidate("legacy+Regular+d4", prior, Regular, path),
         Candidate("v3+Regular+d3", v3, Regular, path[..3]), Candidate("legacy+Regular+d3", prior, Regular, path[..3]),
         Candidate("v3+None+d4", v3, NoSwitch, path), Candidate("legacy+None+d4", prior, NoSwitch, path),
         Candidate("v3+None+d3", v3, NoSwitch, path[..3]), Candidate("legacy+None+d3", prior, NoSwitch, path[..3])]
      else
        [Candidate("v3+Regular+d4", v3, Regular, path), Candidate("legacy+Regular+d4", prior, Regular, path),
         Candidate("v3+None+d4", v3, NoSwitch, path), Candidate("legacy+None+d4", prior, NoSwitch, path)]
    ensures Candidates(v3, None, path) ==
      if path[3] == 0 then
        [Candidate("v3+Regular+d4", v3, Regular, path), Candidate("v3+Regular+d3", v3, Regular, path[..3]),
         Candidate("v3+None+d4", v3, NoSwitch, path), Candidate("v3+None+d3", v3, NoSwitch, path[..3])]
      else
        [Candidate("v3+Regular+d4", v3, Regular, path), Candidate("v3+None+d4", v3, NoSwitch, path)]
  {
  }

  /** Four derivations per key when the last path element is padding, two otherwise. */
  lemma CandidateCount(v3: Bytes64, legacy: Option<Bytes64>, path: Path4)
    ensures |Candidates(v3, legacy, path)| == (if path[3] == 0 then 4 else 2) * (if legacy.Some? then 2 else 1)
  {
  }

  /** Whatever derivation was used to make an output, if it is among those tried, the blind found is the
      blind it was made with. */
  lemma FallbackFindsTheBlind(
    lib: Library, v3: Bytes64, legacy: Option<Bytes64>, input: UnspentOutput, candidate: Candidate, blind: Bytes32)
    requires lib.curve.Valid()
    requires candidate in Candidates(v3, legacy, input.path)
    requires DeriveBlind(lib, candidate.ext, candidate.path, input.amount, candidate.switch) == Ok(blind)
    requires Opens(lib, input, blind)
    ensures Fallback(lib, v3, legacy, input).Ok? && Fallback(lib, v3, legacy, input).value.0 == blind
  {
    hide Curve.Valid, PedersenCommit, Candidates;
    lib.curve.OrderBounds();
    FirstOpeningExact(lib, Candidates(v3, legacy, input.path), input);
    assert Tried(lib, candidate, input) == Some(blind);
    OneBlindOpens(lib.curve, input.amount, blind, Fallback(lib, v3, legacy, input).value.0);
  }

  /** The blind found opens the output. */
  lemma FallbackOpens(lib: Library, v3: Bytes64, legacy: Option<Bytes64>, input: UnspentOutput)
    requires lib.curve.order > 0 && Fallback(lib, v3, legacy, input).Ok?
    ensures Opens(lib, input, Fallback(lib, v3, legacy, input).value.0)
  {
    FirstOpeningExact(lib, Candidates(v3, legacy, input.path), input);
  }

  /** Whether an output is a coinbase makes no difference to the blind found for it. */
  lemma SameBlind(lib: Library, v3: Bytes64, legacy: Option<Bytes64>, input: UnspentOutput, isCoinbase: bool)
    requires lib.curve.Valid() && Fallback(lib, v3, legacy, input).Ok?
    ensures var r := Fallback(lib, v3, legacy, input.(isCoinbase := isCoinbase));
            r.Ok? && r.value.0 == Fallback(lib, v3, legacy, input).value.0
  {
    hide Curve.Valid, PedersenCommit, Candidates, DeriveBlind;
    lib.curve.OrderBounds();
    var other := input.(isCoinbase := isCoinbase);
    FirstOpeningExact(lib, Candidates(v3, legacy, input.path), input);
    FirstOpeningExact(lib, Candidates(v3, legacy, input.path), other);
    var candidate :| candidate in Candidates(v3, legacy, input.path) && Tried(lib, candidate, input).Some?;
    assert Tried(lib, candidate, other).Some?;
    OneBlindOpens(lib.curve, input.amount, Fallback(lib, v3, legacy, other).value.0,
                  Fallback(lib, v3, legacy, input).value.0);
  }

  /** The output a scan asks about, at child index `n`. */
  function AtIndex(commitment: Bytes33, value: u64, n: u32): UnspentOutput {
    UnspentOutput([0, 0, n, 0], value, commitment, false)
  }

  /** The least index up to `maxN` whose derivation reproduces the commitment, or none when there is no such
      index. */
  ghost predicate Identifies(
    lib: Library, v3: Bytes64, legacy: Option<Bytes64>, commitment: Bytes33, value: u64, maxN: u32, r: Option<Path4>)
    requires lib.curve.order > 0
  {
    match r
    case None => forall n: u32 | n <= maxN :: !Fallback(lib, v3, legacy, AtIndex(commitment, value, n)).Ok?
    case Some(path) =>
      && path == [0, 0, path[2], 0] && path[2] <= maxN
      && Fallback(lib, v3, legacy, AtIndex(commitment, value, path[2])).Ok?
      && forall n: u32 | n < path[2] :: !Fallback(lib, v3, legacy, AtIndex(commitment, value, n)).Ok?
  }

  /** `identify_output`. */
  method IdentifyOutput(lib: Library, v3: Bytes64, legacy: Option<Bytes64>, commitment: Bytes33, value: u64, maxN: u32)
    returns (r: Option<Path4>)
    requires lib.curve.order > 0
    ensures Identifies(lib, v3, legacy, commitment, value, maxN, r)
  {
    hide Fallback;
    var n: int := 0;
    while n <= maxN
      invariant 0 <= n <= maxN as int + 1
      invariant forall m: u32 | m < n :: !Fallback(lib, v3, legacy, AtIndex(commitment, value, m)).Ok?
    {
      var found := DeriveInputBlind(lib, v3, legacy, AtIndex(commitment, value, n));
      if found.Ok? {
        return Some([0, 0, n, 0]);
      }
      n := n + 1;
    }
    return None;
  }
}
