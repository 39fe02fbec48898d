/**
 * Music_Generation_AI/generate_music.py: the random seed window
 * (`prepare_seed_sequence`) and the autoregressive loop (`generate_notes`)
 * with its sliding pattern buffer and its sawtooth temperature schedule.
 * The network and the temperature sampling are one oracle, `sample`, that
 * picks an index from the step number, the current pattern and the
 * temperature.
 */
module Generation {
  import opened Wrappers
  import opened StrOrder
  import opened Preprocess

  // ---------------------------------------------------------------------------
  // The inverse id map

  /** `int_to_note = {number: note for number, note in enumerate(pitchnames)}`. */
  function IntToNote(pitchnames: seq<string>): (m: map<nat, string>)
    ensures forall i: nat :: i in m <==> i < |pitchnames|
    ensures forall i: nat :: i in m ==> m[i] == pitchnames[i]
  {
    map i: nat | i < |pitchnames| :: pitchnames[i]
  }

  /** On a vocabulary the two maps are inverse to each other. */
  lemma IdMapsInverse(pitchnames: seq<string>)
    requires StrictlySorted(pitchnames)
    ensures forall t :: t in NoteToInt(pitchnames) ==> IntToNote(pitchnames)[NoteToInt(pitchnames)[t]] == t
    ensures forall i: nat :: i < |pitchnames| ==> NoteToInt(pitchnames)[IntToNote(pitchnames)[i]] == i
  {
    NoteToIntBijective(pitchnames);
  }

  // ---------------------------------------------------------------------------
  // The seed window

  datatype SeedError =
    | EmptyRange    // `np.random.randint(0, high)` raises ValueError when high <= 0
    | UnknownToken  // `note_to_int[n]` raises KeyError

  /** Every token of `w` is in the vocabulary. */
  predicate AllKnown(w: seq<string>, pitchnames: seq<string>)
  {
    forall k :: 0 <= k < |w| ==> w[k] in pitchnames
  }

  /** `prepare_seed_sequence`, with `start` the value `randint` draws from
      `[0, |notes| - L - 1)`. The result is the `L` ids of the window
      `notes[start..start + L]`. */
  function PrepareSeed(notes: seq<string>, pitchnames: seq<string>, sequenceLength: nat, start: nat)
    : (r: Result<seq<nat>, SeedError>)
    requires |notes| > sequenceLength + 1 ==> start < |notes| - sequenceLength - 1
    ensures r == Failure(EmptyRange) <==> |notes| <= sequenceLength + 1
    ensures r.Success? <==>
              |notes| > sequenceLength + 1 && AllKnown(notes[start..start + sequenceLength], pitchnames)
    ensures r.Success? ==> |r.value| == sequenceLength
    ensures r.Success? ==> Encodes(pitchnames, r.value, notes[start..start + sequenceLength])
  {
    if |notes| - sequenceLength - 1 <= 0 then Failure(EmptyRange)
    else
      var window := notes[start..start + sequenceLength];
      if AllKnown(window, pitchnames) then
        assert forall k :: 0 <= k < |window| ==> window[k] in NoteToInt(pitchnames);
        var ids := Ids(NoteToInt(pitchnames), window);
        assert Encodes(pitchnames, ids, window);
        Success(ids)
      else Failure(UnknownToken)
  }

  /** With the vocabulary built from the same corpus the seed never fails for
      an unknown token: a long enough corpus always gives a seed. */
  lemma SeedFromOwnVocabulary(notes: seq<string>, sequenceLength: nat, start: nat)
    requires |notes| > sequenceLength + 1 && start < |notes| - sequenceLength - 1
    ensures PrepareSeed(notes, Vocabulary(notes), sequenceLength, start).Success?
  {
    var w := notes[start..start + sequenceLength];
    forall k | 0 <= k < |w| ensures w[k] in Vocabulary(notes) {
      assert w[k] == notes[start + k];
    }
  }

  // ---------------------------------------------------------------------------
  // The temperature schedule

  /** The temperature of step `i`, `0.7 + (i % 100) / 300`, counted in
      units of 1/300: it is exactly `Temperature(i) / 300`. */
  function Temperature(i: nat): (r: nat)
    ensures 210 <= r <= 309
  {
    210 + Phase(i)
  }

  /** The position of step `i` within its block of 100 steps. */
  function Phase(i: nat): (r: nat)
    ensures r < 100
  {
    if i < 100 then i else Phase(i - 100)
  }

  /** The position within the block is `i % 100`. */
  lemma {:induction false} PhaseIsRemainder(i: nat)
    ensures Phase(i) == i % 100
  {
    if i >= 100 {
      PhaseIsRemainder(i - 100);
      assert (i - 100) % 100 == i % 100;
    }
  }

  /** The count of 1/300 units is the schedule's value. */
  lemma TemperatureExact(i: nat)
    ensures (Temperature(i) as real) / 300.0 == 0.7 + ((i % 100) as real) / 300.0
  {
    PhaseIsRemainder(i);
  }

  /** The temperature always lies between 0.7 and 1.03. */
  lemma TemperatureBounds(i: nat)
    ensures 0.7 <= (Temperature(i) as real) / 300.0 <= 1.03
  {
  }

  lemma TemperaturePeriodic(i: nat)
    ensures Temperature(i + 100) == Temperature(i)
  {
  }

  /** Within a block of 100 steps the temperature strictly rises. */
  lemma TemperatureRises(i: nat, j: nat)
    requires i / 100 == j / 100 && i < j
    ensures Temperature(i) < Temperature(j)
  {
    PhaseIsRemainder(i);
    PhaseIsRemainder(j);
    assert i == 100 * (i / 100) + i % 100;
    assert j == 100 * (j / 100) + j % 100;
  }

  // ---------------------------------------------------------------------------
  // The generation loop, as functions of the seed

  /** The network and `sample_with_temperature` together: the index drawn at
      a step from the pattern and the temperature (in 1/300 units). */
  type Sampler = (nat, seq<nat>, nat) -> nat

  /** The index sampled at step `i` from the pattern `p`. */
  function Draw(sample: Sampler, p: seq<nat>, i: nat): nat
  {
    sample(i, p, Temperature(i))
  }

  /** The oracle only returns indices below `size`, as the network's output
      has one probability per vocabulary entry. */
  ghost predicate Bounded(sample: Sampler, size: nat)
  {
    forall i, p, t :: sample(i, p, t) < size
  }

  /** `pattern.append(index); pattern = pattern[1:]`. */
  function Slide(p: seq<nat>, index: nat): (q: seq<nat>)
    ensures |q| == |p|
  {
    (p + [index])[1..]
  }

  /** The pattern at the start of step `i`. */
  function PatternAt(sample: Sampler, seed: seq<nat>, i: nat): seq<nat>
  {
    if i == 0 then seed
    else
      var p := PatternAt(sample, seed, i - 1);
      Slide(p, Draw(sample, p, i - 1))
  }

  /** The indices sampled in the first `n` steps. */
  function Indices(sample: Sampler, seed: seq<nat>, n: nat): seq<nat>
  {
    if n == 0 then []
    else Indices(sample, seed, n - 1) + [Draw(sample, PatternAt(sample, seed, n - 1), n - 1)]
  }

  lemma {:induction false} IndicesLength(sample: Sampler, seed: seq<nat>, n: nat)
    ensures |Indices(sample, seed, n)| == n
  {
    if n > 0 { IndicesLength(sample, seed, n - 1); }
  }

  /** Appending one id and dropping the oldest keeps the pattern length. */
  lemma {:induction false} PatternLength(sample: Sampler, seed: seq<nat>, i: nat)
    ensures |PatternAt(sample, seed, i)| == |seed|
  {
    if i > 0 { PatternLength(sample, seed, i - 1); }
  }

  /** After `n` steps the pattern is the last `|seed|` ids of the seed followed
      by the `n` sampled indices. */
  lemma {:induction false} PatternWindow(sample: Sampler, seed: seq<nat>, n: nat)
    ensures |seed + Indices(sample, seed, n)| >= n
    ensures PatternAt(sample, seed, n) == (seed + Indices(sample, seed, n))[n..]
  {
    IndicesLength(sample, seed, n);
    if n > 0 {
      PatternWindow(sample, seed, n - 1);
      IndicesLength(sample, seed, n - 1);
      var s := seed + Indices(sample, seed, n - 1);
      var x := Draw(sample, PatternAt(sample, seed, n - 1), n - 1);
      assert seed + Indices(sample, seed, n) == s + [x];
      assert (s[n - 1..] + [x])[1..] == (s + [x])[n..];
    }
  }

  /** Every sampled index is one the oracle returned, so it names a vocabulary
      entry when the oracle stays in range. */
  lemma {:induction false} IndicesInRange(sample: Sampler, seed: seq<nat>, n: nat, size: nat)
    requires Bounded(sample, size)
    ensures forall k :: 0 <= k < |Indices(sample, seed, n)| ==> Indices(sample, seed, n)[k] < size
  {
    if n > 0 { IndicesInRange(sample, seed, n - 1, size); }
  }

  /** `[int_to_note[index] for index in indices]`. */
  function Decode(pitchnames: seq<string>, indices: seq<nat>): (r: seq<string>)
    requires forall k :: 0 <= k < |indices| ==> indices[k] < |pitchnames|
    ensures |r| == |indices|
    ensures forall k :: 0 <= k < |r| ==> r[k] == pitchnames[indices[k]] && r[k] in pitchnames
  {
    seq(|indices|, k requires 0 <= k < |indices| => pitchnames[indices[k]])
  }

  /** The tokens of the first `n` steps: step `k` emits the vocabulary entry
      of the index drawn from the pattern of step `k`. */
  function Generated(sample: Sampler, seed: seq<nat>, pitchnames: seq<string>, n: nat)
    : (r: seq<string>)
    requires Bounded(sample, |pitchnames|)
    ensures |r| == n
  {
    if n == 0 then []
    else Generated(sample, seed, pitchnames, n - 1) + [pitchnames[Draw(sample, PatternAt(sample, seed, n - 1), n - 1)]]
  }

  /** The output is the decoded sampled indices: one token per step, the k-th
      being the vocabulary entry of the k-th sampled index. */
  lemma {:induction false} GeneratedDecodes(sample: Sampler, seed: seq<nat>,
                                            pitchnames: seq<string>, n: nat)
    requires Bounded(sample, |pitchnames|)
    ensures forall k :: 0 <= k < |Indices(sample, seed, n)| ==> Indices(sample, seed, n)[k] < |pitchnames|
    ensures Generated(sample, seed, pitchnames, n) == Decode(pitchnames, Indices(sample, seed, n))
  {
    IndicesInRange(sample, seed, n, |pitchnames|);
    IndicesLength(sample, seed, n);
    if n > 0 {
      GeneratedDecodes(sample, seed, pitchnames, n - 1);
      IndicesLength(sample, seed, n - 1);
      var a := Generated(sample, seed, pitchnames, n);
      var b := Decode(pitchnames, Indices(sample, seed, n));
      forall k | 0 <= k < n ensures a[k] == b[k] {
        if k < n - 1 {
          assert Indices(sample, seed, n)[k] == Indices(sample, seed, n - 1)[k];
        }
      }
    }
  }

  /** Decoding ids made from tokens gives the tokens back. */
  lemma DecodeEncodes(pitchnames: seq<string>, ids: seq<nat>, tokens: seq<string>)
    requires Encodes(pitchnames, ids, tokens)
    ensures Decode(pitchnames, ids) == tokens
  {
  }

  // ---------------------------------------------------------------------------
  // The generation loop, in place

  /** A Python list of ids, which `generate_notes` shares with its caller. */
  class IdList {
    var items: seq<nat>

    constructor (items0: seq<nat>)
      ensures items == items0
    {
      items := items0;
    }

    /** `list.append`. */
    method Append(x: nat)
      modifies this
      ensures items == old(items) + [x]
    {
      items := items + [x];
    }

    /** `list[1:]`: a new list; the receiver is untouched. */
    method Tail() returns (r: IdList)
      ensures fresh(r)
      ensures r.items == if |items| == 0 then [] else items[1..]
    {
      r := new IdList(if |items| == 0 then [] else items[1..]);
    }
  }

  /** `generate_notes`: `numNotes` steps, each sampling an index from the
      current pattern at the step's temperature, emitting its token, and
      sliding the pattern. The output is the decoded sampled indices. The
      first `append` happens on the caller's list before `pattern` is rebound
      to a fresh slice, so the caller's seed gains the first sampled index
      and nothing more. */
  method GenerateNotes(seed: IdList, pitchnames: seq<string>, numNotes: nat,
                       sample: Sampler)
    returns (predictionOutput: seq<string>)
    requires Bounded(sample, |pitchnames|)
    modifies seed
    ensures |Indices(sample, old(seed.items), numNotes)| == numNotes
    ensures predictionOutput == Generated(sample, old(seed.items), pitchnames, numNotes)
    ensures seed.items == if numNotes == 0 then old(seed.items)
                          else old(seed.items) + [Indices(sample, old(seed.items), numNotes)[0]]
  {
    ghost var s0 := seed.items;
    ghost var seedAfter := if numNotes == 0 then s0 else s0 + [Draw(sample, s0, 0)];
    FirstIndex(sample, s0, numNotes);
    var intToNote := IntToNote(pitchnames);
    predictionOutput := [];
    var pattern := seed;
    var i := 0;
    while i < numNotes
      invariant 0 <= i <= numNotes
      invariant pattern.items == PatternAt(sample, s0, i)
      invariant predictionOutput == Generated(sample, s0, pitchnames, i)
      invariant i == 0 ==> pattern == seed && seed.items == s0
      invariant i > 0 ==> fresh(pattern) && seed.items == seedAfter
    {
      var index := Draw(sample, pattern.items, i);
      GenerationStep(sample, s0, pitchnames, i, pattern.items, index);
      var result := intToNote[index];
      predictionOutput := predictionOutput + [result];
      pattern.Append(index);
      pattern := pattern.Tail();
      i := i + 1;
    }
  }

  /** One step of the loop, on values: the index drawn from the pattern of
      step `i` names a vocabulary entry, slides that pattern into the one of
      step `i + 1`, and its token extends the output of the first `i` steps. */
  lemma GenerationStep(sample: Sampler, s0: seq<nat>, pitchnames: seq<string>,
                       i: nat, before: seq<nat>, index: nat)
    requires Bounded(sample, |pitchnames|)
    requires before == PatternAt(sample, s0, i) && index == Draw(sample, before, i)
    ensures index < |pitchnames|
    ensures Slide(before, index) == PatternAt(sample, s0, i + 1)
    ensures Generated(sample, s0, pitchnames, i + 1) == Generated(sample, s0, pitchnames, i) + [pitchnames[index]]
    ensures i == 0 ==> index == Draw(sample, s0, 0)
  {
  }

  /** The first sampled index is drawn from the seed itself. */
  lemma FirstIndex(sample: Sampler, seed: seq<nat>, n: nat)
    ensures |Indices(sample, seed, n)| == n
    ensures n > 0 ==> Indices(sample, seed, n)[0] == Draw(sample, seed, 0)
  {
    IndicesLength(sample, seed, n);
    if n > 0 {
      IndicesPrefix(sample, seed, 1, n);
      assert Indices(sample, seed, 1) == [Draw(sample, seed, 0)];
    }
  }

  /** The first sampled indices do not depend on how many steps follow. */
  lemma {:induction false} IndicesPrefix(sample: Sampler, seed: seq<nat>, m: nat, n: nat)
    requires m <= n
    ensures |Indices(sample, seed, n)| == n
    ensures Indices(sample, seed, m) == Indices(sample, seed, n)[..m]
    decreases n
  {
    IndicesLength(sample, seed, n);
    IndicesLength(sample, seed, m);
    if m < n {
      IndicesPrefix(sample, seed, m, n - 1);
      assert Indices(sample, seed, n)[..n - 1] == Indices(sample, seed, n - 1);
    } else {
      assert Indices(sample, seed, n)[..n] == Indices(sample, seed, n);
    }
  }
}
