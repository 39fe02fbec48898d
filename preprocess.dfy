/**
 * Music_Generation_AI/preprocess.py: turning parsed songs into the token
 * stream (`extract_notes`), the sorted vocabulary with its id map, and the
 * stride-1 training windows (`prepare_sequences`).
 */
module Preprocess {
  import PyStr
  import PyInt
  import opened StrOrder

  /** A music21 element met while walking a parsed song with `recurse()`: a
      note with its pitch name (`str(element.pitch)`), a chord with its
      `normalOrder` pitch classes, or anything else (rests, metadata, ...). */
  datatype Element = Note(pitchName: string) | Chord(normalOrder: seq<int>) | Other

  /** `str(n)` of each pitch class of a chord. */
  function ChordParts(normalOrder: seq<int>): (r: seq<string>)
    ensures |r| == |normalOrder|
    ensures forall k :: 0 <= k < |r| ==> r[k] == PyInt.IntToStr(normalOrder[k])
  {
    seq(|normalOrder|, k requires 0 <= k < |normalOrder| => PyInt.IntToStr(normalOrder[k]))
  }

  /** The token `extract_notes` appends for a note or a chord. */
  function Token(e: Element): string
    requires !e.Other?
  {
    match e
    case Note(p) => p
    case Chord(xs) => PyStr.Join(ChordParts(xs), '.')
  }

  /** A chord with k >= 1 pitch classes gives a token that splits at its dots
      into exactly k parts, the decimal texts of the pitch classes in order. */
  lemma ChordTokenParts(xs: seq<int>)
    requires |xs| >= 1
    ensures PyStr.Split(Token(Chord(xs)), '.') == ChordParts(xs)
    ensures |PyStr.Split(Token(Chord(xs)), '.')| == |xs|
  {
    var parts := ChordParts(xs);
    forall k | 0 <= k < |parts| ensures '.' !in parts[k] {
      PyInt.IntToStrShape(xs[k]);
    }
    PyStr.SplitJoin(parts, '.');
  }

  /** The tokens of one traversal: one per note or chord, in traversal order;
      other elements contribute nothing. */
  function Tokens(es: seq<Element>): (r: seq<string>)
    ensures |r| <= |es|
  {
    if es == [] then []
    else
      var e := es[|es| - 1];
      Tokens(es[..|es| - 1]) + (if e.Other? then [] else [Token(e)])
  }

  /** The tokens of a concatenation are the concatenation of the tokens. */
  lemma {:induction false} TokensAppend(a: seq<Element>, b: seq<Element>)
    ensures Tokens(a + b) == Tokens(a) + Tokens(b)
    decreases |b|
  {
    if b != [] {
      var b' := b[..|b| - 1];
      assert (a + b)[..|a + b| - 1] == a + b';
      TokensAppend(a, b');
    } else {
      assert a + b == a;
    }
  }

  /** Counting view of the same fact: the stream has exactly as many tokens as
      the traversal has notes and chords. */
  function MusicalCount(es: seq<Element>): nat
  {
    if es == [] then 0 else MusicalCount(es[1..]) + (if es[0].Other? then 0 else 1)
  }

  lemma {:induction false} TokensCount(es: seq<Element>)
    ensures |Tokens(es)| == MusicalCount(es)
    decreases |es|
  {
    if es != [] {
      assert es == [es[0]] + es[1..];
      TokensAppend([es[0]], es[1..]);
      TokensCount(es[1..]);
      assert Tokens([es[0]]) == Tokens([]) + (if es[0].Other? then [] else [Token(es[0])]) by {
        assert [es[0]][..0] == [];
      }
    }
  }

  /** All the songs' elements, song after song. */
  function Flatten(songs: seq<seq<Element>>): seq<Element>
  {
    if songs == [] then [] else Flatten(songs[..|songs| - 1]) + songs[|songs| - 1]
  }

  /** One more element adds its token, if it has one, at the end. */
  lemma TokensSnoc(es: seq<Element>, e: Element)
    ensures Tokens(es + [e]) == Tokens(es) + (if e.Other? then [] else [Token(e)])
  {
    assert (es + [e])[..|es|] == es;
  }

  /** One more song adds its elements at the end. */
  lemma FlattenStep(songs: seq<seq<Element>>, s: nat)
    requires s < |songs|
    ensures Flatten(songs[..s + 1]) == Flatten(songs[..s]) + songs[s]
  {
    assert songs[..s + 1][..s] == songs[..s];
  }

  /** The inner loop's step: element `k` of the song adds its token, if it has
      one. */
  lemma TokensStep(done: seq<Element>, song: seq<Element>, k: nat)
    requires k < |song|
    ensures Tokens(done + song[..k + 1])
            == Tokens(done + song[..k]) + (if song[k].Other? then [] else [Token(song[k])])
  {
    TokensSnoc(done + song[..k], song[k]);
    assert done + song[..k + 1] == (done + song[..k]) + [song[k]];
  }

  /** `extract_notes`: walk every song in order and append the token of every
      note and chord. */
  method ExtractNotes(songs: seq<seq<Element>>) returns (notes: seq<string>)
    ensures notes == Tokens(Flatten(songs))
  {
    notes := [];
    var s := 0;
    while s < |songs|
      invariant 0 <= s <= |songs|
      invariant notes == Tokens(Flatten(songs[..s]))
    {
      var song := songs[s];
      ghost var done := Flatten(songs[..s]);
      var k := 0;
      assert done + song[..0] == done;
      while k < |song|
        invariant 0 <= k <= |song|
        invariant notes == Tokens(done + song[..k])
      {
        var element := song[k];
        TokensStep(done, song, k);
        if element.Note? {
          notes := notes + [element.pitchName];
        } else if element.Chord? {
          notes := notes + [PyStr.Join(ChordParts(element.normalOrder), '.')];
        }
        k := k + 1;
      }
      assert song[..k] == song;
      FlattenStep(songs, s);
      s := s + 1;
    }
    assert songs[..s] == songs;
  }

  // ---------------------------------------------------------------------------
  // The vocabulary: `pitchnames = sorted(set(notes))`

  /** Put `x` into a strictly sorted sequence. */
  function Insert(s: seq<string>, x: string): (r: seq<string>)
    requires StrictlySorted(s)
    ensures StrictlySorted(r)
    ensures forall y :: y in r <==> y in s || y == x
  {
    if |s| == 0 then [x]
    else if x == s[0] then s
    else if Lt(x, s[0]) then
      assert forall j :: 0 < j < |s| ==> Lt(x, s[j]) by {
        forall j | 0 < j < |s| ensures Lt(x, s[j]) { LtTransitive(x, s[0], s[j]); }
      }
      [x] + s
    else
      var rest := Insert(s[1..], x);
      LtTotal(x, s[0]);
      assert forall y :: y in rest ==> Lt(s[0], y);
      assert s == [s[0]] + s[1..];
      [s[0]] + rest
  }

  /** `sorted(set(notes))`. */
  function Vocabulary(notes: seq<string>): (r: seq<string>)
    ensures StrictlySorted(r)
    ensures forall t :: t in r <==> t in notes
  {
    if notes == [] then []
    else Insert(Vocabulary(notes[..|notes| - 1]), notes[|notes| - 1])
  }

  /** The vocabulary depends only on which tokens occur: corpora with the same
      set of tokens, in whatever order and multiplicity, get the same
      vocabulary. */
  lemma VocabularyDeterministic(a: seq<string>, b: seq<string>)
    requires forall t :: t in a <==> t in b
    ensures Vocabulary(a) == Vocabulary(b)
  {
    SortedUnique(Vocabulary(a), Vocabulary(b));
  }

  /** In particular, reordering the corpus does not change the vocabulary. */
  lemma VocabularyPermutation(a: seq<string>, b: seq<string>)
    requires multiset(a) == multiset(b)
    ensures Vocabulary(a) == Vocabulary(b)
  {
    forall t ensures t in a <==> t in b {
      assert t in a <==> t in multiset(a);
      assert t in b <==> t in multiset(b);
    }
    VocabularyDeterministic(a, b);
  }

  /** `note_to_int = {note: number for number, note in enumerate(pitchnames)}`:
      every entry of `v` is a key, mapped to the position of its LAST
      occurrence, since a later pair overwrites an earlier one. */
  function NoteToInt(v: seq<string>): (m: map<string, nat>)
    ensures forall t :: t in m <==> t in v
    ensures forall t :: t in m ==> m[t] < |v| && v[m[t]] == t
  {
    if v == [] then map[]
    else NoteToInt(v[..|v| - 1])[v[|v| - 1] := |v| - 1]
  }

  /** A later pair overwrites an earlier one: no position after the id of `t`
      holds `t`, so on a list with repeats the id is the last occurrence. */
  lemma {:induction false} NoteToIntLast(v: seq<string>, t: string, j: nat)
    requires t in NoteToInt(v) && NoteToInt(v)[t] < j < |v|
    ensures v[j] != t
    decreases |v|
  {
    var n := |v| - 1;
    if t != v[n] {
      assert NoteToInt(v)[t] == NoteToInt(v[..n])[t];
      if j < n {
        NoteToIntLast(v[..n], t, j);
        assert v[..n][j] == v[j];
      }
    }
  }

  /** On a vocabulary, whose entries are distinct, the id of `v[i]` is `i`. */
  lemma NoteToIntAt(v: seq<string>, i: nat)
    requires StrictlySorted(v) && i < |v|
    ensures v[i] in NoteToInt(v) && NoteToInt(v)[v[i]] == i
  {
    var m := NoteToInt(v);
    SortedDistinct(v, i, m[v[i]]);
  }

  /** The id map is a bijection from the vocabulary onto `[0, |v|)`. */
  lemma NoteToIntBijective(v: seq<string>)
    requires StrictlySorted(v)
    ensures forall i :: 0 <= i < |v| ==> NoteToInt(v)[v[i]] == i
    ensures forall t :: t in NoteToInt(v) ==> NoteToInt(v)[t] < |v|
    ensures forall s, t :: s in NoteToInt(v) && t in NoteToInt(v) && NoteToInt(v)[s] == NoteToInt(v)[t] ==> s == t
  {
    forall i | 0 <= i < |v| ensures NoteToInt(v)[v[i]] == i { NoteToIntAt(v, i); }
  }

  /** `[note_to_int[n] for n in s]`. */
  function Ids(m: map<string, nat>, s: seq<string>): (r: seq<nat>)
    requires forall k :: 0 <= k < |s| ==> s[k] in m
    ensures |r| == |s| && forall k :: 0 <= k < |s| ==> r[k] == m[s[k]]
  {
    seq(|s|, k requires 0 <= k < |s| => m[s[k]])
  }

  /** `range(len(notes) - sequence_length)` has this many elements. */
  function PairCount(n: nat, sequenceLength: nat): nat
  {
    if n > sequenceLength then n - sequenceLength else 0
  }

  /** `ids` are valid ids into the vocabulary and name, one by one, `tokens`. */
  predicate Encodes(pitchnames: seq<string>, ids: seq<nat>, tokens: seq<string>)
  {
    && |ids| == |tokens|
    && forall j :: 0 <= j < |ids| ==> ids[j] < |pitchnames| && pitchnames[ids[j]] == tokens[j]
  }

  /** Looking every token of a window of the corpus up in the id map of the
      corpus's vocabulary encodes the window. */
  lemma WindowEncodes(notes: seq<string>, lo: nat, hi: nat)
    requires lo <= hi <= |notes|
    ensures forall k :: 0 <= k < hi - lo ==> notes[lo..hi][k] in NoteToInt(Vocabulary(notes))
    ensures Encodes(Vocabulary(notes), Ids(NoteToInt(Vocabulary(notes)), notes[lo..hi]), notes[lo..hi])
  {
    var w := notes[lo..hi];
    forall k | 0 <= k < |w| ensures w[k] in Vocabulary(notes) {
      assert w[k] == notes[lo + k];
    }
  }

  /** Every token of `s` has an id in `m`. */
  predicate Known(m: map<string, nat>, s: seq<string>)
  {
    forall k :: 0 <= k < |s| ==> s[k] in m
  }

  /** The contexts `prepare_sequences` builds: for every start position `i`,
      the ids of `notes[i..i + sequenceLength]`. */
  function Contexts(m: map<string, nat>, notes: seq<string>, sequenceLength: nat): (r: seq<seq<nat>>)
    requires Known(m, notes)
    ensures |r| == PairCount(|notes|, sequenceLength)
  {
    seq(PairCount(|notes|, sequenceLength),
        i requires 0 <= i < PairCount(|notes|, sequenceLength) => Ids(m, notes[i..i + sequenceLength]))
  }

  /** The targets: for every start position `i`, the id of
      `notes[i + sequenceLength]`. */
  function Targets(m: map<string, nat>, notes: seq<string>, sequenceLength: nat): (r: seq<nat>)
    requires Known(m, notes)
    ensures |r| == PairCount(|notes|, sequenceLength)
  {
    seq(PairCount(|notes|, sequenceLength),
        i requires 0 <= i < PairCount(|notes|, sequenceLength) => m[notes[i + sequenceLength]])
  }

  /** Every token of the corpus has an id in the map of its vocabulary. */
  lemma CorpusKnown(notes: seq<string>)
    ensures Known(NoteToInt(Vocabulary(notes)), notes)
  {
    forall k | 0 <= k < |notes| ensures notes[k] in NoteToInt(Vocabulary(notes)) {
      assert notes[k] in Vocabulary(notes);
    }
  }

  lemma TakeSnoc<T>(s: seq<T>, i: nat)
    requires i < |s|
    ensures s[..i + 1] == s[..i] + [s[i]]
  {
  }

  /** The pair at start position `i`, as `prepare_sequences` builds it. */
  lemma PairAt(m: map<string, nat>, notes: seq<string>, sequenceLength: nat, i: nat)
    requires Known(m, notes) && i < PairCount(|notes|, sequenceLength)
    ensures Known(m, notes[i..i + sequenceLength])
    ensures Contexts(m, notes, sequenceLength)[i] == Ids(m, notes[i..i + sequenceLength])
    ensures notes[i + sequenceLength] in m
    ensures Targets(m, notes, sequenceLength)[i] == m[notes[i + sequenceLength]]
  {
    var w := notes[i..i + sequenceLength];
    forall k | 0 <= k < |w| ensures w[k] in m { assert w[k] == notes[i + k]; }
  }

  /** The pair at start position `i`, for any id map into `v`. */
  lemma PairEncodes(v: seq<string>, m: map<string, nat>, notes: seq<string>, sequenceLength: nat, i: nat)
    requires forall t :: t in m ==> m[t] < |v| && v[m[t]] == t
    requires Known(m, notes) && i < PairCount(|notes|, sequenceLength)
    ensures Encodes(v, Contexts(m, notes, sequenceLength)[i], notes[i..i + sequenceLength])
    ensures Encodes(v, [Targets(m, notes, sequenceLength)[i]], [notes[i + sequenceLength]])
  {
    var w := notes[i..i + sequenceLength];
    forall k | 0 <= k < |w| ensures w[k] in m { assert w[k] == notes[i + k]; }
    assert Contexts(m, notes, sequenceLength)[i] == Ids(m, w);
  }

  /** Every id of every pair lies in `[0, |pitchnames|)` and names, in the
      vocabulary, the very token it was made from. */
  lemma PairsEncode(notes: seq<string>, sequenceLength: nat)
    ensures Known(NoteToInt(Vocabulary(notes)), notes)
    ensures forall i :: 0 <= i < PairCount(|notes|, sequenceLength) ==>
              Encodes(Vocabulary(notes), Contexts(NoteToInt(Vocabulary(notes)), notes, sequenceLength)[i],
                      notes[i..i + sequenceLength])
    ensures forall i :: 0 <= i < PairCount(|notes|, sequenceLength) ==>
              Encodes(Vocabulary(notes), [Targets(NoteToInt(Vocabulary(notes)), notes, sequenceLength)[i]],
                      [notes[i + sequenceLength]])
  {
    CorpusKnown(notes);
    var v := Vocabulary(notes);
    var m := NoteToInt(v);
    forall i | 0 <= i < PairCount(|notes|, sequenceLength)
      ensures Encodes(v, Contexts(m, notes, sequenceLength)[i], notes[i..i + sequenceLength])
      ensures Encodes(v, [Targets(m, notes, sequenceLength)[i]], [notes[i + sequenceLength]])
    {
      PairEncodes(v, m, notes, sequenceLength, i);
    }
  }

  /** `prepare_sequences` up to the numpy reshaping and the division by the
      vocabulary size: the vocabulary, then one (context, next token) pair per
      start position, `PairCount` of them, as `Contexts` and `Targets`
      describe and `PairsEncode` characterises. */
  method PrepareSequences(notes: seq<string>, sequenceLength: nat)
    returns (networkInput: seq<seq<nat>>, networkOutput: seq<nat>, pitchnames: seq<string>)
    ensures pitchnames == Vocabulary(notes)
    ensures Known(NoteToInt(pitchnames), notes)
    ensures networkInput == Contexts(NoteToInt(pitchnames), notes, sequenceLength)
    ensures networkOutput == Targets(NoteToInt(pitchnames), notes, sequenceLength)
    ensures |networkInput| == |networkOutput| == PairCount(|notes|, sequenceLength)
  {
    pitchnames := Vocabulary(notes);
    var noteToInt := NoteToInt(pitchnames);
    CorpusKnown(notes);
    ghost var contexts := Contexts(noteToInt, notes, sequenceLength);
    ghost var targets := Targets(noteToInt, notes, sequenceLength);
    networkInput := [];
    networkOutput := [];
    var i := 0;
    while i < |notes| - sequenceLength
      invariant 0 <= i <= PairCount(|notes|, sequenceLength)
      invariant networkInput == contexts[..i]
      invariant networkOutput == targets[..i]
    {
      PairAt(noteToInt, notes, sequenceLength, i);
      var seqIn := notes[i..i + sequenceLength];
      var seqOut := notes[i + sequenceLength];
      networkInput := networkInput + [Ids(noteToInt, seqIn)];
      networkOutput := networkOutput + [noteToInt[seqOut]];
      TakeSnoc(contexts, i);
      TakeSnoc(targets, i);
      i := i + 1;
    }
  }
}
