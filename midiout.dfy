/**
 * Music_Generation_AI/generate_music.py, `create_midi`: reading the
 * generated tokens back as timed notes and chords. music21's acceptance of a
 * pitch name (`note.Note(name)`) and of a MIDI number (`note.Note(int)`) are
 * the predicates `validName` and `validMidi`; offsets are counted in
 * half-beats, so one step of `offset += 0.5` is one unit.
 */
module MidiOut {
  import opened Wrappers
  import PyStr
  import PyInt
  import Preprocess

  /** What one token becomes: a single note, or a chord of the given MIDI
      numbers. */
  datatype Sound = Single(name: string) | Chord(pitches: seq<int>)

  /** An element of the output stream: the metronome mark, or a sound at an
      offset in half-beats. */
  datatype StreamItem = MetronomeMark(bpm: nat) | Event(sound: Sound, offset: nat)

  /** `create_midi` sets the tempo to 100 beats per minute. */
  const Tempo: nat := 100

  /** `int(n)` of every part. */
  function ParseParts(parts: seq<string>): (r: seq<Option<int>>)
    ensures |r| == |parts| && forall k :: 0 <= k < |parts| ==> r[k] == PyInt.ParseInt(parts[k])
  {
    seq(|parts|, k requires 0 <= k < |parts| => PyInt.ParseInt(parts[k]))
  }

  /** The values of all parts, provided every part parsed and is a MIDI number
      music21 accepts; otherwise the first failure aborts the chord. */
  function ChordPitches(parsed: seq<Option<int>>, validMidi: int -> bool): (r: Option<seq<int>>)
    ensures r.Some? <==> forall k :: 0 <= k < |parsed| ==> parsed[k].Some? && validMidi(parsed[k].value)
    ensures r.Some? ==> |r.value| == |parsed|
    ensures r.Some? ==> forall k :: 0 <= k < |parsed| ==> Some(r.value[k]) == parsed[k]
  {
    if parsed == [] then Some([])
    else
      var last := parsed[|parsed| - 1];
      match ChordPitches(parsed[..|parsed| - 1], validMidi)
      case None => None
      case Some(init) =>
        if last.Some? && validMidi(last.value) then Some(init + [last.value]) else None
  }

  /** The body of the `try` block for one token: a token holding a `.` is a
      chord, each dot-separated part read with `int()`; any other token is a
      note name. `None` stands for the exception that skips the token. */
  function DecodeToken(token: string, validName: string -> bool, validMidi: int -> bool): Option<Sound>
  {
    if '.' in token then
      match ChordPitches(ParseParts(PyStr.Split(token, '.')), validMidi)
      case Some(pitches) => Some(Chord(pitches))
      case None => None
    else if validName(token) then Some(Single(token))
    else None
  }

  /** What the loop does with one element of `prediction_output`: `None` and
      `""` are skipped, everything else is decoded. */
  function Decode(pattern: Option<string>, validName: string -> bool, validMidi: int -> bool): Option<Sound>
  {
    if pattern == None || pattern == Some("") then None
    else DecodeToken(pattern.value, validName, validMidi)
  }

  /** The sounds of the tokens that decode, in order. */
  function Sounds(tokens: seq<Option<string>>, validName: string -> bool, validMidi: int -> bool): (r: seq<Sound>)
    ensures |r| <= |tokens|
  {
    if tokens == [] then []
    else
      var d := Decode(tokens[|tokens| - 1], validName, validMidi);
      Sounds(tokens[..|tokens| - 1], validName, validMidi) + (if d.Some? then [d.value] else [])
  }

  /** The k-th sound at offset k half-beats. */
  function Timed(sounds: seq<Sound>): (r: seq<StreamItem>)
    ensures |r| == |sounds|
    ensures forall k :: 0 <= k < |r| ==> r[k] == Event(sounds[k], k)
  {
    seq(|sounds|, k requires 0 <= k < |sounds| => Event(sounds[k], k))
  }

  /** One more token adds its sound, if it has one, at the end. */
  lemma SoundsStep(tokens: seq<Option<string>>, i: nat, validName: string -> bool, validMidi: int -> bool)
    requires i < |tokens|
    ensures Sounds(tokens[..i + 1], validName, validMidi)
            == Sounds(tokens[..i], validName, validMidi)
               + (if Decode(tokens[i], validName, validMidi).Some? then [Decode(tokens[i], validName, validMidi).value] else [])
  {
    assert tokens[..i + 1][..i] == tokens[..i];
  }

  lemma TimedAppend(sounds: seq<Sound>, x: Sound)
    ensures Timed(sounds + [x]) == Timed(sounds) + [Event(x, |sounds|)]
  {
  }

  /** `create_midi` up to the file write: the metronome mark first, then one
      event per token that decodes, the k-th of them at offset k; a token
      that is skipped or raises adds nothing and does not move the offset. */
  method CreateMidi(predictionOutput: seq<Option<string>>, validName: string -> bool, validMidi: int -> bool)
    returns (midiStream: seq<StreamItem>)
    ensures midiStream == [MetronomeMark(Tempo)] + Timed(Sounds(predictionOutput, validName, validMidi))
  {
    midiStream := [MetronomeMark(Tempo)];
    var offset: nat := 0;
    var i := 0;
    while i < |predictionOutput|
      invariant 0 <= i <= |predictionOutput|
      invariant offset == |Sounds(predictionOutput[..i], validName, validMidi)|
      invariant midiStream == [MetronomeMark(Tempo)] + Timed(Sounds(predictionOutput[..i], validName, validMidi))
    {
      var pattern := predictionOutput[i];
      SoundsStep(predictionOutput, i, validName, validMidi);
      if pattern == None || pattern == Some("") {
        i := i + 1;
        continue;
      }
      var sound := DecodeToken(pattern.value, validName, validMidi);
      if sound.None? {
        i := i + 1;
        continue;
      }
      TimedAppend(Sounds(predictionOutput[..i], validName, validMidi), sound.value);
      midiStream := midiStream + [Event(sound.value, offset)];
      offset := offset + 1;
      i := i + 1;
    }
    assert predictionOutput[..i] == predictionOutput;
  }

  /** The sounds of a concatenation are the concatenation of the sounds. */
  lemma {:induction false} SoundsAppend(a: seq<Option<string>>, b: seq<Option<string>>,
                                        validName: string -> bool, validMidi: int -> bool)
    ensures Sounds(a + b, validName, validMidi) == Sounds(a, validName, validMidi) + Sounds(b, validName, validMidi)
    decreases |b|
  {
    if b == [] {
      assert a + b == a;
    } else {
      assert (a + b)[..|a + b| - 1] == a + b[..|b| - 1];
      SoundsAppend(a, b[..|b| - 1], validName, validMidi);
    }
  }

  /** How many tokens decode. */
  function DecodableCount(tokens: seq<Option<string>>, validName: string -> bool, validMidi: int -> bool): nat
  {
    if tokens == [] then 0
    else (if Decode(tokens[0], validName, validMidi).Some? then 1 else 0)
         + DecodableCount(tokens[1..], validName, validMidi)
  }

  /** The stream holds one event per decodable token, after the metronome
      mark. */
  lemma {:induction false} EventCount(tokens: seq<Option<string>>, validName: string -> bool, validMidi: int -> bool)
    ensures |Sounds(tokens, validName, validMidi)| == DecodableCount(tokens, validName, validMidi)
    decreases |tokens|
  {
    if tokens != [] {
      assert tokens == [tokens[0]] + tokens[1..];
      SoundsAppend([tokens[0]], tokens[1..], validName, validMidi);
      EventCount(tokens[1..], validName, validMidi);
      assert [tokens[0]][..0] == [];
    }
  }

  /** Parts that parsed, one by one, to accepted MIDI numbers give exactly
      those numbers. */
  lemma {:induction false} ChordPitchesOf(parsed: seq<Option<int>>, values: seq<int>, validMidi: int -> bool)
    requires |parsed| == |values|
    requires forall k :: 0 <= k < |parsed| ==> parsed[k] == Some(values[k]) && validMidi(values[k])
    ensures ChordPitches(parsed, validMidi) == Some(values)
    decreases |parsed|
  {
    if parsed != [] {
      var n := |parsed| - 1;
      ChordPitchesOf(parsed[..n], values[..n], validMidi);
      assert values == values[..n] + [values[n]];
    }
  }

  /** A chord of at least two pitch classes, all accepted as MIDI numbers, is
      read back from its token as the chord of exactly those numbers. */
  lemma ChordRoundTrip(normalOrder: seq<int>, validName: string -> bool, validMidi: int -> bool)
    requires |normalOrder| >= 2
    requires forall k :: 0 <= k < |normalOrder| ==> validMidi(normalOrder[k])
    ensures Decode(Some(Preprocess.Token(Preprocess.Element.Chord(normalOrder))), validName, validMidi)
            == Some(Chord(normalOrder))
  {
    var parts := Preprocess.ChordParts(normalOrder);
    var token := PyStr.Join(parts, '.');
    PyInt.IntToStrShape(normalOrder[0]);
    assert token == parts[0] + ['.'] + PyStr.Join(parts[1..], '.');
    assert token[|parts[0]|] == '.';
    Preprocess.ChordTokenParts(normalOrder);
    forall k | 0 <= k < |parts| ensures PyInt.ParseInt(parts[k]) == Some(normalOrder[k]) {
      PyInt.ParseIntToStr(normalOrder[k]);
    }
    ChordPitchesOf(ParseParts(parts), normalOrder, validMidi);
  }

  /** A pitch name without a dot that music21 accepts is read back as the
      note of that name. */
  lemma NoteRoundTrip(pitchName: string, validName: string -> bool, validMidi: int -> bool)
    requires pitchName != [] && '.' !in pitchName && validName(pitchName)
    ensures Decode(Some(Preprocess.Token(Preprocess.Element.Note(pitchName))), validName, validMidi)
            == Some(Single(pitchName))
  {
  }

  /** One unparsable part drops the whole chord token. */
  lemma BadPartDropsToken(token: string, k: nat, validName: string -> bool, validMidi: int -> bool)
    requires '.' in token && k < |PyStr.Split(token, '.')|
    requires PyInt.ParseInt(PyStr.Split(token, '.')[k]).None?
    ensures Decode(Some(token), validName, validMidi) == None
  {
  }

  /** A chord of a single pitch class has no dot in its token, so it is read
      back on the note path, as a note named by the decimal text. */
  lemma SingleClassChord(x: int, validName: string -> bool, validMidi: int -> bool)
    ensures Decode(Some(Preprocess.Token(Preprocess.Element.Chord([x]))), validName, validMidi)
            == if validName(PyInt.IntToStr(x)) then Some(Single(PyInt.IntToStr(x))) else None
  {
    var parts := Preprocess.ChordParts([x]);
    assert PyStr.Join(parts, '.') == PyInt.IntToStr(x);
    PyInt.IntToStrShape(x);
  }
}
