# Symbolic music pipeline, FAQ matcher and translator helpers, in Dafny

This project models the core logic of three small Python applications from one
repository and proves the properties their code promises.

- **Music generation** (`Music_Generation_AI`). Parsed songs are walked into a
  token stream: a note becomes its pitch name, a chord the dot-joined decimal
  texts of its normal-order pitch classes. The tokens get a sorted vocabulary
  and a dense id map, and are cut into stride-1 (context, next token) training
  pairs. Generation picks a seed window, then runs an autoregressive loop. The
  loop has a sliding pattern buffer of fixed length and a sawtooth temperature
  schedule. `create_midi` reads the tokens back as timed notes and chords,
  skipping the ones that fail.
- **FAQ chatbot** (`FAQ_Chatbot/backend/app.py`, `find_best_answer`). The
  message is lower-cased, stripped of punctuation and split into words. A
  greeting short-circuits. Otherwise every FAQ is scored by its keywords and
  the earliest maximum wins, with a fallback reply when nothing scores.
- **Translator page** (`Language_Translator/app.py`):
  - the language table and its reverse lookup from name to code;
  - the escape used to copy a translation to the clipboard;
  - the gTTS code mapping;
  - request validation;
  - the Swap, Translate, Clear and Clear History updates of the session state,
    with the select boxes' preselection on every rerun;
  - the shortening of history texts.

Modules, one per file:

| module | file | models |
|---|---|---|
| `Wrappers` | wrappers.dfy | `Option` and `Result` for Python's exceptions |
| `PyStr` | pystr.dfy | `str.isspace`, `strip()`, `split()`, `split(sep)`, `join`, `replace`, ASCII `lower()` |
| `PyInt` | pyint.dfy | `str(int)` and `int(str)` in base 10 |
| `StrOrder` | strorder.dfy | Python's `<` on `str`, and strictly sorted sequences |
| `Preprocess` | preprocess.dfy | `extract_notes`, `prepare_sequences` |
| `Generation` | generation.dfy | `prepare_seed_sequence`, `generate_notes` |
| `MidiOut` | midiout.dfy | `create_midi` up to the file write |
| `FaqBot` | faqbot.dfy | `find_best_answer` |
| `LanguageTable` | languagetable.dfy | `get_languages`, `get_language_code` |
| `Translator` | translator.dfy | escape, TTS codes, validation, history texts, the session |

Imperative code stays imperative. `extract_notes`, `prepare_sequences`,
`generate_notes`, `create_midi`, `find_best_answer` and `get_language_code`
are methods with loops. All but `find_best_answer` are proved equal to a
specification function, and the properties are proved about those functions.
`find_best_answer` is characterised directly: the greeting reply, the
fallback, or the answer of the earliest FAQ with the highest positive score. The Streamlit session is the
class `Translator.Session`, with one field per `st.session_state` entry. Each
button is a method on it. The pattern list that `generate_notes` shares with
its caller is the class `Generation.IdList`.

Foreign code is represented as follows:
- The music21 elements are the datatype `Note(pitchName) | Chord(normalOrder) | Other`.
- music21's acceptance of a pitch name and of a MIDI number are the predicate
  parameters `validName` and `validMidi`.
- The network together with `sample_with_temperature` is the oracle `sample`.
  It maps a step number, the current pattern and the temperature
  (in units of 1/300) to an index. `Bounded` says every index it returns is
  below the vocabulary size.
- The random start of the seed is the parameter `start`.
- The translation service's answer is a `Result` parameter of
  `Session.Translate`.
- The FAQ list is a parameter.
- Offsets are counted in half-beats: the model records the offset each
  element is given before it is appended.

## Model

| member | source | states |
|---|---|---|
| Preprocess.Token | Music_Generation_AI/preprocess.py:51-54 | defines the token of a note, its pitch name, and of a chord, the dot-joined `str` of its pitch classes; ChordTokenParts, NoteRoundTrip and ChordRoundTrip state what it means |
| Preprocess.ChordTokenParts | Music_Generation_AI/preprocess.py:52-54 | a chord with k >= 1 pitch classes gives a token that splits at `.` into exactly k parts, the k-th being `str` of its k-th pitch class |
| Preprocess.Tokens | Music_Generation_AI/preprocess.py:49-54 | a traversal gives at most one token per element; TokensStep, TokensAppend and TokensCount state which |
| Preprocess.TokensAppend | Music_Generation_AI/preprocess.py:49-54 | the tokens of two concatenated traversals are the concatenated tokens, so tokens keep traversal order |
| Preprocess.TokensCount | Music_Generation_AI/preprocess.py:49-54 | the stream has exactly one token per note or chord; other elements add none |
| Preprocess.TokensStep | Music_Generation_AI/preprocess.py:50-54 | one more element adds its token at the end, or nothing for an element that is neither note nor chord |
| Preprocess.FlattenStep | Music_Generation_AI/preprocess.py:49-50 | one more song adds its elements after those of the earlier songs |
| Preprocess.ExtractNotes | Music_Generation_AI/preprocess.py:41-58 | the loop over songs and elements returns the tokens of all songs' elements, song after song, in traversal order |
| Preprocess.Insert | Music_Generation_AI/preprocess.py:65 | inserting into a strictly sorted sequence keeps it strictly sorted, and adds exactly the new element |
| Preprocess.Vocabulary | Music_Generation_AI/preprocess.py:65 | `sorted(set(notes))` is strictly increasing and has exactly the tokens of `notes` as elements |
| Preprocess.VocabularyDeterministic | Music_Generation_AI/preprocess.py:65 | two corpora with the same set of tokens have the same vocabulary |
| Preprocess.VocabularyPermutation | Music_Generation_AI/preprocess.py:65 | reordering the corpus does not change the vocabulary |
| Preprocess.NoteToInt | Music_Generation_AI/preprocess.py:66 | the keys of `note_to_int` are the vocabulary entries, and each maps to a position holding that entry |
| Preprocess.NoteToIntLast | Music_Generation_AI/preprocess.py:66 | no position after a token's id holds the token: a later pair of the comprehension overwrites an earlier one |
| Preprocess.NoteToIntAt | Music_Generation_AI/preprocess.py:66 | on a vocabulary, `note_to_int[pitchnames[i]] == i` |
| Preprocess.NoteToIntBijective | Music_Generation_AI/preprocess.py:66 | the id map is a bijection from the vocabulary onto `[0, len(pitchnames))` |
| Preprocess.WindowEncodes | Music_Generation_AI/preprocess.py:72-75 | every window of the corpus is known to the id map, and its ids name, in the vocabulary, exactly the window's tokens |
| Preprocess.CorpusKnown | Music_Generation_AI/preprocess.py:65-76 | every token of the corpus has an id, so no lookup raises `KeyError` |
| Preprocess.PairAt | Music_Generation_AI/preprocess.py:71-76 | pair i has as input the ids `[note_to_int[n] for n in notes[i..i+L)]` and as output the id of `notes[i+L]` |
| Preprocess.PairEncodes | Music_Generation_AI/preprocess.py:75-76 | for any id map into the vocabulary, pair i's ids are in range and name the window's tokens and the next token |
| Preprocess.PairsEncode | Music_Generation_AI/preprocess.py:71-79 | every id of every input and output lies in `[0, n_vocab)` and names the token it was made from |
| Preprocess.PrepareSequences | Music_Generation_AI/preprocess.py:61-89 | the loop returns the vocabulary, and exactly `max(0, len(notes) - sequence_length)` pairs, those `PairAt` describes, in start-position order |
| Generation.IdMapsInverse | Music_Generation_AI/generate_music.py:49 | on a vocabulary, `int_to_note` (keys `[0, len(pitchnames))`, key i naming `pitchnames[i]`) and `note_to_int` are inverse to each other |
| Generation.PrepareSeed | Music_Generation_AI/generate_music.py:27-35 | fails for an empty `randint` range (`len(notes) <= L + 1`) or an unknown token; otherwise returns L ids, the j-th naming `notes[start + j]` |
| Generation.SeedFromOwnVocabulary | Music_Generation_AI/generate_music.py:29-34 | with the corpus's own vocabulary, a long enough corpus always gives a seed |
| Generation.Temperature | Music_Generation_AI/generate_music.py:60 | the temperature of every step, in units of 1/300, lies between 210 and 309, that is between 0.7 and 1.03 |
| Generation.Phase | Music_Generation_AI/generate_music.py:60 | the position of a step within its block of 100 steps is below 100 |
| Generation.PhaseIsRemainder | Music_Generation_AI/generate_music.py:60 | that position is `i % 100` |
| Generation.TemperatureExact | Music_Generation_AI/generate_music.py:60 | the temperature of step i is exactly `0.7 + (i % 100) / 300` |
| Generation.TemperatureBounds | Music_Generation_AI/generate_music.py:60 | as a real number the temperature always lies in `[0.7, 1.03]` |
| Generation.TemperaturePeriodic | Music_Generation_AI/generate_music.py:60 | steps i and i + 100 have the same temperature |
| Generation.TemperatureRises | Music_Generation_AI/generate_music.py:60 | the temperature strictly rises within each block of 100 steps |
| Generation.Draw | Music_Generation_AI/generate_music.py:58-61 | defines the index of step i as the oracle's answer for the current pattern at step i's temperature; IndicesInRange and FirstIndex state its properties |
| Generation.IndicesLength | Music_Generation_AI/generate_music.py:54-61 | n steps sample n indices |
| Generation.PatternLength | Music_Generation_AI/generate_music.py:67-68 | appending an index and dropping the oldest keeps the pattern at the length of the seed after every step |
| Generation.PatternWindow | Music_Generation_AI/generate_music.py:67-68 | after n steps the pattern is the last `len(seed)` elements of the seed followed by the n sampled indices |
| Generation.IndicesInRange | Music_Generation_AI/generate_music.py:58-64 | every sampled index names a vocabulary entry |
| Generation.Generated | Music_Generation_AI/generate_music.py:54-65 | n steps emit n tokens |
| Generation.GeneratedDecodes | Music_Generation_AI/generate_music.py:54-65 | output[i] is `int_to_note` of the i-th sampled index: the output is `[int_to_note[index] for index in indices]` |
| Generation.DecodeEncodes | Music_Generation_AI/generate_music.py:64 | decoding the ids of tokens gives the tokens back |
| Generation.IdList.Append | Music_Generation_AI/generate_music.py:67 | `list.append` adds the id at the end of the same list |
| Generation.IdList.Tail | Music_Generation_AI/generate_music.py:68 | `list[1:]` is a new list without the first element, and the old list is untouched |
| Generation.GenerateNotes | Music_Generation_AI/generate_music.py:47-74 | the loop returns `num_notes` tokens, equal to `Generated`; the caller's seed list gains exactly the first sampled index, appended in place before `pattern` is rebound |
| Generation.GenerationStep | Music_Generation_AI/generate_music.py:60-68 | the index sampled at a step names a vocabulary entry, slides the pattern into the next step's pattern, and extends the output by that entry |
| Generation.FirstIndex | Music_Generation_AI/generate_music.py:58-67 | the first sampled index is drawn from the seed itself |
| Generation.IndicesPrefix | Music_Generation_AI/generate_music.py:54-61 | the first m sampled indices do not depend on how many steps follow |
| MidiOut.ChordPitches | Music_Generation_AI/generate_music.py:94-102 | a chord is built exactly when every part, read with `int()`, parsed to an accepted MIDI number, and then it holds those numbers in order |
| MidiOut.DecodeToken | Music_Generation_AI/generate_music.py:93-109 | defines the `try` body for one token: a dotted token is a chord of its parts, any other a note name, failure raises; ChordRoundTrip, NoteRoundTrip, BadPartDropsToken and SingleClassChord state what it does |
| MidiOut.Decode | Music_Generation_AI/generate_music.py:88-109 | defines the handling of one element: `None` and `""` are skipped, the rest decoded; its properties are DecodeToken's |
| MidiOut.Sounds | Music_Generation_AI/generate_music.py:88-114 | the tokens give at most one sound each; SoundsStep, SoundsAppend and EventCount state which |
| MidiOut.SoundsStep | Music_Generation_AI/generate_music.py:88-114 | one more token adds its sound at the end, or nothing when it is skipped or raises |
| MidiOut.TimedAppend | Music_Generation_AI/generate_music.py:103-111 | a new sound goes at the offset equal to the number of earlier sounds |
| MidiOut.CreateMidi | Music_Generation_AI/generate_music.py:77-115 | the stream is the tempo mark 100 followed by one event per decodable token, the k-th given offset k half-beats; skipped and failing tokens neither add an event nor move the offset |
| MidiOut.SoundsAppend | Music_Generation_AI/generate_music.py:88-114 | the sounds of concatenated token lists are the concatenated sounds |
| MidiOut.EventCount | Music_Generation_AI/generate_music.py:88-114 | the stream holds exactly as many events as there are decodable tokens |
| MidiOut.ChordPitchesOf | Music_Generation_AI/generate_music.py:94-102 | parts that all parse to accepted numbers give exactly those numbers |
| MidiOut.ChordRoundTrip | Music_Generation_AI/generate_music.py:93-102 | the token of a chord with at least two accepted pitch classes is read back as the chord of exactly those numbers |
| MidiOut.NoteRoundTrip | Music_Generation_AI/generate_music.py:105-109 | an accepted pitch name without a dot is read back as the note of that name |
| MidiOut.BadPartDropsToken | Music_Generation_AI/generate_music.py:93-114 | one unparsable part drops the whole chord token |
| MidiOut.SingleClassChord | Music_Generation_AI/generate_music.py:93-109 | the token of a one-class chord has no dot and is read on the note path |
| FaqBot.RemovePunctuation | FAQ_Chatbot/backend/app.py:25-26 | the result is no longer than the message and holds no punctuation |
| FaqBot.RemovePunctuationKeeps | FAQ_Chatbot/backend/app.py:25-26 | a character survives exactly when it occurs and is not punctuation |
| FaqBot.RemovePunctuationAppend | FAQ_Chatbot/backend/app.py:25-26 | the deletion works piecewise on concatenations |
| FaqBot.RemovePunctuationUnchanged | FAQ_Chatbot/backend/app.py:25-26 | text without punctuation passes through unchanged |
| FaqBot.RemovePunctuationAll | FAQ_Chatbot/backend/app.py:25-26 | text made only of punctuation disappears |
| FaqBot.RemovePunctuationGlue | FAQ_Chatbot/backend/app.py:25-26 | punctuation between two pieces is deleted, not replaced, so the pieces are glued |
| FaqBot.Words | FAQ_Chatbot/backend/app.py:24-27 | every word is non-empty and holds no whitespace |
| FaqBot.WordsAreWholeWords | FAQ_Chatbot/backend/app.py:24-27 | a string is a word exactly when it is a maximal whitespace-free run of the cleaned message |
| FaqBot.HyphenatedWord | FAQ_Chatbot/backend/app.py:24-27 | "Sub-mission?" is the single word "submission" |
| FaqBot.IsGreeting | FAQ_Chatbot/backend/app.py:30-33 | defines the greeting test, some greeting among the words; GreetingIffWholeWord states what it means |
| FaqBot.GreetingIffWholeWord | FAQ_Chatbot/backend/app.py:24-33 | a message greets exactly when some greeting is a whole word of the lower-cased message without punctuation |
| FaqBot.Score | FAQ_Chatbot/backend/app.py:39-42 | a FAQ scores at most its number of keyword entries |
| FaqBot.ScoreExtremes | FAQ_Chatbot/backend/app.py:39-42 | the score is 0 exactly when no entry is among the words, and full exactly when every entry is |
| FaqBot.KeywordScore | FAQ_Chatbot/backend/app.py:39-42 | the inner loop counts the keyword entries found among the words, repeats counting twice |
| FaqBot.FindBestAnswer | FAQ_Chatbot/backend/app.py:17-54 | a greeting word gives the greeting reply; all scores 0 (also no FAQs or no words) gives the fallback; else the answer of a FAQ with score >= 1, at least every other score, and strictly above every earlier score |
| FaqBot.BestFaqUnique | FAQ_Chatbot/backend/app.py:44-46 | the earliest maximum is unique, so ties never replace an earlier winner |
| FaqBot.GreetingIsWholeWord | FAQ_Chatbot/backend/app.py:30-33 | a greeting inside another word does not count: "this" is not a greeting |
| LanguageTable.P13Sorted | Language_Translator/app.py:115-142 | after the leading 'auto' entry the display names strictly increase |
| LanguageTable.ChineseVariants | Language_Translator/app.py:118-119 | the three Chinese names are in order |
| LanguageTable.AutoDetectUnique | Language_Translator/app.py:113-143 | no later entry is named "Auto Detect" |
| LanguageTable.NamesDistinct | Language_Translator/app.py:113-143 | the display names, `list(languages.values())`, are pairwise distinct |
| LanguageTable.NameOf | Language_Translator/app.py:274 | `languages[code]` succeeds exactly for the codes of the table and gives the name of the code's first entry |
| LanguageTable.CodeFor | Language_Translator/app.py:146-152 | the code of the first entry with the given name, and 'en' when there is none |
| LanguageTable.FindCode | Language_Translator/app.py:149-152 | the loop with early return computes `CodeFor` |
| LanguageTable.GetLanguageCode | Language_Translator/app.py:146-152 | `get_language_code` looks the name up in the table of `get_languages()` |
| LanguageTable.CodeForFirst | Language_Translator/app.py:149-151 | the code returned is that of the first entry carrying the name |
| LanguageTable.CodeOfEveryName | Language_Translator/app.py:113-152 | every display name is looked up to the code of its own entry |
| LanguageTable.CodeOfNameOf | Language_Translator/app.py:146-152 | for every code c of the table, `get_language_code(languages[c]) == c` |
| LanguageTable.AutoDetectCode | Language_Translator/app.py:114 | "Auto Detect" maps to 'auto', and 'auto' to "Auto Detect" |
| LanguageTable.AutoDetectOnlyForAuto | Language_Translator/app.py:113-143 | the name stored under a code is "Auto Detect" exactly for 'auto' |
| LanguageTable.AutoOnlyAfterHead | Language_Translator/app.py:113-143 | only the leading entry has the code 'auto' |
| LanguageTable.CodeOfListedName | Language_Translator/app.py:146-152 | in such a table a listed name is looked up to a listed code, 'auto' only for "Auto Detect" |
| LanguageTable.EnglishListed | Language_Translator/app.py:121 | the default target 'en' is a code of the table |
| Translator.TtsCode | Language_Translator/app.py:180-183 | 'zh-CN' becomes 'zh', 'zh-TW' becomes 'zh-tw', every other code is unchanged; neither table spelling survives |
| Translator.TtsCodeIdempotent | Language_Translator/app.py:180-183 | mapping a mapped code again changes nothing |
| Translator.Escape | Language_Translator/app.py:205 | the two replaces never shorten the text; EscapeUnchanged, EscapeBackticks, EscapeBackslashBacktick and EscapeCarriageReturn state what they do |
| Translator.EscapeUnchanged | Language_Translator/app.py:205 | text with neither a backtick nor `${` is returned unchanged |
| Translator.EscapeBackticks | Language_Translator/app.py:205 | every backtick of the escaped text is immediately preceded by a backslash |
| Translator.TemplateValue | Language_Translator/app.py:209 | a template literal body stands for a string no longer than itself; a carriage return, alone or before a line feed, is read as a line feed |
| Translator.EscapeBackslashBacktick | Language_Translator/app.py:205-209 | the text backslash-backtick escapes to a body that JavaScript cannot read back |
| Translator.EscapeCarriageReturn | Language_Translator/app.py:205-209 | the text made of one carriage return escapes to itself, which JavaScript reads back as a line feed |
| Translator.EscapeTemplate | Language_Translator/app.py:205 | the corrected escape, which also escapes backslashes and writes a carriage return as `\r`, never shortens the text |
| Translator.EscapeTemplateRoundTrip | Language_Translator/app.py:205-209 | with backslashes and carriage returns escaped too, JavaScript reads back exactly the original text, carriage returns included |
| Translator.Preview | Language_Translator/app.py:369-370 | a text over 100 characters becomes its first 100 plus "..." (length 103); a shorter one is kept |
| Translator.PreviewIdempotent | Language_Translator/app.py:369-370 | shortening a shortened text changes nothing |
| Translator.Validate | Language_Translator/app.py:343-349 | rejects a whitespace-only text, else a source other than 'auto' equal to the target, and lets everything else through, each an if-and-only-if |
| Translator.IndexOf | Language_Translator/app.py:274 | `list.index` succeeds exactly for a listed value and gives its first position |
| Translator.Without | Language_Translator/app.py:331 | the target options are exactly the names other than "Auto Detect" |
| Translator.NameListed | Language_Translator/app.py:274 | the name stored under a code of the table is a source option |
| Translator.SourceIndexFound | Language_Translator/app.py:271-275 | the source box can be preselected exactly for the codes of the table |
| Translator.TargetIndexFound | Language_Translator/app.py:329-335 | the target box can be preselected exactly for the codes of the table other than 'auto' |
| Translator.ChosenCode | Language_Translator/app.py:271-277 | the code stored for a chosen option is a code of the table, and 'auto' only for "Auto Detect" |
| Translator.SelectCode | Language_Translator/app.py:271-277 | a box left at its preselection keeps the stored code; a picked name stores that name's code |
| Translator.SelectCodes | Language_Translator/app.py:271-337 | both boxes store their codes, and the stored codes can be preselected on the next rerun |
| Translator.DefaultsPreselectable | Language_Translator/app.py:236-239 | the initial codes 'auto' and 'en' can be preselected |
| Translator.PreselectableIffFound | Language_Translator/app.py:274-334 | both preselection lookups succeed exactly for a source code of the table and a target code of the table other than 'auto' |
| Translator.Session.Render | Language_Translator/app.py:255-337 | a rerun stores the text area's value and the codes of the boxes' names, and leaves the page drawable |
| Translator.Session.SwapAsWritten | Language_Translator/app.py:297-304 | the codes are exchanged; a non-empty translation becomes the source text and is emptied, otherwise both texts are unchanged |
| Translator.Session.Swap | Language_Translator/app.py:297-304 | as the button, except that a source of 'auto' is left alone, so the page stays drawable |
| Translator.LanguageName | Language_Translator/app.py:371-372 | defines the display name `languages[code]` stored in a history entry; Translate and NameListed state its use |
| Translator.Session.Translate | Language_Translator/app.py:341-373 | a rejected or failed request changes nothing; a translation is stored and appended to the history with shortened texts and the languages' names |
| Translator.Session.Clear | Language_Translator/app.py:417-418 | both texts are emptied and nothing else changes |
| Translator.Session.ClearHistory | Language_Translator/app.py:433 | the history is emptied and nothing else changes |
| Translator.AutoTargetUnrenderable | Language_Translator/app.py:331-334 | the target code 'auto' cannot be preselected |
| Translator.SwapOnFreshSession | Language_Translator/app.py:297-334 | Swap on a new session, as written, stores 'auto' as the target, and the next rerun's target lookup fails |
| PyStr.Strip | Language_Translator/app.py:343 | `str.strip()` is empty or starts and ends with a non-whitespace character |
| PyStr.StripSlice | Language_Translator/app.py:343 | the stripped text is a slice of the input with only whitespace cut off on either side |
| PyStr.StripEmptyIffAllSpace | Language_Translator/app.py:343 | `s.strip()` is empty exactly when `s` is whitespace only |
| PyStr.StripUnchanged | Language_Translator/app.py:343 | text without whitespace at either end is its own strip |
| PyStr.SplitWhitespace | FAQ_Chatbot/backend/app.py:25-27 | `str.split()` returns non-empty words without whitespace |
| PyStr.SplitSingleWord | FAQ_Chatbot/backend/app.py:27 | text without whitespace is one word |
| PyStr.SplitWhitespaceWords | FAQ_Chatbot/backend/app.py:25-27 | a string is among the words exactly when it is a maximal whitespace-free run |
| PyStr.Join | Music_Generation_AI/preprocess.py:54 | defines `sep.join(parts)`; Split and SplitJoin state that it and `split` undo each other |
| PyStr.Split | Music_Generation_AI/generate_music.py:94 | `s.split(sep)` gives at least one piece, none holding `sep`, and joining them back gives `s` |
| PyStr.SplitJoin | Music_Generation_AI/generate_music.py:94 | splitting what was joined from pieces without `sep` gives the pieces back |
| PyStr.Replace | Language_Translator/app.py:205 | replacing by a text at least as long as the pattern never shortens; ReplaceAbsent states that text without the pattern is unchanged |
| PyStr.ReplaceAbsent | Language_Translator/app.py:205 | `replace` leaves text without the pattern unchanged |
| PyStr.Lower | FAQ_Chatbot/backend/app.py:24 | no ASCII capital is left, every character other than a capital stays in place, and the length is kept |
| PyStr.LowerIdempotent | FAQ_Chatbot/backend/app.py:24 | lowering lowered text changes nothing |
| PyInt.IntToStr | Music_Generation_AI/preprocess.py:54 | defines `str(n)`, a minus sign for negative numbers then the digits; IntToStrShape and ParseIntToStr state its properties |
| PyInt.ParseInt | Music_Generation_AI/generate_music.py:98 | defines `int(s)` on ASCII digits, `None` for `ValueError`; ParseIntToStr and BadPartDropsToken state its properties |
| PyInt.NatToDecimal | Music_Generation_AI/preprocess.py:54 | the decimal text of a natural number is made of digits |
| PyInt.IntToStrShape | Music_Generation_AI/preprocess.py:54 | `str(n)` is non-empty and made of digits and a minus sign |
| PyInt.DecimalValue | Music_Generation_AI/generate_music.py:98 | the digits of a number spell the number |
| PyInt.ParseIntToStr | Music_Generation_AI/generate_music.py:98 | `int(str(n)) == n` for every integer n |
| StrOrder.Lt | Music_Generation_AI/preprocess.py:65 | defines Python's `<` on `str`, by code point with a proper prefix first; LtIrreflexive, LtAsymmetric, LtTransitive, LtTotal and LtPrefix state that it is a strict total order |
| StrOrder.LtIrreflexive | Music_Generation_AI/preprocess.py:65 | no string is below itself |
| StrOrder.LtAsymmetric | Music_Generation_AI/preprocess.py:65 | two strings are never below each other |
| StrOrder.LtTransitive | Music_Generation_AI/preprocess.py:65 | Python's string order is transitive |
| StrOrder.LtTotal | Music_Generation_AI/preprocess.py:65 | any two distinct strings are ordered one way or the other |
| StrOrder.LtPrefix | Music_Generation_AI/preprocess.py:65 | a proper prefix comes before the longer string |
| StrOrder.SortedUnique | Music_Generation_AI/preprocess.py:65 | two strictly sorted sequences with the same elements are equal |
| StrOrder.SortedDistinct | Music_Generation_AI/preprocess.py:65 | a strictly sorted sequence has no repeated element |

## Left out

- File I/O is not modelled: MIDI discovery and parsing, pickling, `midi_stream.write`, `os.makedirs` and the FAQ JSON file. Songs come in as element sequences, the FAQ list is a parameter, and `create_midi` returns the stream instead of writing it.
- music21 is not modelled. `normalOrder` is given, and `note.Note(name)` and `note.Note(int)` are the predicates `validName` and `validMidi`. The instrument and the chord object's construction are not modelled.
- The Keras prediction and the log/exp/renormalise arithmetic of `sample_with_temperature` are the oracle `sample`. It receives the temperature as a natural number in units of 1/300, which is exact. `Generation.TemperatureExact` proves that this value over 300 is the source's `0.7 + (i % 100) / 300`.
- The division by `n_vocab` and the numpy reshapes are not modelled. `PrepareSequences` returns the integer ids, and `GenerateNotes` passes the integer pattern to the oracle.
- `np.random.randint` is the parameter `start`. Only its range is stated, as a precondition that holds whenever the range is non-empty. An empty range is the `EmptyRange` failure.
- Offsets are natural numbers of half-beats; offset k stands for `0.5 * k` beats.
- CreateMidi: the offset modelled is the one assigned to each note or chord before `midi_stream.append`. music21's `Stream.append` places an element at the stream's current end, so the offsets in the written file are not modelled; music21's code is not part of this model.
- `PyStr.Lower` lowers the ASCII letters only, not all of Unicode.
- The Streamlit rendering, markdown, spinners, `st.rerun`, the translatepy and gTTS calls, and the base64 audio are not modelled. The translation result and the timestamp are parameters of `Session.Translate`.
- The history display of the last five entries is not modelled.
- Translator.TemplateValue reads only the escapes `\\`, `` \` ``, `\$`, `\r` and `\n`. Any other escape sequence, such as `\t` or `\u`, counts as unreadable.
- The HTML context around the script, such as a `</script>` inside the text, is not modelled.
- The dictionary literal of `get_languages` has distinct keys, so insertion order equals the order of the pairs. `NameOf` takes the first entry of a code, which is the same thing.
- The Flask route, CORS and the frontend are not modelled.
- With fewer tokens than `sequence_length`, the code creates no pairs. It does not raise an error, and the model follows the code.

## Findings

| source | as written | input that shows it | evidently intended | confidence | as-written member | corrected member |
|---|---|---|---|---|---|---|
| Language_Translator/app.py:297-299 | Swap exchanges the codes even when the source is 'auto', so the target becomes 'auto'. The next rerun looks "Auto Detect" up among the target options, which exclude it, and `list.index` raises `ValueError` | a fresh session (source 'auto', target 'en'), then Swap | Swap keeps the page drawable; with source 'auto' there is nothing to exchange | not executed | Translator.SwapOnFreshSession | Translator.Session.Swap |
| Language_Translator/app.py:205 | The clipboard escape escapes backticks and `${` but not backslashes. A backslash before a backtick makes the added backslash an escaped one, and the backtick then closes the template literal | a translation consisting of a backslash followed by a backtick | every character of the text is read back by the script | not executed | Translator.EscapeBackslashBacktick | Translator.EscapeTemplateRoundTrip |
| Language_Translator/app.py:205 | The clipboard escape leaves a carriage return as it is. A template literal reads a carriage return, alone or before a line feed, as a line feed, so the copied text differs from the translation | a translation consisting of one carriage return | the copied text is the translation | not executed | Translator.EscapeCarriageReturn | Translator.EscapeTemplateRoundTrip |
