/**
 * FAQ_Chatbot/backend/app.py, `find_best_answer`: keyword matching of a
 * user message against a list of FAQ records, with a greeting shortcut and
 * a fixed fallback reply. The FAQ list, loaded from a JSON file at start-up
 * in the source, is a parameter here.
 */
module FaqBot {
  import PyStr

  /** One record of the FAQ file: its keywords and its answer. */
  datatype Faq = Faq(keywords: seq<string>, answer: string)

  const Greetings: seq<string> := ["hi", "hello", "hey", "morning", "evening"]

  const GreetingReply: string := "Hello! I’m the Internship Assistant FAQ Bot. How can I help you?"

  const FallbackReply: string :=
    "I’m designed to answer internship-related questions. "
    + "Please ask about tasks, submission, certificates, or duration."

  /** A character of Python's `string.punctuation`: the ASCII characters
      `!"#$%&'()*+,-./:;<=>?@[\]^_`{|}~`. */
  predicate IsPunctuation(c: char)
  {
    ('!' <= c <= '/') || (':' <= c <= '@') || ('[' <= c <= '`') || ('{' <= c <= '~')
  }

  /** `s.translate(str.maketrans("", "", string.punctuation))`: punctuation
      characters are deleted, every other character is kept in order. */
  function RemovePunctuation(s: string): (r: string)
    ensures |r| <= |s|
    ensures forall k :: 0 <= k < |r| ==> !IsPunctuation(r[k])
  {
    if s == [] then []
    else (if IsPunctuation(s[0]) then [] else [s[0]]) + RemovePunctuation(s[1..])
  }

  /** Exactly the characters of `s` that are not punctuation survive. */
  lemma {:induction false} RemovePunctuationKeeps(s: string, c: char)
    ensures c in RemovePunctuation(s) <==> c in s && !IsPunctuation(c)
  {
    if s != [] {
      RemovePunctuationKeeps(s[1..], c);
      assert c in s <==> c == s[0] || c in s[1..];
    }
  }

  lemma {:induction false} RemovePunctuationAppend(a: string, b: string)
    ensures RemovePunctuation(a + b) == RemovePunctuation(a) + RemovePunctuation(b)
  {
    if a != [] {
      assert (a + b)[1..] == a[1..] + b;
      RemovePunctuationAppend(a[1..], b);
    } else {
      assert a + b == b;
    }
  }

  /** Text without punctuation passes through unchanged. */
  lemma {:induction false} RemovePunctuationUnchanged(s: string)
    requires forall k :: 0 <= k < |s| ==> !IsPunctuation(s[k])
    ensures RemovePunctuation(s) == s
  {
    if s != [] {
      RemovePunctuationUnchanged(s[1..]);
    }
  }

  /** The words of a message: lower-cased, punctuation deleted, split on
      whitespace. */
  function Words(userMessage: string): (words: seq<string>)
    ensures forall k :: 0 <= k < |words| ==> words[k] != [] && PyStr.NoSpace(words[k])
  {
    PyStr.SplitWhitespace(RemovePunctuation(PyStr.Lower(userMessage)))
  }

  /** A whole word of the cleaned message is a word, and nothing else is. */
  lemma WordsAreWholeWords(userMessage: string, w: string)
    ensures w in Words(userMessage) <==> PyStr.IsWordOf(w, RemovePunctuation(PyStr.Lower(userMessage)))
  {
    PyStr.SplitWhitespaceWords(RemovePunctuation(PyStr.Lower(userMessage)), w);
  }

  lemma LowerSubmission()
    ensures PyStr.Lower("Sub-mission?") == "sub" + "-" + "mission" + "?"
  {
  }

  /** Text made only of punctuation disappears. */
  lemma {:induction false} RemovePunctuationAll(p: string)
    requires forall k :: 0 <= k < |p| ==> IsPunctuation(p[k])
    ensures RemovePunctuation(p) == []
  {
    if p != [] {
      RemovePunctuationAll(p[1..]);
    }
  }

  /** Punctuation between two pieces of text, and after them, is deleted and
      the pieces are glued together. */
  lemma RemovePunctuationGlue(a: string, p: string, b: string, q: string)
    requires forall k :: 0 <= k < |a| ==> !IsPunctuation(a[k])
    requires forall k :: 0 <= k < |b| ==> !IsPunctuation(b[k])
    requires forall k :: 0 <= k < |p| ==> IsPunctuation(p[k])
    requires forall k :: 0 <= k < |q| ==> IsPunctuation(q[k])
    ensures RemovePunctuation(a + p + b + q) == a + b
  {
    RemovePunctuationUnchanged(a);
    RemovePunctuationUnchanged(b);
    RemovePunctuationAll(p);
    RemovePunctuationAll(q);
    RemovePunctuationAppend(a, p);
    assert RemovePunctuation(a + p) == a;
    RemovePunctuationAppend(a + p, b);
    assert RemovePunctuation(a + p + b) == a + b;
    RemovePunctuationAppend(a + p + b, q);
  }

  lemma CleanSubmission()
    ensures RemovePunctuation("sub" + "-" + "mission" + "?") == "submission"
  {
    RemovePunctuationGlue("sub", "-", "mission", "?");
    assert "sub" + "mission" == "submission";
  }

  lemma SplitSubmission()
    ensures PyStr.SplitWhitespace("submission") == ["submission"]
  {
    PyStr.LowerLettersNoSpace("submission");
    PyStr.SplitSingleWord("submission");
  }

  /** Deleting rather than replacing punctuation glues the pieces of a word:
      "Sub-mission?" is the single word "submission". */
  lemma HyphenatedWord()
    ensures Words("Sub-mission?") == ["submission"]
  {
    LowerSubmission();
    CleanSubmission();
    SplitSubmission();
  }

  /** Some greeting is among the words. */
  predicate IsGreeting(words: seq<string>)
  {
    exists g :: g in Greetings && g in words
  }

  /** The number of entries of `keywords` that occur among the words; a
      keyword listed twice counts twice. */
  function Score(keywords: seq<string>, words: seq<string>): (score: nat)
    ensures score <= |keywords|
  {
    if keywords == [] then 0
    else
      var last := keywords[|keywords| - 1];
      Score(keywords[..|keywords| - 1], words) + (if last in words then 1 else 0)
  }

  /** The score is zero exactly when no keyword entry is among the words, and
      full exactly when every one is. */
  lemma {:induction false} ScoreExtremes(keywords: seq<string>, words: seq<string>)
    ensures Score(keywords, words) == 0 <==> forall k :: 0 <= k < |keywords| ==> keywords[k] !in words
    ensures Score(keywords, words) == |keywords| <==> forall k :: 0 <= k < |keywords| ==> keywords[k] in words
    decreases |keywords|
  {
    if keywords != [] {
      var n := |keywords| - 1;
      var init := keywords[..n];
      ScoreExtremes(init, words);
      assert forall k :: 0 <= k < n ==> init[k] == keywords[k];
    }
  }

  /** The score of FAQ `i`. */
  function FaqScore(faqs: seq<Faq>, i: nat, words: seq<string>): nat
    requires i < |faqs|
  {
    Score(faqs[i].keywords, words)
  }

  /** The inner loop of `find_best_answer`: one point per keyword entry found
      among the words. */
  method KeywordScore(keywords: seq<string>, words: seq<string>) returns (score: nat)
    ensures score == Score(keywords, words)
  {
    score := 0;
    for k := 0 to |keywords|
      invariant score == Score(keywords[..k], words)
    {
      assert keywords[..k + 1][..k] == keywords[..k];
      if keywords[k] in words {
        score := score + 1;
      }
    }
    assert keywords[..|keywords|] == keywords;
  }

  /** `find_best_answer`. A greeting word wins outright. Otherwise, when no FAQ
      scores above zero (also for an empty FAQ list or an empty message) the
      fallback text is returned; else the answer of the earliest FAQ with the
      maximum score: it scores at least one, no FAQ scores more, and every
      earlier FAQ scores strictly less, since only a strictly higher score
      replaces the best so far. */
  method FindBestAnswer(faqs: seq<Faq>, userMessage: string) returns (answer: string)
    ensures IsGreeting(Words(userMessage)) ==> answer == GreetingReply
    ensures !IsGreeting(Words(userMessage)) && (forall j :: 0 <= j < |faqs| ==> FaqScore(faqs, j, Words(userMessage)) == 0)
            ==> answer == FallbackReply
    ensures !IsGreeting(Words(userMessage)) && (exists j :: 0 <= j < |faqs| && FaqScore(faqs, j, Words(userMessage)) > 0)
            ==> exists i :: 0 <= i < |faqs| && answer == faqs[i].answer && IsBestFaq(faqs, i, Words(userMessage))
  {
    var words := Words(userMessage);
    for g := 0 to |Greetings|
      invariant forall h :: 0 <= h < g ==> Greetings[h] !in words
    {
      if Greetings[g] in words {
        return GreetingReply;
      }
    }
    var bestMatchScore: nat := 0;
    var bestAnswer := "";
    ghost var best := 0;
    for i := 0 to |faqs|
      invariant bestMatchScore == 0 ==> forall j :: 0 <= j < i ==> FaqScore(faqs, j, words) == 0
      invariant bestMatchScore > 0 ==> best < i && bestAnswer == faqs[best].answer
                                       && bestMatchScore == FaqScore(faqs, best, words)
      invariant bestMatchScore > 0 ==> forall j :: 0 <= j < i ==> FaqScore(faqs, j, words) <= bestMatchScore
      invariant bestMatchScore > 0 ==> forall j :: 0 <= j < best ==> FaqScore(faqs, j, words) < bestMatchScore
    {
      var score := KeywordScore(faqs[i].keywords, words);
      if score > bestMatchScore {
        bestMatchScore := score;
        bestAnswer := faqs[i].answer;
        best := i;
      }
    }
    if bestMatchScore == 0 {
      return FallbackReply;
    }
    assert IsBestFaq(faqs, best, words);
    return bestAnswer;
  }

  /** FAQ `i` is the earliest one with the maximum score, and that score is
      positive. */
  predicate IsBestFaq(faqs: seq<Faq>, i: nat, words: seq<string>)
    requires i < |faqs|
  {
    && FaqScore(faqs, i, words) >= 1
    && (forall j :: 0 <= j < |faqs| ==> FaqScore(faqs, j, words) <= FaqScore(faqs, i, words))
    && (forall j :: 0 <= j < i ==> FaqScore(faqs, j, words) < FaqScore(faqs, i, words))
  }

  /** At most one FAQ is the earliest maximum, so the answer's FAQ is
      determined by the scores alone. */
  lemma BestFaqUnique(faqs: seq<Faq>, i: nat, j: nat, words: seq<string>)
    requires i < |faqs| && j < |faqs|
    requires IsBestFaq(faqs, i, words) && IsBestFaq(faqs, j, words)
    ensures i == j
  {
  }

  lemma CleanThis()
    ensures RemovePunctuation(PyStr.Lower("this")) == "this"
  {
    assert PyStr.Lower("this") == "this";
    RemovePunctuationUnchanged("this");
  }

  lemma SplitThis()
    ensures PyStr.SplitWhitespace("this") == ["this"]
  {
    PyStr.LowerLettersNoSpace("this");
    PyStr.SplitSingleWord("this");
  }

  /** A message greets exactly when some greeting is a whole word of the
      lower-cased message without punctuation. */
  lemma GreetingIffWholeWord(userMessage: string)
    ensures IsGreeting(Words(userMessage)) <==>
            exists g :: g in Greetings && PyStr.IsWordOf(g, RemovePunctuation(PyStr.Lower(userMessage)))
  {
    forall g ensures g in Words(userMessage) <==> PyStr.IsWordOf(g, RemovePunctuation(PyStr.Lower(userMessage))) {
      WordsAreWholeWords(userMessage, g);
    }
  }

  /** A greeting hidden inside another word does not count: "this" is not
      "hi". */
  lemma GreetingIsWholeWord()
    ensures !IsGreeting(Words("this"))
  {
    CleanThis();
    SplitThis();
  }
}
