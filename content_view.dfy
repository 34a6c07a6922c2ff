/** The round bookkeeping of the word-scramble screen: the words accepted so
    far (newest first), the root word of the round and the text being typed.
    `addNewWord` accepts the typed text, `startGame` picks a root word from
    the bundled word list. */
module WordScramble {
  import opened Wrappers
  import opened Text

  /** The three state fields of the screen, as one value. */
  datatype RoundState = RoundState(usedWords: seq<string>, rootWord: string, newWord: string)

  /** How `startGame` ends: normally, or by stopping the process. */
  datatype Launch = Started | Fatal(message: string)

  const Newline: char := '\n'
  const DefaultRootWord: string := "silkworm"
  const LoadFailure: string := "Could not load tart.txt from bundle"

  /** The answer `addNewWord` derives from the typed text: lower-cased,
      then trimmed of whitespace and newlines. */
  function Answer(typed: string): (a: string)
    ensures forall k :: 0 <= k < |a| ==> !IsUpper(a[k])
    ensures a != [] ==> !IsWhitespace(a[0]) && !IsWhitespace(a[|a| - 1])
    ensures a == [] <==> AllWhitespace(typed)
  {
    TrimmedIsSlice(Lowercased(typed));
    LowercasedKeepsWhitespace(typed);
    Trimmed(Lowercased(typed))
  }

  /** The state after `addNewWord`. */
  function AfterAddNewWord(s: RoundState): RoundState {
    var answer := Answer(s.newWord);
    if |answer| == 0 then s
    else s.(usedWords := [answer] + s.usedWords, newWord := "")
  }

  /** `randomElement()` with the random source made a parameter: no element
      of an empty list, otherwise the element that `choice` selects. */
  function RandomElement<T>(xs: seq<T>, choice: nat): (r: Option<T>)
    ensures r.None? <==> xs == []
    ensures r.Some? ==> r.value in xs
    ensures choice < |xs| ==> r == Some(xs[choice])
  {
    if xs == [] then None else Some(xs[choice % |xs|])
  }

  /** The state after `startGame`, given the contents of the word list file
      (`None` when it cannot be found or read) and the random choice. When
      the file is missing the process stops, so the state is left alone. */
  function AfterStartGame(s: RoundState, startWords: Option<string>, choice: nat): RoundState {
    match startWords
    case None => s
    case Some(text) =>
      var allWords := Components(text, Newline);
      s.(rootWord := RandomElement(allWords, choice).GetOr(DefaultRootWord))
  }

  class ContentView {
    var usedWords: seq<string>
    var rootWord: string
    var newWord: string

    function State(): RoundState
      reads this
    {
      RoundState(usedWords, rootWord, newWord)
    }

    /** Every field starts out empty. */
    constructor ()
      ensures State() == RoundState([], "", "")
    {
      usedWords := [];
      rootWord := "";
      newWord := "";
    }

    /** Submitting the text field: an answer that is empty after
        normalisation is ignored; any other answer is put in front of the
        used words and the text field is cleared. */
    method AddNewWord()
      modifies this
      ensures State() == AfterAddNewWord(old(State()))
    {
      var answer := Trimmed(Lowercased(newWord));
      if |answer| == 0 {
        return;
      }
      usedWords := [answer] + usedWords;
      newWord := "";
    }

    /** Loading the word list, splitting it into lines and picking the root
        word among them, with "silkworm" if there were none; a missing or
        unreadable file is fatal. */
    method StartGame(startWords: Option<string>, choice: nat) returns (outcome: Launch)
      modifies this
      ensures outcome == if startWords.Some? then Started else Fatal(LoadFailure)
      ensures State() == AfterStartGame(old(State()), startWords, choice)
    {
      if startWords.Some? {
        var allWords := Components(startWords.value, Newline);
        rootWord := RandomElement(allWords, choice).GetOr(DefaultRootWord);
        return Started;
      }
      return Fatal(LoadFailure);
    }
  }

  // Properties of addNewWord

  /** The answer is the trimmed text with its letters lower-cased: trimming
      first gives the same answer, and normalising an answer again leaves
      it as it is. */
  lemma AnswerIsLoweredTrim(typed: string)
    ensures Answer(typed) == Lowercased(Trimmed(typed))
    ensures Answer(Answer(typed)) == Answer(typed)
  {
    LowercasedTrimmedCommute(typed);
    var a := Answer(typed);
    assert Lowercased(a) == a by {
      forall k | 0 <= k < |a| ensures Lowercased(a)[k] == a[k] {
        assert !IsUpper(a[k]);
      }
    }
    TrimmedIdempotent(Lowercased(typed));
  }

  /** An answer that is empty after normalisation changes nothing: the used
      words stay, and the text field is not cleared either. */
  lemma IgnoredWhenBlank(s: RoundState)
    requires AllWhitespace(s.newWord)
    ensures AfterAddNewWord(s) == s
  {
  }

  /** A non-blank answer is put in front of the used words, which grow by
      exactly one and keep their order one place further on; the text field
      is cleared and the root word stays. */
  lemma AcceptedWhenNotBlank(s: RoundState)
    requires !AllWhitespace(s.newWord)
    ensures var t := AfterAddNewWord(s);
            |t.usedWords| == |s.usedWords| + 1 &&
            t.usedWords[0] == Answer(s.newWord) && t.usedWords[0] != "" &&
            (forall k :: 0 <= k < |s.usedWords| ==> t.usedWords[k + 1] == s.usedWords[k]) &&
            t.newWord == "" && t.rootWord == s.rootWord
  {
  }

  /** `addNewWord` never touches the root word. */
  lemma AddNewWordKeepsRoot(s: RoundState)
    ensures AfterAddNewWord(s).rootWord == s.rootWord
  {
  }

  /** The user types `text` into the field and submits it. */
  function Submit(s: RoundState, text: string): RoundState {
    AfterAddNewWord(s.(newWord := text))
  }

  /** Submitting each of `texts` in turn. */
  function SubmitAll(s: RoundState, texts: seq<string>): RoundState
    decreases |texts|
  {
    if texts == [] then s else SubmitAll(Submit(s, texts[0]), texts[1..])
  }

  /** The answers of the texts that are not blank, in submission order. */
  function Answers(texts: seq<string>): seq<string>
    decreases |texts|
  {
    if texts == [] then []
    else (if Answer(texts[0]) == "" then [] else [Answer(texts[0])]) + Answers(texts[1..])
  }

  function Reversed<T>(xs: seq<T>): seq<T>
    decreases |xs|
  {
    if xs == [] then [] else Reversed(xs[1..]) + [xs[0]]
  }

  /** After a series of submissions the used words are the non-blank
      answers, the newest first, in front of the words used before; the
      root word has not changed. */
  lemma {:induction false} SubmitAllOrder(s: RoundState, texts: seq<string>)
    ensures SubmitAll(s, texts).usedWords == Reversed(Answers(texts)) + s.usedWords
    ensures SubmitAll(s, texts).rootWord == s.rootWord
    decreases |texts|
  {
    if texts != [] {
      var head := if Answer(texts[0]) == "" then [] else [Answer(texts[0])];
      var s' := Submit(s, texts[0]);
      SubmitStep(s, texts[0]);
      assert s'.usedWords == head + s.usedWords && s'.rootWord == s.rootWord;
      SubmitAllOrder(s', texts[1..]);
      assert Answers(texts) == head + Answers(texts[1..]);
      ReversedAppend(head, Answers(texts[1..]));
      assert Reversed(head) == head;
    }
  }

  /** One submission adds the answer, when it is not blank, in front. */
  lemma SubmitStep(s: RoundState, text: string)
    ensures Submit(s, text).usedWords ==
            (if Answer(text) == "" then [] else [Answer(text)]) + s.usedWords
    ensures Submit(s, text).rootWord == s.rootWord
  {
    if Answer(text) == "" {
      assert [] + s.usedWords == s.usedWords;
    }
  }

  lemma {:induction false} ReversedAppend<T>(xs: seq<T>, ys: seq<T>)
    ensures Reversed(xs + ys) == Reversed(ys) + Reversed(xs)
    decreases |xs|
  {
    if xs == [] {
      assert xs + ys == ys;
    } else {
      assert (xs + ys)[1..] == xs[1..] + ys;
      ReversedAppend(xs[1..], ys);
    }
  }

  /** Three non-blank submissions leave their answers newest first. */
  lemma ThreeSubmissions(s: RoundState, w1: string, w2: string, w3: string)
    requires !AllWhitespace(w1) && !AllWhitespace(w2) && !AllWhitespace(w3)
    ensures SubmitAll(s, [w1, w2, w3]).usedWords == [Answer(w3), Answer(w2), Answer(w1)] + s.usedWords
  {
    assert Answer(w1) != "" && Answer(w2) != "" && Answer(w3) != "";
    ThreeAnswers(s, w1, w2, w3);
  }

  lemma ThreeAnswers(s: RoundState, w1: string, w2: string, w3: string)
    requires Answer(w1) != "" && Answer(w2) != "" && Answer(w3) != ""
    ensures SubmitAll(s, [w1, w2, w3]).usedWords == [Answer(w3), Answer(w2), Answer(w1)] + s.usedWords
  {
    var s1 := Submit(s, w1);
    var s2 := Submit(s1, w2);
    var s3 := Submit(s2, w3);
    SubmitStep(s, w1);
    SubmitStep(s1, w2);
    SubmitStep(s2, w3);
    var texts := [w1, w2, w3];
    assert texts[1..] == [w2, w3] && texts[1..][1..] == [w3] && [w3][1..] == [];
    assert SubmitAll(s2, [w3]) == SubmitAll(s3, []) == s3;
    assert SubmitAll(s1, [w2, w3]) == SubmitAll(s2, [w3]);
    assert SubmitAll(s, texts) == SubmitAll(s1, [w2, w3]);
  }

  /** There is no check for repeated answers: the same text submitted twice
      is stored twice. */
  lemma NoDuplicateCheck(s: RoundState, w: string)
    requires !AllWhitespace(w)
    ensures Submit(Submit(s, w), w).usedWords == [Answer(w), Answer(w)] + s.usedWords
  {
  }

  // Properties of startGame

  /** After the word list is read, the root word is one of its lines, and
      nothing else changes; in particular the used words stay. */
  lemma StartGamePicksLine(s: RoundState, text: string, choice: nat)
    ensures var t := AfterStartGame(s, Some(text), choice);
            t.rootWord in Components(text, Newline) &&
            t.usedWords == s.usedWords && t.newWord == s.newWord
  {
  }

  /** Every line of the word list can become the root word. */
  lemma EveryLineCanBeRoot(s: RoundState, text: string, k: nat)
    requires k < |Components(text, Newline)|
    ensures AfterStartGame(s, Some(text), k).rootWord == Components(text, Newline)[k]
  {
  }

  /** Splitting never yields an empty list, so the "silkworm" fallback is
      never taken: the root word is "silkworm" only when that is a line of
      the file. */
  lemma FallbackUnreachable(s: RoundState, text: string, choice: nat)
    ensures RandomElement(Components(text, Newline), choice).Some?
    ensures AfterStartGame(s, Some(text), choice).rootWord == DefaultRootWord ==>
            DefaultRootWord in Components(text, Newline)
  {
  }

  /** A word list that ends with a newline has an empty last line, which
      can become the root word. */
  lemma EmptyRootPossible(s: RoundState, text: string)
    requires text != [] && text[|text| - 1] == Newline
    ensures var n := |Components(text, Newline)|;
            AfterStartGame(s, Some(text), n - 1).rootWord == ""
  {
    ComponentsTrailingSeparator(text, Newline);
  }

  /** The lines of the word list are exactly its pieces between newlines:
      one more than there are newlines, none holding a newline, and joined
      with newlines they give back the file. */
  lemma WordListLines(text: string)
    ensures var lines := Components(text, Newline);
            |lines| == multiset(text)[Newline] + 1 &&
            (forall k :: 0 <= k < |lines| ==> Newline !in lines[k]) &&
            Joined(lines, Newline) == text
  {
    ComponentsCount(text, Newline);
    JoinedComponents(text, Newline);
  }
}
