/**
 * The review component's state machine: the deck, the card on screen and
 * whether its translation is shown, with the load callback and the three
 * buttons as methods.
 */
module Flashcards {
  import opened Wrappers
  import opened Cards

  /** What the CSV parser hands back: its rows, or a call of its error callback. */
  datatype ParseResult = Complete(data: seq<Row>) | Failed

  /** Which notice, if any, the load callback raises. */
  datatype LoadOutcome = Loaded | InvalidFormat | ParseError

  class App {
    var flashcards: seq<Card>
    /** Position in `flashcards` of the card on screen. */
    var currentCard: Option<nat>
    var showTranslation: bool

    /**
     * Holds in every state the component can reach: a card is on screen
     * exactly when the deck is non-empty, that card is available, the
     * translation is only shown for a card, and every score is 0 or 1.
     */
    ghost predicate Valid()
      reads this
    {
      (currentCard.Some? <==> |flashcards| > 0) &&
      (currentCard.Some? ==> currentCard.value < |flashcards| && IsAvailable(flashcards[currentCard.value])) &&
      (showTranslation ==> currentCard.Some?) &&
      ScoresBinary(flashcards)
    }

    /** The initial state: no deck, no card, translation hidden. */
    constructor ()
      ensures Valid()
      ensures flashcards == [] && currentCard == None && !showTranslation
    {
      flashcards := [];
      currentCard := None;
      showTranslation := false;
    }

    /**
     * Puts a random available card on screen with its translation hidden;
     * when no card is available, leaves the screen as it is (the
     * congratulation notice). Always called right after the deck is stored,
     * on that same deck.
     */
    method UpdateCard()
      modifies this`currentCard, this`showTranslation
      ensures WordsLeft(flashcards) > 0 ==>
        currentCard.Some? && currentCard.value < |flashcards| &&
        IsAvailable(flashcards[currentCard.value]) && !showTranslation
      ensures WordsLeft(flashcards) == 0 ==>
        currentCard == old(currentCard) && showTranslation == old(showTranslation)
    {
      var candidates := AvailableIndices(flashcards);
      if |candidates| > 0 {
        var k :| 0 <= k < |candidates|;
        currentCard := Some(candidates[k]);
        showTranslation := false;
      }
    }

    /**
     * The parser's completion and error callbacks: an accepted file replaces
     * the deck with its rows, all scored 0, and a card is picked; a rejected
     * file or a parse error changes nothing.
     */
    method Load(result: ParseResult) returns (outcome: LoadOutcome)
      requires Valid()
      modifies this
      ensures Valid()
      ensures outcome == ParseError <==> result.Failed?
      ensures outcome == Loaded <==> result.Complete? && WellFormed(result.data)
      ensures outcome != Loaded ==>
        flashcards == old(flashcards) && currentCard == old(currentCard) &&
        showTranslation == old(showTranslation)
      ensures outcome == Loaded ==>
        |flashcards| == |result.data| &&
        (forall i :: 0 <= i < |flashcards| ==> flashcards[i] == Card(result.data[i], 0)) &&
        currentCard.Some? && !showTranslation
    {
      match result
      case Failed =>
        outcome := ParseError;
      case Complete(data) =>
        if WellFormed(data) {
          var cards := ZeroScores(data);
          flashcards := cards;
          BinaryDeckFullyAvailable(flashcards);
          UpdateCard();
          outcome := Loaded;
        } else {
          outcome := InvalidFormat;
        }
    }

    /** The "Reveal" button, enabled only while a card is on screen. */
    method RevealTranslation()
      requires Valid() && currentCard.Some?
      modifies this`showTranslation
      ensures Valid() && showTranslation
    {
      showTranslation := true;
    }

    /**
     * The "Keep Practicing" button, enabled only once the translation is shown:
     * the current card's score goes back one step, never below 0, and a new
     * card is picked.
     */
    method KeepPracticing()
      requires Valid() && currentCard.Some? && showTranslation
      modifies this
      ensures Valid()
      ensures flashcards == KeepPracticingCards(old(flashcards), old(currentCard.value))
      ensures currentCard.Some? && !showTranslation
    {
      RespondKeepsScoresBinary(flashcards, currentCard.value, Feedback.KeepPracticing);
      flashcards := KeepPracticingCards(flashcards, currentCard.value);
      BinaryDeckFullyAvailable(flashcards);
      UpdateCard();
    }

    /**
     * The "Done" button, enabled only once the translation is shown: the
     * current card's score becomes 1 and a new card is picked.
     */
    method MarkDone()
      requires Valid() && currentCard.Some? && showTranslation
      modifies this
      ensures Valid()
      ensures flashcards == MarkDoneCards(old(flashcards), old(currentCard.value))
      ensures currentCard.Some? && !showTranslation
    {
      RespondKeepsScoresBinary(flashcards, currentCard.value, Feedback.MarkDone);
      flashcards := MarkDoneCards(flashcards, currentCard.value);
      BinaryDeckFullyAvailable(flashcards);
      UpdateCard();
    }

    /** The `wordsLeft/totalWords` counter; in every reachable state both are the deck size. */
    method Counter() returns (wordsLeft: nat, totalWords: nat)
      requires Valid()
      ensures totalWords == |flashcards|
      ensures wordsLeft == |AvailableIndices(flashcards)|
      ensures wordsLeft == totalWords
    {
      BinaryDeckFullyAvailable(flashcards);
      totalWords := |flashcards|;
      wordsLeft := |Available(flashcards)|;
    }
  }
}
