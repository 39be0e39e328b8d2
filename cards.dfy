/**
 * The pure part of the flashcard review engine: the deck is a sequence of
 * cards, each a parsed CSV row together with its learning score. The
 * helpers here are the `filter`, `map` and counter expressions of the
 * component, and the score updates applied by the two feedback buttons.
 */
module Cards {

  /** One parsed CSV row, as the header-aware parser yields it: column name to cell text. */
  type Row = map<string, string>

  /** A row once it is in the deck, with the `learning_score` the engine maintains. */
  datatype Card = Card(fields: Row, score: int)

  /** A card is offered for review while its score is below this literal. */
  const Threshold: int := 3

  predicate IsAvailable(c: Card)
  {
    c.score < Threshold
  }

  /** Every score is 0 or 1: the only values a loaded deck ever holds. */
  predicate ScoresBinary(cards: seq<Card>)
  {
    forall i :: 0 <= i < |cards| ==> cards[i].score == 0 || cards[i].score == 1
  }

  /** The parse result is accepted: at least one row, and the first row has exactly three columns. */
  predicate WellFormed(data: seq<Row>)
  {
    |data| > 0 && |data[0].Keys| == 3
  }

  /**
   * Gives every parsed row a learning score of 0 (the `forEach` run on a
   * freshly parsed file).
   */
  method ZeroScores(rows: seq<Row>) returns (cards: seq<Card>)
    ensures |cards| == |rows|
    ensures forall i :: 0 <= i < |rows| ==> cards[i].fields == rows[i] && cards[i].score == 0
  {
    cards := [];
    var i := 0;
    while i < |rows|
      invariant 0 <= i <= |rows|
      invariant |cards| == i
      invariant forall j :: 0 <= j < i ==> cards[j].fields == rows[j] && cards[j].score == 0
    {
      cards := cards + [Card(rows[i], 0)];
      i := i + 1;
    }
  }

  /**
   * The cards still to be practised, in deck order (the component's
   * `filter(card => card.learning_score < 3)`).
   */
  function Available(cards: seq<Card>): (r: seq<Card>)
    ensures |r| <= |cards|
    ensures forall k :: 0 <= k < |r| ==> IsAvailable(r[k])
  {
    if cards == [] then []
    else
      var last := |cards| - 1;
      Available(cards[..last]) + (if IsAvailable(cards[last]) then [cards[last]] else [])
  }

  /**
   * Where each card of `Available(cards)` sits in the deck. The component
   * holds the chosen card by reference; the model holds its position.
   */
  function AvailableIndices(cards: seq<Card>): (r: seq<nat>)
    ensures |r| == |Available(cards)|
    ensures forall k :: 0 <= k < |r| ==> r[k] < |cards| && cards[r[k]] == Available(cards)[k]
    ensures forall k :: 0 <= k < |r| ==> IsAvailable(cards[r[k]])
    ensures forall k, l :: 0 <= k < l < |r| ==> r[k] < r[l]
    ensures forall i :: 0 <= i < |cards| && IsAvailable(cards[i]) ==> i in r
  {
    if cards == [] then []
    else
      var last := |cards| - 1;
      AvailableIndices(cards[..last]) + (if IsAvailable(cards[last]) then [last] else [])
  }

  /** The counter's numerator, `wordsLeft`: how many cards are still below the threshold. */
  function WordsLeft(cards: seq<Card>): (n: nat)
    ensures n <= |cards|
    ensures n == |AvailableIndices(cards)|
  {
    |Available(cards)|
  }

  /** The counter reaches the deck size exactly when every card is still below the threshold. */
  lemma {:induction false} WordsLeftIsTotalIff(cards: seq<Card>)
    ensures WordsLeft(cards) == |cards| <==> forall i :: 0 <= i < |cards| ==> IsAvailable(cards[i])
  {
    if cards != [] {
      var last := |cards| - 1;
      var init := cards[..last];
      WordsLeftIsTotalIff(init);
      assert cards == init + [cards[last]];
      assert forall i :: 0 <= i < last ==> cards[i] == init[i];
      if IsAvailable(cards[last]) {
        assert WordsLeft(cards) == WordsLeft(init) + 1;
      } else {
        assert WordsLeft(cards) == WordsLeft(init);
      }
    }
  }

  /** The filter drops no card that is still below the threshold. */
  lemma AvailableKeepsEveryAvailableCard(cards: seq<Card>, i: nat)
    requires i < |cards| && IsAvailable(cards[i])
    ensures cards[i] in Available(cards)
  {
    var idx := AvailableIndices(cards);
    var k :| 0 <= k < |idx| && idx[k] == i;
    assert Available(cards)[k] == cards[i];
  }

  /** The set of values a sequence of positions takes. */
  function Elems(s: seq<nat>): (e: set<nat>)
    ensures forall x :: x in e <==> x in s
  {
    if s == [] then {} else Elems(s[..|s| - 1]) + {s[|s| - 1]}
  }

  /** A strictly increasing sequence has as many distinct elements as entries. */
  lemma {:induction false} IncreasingHasDistinctElements(s: seq<nat>)
    requires forall k, l :: 0 <= k < l < |s| ==> s[k] < s[l]
    ensures |Elems(s)| == |s|
  {
    if s != [] {
      var last := |s| - 1;
      var init := s[..last];
      IncreasingHasDistinctElements(init);
      assert forall k :: 0 <= k < last ==> init[k] < s[last];
      assert s[last] !in Elems(init);
    }
  }

  /** `wordsLeft` is the number of positions whose card is still below the threshold. */
  lemma WordsLeftCountsAvailablePositions(cards: seq<Card>)
    ensures WordsLeft(cards) == |set i | 0 <= i < |cards| && IsAvailable(cards[i])|
  {
    var idx := AvailableIndices(cards);
    IncreasingHasDistinctElements(idx);
    assert Elems(idx) == set i | 0 <= i < |cards| && IsAvailable(cards[i]);
  }

  /** A deck whose scores are all 0 or 1 is entirely available, so a pick always succeeds. */
  lemma {:induction false} BinaryDeckFullyAvailable(cards: seq<Card>)
    requires ScoresBinary(cards)
    ensures WordsLeft(cards) == |cards|
    ensures |cards| > 0 ==> |AvailableIndices(cards)| > 0
  {
    WordsLeftIsTotalIff(cards);
  }

  function Max(a: int, b: int): int
  {
    if a >= b then a else b
  }

  /** The score change of "Keep Practicing": one step back, never below 0. */
  function Demote(c: Card): Card
  {
    c.(score := Max(c.score - 1, 0))
  }

  /** The score change of "Done": the score becomes 1, whatever it was. */
  function SetDone(c: Card): Card
  {
    c.(score := 1)
  }

  /**
   * The component's `flashcards.map(card => card === currentCard ? f(card) : card)`,
   * with the card identified by its position.
   */
  function ReplaceCurrent(cards: seq<Card>, cur: nat, f: Card -> Card): seq<Card>
  {
    seq(|cards|, j requires 0 <= j < |cards| => if j == cur then f(cards[j]) else cards[j])
  }

  /** The deck after "Keep Practicing" on the card at `cur`. */
  function KeepPracticingCards(cards: seq<Card>, cur: nat): (r: seq<Card>)
    ensures |r| == |cards|
    ensures forall j :: 0 <= j < |cards| && j != cur ==> r[j] == cards[j]
    ensures cur < |cards| ==> r[cur].fields == cards[cur].fields
    ensures cur < |cards| ==> r[cur].score >= 0
    ensures cur < |cards| ==> r[cur].score == if cards[cur].score >= 1 then cards[cur].score - 1 else 0
  {
    ReplaceCurrent(cards, cur, Demote)
  }

  /** The deck after "Done" on the card at `cur`. */
  function MarkDoneCards(cards: seq<Card>, cur: nat): (r: seq<Card>)
    ensures |r| == |cards|
    ensures forall j :: 0 <= j < |cards| && j != cur ==> r[j] == cards[j]
    ensures cur < |cards| ==> r[cur].fields == cards[cur].fields && r[cur].score == 1
  {
    ReplaceCurrent(cards, cur, SetDone)
  }

  /** The two feedback buttons. */
  datatype Feedback = KeepPracticing | MarkDone

  function Respond(cards: seq<Card>, cur: nat, fb: Feedback): seq<Card>
  {
    match fb
    case KeepPracticing => KeepPracticingCards(cards, cur)
    case MarkDone => MarkDoneCards(cards, cur)
  }

  /** A session's feedback, one (card position, button) pair per press, applied in order. */
  function Replay(cards: seq<Card>, presses: seq<(nat, Feedback)>): seq<Card>
    decreases |presses|
  {
    if presses == [] then cards
    else Replay(Respond(cards, presses[0].0, presses[0].1), presses[1..])
  }

  /** Either button keeps every score in {0,1} and the deck size unchanged. */
  lemma RespondKeepsScoresBinary(cards: seq<Card>, cur: nat, fb: Feedback)
    requires ScoresBinary(cards)
    ensures ScoresBinary(Respond(cards, cur, fb))
    ensures |Respond(cards, cur, fb)| == |cards|
  {
  }

  lemma {:induction false} ReplayKeepsScoresBinary(cards: seq<Card>, presses: seq<(nat, Feedback)>)
    requires ScoresBinary(cards)
    ensures ScoresBinary(Replay(cards, presses))
    ensures |Replay(cards, presses)| == |cards|
    decreases |presses|
  {
    if presses != [] {
      var next := Respond(cards, presses[0].0, presses[0].1);
      RespondKeepsScoresBinary(cards, presses[0].0, presses[0].1);
      ReplayKeepsScoresBinary(next, presses[1..]);
    }
  }

  /**
   * From a freshly loaded deck, whatever feedback is given on whichever
   * cards, every score stays 0 or 1, every card stays available, the
   * counter reads `totalWords/totalWords`, and a non-empty deck always has
   * a card to offer: the "all words practised" branch is never taken.
   */
  lemma LoadedDeckNeverRunsOut(cards: seq<Card>, presses: seq<(nat, Feedback)>)
    requires forall i :: 0 <= i < |cards| ==> cards[i].score == 0
    ensures ScoresBinary(Replay(cards, presses))
    ensures WordsLeft(Replay(cards, presses)) == |Replay(cards, presses)| == |cards|
    ensures |cards| > 0 ==> |AvailableIndices(Replay(cards, presses))| > 0
  {
    ReplayKeepsScoresBinary(cards, presses);
    BinaryDeckFullyAvailable(Replay(cards, presses));
  }
}
