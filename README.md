# Flashcard review engine

A model of the review engine of the FlashCards web component (`src/App.js`).
The component holds a deck of flashcards (parsed CSV rows, each with a
`learning_score`), the card currently on screen and whether its translation
is shown. A loaded file is accepted when it has at least one row and its
first row has exactly three columns; every row then starts at score 0.
A card is offered while its score is below 3 and is picked at random among
those. "Keep Practicing" lowers the current card's score by one, never below
0; "Done" sets it to 1. Both then pick the next card. The counter shows how
many cards are still below 3 out of the deck size.

Modules:

- `Wrappers` (`wrappers.dfy`): the `Option` type used for the current card.
- `Cards` (`cards.dfy`): the pure helpers. These are the filter of available
  cards and their positions, the map that updates the current card, the
  counter, the loop that zeroes scores, and the replay of any sequence of
  feedback presses.
- `Flashcards` (`app.dfy`): the class `App` with the three state variables,
  the load callback, `UpdateCard` and the three buttons. Its invariant
  `Valid()` holds in every reachable state and is preserved by the constructor, the load
  callback and the three buttons.

The main result is that scores only ever take the values 0 and 1. Scores
start at 0, and the two buttons only produce `max(s-1, 0)` or `1`. The
threshold is 3, so every card stays available forever. The counter always
reads `totalWords/totalWords`, a non-empty deck always yields a card, and the
"all words practised" notice is never reached (`Cards.LoadedDeckNeverRunsOut`,
and `Flashcards.App.Valid`).

The threshold is the literal 3, "Done" sets the score to exactly 1 rather
than adding one, and the first row must have exactly three columns.

The component refers to the current card by object identity. The model
refers to it by its position in the deck: each row is a distinct object, so
the two agree. `Math.random` becomes a nondeterministic choice among the
positions of available cards. The `disabled` conditions of the buttons
become `requires` clauses: a card must be on screen for "Reveal", and the
translation must also be shown for the two feedback buttons.

## Model

| member | source | states |
|---|---|---|
| `Cards.ZeroScores` | src/App.js:20 | the result has one card per parsed row, carrying that row's columns with score 0 |
| `Cards.Available` | src/App.js:35 | the filtered list is no longer than the deck, holds only cards with score below 3 |
| `Cards.AvailableIndices` | src/App.js:35-38 | the positions of exactly the available cards, in increasing order; the k-th one points at the k-th filtered card, and every card with score below 3 is among them, so every available card can be picked |
| `Cards.WordsLeft` | src/App.js:72-73 | `wordsLeft` is at most `totalWords` and equals the number of positions of available cards |
| `Cards.AvailableKeepsEveryAvailableCard` | src/App.js:35 | every card of the deck whose score is below 3 is in the filtered list |
| `Cards.WordsLeftCountsAvailablePositions` | src/App.js:73 | `wordsLeft` equals the number of deck positions whose score is below 3 |
| `Cards.WordsLeftIsTotalIff` | src/App.js:72-73 | `wordsLeft == totalWords` if and only if every card has score below 3 |
| `Cards.BinaryDeckFullyAvailable` | src/App.js:35-36 | when every score is 0 or 1, the counter equals the deck size and a non-empty deck has a card to pick |
| `Cards.KeepPracticingCards` | src/App.js:50-52 | same length; every other card unchanged; the current card keeps its columns and its score becomes `s-1` when `s >= 1` and 0 otherwise, so it is never negative whatever it was |
| `Cards.MarkDoneCards` | src/App.js:58-60 | same length; every other card unchanged; the current card keeps its columns and its score becomes exactly 1, whatever it was (set, not incremented) |
| `Cards.RespondKeepsScoresBinary` | src/App.js:50-60 | either feedback button keeps every score in {0,1} and the deck size unchanged |
| `Cards.ReplayKeepsScoresBinary` | src/App.js:49-63 | any sequence of feedback presses, on any positions, keeps every score in {0,1} and the deck size unchanged |
| `Cards.LoadedDeckNeverRunsOut` | src/App.js:20-41 | from a freshly loaded deck (all scores 0), after any feedback presses, every score is in {0,1}, `wordsLeft == totalWords`, and a non-empty deck always has an available card |
| `Flashcards.App.constructor` | src/App.js:7-9 | the initial state: empty deck, no current card, translation hidden |
| `Flashcards.App.UpdateCard` | src/App.js:34-43 | if some card has score below 3, the new current card is one of them (in range) and the translation is hidden; otherwise the current card and the translation flag are left as they were; the deck never changes |
| `Flashcards.App.Load` | src/App.js:17-29 | a parse error and a file that is empty or whose first row does not have exactly 3 columns leave the whole state unchanged; otherwise the deck becomes the parsed rows with score 0 and a card is on screen with its translation hidden; the invariant is kept |
| `Flashcards.App.RevealTranslation` | src/App.js:45-47 | with a card on screen, the translation becomes shown and the invariant is kept |
| `Flashcards.App.KeepPracticing` | src/App.js:49-55 | with the translation shown, the deck becomes the clamped-decrement deck of the old current card, a new card is on screen with the translation hidden, and the invariant is kept |
| `Flashcards.App.MarkDone` | src/App.js:57-63 | with the translation shown, the deck becomes the score-set-to-1 deck of the old current card, a new card is on screen with the translation hidden, and the invariant is kept |
| `Flashcards.App.Counter` | src/App.js:72-78 | `totalWords` is the deck size, `wordsLeft` the number of positions of available cards, and in every reachable state the two are equal |

## Left out

- CSV parsing itself (the third-party parser): only its result is modelled. That result is a sequence of rows, each a map from column name to text, or the error callback. Extra keys that the parser adds for ragged rows are not modelled.
- The file input, `useEffect` wiring, the `alert` notices and the JSX rendering are browser I/O. The load outcome records which notice the load callback raises. The congratulation notice of `UpdateCard` is modelled only as "state unchanged".
- `Math.random` and `Math.floor` are floating point. The pick is a nondeterministic choice among the available positions, so uniformity of the choice is not modelled.
- The load callback sets `learning_score` on each parsed row object in place. The model builds a new sequence of cards instead. The parsed rows are not shared with anything else, so no aliasing is lost. If the file itself has a `learning_score` column, the component overwrites that property, while the model keeps the text in the card's columns beside the score. The three-column check counts that column in both.
- Scores are modelled as mathematical integers. JavaScript numbers that are not integers cannot arise, because the only scores ever written are 0, 1 and `max(s-1, 0)`.
- `Flashcards.App.UpdateCard`: React applies state setters only after the current event, so the component passes the fresh deck to `updateCard` explicitly. The model stores the deck first and then picks from it, which yields the same result.
- `Flashcards.App.RevealTranslation`: the source function has no guard of its own. The `requires` clause is the button's `disabled` condition.
- When no card qualifies after feedback, the component would keep a reference to the replaced card object, whereas the position in the model would name its new version. `Valid()` rules this state out, so the difference is never observable.
