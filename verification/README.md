# Imposter party game: the shared session, modelled in Dafny

The game server keeps one process-wide session (`GAME_STATE` in `app.py`):
a phase (`lobby` or `playing`), the roster of joined players, and for the
round in play a category, a secret word and one imposter drawn from the
roster. Four request handlers act on it:

- **join** normalises the submitted name (`strip()` then `upper()`),
  refuses it when blank ("Name required") or already on the roster
  ("Name taken"), otherwise appends it and returns it;
- **status** is a read-only snapshot: phase, roster, roster size, category
  and the requester's role — the imposter is shown `"???"`, any other
  roster member the real word, everybody else (and everybody in the lobby)
  is a spectator with no word;
- **start** refuses with "Need at least 2 players" below two players,
  otherwise obtains a word for the category and a random imposter and
  enters the playing phase;
- **reset** wipes the whole session, roster included, back to the lobby.

The word comes from a text generator asked for a comma-separated list of
examples; the server splits the reply at the commas, strips each piece,
drops the blank ones and picks one at random, answering
"Error: No words found" when nothing is left and "Apple" when the call
fails.

Files:

- `text.dfy` (module `Text`): Python's white space (`str.isspace`),
  `strip()`, ASCII `upper()`, `split(',')` and the name normalisation.
- `words.dfy` (module `Words`): parsing the generator's reply into candidate
  words and choosing the word, with both fall-backs.
- `game.dfy` (module `Game`): the class `GameState`, whose fields are the
  session's fields and whose methods `Join`, `Start`, `Reset` update them in
  place; `Status` is a function of the fields. `Valid()` is the session
  invariant every method keeps: distinct stored names, each non-empty,
  stripped and upper-case; while playing the imposter is on the roster and
  the word is non-empty; in the lobby the round fields are blank.

The generator call and the two random choices are inputs: `Start` receives
the generator's outcome as a `Reply` (`Answer(text)` or `Failed`) and two
indices, `wordChoice` and `imposterChoice`, required to be in range only
when the two-player check passes (the code draws them only then).

Notes on the code's behaviour: an empty candidate list does not fall back
to a word but stores the text "Error: No words found" as the secret word;
names are compared after Python's `upper()`, so case differences are
ignored (the model upper-cases ASCII letters only, see `Text.Upper` under "Left
out"); the status handler compares the requester name exactly as sent, so
a requester name holding an ASCII lower-case letter is never recognised
(`LowercaseRequesterIsSpectator`); and the imposter's mask `"???"` hides the
word only when the word is not itself `"???"`, which `Status` states
explicitly.

## Model

| member | source | states |
|---|---|---|
| `Text.IsSpace` | app.py:82 | the characters Python's `strip()` removes: TAB..CR, FS..US, SPACE, U+0085, U+00A0, U+1680, U+2000..U+200A, U+2028, U+2029, U+202F, U+205F, U+3000; SPACE, TAB, LF and CR are among them, and none is a comma or an ASCII letter |
| `Text.LeadingSpaces` | app.py:82 | counts the white space in front of a string: all of those characters are white space and the next one is not |
| `Text.TrailingSpaces` | app.py:82 | counts the white space at the back: all of those are white space and the one before them is not |
| `Text.Strip` | app.py:82 | `strip()` leaves no white space at either end and is empty exactly when the input is all white space |
| `Text.StripIsSlice` | app.py:82 | `strip()` returns a slice of its input with only white space outside it |
| `Text.StripCharacterized` | app.py:82 | any stripped slice with only white space around it is the result of `strip()`, so the contract pins `strip()` down completely |
| `Text.StripIdempotent` | app.py:45 | stripping an already stripped piece changes nothing |
| `Text.StripKeepsOnlyCharactersOf` | app.py:45 | every character `strip()` keeps is a character of its input |
| `Text.Upper` | app.py:82 | `upper()` keeps the length, turns each lower-case ASCII letter into its capital, keeps every other character, and leaves no lower-case letter |
| `Text.StripUpperCommute` | app.py:82 | upper-casing commutes with stripping |
| `Text.UpperIdempotent` | app.py:82 | upper-casing twice is upper-casing once |
| `Text.Normalize` | app.py:82 | the normalised name is stripped, has no lower-case letter, and is empty exactly when the submitted name is blank |
| `Text.NormalizeIdempotent` | app.py:82 | normalising a normalised name changes nothing |
| `Text.Split` | app.py:45 | `split(',')` yields at least one piece, no piece holds a comma, and joining the pieces with commas gives back the input |
| `Text.SplitJoinCommas` | app.py:45 | splitting the comma-join of comma-free pieces gives back exactly those pieces |
| `Words.CleanPieces` | app.py:45 | the comprehension keeps at most as many entries as there are pieces, each non-empty and free of surrounding white space |
| `Words.CleanPiecesComplete` | app.py:45 | every piece that is not blank survives, stripped |
| `Words.CleanPiecesSound` | app.py:45 | every option is the stripped form of some piece and holds only that piece's characters |
| `Words.Options` | app.py:42-45 | every candidate word of a reply is non-empty, unpadded and comma-free; the list is empty exactly when every piece of the reply is blank |
| `Words.OptionsEmptyIffBlank` | app.py:45-48 | the cleaned list is empty if and only if every piece strips to nothing |
| `Words.PickWord` | app.py:45-64 | the word is never empty; a failed call gives "Apple", an empty candidate list gives "Error: No words found", otherwise the word is one of the candidates |
| `Words.SingleWordReply` | app.py:42-54 | a reply that is one bare word (non-empty, unpadded, comma-free) has exactly that word as its only candidate |
| `Words.EveryOptionCanBePicked` | app.py:53-54 | every candidate can be the chosen word for some choice |
| `Game.DistinctOccursOnce` | app.py:87-90 | in a roster without duplicates a member occurs exactly once |
| `Game.StoredNameIsNormal` | app.py:82-90 | a name the roster may hold (non-empty, stripped, no lower-case letter) is exactly a non-empty fixed point of the normalisation |
| `Game.GameState.constructor` | app.py:15-22 | the session starts in the lobby with an empty roster and blank imposter, category and word, and is valid |
| `Game.GameState.Join` | app.py:80-92 | a blank normalised name gives "Name required", one already on the roster gives "Name taken", and both leave the roster as it was; otherwise exactly the normalised name is appended and returned; phase, imposter, category and word never change; the invariant (no duplicates) is kept |
| `Game.GameState.Status` | app.py:97-116 | reports phase, roster, roster size and category unchanged; while playing, a named requester equal to the imposter is the imposter and gets "???" (never the word unless the word is "???"), any other roster member is a civilian and gets the exact word; everyone else, the lobby and an absent or empty name are spectators with no word |
| `Game.GameState.Start` | app.py:120-137 | below two players returns "Need at least 2 players" and changes nothing; otherwise enters the playing phase with the given category, the word resolved from the reply (returned to the host) and the roster entry at the chosen index as imposter; the roster never changes; the invariant (imposter on the roster) is kept |
| `Game.GameState.Reset` | app.py:142-148 | from any state yields the lobby with an empty roster and blank imposter, category and word; the new state does not depend on the old one, so a second reset changes nothing |
| `Game.GameState.ImposterIsUnique` | app.py:108-114 | while playing the imposter occurs exactly once on the roster, that member alone is answered as imposter, and every other member is answered as civilian with the real word |
| `Game.GameState.LobbyShowsNoRound` | app.py:100-108 | in the lobby every requester is a spectator, sees no word and an empty category |
| `Game.GameState.LowercaseRequesterIsSpectator` | app.py:109-112 | a requester name holding an ASCII lower-case letter matches no stored name and is answered as a spectator with no word |
| `Game.SampleNames` | app.py:82 | "alice" normalises to "ALICE" and "Bob" to "BOB" |
| `Game.StartOnSingleWord` | app.py:120-137 | a start whose generator reply is one bare word makes exactly that word the secret word and returns it |
| `Game.OpenRound` | app.py:80-137 | two distinct players join, the first joining again is refused as taken, and a round starts with that roster, the reply's word and the chosen player as imposter |
| `Game.RoundWalkthrough` | app.py:80-148 | two distinct players join, the first joining again is refused as taken, a round on a one-candidate reply makes exactly one of them imposter (shown "???") and the other civilian (shown the word), and after a reset a requester is a spectator of an empty roster |

## Left out

- The web layer: routing, request and JSON parsing, `jsonify`, the page
  templates, HTTP status codes and the session cookie written on join
  (app.py:4, 9-10, 68-75, 81, 91, 98). Requests arrive as method arguments,
  a missing `name` as the empty string, and the `X-Player-Name` header as an
  optional string.
- An absent `category` in the start request (stored as `None` by the code):
  the model takes the category as a string.
- A `name` that is not a string (the code then raises): not modelled.
- The generator client, its configuration and the prompt text
  (app.py:12-13, 31-42): a network call, replaced by its outcome `Reply`.
- The random sources `random.SystemRandom().choice` and `random.choice`
  (app.py:53-54, 128): replaced by index arguments with range
  preconditions; uniformity is not modelled.
- Debug printing (app.py:57-58, 63, 130), the unused `last_updated`
  timestamp (app.py:21), environment and key loading (app.py:8, 10, 12).
- Concurrency: the handlers run without locks; each operation is modelled
  as one atomic step, so interleavings of concurrent requests are not
  captured.
- Text.Upper: only ASCII letters are upper-cased; Python's full Unicode
  case mapping (for example one character becoming two) is not modelled.
