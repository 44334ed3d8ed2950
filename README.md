# motuskateb game engine in Dafny

This project models the game engine of `motuskatebApp`, the Wordle-style French word game. It has three parts.

- **Normalisation** (`normalize.dfy`, module `Normalize`):
  - `enlever_accents`: decompose to NFD, then drop every non-spacing mark (category Mn).
  - `str.strip()`.
  - How a drawn secret is derived: strip, lower-case, keep only alphabetic characters.
  - How a guess is derived: strip, lower-case, strip accents.
  - The Unicode services are library calls: NFD decomposition, the general category, `isalpha`, `isspace`, `lower` and `upper`. They enter as the function fields of a `Tables` value. Only the filtering logic built around them is modelled.
- **Scoring** (`scoring.dfy`, module `Scoring`): the two-pass algorithm of `verifier_mot`.
  - The passes are stated as functions:
    - `ExactMarks` and `Unmatched` for the first pass;
    - `Credit` for one iteration of the second pass;
    - `AfterCredits` for the first `k` iterations;
    - `Score` for the finished result.
  - `Expected` is an independent closed form of the result, written with letter counts. `ScoreIsExpected` proves that `Score` equals it.
  - `ScoreGuess` runs the two passes in place over an `array<Option<char>>` pool, the counterpart of `mot_secret_temp`. It is proved equal to `Score`.
- **Session bookkeeping** (`game.dfy`, module `Game`):
  - The four fields `mot_secret`, `mot_secret_normalise`, `essais` and `historique` form the `Session` value.
  - `Begin` (`commencer_jeu`) and `Submit` (`verifier_mot`) state what one call does to a `Session`.
  - The class `Game` holds the same fields and updates them in place. `Start` and `Verify` are proved equal to `Begin` and `Submit`; `Explain` states its effect directly.
  - `Replay` runs a sequence of guesses, for the lemmas on when the loss message first appears.

`wrappers.dfy` holds the `Option` type used for the pool slots.

These behaviours of the code are kept as written:
- `commencer_jeu` resets the counter and the history before it checks the length. After an invalid length, a missing file or an empty word list, the previous secret stays in place.
- A guess is not filtered to alphabetic characters; only the secret is.
- There is no terminal state. Once a secret is set, guesses keep being scored after a win or a loss.
- The two loss checks differ:
  - On the length-mismatch path, the counter is incremented and then compared with `>= 10`.
  - On the scoring path, a wrong guess is compared with `< 10` before the increment.
  - In a fresh round, ten wrong-length guesses show the loss message on the tenth (`MismatchesLoseOnTenth`).
  - Wrong guesses of the right length show it only on the eleventh, and the counter then stays at 10 (`MissesLoseOnEleventh`).
  - So the loss after wrong guesses of the right length is shown only when such a guess arrives with the counter already at 10. In a fresh round that is never the tenth such guess.

## Model

| member | source | states |
|---|---|---|
| Normalize.Filter | src/motuskateb/app.py:15-18 | the filtered string is no longer than the input and every character in it passes the test |
| Normalize.FilterCount | src/motuskateb/app.py:15-18 | a kept character occurs as often as in the input; a dropped one does not occur at all |
| Normalize.FilterConcat | src/motuskateb/app.py:15-18 | filtering distributes over concatenation, so the characters keep their relative order |
| Normalize.FilterUnchanged | src/motuskateb/app.py:147 | the filter leaves a string unchanged if and only if every character passes |
| Normalize.FilterIdempotent | src/motuskateb/app.py:147 | filtering a second time with the same test changes nothing |
| Normalize.StripAccents | src/motuskateb/app.py:11-18 | the result has no Mn character, and its length is at most that of the decomposed input |
| Normalize.StripAccentsCount | src/motuskateb/app.py:15-18 | each non-mark character of the decomposition survives with its multiplicity, and marks vanish |
| Normalize.KeepAlpha | src/motuskateb/app.py:147 | the result is no longer than the input and is entirely alphabetic |
| Normalize.FirstKept | src/motuskateb/app.py:146 | the first non-whitespace position at or after the start, with everything skipped being whitespace |
| Normalize.LastKept | src/motuskateb/app.py:146 | the end of the text once trailing whitespace is dropped, with everything dropped being whitespace |
| Normalize.Strip | src/motuskateb/app.py:146 | the result is a contiguous slice of the input that neither starts nor ends with whitespace, and everything cut on either side is whitespace |
| Normalize.SecretForm | src/motuskateb/app.py:146-147 | the stored secret contains only alphabetic characters |
| Normalize.GuessForm | src/motuskateb/app.py:159 | the compared guess has no Mn character (but is not required to be alphabetic) |
| Scoring.ExactMarks | src/motuskateb/app.py:175-180 | definition of the first pass's marks, one per position; `SplitCount`, `CorrectCount` and `MarkExact` state its properties |
| Scoring.Unmatched | src/motuskateb/app.py:172-178 | definition of the pool after the first pass, one slot per secret letter; `SplitCount`, `PoolCount` and `MarkExact` state its properties |
| Scoring.Score | src/motuskateb/app.py:171-186 | definition of the result of both passes, one mark per guess position; `ScoreIsExpected`, `ScoreShape`, `Conservation` and `ScoreGuess` state its properties |
| Scoring.FirstIndex | src/motuskateb/app.py:186 | `list.index`: the position holds the value, and no earlier position does |
| Scoring.Credit | src/motuskateb/app.py:184-186 | one iteration of the second pass keeps one mark per position and one slot per secret letter |
| Scoring.AfterCredits | src/motuskateb/app.py:171-186 | the board after the first pass and `k` iterations of the second keeps one mark per position and one slot per secret letter |
| Scoring.MarkPending | src/motuskateb/app.py:183-186 | a position not yet examined by the second pass still carries its first-pass mark |
| Scoring.PoolCount | src/motuskateb/app.py:172-186 | after `k` iterations the pool holds each letter as often as the unmatched secret offers it, minus the unmatched guess occurrences already examined, down to zero |
| Scoring.InPoolIffAvailable | src/motuskateb/app.py:184 | the membership test succeeds if and only if fewer unmatched occurrences of the letter were examined than the unmatched secret offers |
| Scoring.MarkDone | src/motuskateb/app.py:183-186 | a position already examined carries its final mark, the closed form's |
| Scoring.PresentCount | src/motuskateb/app.py:183-186 | the number of Present marks for a letter is the smaller of its unmatched supply and its examined unmatched guess occurrences |
| Scoring.CorrectCount | src/motuskateb/app.py:184-185 | the second pass neither adds nor overwrites a Correct mark |
| Scoring.PoolOnlyLoses | src/motuskateb/app.py:178-186 | a pool slot only ever loses its entry: it is empty or still holds what the first pass left |
| Scoring.ScoreIsExpected | src/motuskateb/app.py:171-186 | the two-pass result equals the closed form: Correct at exact positions, a misplaced letter Present exactly while earlier misplaced uses remain below the unmatched supply, Absent otherwise |
| Scoring.ScoreShape | src/motuskateb/app.py:175-186 | one mark per guess position; exact positions are Correct and no other is; every other position is Present of its own letter or Absent |
| Scoring.SplitCount | src/motuskateb/app.py:175-180 | the first pass splits a word's occurrences of each letter into exact matches and pool entries |
| Scoring.Conservation | src/motuskateb/app.py:172-186 | for every letter, Correct plus Present marks equal the smaller of its counts in guess and secret, so they never exceed its count in the secret |
| Scoring.AbsentIffExhausted | src/motuskateb/app.py:183-186 | a position ends Absent if and only if it is misplaced and its letter was gone from the pool when it was examined |
| Scoring.ConsumesFirst | src/motuskateb/app.py:183-186 | each iteration either changes nothing, or marks its position Present and empties exactly one slot: the first holding the letter |
| Scoring.AllCorrectIffEqual | src/motuskateb/app.py:175-178 | every mark is Correct if and only if the guess equals the secret |
| Scoring.ScoreGuess | src/motuskateb/app.py:171-186 | the in-place two-pass scoring returns `Score`: one mark per position, Correct exactly at exact positions |
| Scoring.MarkExact | src/motuskateb/app.py:172-180 | the first pass yields the exact-match marks and leaves in the pool exactly the unmatched secret letters |
| Scoring.MarkMisplaced | src/motuskateb/app.py:183-186 | the second pass, run in place on the pool, returns `Score` and leaves the array holding the pool after the last iteration, `AfterCredits(mot, secret, \|mot\|).pool` |
| Game.Render | src/motuskateb/app.py:177-185 | definition of a mark's display: the letter upper-cased, a dot, or the letter; `FormatEntryShape` states its use |
| Game.Join | src/motuskateb/app.py:189 | definition of `' '.join`; `JoinSingles` states its properties |
| Game.FormatEntry | src/motuskateb/app.py:189 | definition of a history line; it begins with the guess and `" -> "`, and `FormatEntryShape` states the rest |
| Game.ValidLength | src/motuskateb/app.py:134 | definition of the accepted length texts `"5"` to `"9"`; `Begin` states that exactly these start a round |
| Game.SessionValid | src/motuskateb/app.py:37-40 | definition of the session invariant on the four fields: the secret is alphabetic, and during a round the normalised secret is its accent-stripped form; `Begin`, `Submit` and the class methods state that it is kept |
| Game.JoinSingles | src/motuskateb/app.py:189 | joining `n` one-character labels gives length `2n-1`, with label `i` at position `2i` and a space at every odd position |
| Game.FormatEntryShape | src/motuskateb/app.py:189 | a history line is the guess, `" -> "`, then the displayed marks in order, separated by single spaces; with no marks it is the guess and `" -> "` alone |
| Game.Begin | src/motuskateb/app.py:118-149 | counter and history are always reset; InvalidLength if and only if the length text is not 5 to 9; FileNotFound if and only if the length is valid and the word file is missing, so EmptyWordList exactly when it is valid and the list is empty; Started if and only if the length is valid and a word was drawn; otherwise the secret is kept; a started secret is the stripped, lower-cased, alphabetic form of the word, and the normalised secret is its accent-stripped form; the session invariant is kept |
| Game.Submit | src/motuskateb/app.py:155-206 | the secret never changes; with no secret nothing changes; a wrong-length guess adds no history, adds one attempt, and shows the loss as soon as the count is at least 10; a right-length guess appends exactly one history line with its marks; Won if and only if the guess equals the normalised secret, and the counter is then 0; Wrong if and only if it differs and the counter was below 10, which then goes up by one; Lost if and only if it differs and the counter was already 10 or more, which then stays |
| Game.WinIffAllCorrect | src/motuskateb/app.py:175-198 | a scored guess wins if and only if all its marks are Correct |
| Game.Replay | src/motuskateb/app.py:155-206 | no sequence of guesses changes the secret |
| Game.ReplayMismatches | src/motuskateb/app.py:162-169 | each wrong-length guess adds exactly one attempt and no history |
| Game.MismatchesLoseOnTenth | src/motuskateb/app.py:162-169 | in a fresh round, the `i`-th wrong-length guess (counting from 0) shows the loss if and only if `i + 1 >= 10` |
| Game.ReplayMisses | src/motuskateb/app.py:189-206 | wrong guesses of the right length each add one history line, and the counter reaches the smaller of their number and 10 |
| Game.MissesLoseOnEleventh | src/motuskateb/app.py:200-206 | in a fresh round, the `i`-th wrong right-length guess (counting from 0) is a counted miss while `i < 10`, and the loss from the eleventh on |
| Game.Game.constructor | src/motuskateb/app.py:37-40 | the secret, normalised secret and history start empty and the counter at 0 |
| Game.Game.Start | src/motuskateb/app.py:118-149 | the in-place update produces exactly `Begin`'s session and outcome and keeps the session invariant |
| Game.Game.Verify | src/motuskateb/app.py:151-206 | the in-place update, with scoring by `ScoreGuess`, produces exactly `Submit`'s session and feedback; the secret is untouched; the history only grows at its end |
| Game.Game.Explain | src/motuskateb/app.py:212-217 | the history is cleared and the stored secret is returned as the word to look up; nothing else changes and the session invariant is kept |

## Left out

- Unicode tables: NFD decomposition, the Mn category, `isalpha`, `isspace`, `lower()` and `upper()` are library calls. They are parameters (`Tables`). No property of them is assumed.
  - So the model does not claim that stripping accents keeps the length of the secret. The code does not enforce that either.
  - It also does not claim that accent stripping is idempotent, since that depends on the decomposition tables.
- Toga widgets, labels, buttons, the layout and the displayed French messages are UI. Their content is summarised by the `StartOutcome` and `Feedback` values. The enabling of the explain button and the history label's `"\n"` join are not modelled.
- Sound playback through `SoundPool` is platform audio.
- `charger_fichier_txt`, the `data{n}.txt` lookup and latin-1 decoding are file I/O. The file read and `random.choice` become the `Draw` parameter of `Start`.
  - A missing file is `FileMissing`.
  - An empty word list is `NoWords`. On it `random.choice` raises. Since the reset has already happened and the secret is not touched, it is modelled as the `EmptyWordList` outcome with that state.
- The definition lookup of `expliquer_mot` and `retourner_jeu` is network and web-view UI:
  - the URL building;
  - the injected script;
  - showing and hiding the web view.
  Only the history reset and the choice of the word to look up are kept.
- Game.Game.Explain: the explain button is enabled only after a win or a loss, which is a UI rule. The method is callable at any time and then returns whatever secret is stored.
- Scoring.ScoreGuess: builds the result as a `seq` rather than as a Python list of display strings. The display form is `Render`/`FormatEntry`.
- Game.FormatEntryShape: holds only when upper-casing each Correct letter gives one character, because `upper()` can lengthen a letter ('ß' becomes "SS").
