/**
 * The session of `motuskatebApp`: the secret, its normalised form, the attempt
 * counter and the history, as set up at start-up, reset by `commencer_jeu`
 * and updated by `verifier_mot`.
 *
 * `Begin` and `Submit` say what one call does to a `Session` value; the class
 * `Game` holds the same four fields, updates them in place, and is proved
 * against those two functions. `Replay` runs a sequence of guesses, for the
 * lemmas on when a loss is first reported.
 */
module Game {
  import opened Normalize
  import opened Scoring

  /** The attempt threshold of both loss checks. */
  const MaxAttempts: nat := 10

  /** The four game fields: `mot_secret`, `mot_secret_normalise`, `essais`, `historique`. */
  datatype Session = Session(secret: string, normalized: string, attempts: nat, history: seq<string>)

  /** The fields as start-up sets them. */
  const Initial: Session := Session("", "", 0, [])

  /** What the word list yields for a valid length: no file, an empty list, or the drawn line. */
  datatype Draw = FileMissing | NoWords | Drawn(line: string)

  datatype StartOutcome = InvalidLength | FileNotFound | EmptyWordList | Started

  /** The verdict of a scored guess: found, a counted miss, or the loss message. */
  datatype Verdict = Won | Wrong | Lost

  /** What one guess reports: no round yet, a guess of the wrong length (and whether the
      loss message is shown), or the marks with their verdict. */
  datatype Feedback = NoGame | LengthMismatch(expected: nat, lost: bool) | Scored(marks: seq<Mark>, verdict: Verdict)

  datatype Begun = Begun(next: Session, outcome: StartOutcome)
  datatype Turn = Turn(next: Session, feedback: Feedback)

  /** The lengths the length field accepts, compared as text. */
  predicate ValidLength(text: string)
  {
    text in ["5", "6", "7", "8", "9"]
  }

  /** The session invariant: the secret is alphabetic, and while a round is on
      the normalised secret is the accent-stripped secret. */
  ghost predicate SessionValid(u: Tables, st: Session)
  {
    && (forall i :: 0 <= i < |st.secret| ==> u.isAlpha(st.secret[i]))
    && (st.secret != [] ==> st.normalized == StripAccents(u, st.secret))
  }

  /** `' '.join(parts)`. */
  function Join(parts: seq<string>): (r: string)
  {
    if |parts| <= 1 then (if parts == [] then [] else parts[0])
    else Join(parts[..|parts| - 1]) + " " + parts[|parts| - 1]
  }

  /** How a mark is displayed: the letter upper-cased, the letter, or a dot. */
  function Render(u: Tables, m: Mark): (r: string)
  {
    match m
    case Correct(c) => u.upper(c)
    case Present(c) => [c]
    case Absent => "."
  }

  /** The history line of one guess, `"{guess} -> {marks joined by spaces}"`. */
  function FormatEntry(u: Tables, guess: string, marks: seq<Mark>): (r: string)
    ensures |r| >= |guess| + 4 && r[..|guess| + 4] == guess + " -> "
  {
    guess + " -> " + Join(seq(|marks|, i requires 0 <= i < |marks| => Render(u, marks[i])))
  }

  /** Joining one-character parts yields one character per part plus one space between each two. */
  lemma {:induction false} JoinSingles(parts: seq<string>)
    requires forall i :: 0 <= i < |parts| ==> |parts[i]| == 1
    ensures |Join(parts)| == if parts == [] then 0 else 2 * |parts| - 1
    ensures forall i :: 0 <= i < |parts| ==> Join(parts)[2 * i] == parts[i][0]
    ensures forall i :: 0 <= i < |parts| - 1 ==> Join(parts)[2 * i + 1] == ' '
  {
    if |parts| > 1 {
      var p := parts[..|parts| - 1];
      JoinSingles(p);
      forall i | 0 <= i < |parts| ensures Join(parts)[2 * i] == parts[i][0] {
        if i < |p| {
          assert Join(parts)[2 * i] == Join(p)[2 * i];
        }
      }
      forall i | 0 <= i < |parts| - 1 ensures Join(parts)[2 * i + 1] == ' ' {
        if i < |p| - 1 {
          assert Join(parts)[2 * i + 1] == Join(p)[2 * i + 1];
        }
      }
    }
  }

  /** When upper-casing keeps every letter to one character, the history line holds the
      guess, the arrow, and one displayed character per mark at every other position. */
  lemma FormatEntryShape(u: Tables, guess: string, marks: seq<Mark>)
    requires forall i :: 0 <= i < |marks| ==> marks[i].Correct? ==> |u.upper(marks[i].letter)| == 1
    ensures var line := FormatEntry(u, guess, marks);
      && |line| == |guess| + 4 + (if marks == [] then 0 else 2 * |marks| - 1)
      && line[..|guess| + 4] == guess + " -> "
      && (forall i :: 0 <= i < |marks| ==> line[|guess| + 4 + 2 * i] == Render(u, marks[i])[0])
      && (forall i :: 0 <= i < |marks| - 1 ==> line[|guess| + 4 + 2 * i + 1] == ' ')
  {
    var parts := seq(|marks|, i requires 0 <= i < |marks| => Render(u, marks[i]));
    JoinSingles(parts);
  }

  /** `commencer_jeu`: the counter and the history are reset first, whether or not the
      length is valid; only a drawn word replaces the secret, which is then stripped,
      lower-cased and filtered to alphabetic characters, and normalised. */
  function Begin(u: Tables, st: Session, lengthText: string, draw: Draw): (r: Begun)
    ensures r.next.attempts == 0 && r.next.history == []
    ensures r.outcome == InvalidLength <==> !ValidLength(lengthText)
    ensures r.outcome == FileNotFound <==> ValidLength(lengthText) && draw.FileMissing?
    ensures r.outcome == Started <==> ValidLength(lengthText) && draw.Drawn?
    ensures r.outcome != Started ==> r.next.secret == st.secret && r.next.normalized == st.normalized
    ensures r.outcome == Started ==>
      && r.next.secret == SecretForm(u, draw.line)
      && r.next.normalized == StripAccents(u, r.next.secret)
      && forall i :: 0 <= i < |r.next.secret| ==> u.isAlpha(r.next.secret[i])
    ensures SessionValid(u, st) ==> SessionValid(u, r.next)
  {
    var reset := st.(attempts := 0, history := []);
    if !ValidLength(lengthText) then Begun(reset, InvalidLength)
    else
      match draw
      case FileMissing => Begun(reset, FileNotFound)
      case NoWords => Begun(reset, EmptyWordList)
      case Drawn(line) =>
        var w := SecretForm(u, line);
        Begun(reset.(secret := w, normalized := StripAccents(u, w)), Started)
  }

  /** `verifier_mot` on the guess text `text`. */
  function Submit(u: Tables, st: Session, text: string): (r: Turn)
    // the secret is never changed by a guess, so there is no terminal state
    ensures r.next.secret == st.secret && r.next.normalized == st.normalized
    ensures SessionValid(u, st) ==> SessionValid(u, r.next)
    // no round: nothing changes
    ensures st.secret == [] ==> r == Turn(st, NoGame)
    // a guess of the wrong length: no history line, one more attempt, loss shown from 10 on
    ensures st.secret != [] && |GuessForm(u, text)| != |st.normalized| ==>
      && r.next.history == st.history
      && r.next.attempts == st.attempts + 1
      && r.feedback == LengthMismatch(|st.normalized|, st.attempts + 1 >= MaxAttempts)
    // a guess of the right length: exactly one history line is appended, holding the marks
    ensures st.secret != [] && |GuessForm(u, text)| == |st.normalized| ==>
      var g := GuessForm(u, text);
      && r.feedback.Scored?
      && r.feedback.marks == Score(g, st.normalized)
      && r.next.history == st.history + [FormatEntry(u, g, r.feedback.marks)]
    // the verdicts and the counter
    ensures r.feedback.Scored? && r.feedback.verdict == Won <==> st.secret != [] && GuessForm(u, text) == st.normalized
    ensures r.feedback.Scored? && r.feedback.verdict == Won ==> r.next.attempts == 0
    ensures r.feedback.Scored? && r.feedback.verdict == Wrong <==>
      st.secret != [] && |GuessForm(u, text)| == |st.normalized| && GuessForm(u, text) != st.normalized && st.attempts < MaxAttempts
    ensures r.feedback.Scored? && r.feedback.verdict == Wrong ==> r.next.attempts == st.attempts + 1
    ensures r.feedback.Scored? && r.feedback.verdict == Lost <==>
      st.secret != [] && |GuessForm(u, text)| == |st.normalized| && GuessForm(u, text) != st.normalized && st.attempts >= MaxAttempts
    ensures r.feedback.Scored? && r.feedback.verdict == Lost ==> r.next.attempts == st.attempts
  {
    if st.secret == [] then Turn(st, NoGame)
    else
      var g := GuessForm(u, text);
      var n := |st.normalized|;
      if |g| != n then
        Turn(st.(attempts := st.attempts + 1), LengthMismatch(n, st.attempts + 1 >= MaxAttempts))
      else
        var marks := Score(g, st.normalized);
        var h := st.history + [FormatEntry(u, g, marks)];
        if g == st.normalized then Turn(st.(history := h, attempts := 0), Scored(marks, Won))
        else if st.attempts < MaxAttempts then Turn(st.(history := h, attempts := st.attempts + 1), Scored(marks, Wrong))
        else Turn(st.(history := h), Scored(marks, Lost))
  }

  /** A winning guess is marked all Correct, and only a winning guess is. */
  lemma WinIffAllCorrect(u: Tables, st: Session, text: string)
    requires st.secret != [] && |GuessForm(u, text)| == |st.normalized|
    ensures var fb := Submit(u, st, text).feedback;
      fb.Scored? && (fb.verdict == Won <==> forall i :: 0 <= i < |fb.marks| ==> fb.marks[i] == Correct(GuessForm(u, text)[i]))
  {
    AllCorrectIffEqual(GuessForm(u, text), st.normalized);
  }

  /** The session after submitting every text of `texts` in order. */
  function Replay(u: Tables, st: Session, texts: seq<string>): (r: Session)
    ensures r.secret == st.secret && r.normalized == st.normalized
  {
    if texts == [] then st
    else Submit(u, Replay(u, st, texts[..|texts| - 1]), texts[|texts| - 1]).next
  }

  /** Guesses of the wrong length each burn one attempt and add no history. */
  lemma {:induction false} ReplayMismatches(u: Tables, st: Session, texts: seq<string>)
    requires st.secret != []
    requires forall i :: 0 <= i < |texts| ==> |GuessForm(u, texts[i])| != |st.normalized|
    ensures Replay(u, st, texts).attempts == st.attempts + |texts|
    ensures Replay(u, st, texts).history == st.history
  {
    if texts != [] {
      ReplayMismatches(u, st, texts[..|texts| - 1]);
    }
  }

  /** In a fresh round, guesses of the wrong length report the loss from the tenth one on. */
  lemma MismatchesLoseOnTenth(u: Tables, st: Session, texts: seq<string>, i: nat)
    requires st.secret != [] && st.attempts == 0
    requires forall j :: 0 <= j < |texts| ==> |GuessForm(u, texts[j])| != |st.normalized|
    requires i < |texts|
    ensures Submit(u, Replay(u, st, texts[..i]), texts[i]).feedback == LengthMismatch(|st.normalized|, i + 1 >= MaxAttempts)
  {
    ReplayMismatches(u, st, texts[..i]);
  }

  /** Wrong guesses of the right length each add one history line; the counter
      climbs by one until it reaches ten and then stays there. */
  lemma {:induction false} ReplayMisses(u: Tables, st: Session, texts: seq<string>)
    requires st.secret != [] && st.attempts == 0
    requires forall i :: 0 <= i < |texts| ==>
      |GuessForm(u, texts[i])| == |st.normalized| && GuessForm(u, texts[i]) != st.normalized
    ensures Replay(u, st, texts).attempts == Min(|texts|, MaxAttempts)
    ensures |Replay(u, st, texts).history| == |st.history| + |texts|
  {
    if texts != [] {
      ReplayMisses(u, st, texts[..|texts| - 1]);
    }
  }

  /** In a fresh round, wrong guesses of the right length are counted misses up to the
      tenth; the loss message first comes with the eleventh. */
  lemma MissesLoseOnEleventh(u: Tables, st: Session, texts: seq<string>, i: nat)
    requires st.secret != [] && st.attempts == 0
    requires forall j :: 0 <= j < |texts| ==>
      |GuessForm(u, texts[j])| == |st.normalized| && GuessForm(u, texts[j]) != st.normalized
    requires i < |texts|
    ensures Submit(u, Replay(u, st, texts[..i]), texts[i]).feedback
      == Scored(Score(GuessForm(u, texts[i]), st.normalized), if i < MaxAttempts then Wrong else Lost)
  {
    ReplayMisses(u, st, texts[..i]);
  }

  /** The application object, with the game fields it updates in place. */
  class Game {
    const tables: Tables
    var secret: string
    var normalizedSecret: string
    var attempts: nat
    var history: seq<string>

    function State(): Session
      reads this
    {
      Session(secret, normalizedSecret, attempts, history)
    }

    ghost predicate Valid()
      reads this
    {
      SessionValid(tables, State())
    }

    /** The game fields as `startup` sets them. */
    constructor (tables: Tables)
      ensures this.tables == tables
      ensures State() == Initial && Valid()
    {
      this.tables := tables;
      secret := "";
      normalizedSecret := "";
      attempts := 0;
      history := [];
    }

    /** `commencer_jeu`, with the length field's text and the word-list draw as inputs. */
    method Start(lengthText: string, draw: Draw) returns (outcome: StartOutcome)
      requires Valid()
      modifies this
      ensures Valid()
      ensures Begun(State(), outcome) == Begin(tables, old(State()), lengthText, draw)
      ensures attempts == 0 && history == []
      ensures outcome != Started ==> secret == old(secret) && normalizedSecret == old(normalizedSecret)
    {
      attempts := 0;
      history := [];
      if !ValidLength(lengthText) {
        return InvalidLength;
      }
      match draw
      case FileMissing =>
        return FileNotFound;
      case NoWords =>
        return EmptyWordList;
      case Drawn(line) =>
        secret := tables.lower(Strip(tables.isSpace, line));
        secret := KeepAlpha(tables, secret);
        normalizedSecret := StripAccents(tables, secret);
        outcome := Started;
    }

    /** `verifier_mot`, with the text of the guess field as input. */
    method Verify(text: string) returns (feedback: Feedback)
      requires Valid()
      modifies this
      ensures Valid()
      ensures Turn(State(), feedback) == Submit(tables, old(State()), text)
      ensures secret == old(secret) && normalizedSecret == old(normalizedSecret)
      ensures old(secret) == [] ==> feedback == NoGame && State() == old(State())
      ensures feedback.LengthMismatch? ==> history == old(history) && attempts == old(attempts) + 1
      ensures feedback.Scored? ==> |history| == |old(history)| + 1 && history[..|old(history)|] == old(history)
    {
      if |secret| == 0 {
        return NoGame;
      }
      var mot := GuessForm(tables, text);
      var longueur := |normalizedSecret|;
      if |mot| != longueur {
        attempts := attempts + 1;
        return LengthMismatch(longueur, attempts >= MaxAttempts);
      }
      var marks := ScoreGuess(mot, normalizedSecret);
      history := history + [FormatEntry(tables, mot, marks)];
      if mot == normalizedSecret {
        attempts := 0;
        feedback := Scored(marks, Won);
      } else if attempts < MaxAttempts {
        attempts := attempts + 1;
        feedback := Scored(marks, Wrong);
      } else {
        feedback := Scored(marks, Lost);
      }
    }

    /** `expliquer_mot`, without the page lookup: the history is cleared and the
        secret is handed over as the word to look up. */
    method Explain() returns (word: string)
      requires Valid()
      modifies this
      ensures Valid()
      ensures word == secret
      ensures history == []
      ensures secret == old(secret) && normalizedSecret == old(normalizedSecret) && attempts == old(attempts)
    {
      history := [];
      word := secret;
    }
  }
}
