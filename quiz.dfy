/** The quiz game (QuizGame.java) as a state machine driven by three kinds of
    event: a player connects, a player sends a message, an armed ticker fires.
    The ticker threads are replaced by the multiset of generations captured by
    the tickers armed so far and not yet fired; the delay before a ticker fires
    is not modelled. The dictionary file is the sequence of its lines at the
    moment it is read, or None when it cannot be read. Exceptions the handlers
    throw are returned as a `Fault`, the state keeping every change made before
    the throw. */
module Quiz {
  import opened Wrappers
  import opened Protocol
  import JavaText

  datatype Question = Question(question: string, answer: string)

  datatype Fault =
    | CannotReadQuestions   // the RuntimeException wrapping the IOException
    | NoSeparator           // substring(0, -1) on a line without ';'
    | NoSuchQuestion        // questions.get(currentQuestion) out of range
    | PrefixOutOfRange      // answer.substring(0, i) with i > |answer|

  /** FORMAT_NEW_ROUND, "New round started: %s (%d letters)": the question
      and the length of its answer follow the fixed text. */
  function NewRound(q: Question): (m: string)
    ensures "New round started: " <= m && |m| > 19 + |q.question| && m[19..19 + |q.question|] == q.question
  {
    "New round started: " + q.question + " (" + JavaText.ToDecimal(|q.answer|) + " letters)"
  }

  /** FORMAT_CURRENT_PREFIX, "Current prefix is %s". */
  function CurrentPrefix(prefix: string): (m: string)
    ensures "Current prefix is " <= m && m[18..] == prefix
  {
    "Current prefix is " + prefix
  }

  /** FORMAT_WINNER, "The winner is %s". */
  function Winner(id: string): (m: string)
    ensures "The winner is " <= m && m[14..] == id
  {
    "The winner is " + id
  }

  const WrongTry: string := "Wrong try"

  /** FORMAT_STOP, "Game has been stopped by %s". */
  function Stopped(id: string): (m: string)
    ensures "Game has been stopped by " <= m && m[25..] == id
  {
    "Game has been stopped by " + id
  }

  /** FORMAT_NOBODY, "Nobody guessed, the word was %s". */
  function Nobody(answer: string): (m: string)
    ensures "Nobody guessed, the word was " <= m && m[29..] == answer
  {
    "Nobody guessed, the word was " + answer
  }

  /** A player can tell the game's messages apart: different kinds never
      have the same text, and the text of each carries its id, prefix or
      answer, so equal texts of one kind have equal contents. */
  lemma MessagesDistinct(q: Question, prefix: string, id: string, id': string, answer: string)
    ensures var texts := [NewRound(q), CurrentPrefix(prefix), Winner(id), WrongTry, Stopped(id'), Nobody(answer)];
            forall a, b :: 0 <= a < b < |texts| ==> texts[a] != texts[b]
    ensures forall other :: Winner(other) == Winner(id) ==> other == id
    ensures forall other :: Stopped(other) == Stopped(id') ==> other == id'
    ensures forall other :: CurrentPrefix(other) == CurrentPrefix(prefix) ==> other == prefix
    ensures forall other :: Nobody(other) == Nobody(answer) ==> other == answer
  {
    var texts := [NewRound(q), CurrentPrefix(prefix), Winner(id), WrongTry, Stopped(id'), Nobody(answer)];
    assert texts[0][..2] == "Ne" && texts[1][..2] == "Cu" && texts[2][..2] == "Th";
    assert texts[3][..2] == "Wr" && texts[4][..2] == "Ga" && texts[5][..2] == "No";
  }

  /** One dictionary line: the question before the first ';', the answer after
      it (which may contain further ';'). A line without ';' throws. */
  function ParseLine(line: string): (r: Result<Question, Fault>)
    ensures r.Success? <==> ';' in line
    ensures r.Failure? ==> r.error == NoSeparator
    ensures r.Success? ==> line == r.value.question + ";" + r.value.answer && ';' !in r.value.question
  {
    var sep := JavaText.IndexOf(line, ';');
    if sep < 0 then Failure(NoSeparator)
    else
      assert line == line[..sep] + ";" + line[sep + 1..];
      Success(Question(line[..sep], line[sep + 1..]))
  }

  /** Writing a question without ';' and any answer as one line and parsing
      it gives them back. */
  lemma ParseLineRoundTrip(q: string, a: string)
    requires ';' !in q
    ensures ParseLine(q + ";" + a) == Success(Question(q, a))
  {
    var line := q + ";" + a;
    assert line[..|q|] == q && line[|q|] == ';';
    JavaText.IndexOfFirst(line, ';', |q|);
    assert line[|q| + 1..] == a;
  }

  /** The index `startRound` moves to: the next one, wrapping to 0 exactly when
      it reaches the number of questions. */
  function NextIndex(current: int, count: nat): (r: int)
    ensures current + 1 != count ==> r == current + 1
  {
    if current + 1 == count then 0 else current + 1
  }

  /** From the initial -1 or any valid index, the next index is valid, so the
      game cycles through a non-empty dictionary in order. */
  lemma NextIndexCycles(current: int, count: nat)
    requires -1 <= current < count && count > 0
    ensures 0 <= NextIndex(current, count) < count
    ensures current == count - 1 ==> NextIndex(current, count) == 0
  {
  }

  /** Once the index is at or past the end of a shorter dictionary loaded
      later, it never wraps again: every further round fails to find its
      question. */
  lemma NextIndexPastEnd(current: int, count: nat)
    requires current >= count
    ensures NextIndex(current, count) > count
  {
  }

  /** The catch-up messages for a player joining a round with `n` letters
      open: one prefix message for each length 1..n, in increasing order. */
  function PrefixSends(id: string, answer: string, n: nat): (r: seq<Message>)
    requires n <= |answer|
    ensures |r| == n
    ensures forall k :: 0 <= k < n ==> r[k] == SendTo(id, CurrentPrefix(answer[..k + 1]))
  {
    seq(n, k requires 0 <= k < n => SendTo(id, CurrentPrefix(answer[..k + 1])))
  }

  /** Opening one more letter adds one catch-up message, the new prefix, at the
      end: what a late joiner is sent is what the ticks broadcast, in order. */
  lemma PrefixSendsGrow(id: string, answer: string, n: nat)
    requires n < |answer|
    ensures PrefixSends(id, answer, n + 1) == PrefixSends(id, answer, n) + [SendTo(id, CurrentPrefix(answer[..n + 1]))]
  {
  }

  /** Every line of the dictionary has a ';'. */
  predicate AllSeparated(lines: seq<string>) {
    forall k :: 0 <= k < |lines| ==> ';' in lines[k]
  }

  /** A message is a command when it starts with '!'. */
  predicate IsCommand(msg: string)
    ensures IsCommand(msg) <==> "!" <= msg
  {
    |msg| != 0 && msg[0] == '!'
  }

  class QuizGame {
    var maxLettersToOpen: int
    var questions: seq<Question>
    var currentQuestion: int
    var currentProgress: int
    var isRunning: bool
    var tickerTaskId: int
    var outbox: seq<Message>
    /** The generations captured by the tickers armed and not yet fired. */
    ghost var armed: multiset<int>

    /** No ticker has captured a generation later than the current one. */
    ghost predicate Valid()
      reads this
    {
      && currentQuestion >= -1
      && currentProgress >= 0
      && forall g :: g in armed ==> g <= tickerTaskId
    }

    predicate HasQuestion()
      reads this
    {
      0 <= currentQuestion < |questions|
    }

    function Current(): Question
      requires HasQuestion()
      reads this
    {
      questions[currentQuestion]
    }

    /** A new game, configured with `setMaxLettersToOpen(maxLetters)`: no
        questions, index -1, stopped, generation 0. */
    constructor (maxLetters: int)
      ensures Valid()
      ensures maxLettersToOpen == maxLetters && questions == [] && currentQuestion == -1
      ensures currentProgress == 0 && !isRunning && tickerTaskId == 0
      ensures outbox == [] && armed == multiset{}
    {
      maxLettersToOpen := maxLetters;
      questions, currentQuestion, currentProgress := [], -1, 0;
      isRunning, tickerTaskId := false, 0;
      outbox, armed := [], multiset{};
    }

    /** `runTicker`: arm a ticker that captures the current generation. */
    method RunTicker()
      requires Valid()
      modifies this`armed
      ensures Valid() && armed == old(armed) + multiset{tickerTaskId}
    {
      armed := armed + multiset{tickerTaskId};
    }

    /** `stopTicker`: a new generation, so every armed ticker is now stale. */
    method StopTicker()
      requires Valid()
      modifies this`tickerTaskId
      ensures Valid() && tickerTaskId == old(tickerTaskId) + 1
      ensures forall g :: g in armed ==> g < tickerTaskId
    {
      tickerTaskId := tickerTaskId + 1;
    }

    /** `startRound`: advance the index (wrapping at the number of questions),
        close every letter, announce the question and arm a ticker. */
    method StartRound() returns (fault: Option<Fault>)
      requires Valid()
      modifies this`currentQuestion, this`currentProgress, this`outbox, this`armed
      ensures Valid()
      ensures currentQuestion == NextIndex(old(currentQuestion), |questions|) && currentProgress == 0
      ensures HasQuestion() ==>
                && fault == None
                && outbox == old(outbox) + [Broadcast(NewRound(Current()))]
                && armed == old(armed) + multiset{tickerTaskId}
      ensures !HasQuestion() ==> fault == Some(NoSuchQuestion) && outbox == old(outbox) && armed == old(armed)
    {
      currentQuestion := NextIndex(currentQuestion, |questions|);
      currentProgress := 0;
      if !HasQuestion() {
        return Some(NoSuchQuestion);
      }
      outbox := outbox + [Broadcast(NewRound(Current()))];
      RunTicker();
      fault := None;
    }

    /** The reading loop of `startGame`. A file that cannot be opened leaves the
        questions alone; otherwise they are cleared and refilled line by line,
        and a line without ';' stops the loop with the lines before it loaded. */
    method LoadQuestions(dictionary: Option<seq<string>>) returns (fault: Option<Fault>)
      modifies this`questions
      ensures dictionary.None? ==> fault == Some(CannotReadQuestions) && questions == old(questions)
      ensures dictionary.Some? ==> (fault.None? <==> AllSeparated(dictionary.value))
      ensures dictionary.Some? && fault.None? ==>
                && |questions| == |dictionary.value|
                && forall k :: 0 <= k < |questions| ==> ParseLine(dictionary.value[k]) == Success(questions[k])
      ensures dictionary.Some? && fault.Some? ==>
                && fault == Some(NoSeparator)
                && |questions| < |dictionary.value|
                && ';' !in dictionary.value[|questions|]
                && forall k :: 0 <= k < |questions| ==> ParseLine(dictionary.value[k]) == Success(questions[k])
    {
      if dictionary.None? {
        return Some(CannotReadQuestions);
      }
      var lines := dictionary.value;
      questions := [];
      for i := 0 to |lines|
        invariant |questions| == i
        invariant forall k :: 0 <= k < i ==> ParseLine(lines[k]) == Success(questions[k])
      {
        var parsed := ParseLine(lines[i]);
        if parsed.Failure? {
          return Some(NoSeparator);
        }
        questions := questions + [parsed.value];
      }
      fault := None;
    }

    /** `startGame`: load the questions; if that succeeds, the game is running
        and a round starts at the question after the current one (the index is
        not reset). */
    method StartGame(id: string, dictionary: Option<seq<string>>) returns (fault: Option<Fault>)
      requires Valid()
      modifies this`questions, this`isRunning, this`currentQuestion, this`currentProgress, this`outbox, this`armed
      ensures Valid()
      ensures maxLettersToOpen == old(maxLettersToOpen) && tickerTaskId == old(tickerTaskId)
      ensures |old(outbox)| <= |outbox| && outbox[..|old(outbox)|] == old(outbox)
      ensures forall k :: |old(outbox)| <= k < |outbox| ==> outbox[k].Broadcast?
      ensures dictionary.None? ==> fault == Some(CannotReadQuestions) && questions == old(questions)
      ensures dictionary.Some? && !AllSeparated(dictionary.value) ==>
                && fault == Some(NoSeparator)
                && |questions| < |dictionary.value| && ';' !in dictionary.value[|questions|]
                && forall k :: 0 <= k < |questions| ==> ParseLine(dictionary.value[k]) == Success(questions[k])
      ensures dictionary.Some? && AllSeparated(dictionary.value) ==> fault.None? || fault == Some(NoSuchQuestion)
      ensures fault == Some(CannotReadQuestions) || fault == Some(NoSeparator) ==>
                && isRunning == old(isRunning) && currentQuestion == old(currentQuestion)
                && currentProgress == old(currentProgress) && outbox == old(outbox) && armed == old(armed)
      ensures fault.None? || fault == Some(NoSuchQuestion) ==>
                && dictionary.Some? && |questions| == |dictionary.value|
                && (forall k :: 0 <= k < |questions| ==> ParseLine(dictionary.value[k]) == Success(questions[k]))
                && isRunning
                && currentQuestion == NextIndex(old(currentQuestion), |questions|) && currentProgress == 0
      ensures fault.None? ==>
                HasQuestion() && outbox == old(outbox) + [Broadcast(NewRound(Current()))]
                && armed == old(armed) + multiset{tickerTaskId}
      ensures fault == Some(NoSuchQuestion) ==> !HasQuestion() && outbox == old(outbox) && armed == old(armed)
    {
      fault := LoadQuestions(dictionary);
      if fault.Some? {
        return;
      }
      isRunning := true;
      fault := StartRound();
    }

    /** `stopGame`: stale every ticker, announce who stopped, stop. */
    method StopGame(id: string)
      requires Valid()
      modifies this
      ensures Valid() && !isRunning
      ensures tickerTaskId == old(tickerTaskId) + 1 && armed == old(armed)
      ensures forall g :: g in armed ==> g < tickerTaskId
      ensures outbox == old(outbox) + [Broadcast(Stopped(id))]
      ensures questions == old(questions) && currentQuestion == old(currentQuestion)
      ensures currentProgress == old(currentProgress) && maxLettersToOpen == old(maxLettersToOpen)
    {
      StopTicker();
      outbox := outbox + [Broadcast(Stopped(id))];
      isRunning := false;
    }

    /** `tickGame`: open one more letter; past `maxLettersToOpen` the round is
        lost and a new one starts, otherwise the prefix is announced and the
        ticker re-armed. */
    method TickGame() returns (fault: Option<Fault>)
      requires Valid()
      modifies this`currentQuestion, this`currentProgress, this`outbox, this`armed
      ensures Valid()
      ensures !old(HasQuestion()) ==>
                && fault == Some(NoSuchQuestion) && currentProgress == old(currentProgress) + 1
                && currentQuestion == old(currentQuestion) && outbox == old(outbox) && armed == old(armed)
      ensures old(HasQuestion()) && old(currentProgress) + 1 > maxLettersToOpen ==>
                && fault == None
                && currentQuestion == NextIndex(old(currentQuestion), |questions|) && currentProgress == 0
                && outbox == old(outbox) + [Broadcast(Nobody(old(Current()).answer)), Broadcast(NewRound(Current()))]
                && armed == old(armed) + multiset{tickerTaskId}
      ensures old(HasQuestion()) && old(currentProgress) + 1 <= maxLettersToOpen ==>
                && currentQuestion == old(currentQuestion) && currentProgress == old(currentProgress) + 1
                && (currentProgress <= |Current().answer| ==>
                      && fault == None
                      && outbox == old(outbox) + [Broadcast(CurrentPrefix(Current().answer[..currentProgress]))]
                      && armed == old(armed) + multiset{tickerTaskId})
                && (currentProgress > |Current().answer| ==>
                      fault == Some(PrefixOutOfRange) && outbox == old(outbox) && armed == old(armed))
    {
      currentProgress := currentProgress + 1;
      if !HasQuestion() {
        return Some(NoSuchQuestion);
      }
      var answer := Current().answer;
      if currentProgress > maxLettersToOpen {
        outbox := outbox + [Broadcast(Nobody(answer))];
        NextIndexCycles(currentQuestion, |questions|);
        fault := StartRound();
      } else {
        if currentProgress > |answer| {
          return Some(PrefixOutOfRange);
        }
        outbox := outbox + [Broadcast(CurrentPrefix(answer[..currentProgress]))];
        RunTicker();
        fault := None;
      }
    }

    /** The body of an armed ticker when it fires: only the ticker holding the
        current generation acts, and it moves the generation on before
        opening a letter. A stale ticker changes nothing. */
    method Tick(captured: int) returns (live: bool, fault: Option<Fault>)
      requires Valid() && captured in armed
      modifies this
      ensures Valid()
      ensures live <==> captured == old(tickerTaskId)
      ensures !live ==>
                && fault == None && armed == old(armed) - multiset{captured}
                && tickerTaskId == old(tickerTaskId) && outbox == old(outbox)
                && questions == old(questions) && currentQuestion == old(currentQuestion)
                && currentProgress == old(currentProgress) && isRunning == old(isRunning)
      ensures live ==>
                && tickerTaskId == old(tickerTaskId) + 1 && isRunning == old(isRunning)
                && questions == old(questions)
                && |old(outbox)| <= |outbox| && outbox[..|old(outbox)|] == old(outbox)
      ensures live && !old(HasQuestion()) ==>
                && fault == Some(NoSuchQuestion) && currentProgress == old(currentProgress) + 1
                && currentQuestion == old(currentQuestion) && outbox == old(outbox)
                && armed == old(armed) - multiset{captured}
      ensures live && old(HasQuestion()) && old(currentProgress) + 1 > maxLettersToOpen ==>
                && fault == None
                && currentQuestion == NextIndex(old(currentQuestion), |questions|) && currentProgress == 0
                && outbox == old(outbox) + [Broadcast(Nobody(old(Current()).answer)), Broadcast(NewRound(Current()))]
                && armed == old(armed) - multiset{captured} + multiset{tickerTaskId}
      ensures live && old(HasQuestion()) && old(currentProgress) + 1 <= maxLettersToOpen ==>
                && currentQuestion == old(currentQuestion) && currentProgress == old(currentProgress) + 1
                && (currentProgress <= |Current().answer| ==>
                      && fault == None
                      && outbox == old(outbox) + [Broadcast(CurrentPrefix(Current().answer[..currentProgress]))]
                      && armed == old(armed) - multiset{captured} + multiset{tickerTaskId})
                && (currentProgress > |Current().answer| ==>
                      fault == Some(PrefixOutOfRange) && outbox == old(outbox) && armed == old(armed) - multiset{captured})
      ensures maxLettersToOpen == old(maxLettersToOpen)
    {
      armed := armed - multiset{captured};
      if tickerTaskId != captured {
        return false, None;
      }
      live := true;
      tickerTaskId := tickerTaskId + 1;
      fault := TickGame();
    }

    /** `onPlayerConnected`: nothing while stopped; while running the player
        is sent the round's announcement and then the prefixes of length
        1..currentProgress, in that order, all to that player only. */
    method OnPlayerConnected(id: string) returns (fault: Option<Fault>)
      requires Valid()
      modifies this`outbox
      ensures !isRunning ==> fault == None && outbox == old(outbox)
      ensures isRunning && !HasQuestion() ==> fault == Some(NoSuchQuestion) && outbox == old(outbox)
      ensures isRunning && HasQuestion() && currentProgress <= |Current().answer| ==>
                && fault == None
                && outbox == old(outbox) + [SendTo(id, NewRound(Current()))]
                               + PrefixSends(id, Current().answer, currentProgress)
      ensures isRunning && HasQuestion() && currentProgress > |Current().answer| ==>
                && fault == Some(PrefixOutOfRange)
                && outbox == old(outbox) + [SendTo(id, NewRound(Current()))]
                               + PrefixSends(id, Current().answer, |Current().answer|)
    {
      if !isRunning {
        return None;
      }
      if !HasQuestion() {
        return Some(NoSuchQuestion);
      }
      var q := Current();
      outbox := outbox + [SendTo(id, NewRound(q))];
      ghost var start := outbox;
      var i := 1;
      while i <= currentProgress
        invariant 1 <= i <= currentProgress + 1 && i - 1 <= |q.answer|
        invariant outbox == start + PrefixSends(id, q.answer, i - 1)
      {
        if i > |q.answer| {
          return Some(PrefixOutOfRange);
        }
        PrefixSendsGrow(id, q.answer, i - 1);
        outbox := outbox + [SendTo(id, CurrentPrefix(q.answer[..i]))];
        i := i + 1;
      }
      fault := None;
    }

    /** `onPlayerSentMsg`. A command ("!start" while stopped, "!stop" while
        running; any other command, or those two in the other state, does
        nothing) never draws "Wrong try". Anything else is a guess, whether or
        not the game is running: the exact answer stales the ticker, announces
        the winner and starts the next round; any other text gets "Wrong try",
        to the sender only, and changes nothing else. `dictionary` is what
        reading the dictionary file would give at this moment. */
    method OnPlayerSentMsg(id: string, msg: string, dictionary: Option<seq<string>>) returns (fault: Option<Fault>)
      requires Valid()
      modifies this
      ensures Valid()
      ensures |old(outbox)| <= |outbox| && outbox[..|old(outbox)|] == old(outbox)
      ensures maxLettersToOpen == old(maxLettersToOpen)
      ensures IsCommand(msg) ==> SendTo(id, WrongTry) !in outbox[|old(outbox)|..]
      ensures (IsCommand(msg) && msg != "!start" && msg != "!stop") || (msg == "!start" && old(isRunning)) ||
              (msg == "!stop" && !old(isRunning)) ==>
                && fault == None && outbox == old(outbox) && isRunning == old(isRunning)
                && tickerTaskId == old(tickerTaskId) && armed == old(armed) && questions == old(questions)
                && currentQuestion == old(currentQuestion) && currentProgress == old(currentProgress)
      ensures msg == "!stop" && old(isRunning) ==>
                && fault == None && !isRunning && tickerTaskId == old(tickerTaskId) + 1
                && (forall g :: g in armed ==> g < tickerTaskId) && armed == old(armed)
                && outbox == old(outbox) + [Broadcast(Stopped(id))]
                && questions == old(questions) && currentQuestion == old(currentQuestion)
                && currentProgress == old(currentProgress)
      ensures msg == "!start" && !old(isRunning) && (dictionary.None? || !AllSeparated(dictionary.value)) ==>
                && (fault == Some(CannotReadQuestions) || fault == Some(NoSeparator))
                && !isRunning && outbox == old(outbox) && currentQuestion == old(currentQuestion)
                && currentProgress == old(currentProgress) && tickerTaskId == old(tickerTaskId) && armed == old(armed)
      ensures msg == "!start" && !old(isRunning) && dictionary.None? ==> questions == old(questions)
      ensures msg == "!start" && !old(isRunning) && dictionary.Some? && !AllSeparated(dictionary.value) ==>
                && |questions| < |dictionary.value| && ';' !in dictionary.value[|questions|]
                && forall k :: 0 <= k < |questions| ==> ParseLine(dictionary.value[k]) == Success(questions[k])
      ensures msg == "!start" && !old(isRunning) && dictionary.Some? && AllSeparated(dictionary.value) ==>
                && isRunning && |questions| == |dictionary.value|
                && (forall k :: 0 <= k < |questions| ==> ParseLine(dictionary.value[k]) == Success(questions[k]))
                && currentQuestion == NextIndex(old(currentQuestion), |questions|) && currentProgress == 0
                && tickerTaskId == old(tickerTaskId)
                && (HasQuestion() ==>
                      && fault == None && outbox == old(outbox) + [Broadcast(NewRound(Current()))]
                      && armed == old(armed) + multiset{tickerTaskId})
                && (!HasQuestion() ==> fault == Some(NoSuchQuestion) && outbox == old(outbox) && armed == old(armed))
      ensures !IsCommand(msg) && !old(HasQuestion()) ==>
                && fault == Some(NoSuchQuestion) && outbox == old(outbox) && tickerTaskId == old(tickerTaskId)
                && isRunning == old(isRunning) && armed == old(armed) && questions == old(questions)
                && currentQuestion == old(currentQuestion) && currentProgress == old(currentProgress)
      ensures !IsCommand(msg) && old(HasQuestion()) && msg == old(Current()).answer ==>
                && fault == None && isRunning == old(isRunning) && questions == old(questions)
                && tickerTaskId == old(tickerTaskId) + 1 && armed == old(armed) + multiset{tickerTaskId}
                && currentQuestion == NextIndex(old(currentQuestion), |questions|) && currentProgress == 0
                && HasQuestion() && outbox == old(outbox) + [Broadcast(Winner(id)), Broadcast(NewRound(Current()))]
      ensures !IsCommand(msg) && old(HasQuestion()) && msg != old(Current()).answer ==>
                && fault == None && outbox == old(outbox) + [SendTo(id, WrongTry)]
                && isRunning == old(isRunning) && tickerTaskId == old(tickerTaskId) && armed == old(armed)
                && questions == old(questions) && currentQuestion == old(currentQuestion)
                && currentProgress == old(currentProgress)
    {
      if IsCommand(msg) {
        fault := None;
        if msg == "!start" {
          if !isRunning {
            fault := StartGame(id, dictionary);
          }
        } else if msg == "!stop" {
          if isRunning {
            StopGame(id);
          }
        }
        return;
      }
      if !HasQuestion() {
        return Some(NoSuchQuestion);
      }
      if msg == Current().answer {
        StopTicker();
        outbox := outbox + [Broadcast(Winner(id))];
        NextIndexCycles(currentQuestion, |questions|);
        fault := StartRound();
      } else {
        outbox := outbox + [SendTo(id, WrongTry)];
        fault := None;
      }
    }
  }
}
