/** The "sum two numbers" game (SumTwoNumbersGame.java). The operands that
    `java.util.Random.nextInt(BOUND)` draws are supplied by the caller; the
    server calls the game makes are recorded in its outbox. */
module SumGame {
  import opened Wrappers
  import opened Protocol
  import JavaText

  const Bound: int := 1000000000
  const Right: string := "Right"
  const Wrong: string := "Wrong"

  predicate IsOperand(n: int) {
    0 <= n < Bound
  }

  /** The task `String.format("%d %d", i, j)`: the two numbers' texts with
      one space between them, the only space in the task. */
  function Task(i: int, j: int): (s: string)
    ensures forall k :: 0 <= k < |s| ==> (s[k] == ' ' <==> k == |JavaText.ToDecimal(i)|)
  {
    var a, b := JavaText.ToDecimal(i), JavaText.ToDecimal(j);
    assert forall k :: 0 <= k < |a| ==> a[k] != ' ' by {
      if a[0] == '-' {
        assert forall k :: 1 <= k < |a| ==> a[k] == a[1..][k - 1];
      }
    }
    assert forall k :: 0 <= k < |b| ==> b[k] != ' ' by {
      if b[0] == '-' {
        assert forall k :: 1 <= k < |b| ==> b[k] == b[1..][k - 1];
      }
    }
    a + " " + b
  }

  /** A player's reading of a task, the pattern `(\d+) (\d+)`: the text before
      and after the space, both digit strings. As digits are not spaces, the
      space the pattern matches is the first one. */
  function ParseTask(s: string): (r: Option<(nat, nat)>)
    ensures r.Some? ==> ' ' in s
  {
    var k := JavaText.IndexOf(s, ' ');
    if k < 0 then None
    else
      var left, right := s[..k], s[k + 1..];
      if JavaText.IsDigits(left) && JavaText.IsDigits(right) then
        Some((JavaText.DigitsValue(left, 10), JavaText.DigitsValue(right, 10)))
      else None
  }

  /** Every task the game broadcasts is one a player can read back: the two
      numbers come back out of `(\d+) (\d+)`. */
  lemma TaskRoundTrip(i: int, j: int)
    requires IsOperand(i) && IsOperand(j)
    ensures ParseTask(Task(i, j)) == Some((i, j))
  {
    var a, b := JavaText.NatToDecimal(i), JavaText.NatToDecimal(j);
    JavaText.NatToDecimalValue(i);
    JavaText.NatToDecimalValue(j);
    var s := Task(i, j);
    assert s == a + " " + b;
    assert s[..|a|] == a && s[|a|] == ' ' && s[|a| + 1..] == b;
    assert ' ' !in a;
    JavaText.IndexOfFirst(s, ' ', |a|);
  }

  /** `i + j` in Java's 32-bit arithmetic never wraps: both operands are below
      BOUND, and 2 * BOUND fits in an int. */
  lemma SumFits(i: int, j: int)
    requires IsOperand(i) && IsOperand(j)
    ensures JavaText.Wrap32(i + j) == i + j
  {
  }

  /** The decimal text of the sum always reads back, through Integer.decode,
      as the value the answer is compared with. */
  lemma RightAnswerText(i: int, j: int)
    requires IsOperand(i) && IsOperand(j)
    ensures JavaText.IsSignedDigits(JavaText.ToDecimal(i + j))
    ensures JavaText.Decode(JavaText.ToDecimal(i + j)) == Some(JavaText.Wrap32(i + j))
  {
    JavaText.DecodeToDecimal(i + j);
  }

  /** What `onPlayerSentMsg` did with a message: ignored it (no match for
      `-?\d+`), answered it, or threw the NumberFormatException of
      Integer.decode. */
  datatype Outcome = Ignored | Answered(right: bool) | Threw

  class Game {
    var i: int
    var j: int
    var outbox: seq<Message>

    ghost predicate Valid()
      reads this
    {
      IsOperand(i) && IsOperand(j)
    }

    /** The constructor starts the first round. */
    constructor (a: int, b: int)
      requires IsOperand(a) && IsOperand(b)
      ensures Valid() && i == a && j == b
      ensures outbox == [Broadcast(Task(a, b))]
    {
      i, j := a, b;
      outbox := [Broadcast(Task(a, b))];
    }

    /** `startRound`: draw new operands and broadcast the task. */
    method StartRound(a: int, b: int)
      requires IsOperand(a) && IsOperand(b)
      modifies this
      ensures Valid() && i == a && j == b
      ensures outbox == old(outbox) + [Broadcast(Task(a, b))]
    {
      i, j := a, b;
      outbox := outbox + [Broadcast(Task(a, b))];
    }

    /** `onPlayerConnected`: the current task goes to the new player. */
    method OnPlayerConnected(id: string)
      requires Valid()
      modifies this
      ensures Valid() && i == old(i) && j == old(j)
      ensures outbox == old(outbox) + [SendTo(id, Task(i, j))]
    {
      outbox := outbox + [SendTo(id, Task(i, j))];
    }

    /** `onPlayerSentMsg`: a number equal to `i + j` is Right and starts a new
        round with the operands `a`, `b`, which the random stream would supply;
        any other number is Wrong and the round goes on; anything else is
        ignored. A digit string outside the int range throws. */
    method OnPlayerSentMsg(id: string, msg: string, a: int, b: int) returns (outcome: Outcome)
      requires Valid() && IsOperand(a) && IsOperand(b)
      modifies this
      ensures Valid()
      ensures !JavaText.IsSignedDigits(msg) ==> outcome == Ignored
      ensures JavaText.IsSignedDigits(msg) && JavaText.Decode(msg).None? ==> outcome == Threw
      ensures JavaText.IsSignedDigits(msg) && JavaText.Decode(msg).Some? ==>
                outcome == Answered(JavaText.Decode(msg).value == old(i) + old(j))
      ensures outcome == Answered(true) ==>
                i == a && j == b && outbox == old(outbox) + [SendTo(id, Right), Broadcast(Task(a, b))]
      ensures outcome == Answered(false) ==>
                i == old(i) && j == old(j) && outbox == old(outbox) + [SendTo(id, Wrong)]
      ensures outcome.Ignored? || outcome.Threw? ==>
                i == old(i) && j == old(j) && outbox == old(outbox)
    {
      if !JavaText.IsSignedDigits(msg) {
        return Ignored;
      }
      var decoded := JavaText.Decode(msg);
      if decoded.None? {
        return Threw;
      }
      var answer := decoded.value;
      SumFits(i, j);
      var answered := false;
      if answer == JavaText.Wrap32(i + j) {
        answered := true;
        outbox := outbox + [SendTo(id, Right)];
      } else {
        outbox := outbox + [SendTo(id, Wrong)];
      }
      if answered {
        StartRound(a, b);
      }
      outcome := Answered(answered);
    }
  }

  /** What a player of the test suite sends as an answer: the number's text
      `Integer.toString(n)`, which the game reads back as `n`. */
  method AnswerText(n: int) returns (s: string)
    requires JavaText.IsInt32(n)
    ensures JavaText.IsSignedDigits(s) && JavaText.Decode(s) == Some(n)
  {
    s := JavaText.ToDecimal(n);
    JavaText.DecodeToDecimal(n);
  }

  /** The first half of the test suite's round: a player who answers
      `i + j + 1` is told Wrong and the task stays. */
  method WrongAnswerKeepsTask(i: int, j: int, a: int, b: int) returns (game: Game)
    requires IsOperand(i) && IsOperand(j) && IsOperand(a) && IsOperand(b)
    ensures fresh(game) && game.Valid() && game.i == i && game.j == j
    ensures game.outbox == [Broadcast(Task(i, j)), SendTo("0", Task(i, j)), SendTo("0", Wrong)]
  {
    var wrong := AnswerText(i + j + 1);
    game := new Game(i, j);
    game.OnPlayerConnected("0");
    var first := game.OnPlayerSentMsg("0", wrong, a, b);
    assert first == Answered(false);
  }

  /** The two-player round of the test suite: after the wrong answer, the next
      player's `i + j` is Right and both then see the same new task. */
  method TwoPlayersOneRound(i: int, j: int, a: int, b: int) returns (game: Game)
    requires IsOperand(i) && IsOperand(j) && IsOperand(a) && IsOperand(b)
    ensures game.outbox == [
      Broadcast(Task(i, j)),
      SendTo("0", Task(i, j)), SendTo("0", Wrong),
      SendTo("1", Task(i, j)), SendTo("1", Right), Broadcast(Task(a, b))]
  {
    var right := AnswerText(i + j);
    game := WrongAnswerKeepsTask(i, j, a, b);
    ghost var firstPlayer := game.outbox;
    game.OnPlayerConnected("1");
    var second := game.OnPlayerSentMsg("1", right, a, b);
    assert second == Answered(true);
    assert game.outbox == firstPlayer + [SendTo("1", Task(i, j)), SendTo("1", Right), Broadcast(Task(a, b))];
  }
}
