/** The number game of game.js: five spoken instructions applied to a secret
    number only the player knows, then the reveal of the result the engine
    tracked without ever learning that number.

    Each turn receives the values `Math.random()` returns during it, in the
    order they are drawn; the totals are exact reals. */
module Game {
  import opened Wrappers
  import opened Util
  import opened Text

  /** The number of instructions in one game; the reveal happens on the turn
      after the last one. */
  const NumQuestions: int := 5

  /** The start operation chosen for a game: the additive or the multiplicative track. */
  datatype Track = AddTrack | MultiplyTrack

  /** The context fields `counter`, `add_result`, `multiply_result` and
      `start_op` of the `play_game` context. */
  datatype GameState = GameState(counter: int, addResult: real, multiplyResult: real, startOp: Track)

  /** What an instruction is applied to: the player's secret number (only on
      the first turn) or their running result. */
  datatype Target = SecretNumber | Result

  /** One spoken instruction. */
  datatype Instruction =
    | Add(n: nat, target: Target)
    | Multiply(n: nat, target: Target)
    | Subtract(n: nat)
    | SubtractSecret
    | DivideSecret
    | Divide(n: nat)

  /** The operation functions a turn can dispatch to (`doAdd`, `doMultiply`, ...). */
  datatype Op = DoAdd | DoMultiply | DoSubtract | DoSubtractSecret | DoDivideSecret | DoDivide

  /** The pair `[result, response]` an operation function returns. */
  datatype Turn = Turn(total: real, instruction: Instruction)

  /** The outcome of `playGame`: an instruction and the next state, or the
      reveal of the tracked total and the state written back for a new game. */
  datatype Outcome =
    | Continue(instruction: Instruction, next: GameState)
    | Reveal(total: real, next: GameState)

  /** The total that reflects the player's progress: the one of the start track. */
  function Live(st: GameState): real {
    if st.startOp == AddTrack then st.addResult else st.multiplyResult
  }

  function TargetFor(counter: int): Target {
    if counter == 1 then SecretNumber else Result
  }

  /** `getStartOp`: the first instruction adds on the additive track and
      multiplies on the multiplicative one. */
  function StartOp(t: Track): (r: Op)
    ensures r == DoAdd || r == DoMultiply
    ensures r == DoAdd <==> t == AddTrack
  {
    if t == AddTrack then DoAdd else DoMultiply
  }

  /** `getNextOp`: the fixed schedule of counters 2 to 4; every other counter
      (5, and any counter the schedule never reaches) takes the last branch. */
  function NextOp(t: Track, counter: int): (r: Op)
    ensures r == DoSubtractSecret || r == DoDivideSecret <==> counter == 3
    ensures r == DoSubtractSecret ==> t == AddTrack
    ensures r == DoDivideSecret ==> t.MultiplyTrack?
    ensures r != StartOp(t)
  {
    if t == AddTrack then
      if counter == 2 then DoSubtract
      else if counter == 3 then DoSubtractSecret
      else if counter == 4 then DoMultiply
      else DoDivide
    else
      if counter == 2 then DoDivide
      else if counter == 3 then DoDivideSecret
      else if counter == 4 then DoSubtract
      else DoAdd
  }

  /** The operation `playGame` runs for a non-terminal counter. */
  function OpFor(t: Track, counter: int): Op {
    if counter == 1 then StartOp(t) else NextOp(t, counter)
  }

  /** Apart from the secret step on counter 3, the five questions of either
      track use each of addition, multiplication, subtraction and division
      exactly once. */
  lemma ScheduleUsesEachOperation(t: Track)
    ensures multiset{OpFor(t, 1), OpFor(t, 2), OpFor(t, 4), OpFor(t, 5)}
      == multiset{DoAdd, DoMultiply, DoSubtract, DoDivide}
    ensures OpFor(t, 3) == DoSubtractSecret || OpFor(t, 3) == DoDivideSecret
  {
  }

  /** `rolls` holds a draw `generateRandomNumber(10)` turns into an even number. */
  predicate HasEvenDraw(rolls: seq<real>) {
    AllUnits(rolls) && exists i :: 0 <= i < |rolls| && RandomNumber(rolls[i], 10) % 2 == 0
  }

  /** The draws of one turn are enough for `op`: one draw for an operation with
      a random operand, none for a secret step, and for `doDivide` a stream that
      eventually yields an even number (the loop's resampling). */
  predicate Supplies(op: Op, rolls: seq<real>) {
    AllUnits(rolls) &&
    match op
    case DoAdd | DoMultiply | DoSubtract => |rolls| >= 1
    case DoSubtractSecret | DoDivideSecret => true
    case DoDivide => HasEvenDraw(rolls)
  }

  /** The draws of one turn at `counter` on track `t` are enough; the reveal
      turn draws the next game's start operation. */
  predicate TurnSupplied(t: Track, counter: int, rolls: seq<real>) {
    if counter == NumQuestions + 1 then AllUnits(rolls) && |rolls| >= 1
    else Supplies(OpFor(t, counter), rolls)
  }

  /** The first even number `generateRandomNumber(10)` yields from `rolls`:
      the number the resampling loop of `doDivide` settles on. */
  function FirstEven(rolls: seq<real>): (d: nat)
    requires HasEvenDraw(rolls)
    ensures d < 10 && d % 2 == 0
    ensures exists k :: 0 <= k < |rolls| && d == RandomNumber(rolls[k], 10) &&
                        (forall j :: 0 <= j < k ==> RandomNumber(rolls[j], 10) % 2 != 0)
  {
    if RandomNumber(rolls[0], 10) % 2 == 0 then
      RandomNumber(rolls[0], 10)
    else
      assert HasEvenDraw(rolls[1..]) by {
        var i :| 0 <= i < |rolls| && RandomNumber(rolls[i], 10) % 2 == 0;
        assert rolls[1..][i - 1] == rolls[i];
      }
      var d := FirstEven(rolls[1..]);
      ghost var k :| 0 <= k < |rolls[1..]| && d == RandomNumber(rolls[1..][k], 10) &&
        forall j :: 0 <= j < k ==> RandomNumber(rolls[1..][j], 10) % 2 != 0;
      assert d == RandomNumber(rolls[k + 1], 10);
      assert forall j :: 0 <= j < k + 1 ==> RandomNumber(rolls[j], 10) % 2 != 0 by {
        forall j | 0 <= j < k + 1
          ensures RandomNumber(rolls[j], 10) % 2 != 0
        {
          if j > 0 {
            assert rolls[j] == rolls[1..][j - 1];
          }
        }
      }
      d
  }

  /** The divisor of `doDivide`: the first even draw, with 0 bumped to 2. */
  function Divisor(rolls: seq<real>): (d: nat)
    requires HasEvenDraw(rolls)
    ensures d in {2, 4, 6, 8}
    ensures d == FirstEven(rolls) || (FirstEven(rolls) == 0 && d == 2)
  {
    var e := FirstEven(rolls);
    if e == 0 then 2 else e
  }

  /** The change an instruction makes to the total the engine tracks: the
      secret steps change nothing, because the engine's total never
      contained the secret number. */
  function EngineEffect(i: Instruction, total: real): Option<real> {
    match i
    case Add(n, _) => Some(total + n as real)
    case Multiply(n, _) => Some(total * n as real)
    case Subtract(n) => Some(total - n as real)
    case SubtractSecret => Some(total)
    case DivideSecret => Some(total)
    case Divide(n) => if n == 0 then None else Some(total / n as real)
  }

  /** The change an instruction makes to the player's running value `x` when
      their secret number is `s`; `None` when it asks for a division by zero. */
  function Follow(i: Instruction, s: real, x: real): Option<real> {
    match i
    case Add(n, _) => Some(x + n as real)
    case Multiply(n, _) => Some(x * n as real)
    case Subtract(n) => Some(x - n as real)
    case SubtractSecret => Some(x - s)
    case DivideSecret => if s == 0.0 then None else Some(x / s)
    case Divide(n) => if n == 0 then None else Some(x / n as real)
  }

  /** The player follows every instruction in order, starting from `x`. */
  function FollowAll(instructions: seq<Instruction>, s: real, x: real): Option<real>
    decreases |instructions|
  {
    if instructions == [] then Some(x)
    else match Follow(instructions[0], s, x)
      case None => None
      case Some(y) => FollowAll(instructions[1..], s, y)
  }

  /** `doAdd`: add a draw in [0, 99] to the live total. */
  function AddTurn(st: GameState, u: real): (r: Turn)
    requires IsUnit(u)
    ensures r.instruction.Add? && r.instruction.n < 100
    ensures r.instruction.n as real <= u * 100.0 < r.instruction.n as real + 1.0
    ensures r.instruction.target == SecretNumber <==> st.counter == 1
    ensures EngineEffect(r.instruction, Live(st)) == Some(r.total)
  {
    var n := RandomNumber(u, 100);
    Turn(Live(st) + n as real, Add(n, TargetFor(st.counter)))
  }

  /** `doMultiply`: multiply the live total by a draw in [0, 19]. */
  function MultiplyTurn(st: GameState, u: real): (r: Turn)
    requires IsUnit(u)
    ensures r.instruction.Multiply? && r.instruction.n < 20
    ensures r.instruction.n as real <= u * 20.0 < r.instruction.n as real + 1.0
    ensures r.instruction.target == SecretNumber <==> st.counter == 1
    ensures EngineEffect(r.instruction, Live(st)) == Some(r.total)
  {
    var n := RandomNumber(u, 20);
    Turn(Live(st) * n as real, Multiply(n, TargetFor(st.counter)))
  }

  /** `doSubtract`: subtract a draw in [0, 99] from the live total. */
  function SubtractTurn(st: GameState, u: real): (r: Turn)
    requires IsUnit(u)
    ensures r.instruction.Subtract? && r.instruction.n < 100
    ensures r.instruction.n as real <= u * 100.0 < r.instruction.n as real + 1.0
    ensures EngineEffect(r.instruction, Live(st)) == Some(r.total)
  {
    var n := RandomNumber(u, 100);
    Turn(Live(st) - n as real, Subtract(n))
  }

  /** `doSubtractSecret`: the player removes their secret; the engine's total,
      which never held it, is unchanged. */
  function SubtractSecretTurn(st: GameState): (r: Turn)
    ensures r.instruction == SubtractSecret && r.total == Live(st)
  {
    Turn(Live(st), SubtractSecret)
  }

  /** `doDivideSecret`: the player divides out their secret; the engine's
      total is unchanged. */
  function DivideSecretTurn(st: GameState): (r: Turn)
    ensures r.instruction == DivideSecret && r.total == Live(st)
  {
    Turn(Live(st), DivideSecret)
  }

  /** `doDivide`: divide the live total by the first even draw, 0 bumped to 2. */
  function DivideTurn(st: GameState, rolls: seq<real>): (r: Turn)
    requires HasEvenDraw(rolls)
    ensures r.instruction.Divide? && r.instruction.n in {2, 4, 6, 8}
    ensures r.instruction.n == (if FirstEven(rolls) == 0 then 2 else FirstEven(rolls))
    ensures EngineEffect(r.instruction, Live(st)) == Some(r.total)
  {
    var d := Divisor(rolls);
    Turn(Live(st) / d as real, Divide(d))
  }

  /** Dispatch to the operation functions of game.js: each reads the live
      total, draws its random operand if it has one, and returns the new
      total with the instruction that tells the player the same step. */
  function Apply(op: Op, st: GameState, rolls: seq<real>): (r: Turn)
    requires Supplies(op, rolls)
    ensures EngineEffect(r.instruction, Live(st)) == Some(r.total)
  {
    match op
    case DoAdd => AddTurn(st, rolls[0])
    case DoMultiply => MultiplyTurn(st, rolls[0])
    case DoSubtract => SubtractTurn(st, rolls[0])
    case DoSubtractSecret => SubtractSecretTurn(st)
    case DoDivideSecret => DivideSecretTurn(st)
    case DoDivide => DivideTurn(st, rolls)
  }

  /** A fresh game: counter 1 and both totals at their identities. */
  predicate Fresh(st: GameState) {
    st.counter == 1 && st.addResult == 0.0 && st.multiplyResult == 1.0
  }

  /** `getDefaultParams`: the state of a new game, with the start track drawn
      by `generateRandomNumber(2) == 1`. */
  function DefaultParams(u: real): (st: GameState)
    requires IsUnit(u)
    ensures Fresh(st)
    ensures st.startOp == AddTrack <==> u >= 0.5
  {
    var coin := RandomNumber(u, 2);
    assert coin == 1 <==> u >= 0.5 by {
      assert coin as real <= u * 2.0 < coin as real + 1.0;
    }
    GameState(1, 0.0, 1.0, if coin == 1 then AddTrack else MultiplyTrack)
  }

  /** `playGame` (with `endGame` on the terminal counter): at counter 6 reveal
      the live total and write back a fresh game; otherwise run the scheduled
      operation, advance the counter by one, store the new total in the live
      field and reset the other field to its identity. */
  function Play(st: GameState, rolls: seq<real>): (r: Outcome)
    requires TurnSupplied(st.startOp, st.counter, rolls)
    ensures st.counter == NumQuestions + 1 <==> r.Reveal?
    ensures r.Reveal? ==> r.total == Live(st) && Fresh(r.next)
    ensures r.Reveal? ==> (r.next.startOp == AddTrack <==> rolls[0] >= 0.5)
    ensures r.Continue? ==>
      && r.next.counter == st.counter + 1
      && r.next.startOp == st.startOp
      && EngineEffect(r.instruction, Live(st)) == Some(Live(r.next))
      && (st.startOp == AddTrack ==> r.next.multiplyResult == 1.0)
      && (st.startOp == MultiplyTrack ==> r.next.addResult == 0.0)
  {
    if st.counter == NumQuestions + 1 then
      Reveal(Live(st), DefaultParams(rolls[0]))
    else
      var turn := Apply(OpFor(st.startOp, st.counter), st, rolls);
      Continue(
        turn.instruction,
        GameState(
          st.counter + 1,
          if st.startOp == AddTrack then turn.total else 0.0,
          if st.startOp == MultiplyTrack then turn.total else 1.0,
          st.startOp))
  }

  /** The texts `playGame` speaks for each instruction. */
  function TargetText(t: Target): string {
    if t == SecretNumber then "secret number" else "result"
  }

  /** The instruction a spoken text names: the verb picks the operation,
      the character after "Subtract " or "Divide " separates the secret steps
      from the numeric ones, and the digits are read back as the operand. */
  function ParseInstruction(t: string): Option<Instruction> {
    if |t| < 10 then None
    else if t[0] == 'A' then
      Some(Add(LeadingValue(t[4..]), if t[|t| - 1] == 'r' then SecretNumber else Result))
    else if t[0] == 'M' && |t| > 14 then
      var target := if t[14] == 's' then SecretNumber else Result;
      var k := 18 + |TargetText(target)|;
      if k <= |t| then Some(Multiply(LeadingValue(t[k..]), target)) else None
    else if t[0] == 'S' then
      if IsDigit(t[9]) then Some(Subtract(LeadingValue(t[9..]))) else Some(SubtractSecret)
    else if t[0] == 'D' then
      if t[7] == 't' then Some(DivideSecret)
      else if |t| >= 22 then Some(Divide(LeadingValue(t[22..])))
      else None
    else None
  }

  lemma AddTextParses(n: nat, t: Target)
    ensures ParseInstruction("Add " + NatText(n) + " to your " + TargetText(t)) == Some(Add(n, t))
  {
    var d, w := NatText(n), TargetText(t);
    var b := " to your " + w;
    var s := "Add " + d + " to your " + w;
    assert s == "Add " + (d + b);
    assert s[4..] == d + b;
    ReadNatText(n, b);
    assert s[|s| - 1] == w[|w| - 1];
  }

  lemma MultiplyTextParses(n: nat, t: Target)
    ensures ParseInstruction("Multiply your " + TargetText(t) + " by " + NatText(n)) == Some(Multiply(n, t))
  {
    var d, w := NatText(n), TargetText(t);
    var s := "Multiply your " + w + " by " + d;
    assert s[14] == w[0];
    assert s[18 + |w|..] == d;
    assert d + [] == d;
    ReadNatText(n, []);
  }

  lemma SubtractTextParses(n: nat)
    ensures ParseInstruction("Subtract " + NatText(n) + " from your result") == Some(Subtract(n))
  {
    var d := NatText(n);
    var b := " from your result";
    var s := "Subtract " + d + b;
    assert s[9] == d[0];
    assert s[9..] == d + b;
    ReadNatText(n, b);
  }

  lemma DivideTextParses(n: nat)
    ensures ParseInstruction("Divide your result by " + NatText(n)) == Some(Divide(n))
  {
    var d := NatText(n);
    var s := "Divide your result by " + d;
    assert s[7] == 'y';
    assert s[22..] == d;
    assert d + [] == d;
    ReadNatText(n, []);
  }

  lemma SubtractSecretTextParses(s: string)
    requires s == "Subtract " + "your secret number from the result"
    ensures ParseInstruction(s) == Some(SubtractSecret)
  {
    assert |s| >= 10 && s[0] == 'S' && s[9] == 'y';
  }

  lemma DivideSecretTextParses(s: string)
    requires s == "Divide " + "the result by your secret number"
    ensures ParseInstruction(s) == Some(DivideSecret)
  {
    assert |s| >= 10 && s[0] == 'D' && s[7] == 't';
  }

  /** The texts `playGame` speaks for each instruction (game.js, the
      `response` of each operation function). Each text reads back as the
      instruction it speaks. */
  function InstructionText(i: Instruction): (r: string)
    ensures ParseInstruction(r) == Some(i)
  {
    match i
    case Add(n, t) =>
      AddTextParses(n, t);
      "Add " + NatText(n) + " to your " + TargetText(t)
    case Multiply(n, t) =>
      MultiplyTextParses(n, t);
      "Multiply your " + TargetText(t) + " by " + NatText(n)
    case Subtract(n) =>
      SubtractTextParses(n);
      "Subtract " + NatText(n) + " from your result"
    case SubtractSecret =>
      var s := "Subtract " + "your secret number from the result";
      SubtractSecretTextParses(s);
      s
    case DivideSecret =>
      var s := "Divide " + "the result by your secret number";
      DivideSecretTextParses(s);
      s
    case Divide(n) =>
      DivideTextParses(n);
      "Divide your result by " + NatText(n)
  }

  /** What the player hears determines the instruction: no two instructions,
      numbers and targets included, are spoken alike. */
  lemma InstructionTextInjective(i: Instruction, j: Instruction)
    ensures InstructionText(i) == InstructionText(j) ==> i == j
  {
  }

  /** The text of a turn; the reveal shows the total through `show`, the
      JavaScript number-to-string conversion. A turn that continues speaks
      its instruction, and the reveal reads as no instruction. */
  function ReplyText(o: Outcome, show: real -> string): (r: string)
    ensures o.Continue? ==> ParseInstruction(r) == Some(o.instruction)
    ensures o.Reveal? ==> ParseInstruction(r) == None
  {
    match o
    case Continue(i, _) => InstructionText(i)
    case Reveal(total, _) =>
      var r := "Your result is " + show(total) + ". Do you want to play again?";
      assert r[0] == 'Y';
      r
  }

  /** "Add <d> to your result" never mentions "secret number". */
  lemma AddResultTextIsSilent(d: string)
    requires |d| > 0 && AllDigits(d)
    ensures !Contains("Add " + d + " to your result", "secret number")
  {
    var p := "secret number";
    assert NoDigits(p);
    AbsentByFirstChar("Add ", p);
    var b := " to your result";
    assert b[0] != 's' && b[1] != 's' && b[2] != 's';
    AbsentByFirstChar(b, p);
    AbsentAroundDigits("Add ", d, b, p);
  }

  /** "Multiply your result by <d>" never mentions "secret number". */
  lemma MultiplyResultTextIsSilent(d: string)
    requires |d| > 0 && AllDigits(d)
    ensures !Contains("Multiply your result by " + d, "secret number")
  {
    var p := "secret number";
    assert NoDigits(p);
    var a := "Multiply your result by ";
    assert forall i :: 0 <= i <= 11 ==> a[i] != 's';
    AbsentByFirstChar(a, p);
    AbsentByFirstChar("", p);
    AbsentAroundDigits(a, d, "", p);
    assert a + d + "" == a + d;
  }

  /** The add and multiply instructions mention "secret number" exactly when
      they are addressed to it. */
  lemma TargetMentionsSecret(i: Instruction)
    requires i.Add? || i.Multiply?
    ensures Contains(InstructionText(i), "secret number") <==> i.target == SecretNumber
  {
    if i.Add? {
      AddTextMentions(i.n, i.target);
    } else {
      MultiplyTextMentions(i.n, i.target);
    }
  }

  lemma AddTextMentions(n: nat, t: Target)
    ensures Contains(InstructionText(Add(n, t)), "secret number") <==> t == SecretNumber
  {
    var d := NatText(n);
    if t == SecretNumber {
      AddSecretTextMentions(d);
    } else {
      assert InstructionText(Add(n, t)) == "Add " + d + " to your result";
      AddResultTextIsSilent(d);
    }
  }

  lemma MultiplyTextMentions(n: nat, t: Target)
    ensures Contains(InstructionText(Multiply(n, t)), "secret number") <==> t == SecretNumber
  {
    var d := NatText(n);
    if t == SecretNumber {
      MultiplySecretTextMentions(d);
    } else {
      assert InstructionText(Multiply(n, t)) == "Multiply your result by " + d;
      MultiplyResultTextIsSilent(d);
    }
  }

  lemma AddSecretTextMentions(d: string)
    ensures Contains("Add " + d + " to your " + "secret number", "secret number")
  {
    var a := "Add " + d + " to your ";
    assert OccursAt(a + "secret number", "secret number", |a|);
  }

  lemma MultiplySecretTextMentions(d: string)
    ensures Contains("Multiply your " + "secret number" + " by " + d, "secret number")
  {
    var a := "Multiply your ";
    var p := "secret number";
    var t := a + p + " by " + d;
    assert t[|a|..|a| + |p|] == p;
    assert OccursAt(t, p, |a|);
  }

  /** The start-style instructions (add on the multiplicative track's last
      turn, multiply on the additive track's fourth) say "secret number" only
      on the first turn, and "result" on every other. */
  lemma SecretNumberOnlyOnFirstTurn(op: Op, st: GameState, rolls: seq<real>)
    requires op == DoAdd || op == DoMultiply
    requires Supplies(op, rolls)
    ensures Contains(InstructionText(Apply(op, st, rolls).instruction), "secret number")
      <==> st.counter == 1
  {
    TargetMentionsSecret(Apply(op, st, rolls).instruction);
  }

  /** The first turn runs the start operation: an add on the additive track,
      a multiply on the multiplicative one, addressed to the secret number. */
  lemma StartInstruction(st: GameState, rolls: seq<real>)
    requires st.counter == 1
    requires TurnSupplied(st.startOp, st.counter, rolls)
    ensures var i := Play(st, rolls).instruction;
      && (st.startOp == AddTrack ==> i.Add? && i.target == SecretNumber)
      && (st.startOp == MultiplyTrack ==> i.Multiply? && i.target == SecretNumber)
  {
  }

  /** The first turn of a fresh game adds a number in [0, 99] to 0 on the
      additive track and multiplies 1 by a number in [0, 19] on the
      multiplicative track, and the instruction is addressed to the secret number. */
  lemma FirstTurn(st: GameState, rolls: seq<real>)
    requires Fresh(st)
    requires TurnSupplied(st.startOp, st.counter, rolls)
    ensures var o := Play(st, rolls);
      && o.Continue?
      && (st.startOp == AddTrack ==>
            o.instruction.Add? && o.instruction.target == SecretNumber &&
            o.instruction.n <= 99 && o.next.addResult == 0.0 + o.instruction.n as real)
      && (st.startOp == MultiplyTrack ==>
            o.instruction.Multiply? && o.instruction.target == SecretNumber &&
            o.instruction.n <= 19 && o.next.multiplyResult == 1.0 * o.instruction.n as real)
  {
  }

  /** The instructions of turns 2 to 5: subtract, subtract the secret,
      multiply, divide on the additive track; divide, divide by the secret,
      subtract, add on the multiplicative track. Every division is by 2, 4, 6 or 8. */
  lemma Schedule(st: GameState, rolls: seq<real>)
    requires 2 <= st.counter <= NumQuestions
    requires TurnSupplied(st.startOp, st.counter, rolls)
    ensures var i := Play(st, rolls).instruction;
      && (st.startOp == AddTrack ==>
            && (st.counter == 2 ==> i.Subtract? && i.n < 100)
            && (st.counter == 3 ==> i == SubtractSecret)
            && (st.counter == 4 ==> i.Multiply? && i.n < 20 && i.target == Result)
            && (st.counter == 5 ==> i.Divide? && i.n in {2, 4, 6, 8}))
      && (st.startOp == MultiplyTrack ==>
            && (st.counter == 2 ==> i.Divide? && i.n in {2, 4, 6, 8})
            && (st.counter == 3 ==> i == DivideSecret)
            && (st.counter == 4 ==> i.Subtract? && i.n < 100)
            && (st.counter == 5 ==> i.Add? && i.n < 100 && i.target == Result))
  {
  }

  /** The value a player with secret `s` holds at `counter` when the engine's
      live total is `total`: before the secret step it is the secret combined
      with the total (plus on the additive track, times on the multiplicative
      one); from then on it is the total itself. */
  function PlayerValue(t: Track, counter: int, s: real, total: real): real {
    if counter <= 3 then (if t == AddTrack then s + total else s * total)
    else total
  }

  /** The player's running value `x` agrees with the engine's state. */
  predicate Agrees(st: GameState, s: real, x: real) {
    1 <= st.counter <= NumQuestions + 1 && x == PlayerValue(st.startOp, st.counter, s, Live(st))
  }

  /** A fresh game agrees with a player who holds only the secret. */
  lemma FreshAgrees(st: GameState, s: real)
    requires Fresh(st)
    ensures Agrees(st, s, s)
  {
  }

  lemma ScaleAssociates(s: real, l: real, k: real, l': real)
    requires l' == l * k
    ensures (s * l) * k == s * l'
  {
  }

  lemma DivideAssociates(s: real, l: real, k: real, l': real)
    requires k != 0.0
    requires l' == l / k
    ensures (s * l) / k == s * l'
  {
  }

  lemma DivideCancels(s: real, l: real)
    requires s != 0.0
    ensures (s * l) / s == l
  {
  }

  /** The player's step and the engine's step on a multiplication. */
  lemma MultiplyEffects(i: Instruction, s: real, x: real, l: real, l': real)
    requires i.Multiply?
    requires EngineEffect(i, l) == Some(l')
    ensures Follow(i, s, x).Some? && Follow(i, s, x).value == x * i.n as real
    ensures l' == l * i.n as real
  {
  }

  /** The player's step and the engine's step on a division. */
  lemma DivideEffects(i: Instruction, s: real, x: real, l: real, l': real)
    requires i.Divide?
    requires EngineEffect(i, l) == Some(l')
    ensures i.n != 0
    ensures Follow(i, s, x).Some? && Follow(i, s, x).value == x / i.n as real
    ensures l' == l / i.n as real
  {
  }

  /** The player's step on the multiplicative track before the secret is
      divided out, against the engine's step on the same multiplication. */
  lemma MultiplyStep(i: Instruction, s: real, l: real, l': real)
    requires i.Multiply?
    requires EngineEffect(i, l) == Some(l')
    ensures Follow(i, s, s * l).Some? && Follow(i, s, s * l).value == s * l'
  {
    MultiplyEffects(i, s, s * l, l, l');
    ScaleAssociates(s, l, i.n as real, l');
  }

  /** The same for a division. */
  lemma DivideStep(i: Instruction, s: real, l: real, l': real)
    requires i.Divide?
    requires EngineEffect(i, l) == Some(l')
    ensures Follow(i, s, s * l).Some? && Follow(i, s, s * l).value == s * l'
  {
    DivideEffects(i, s, s * l, l, l');
    DivideAssociates(s, l, i.n as real, l');
  }

  /** The secret instruction of a track, spoken at counter 3. */
  function SecretStep(t: Track): Instruction {
    if t == AddTrack then SubtractSecret else DivideSecret
  }

  /** Before the secret step on the multiplicative track the player's value
      is the secret times the total, and a scaling instruction keeps it so. */
  lemma ScaleTrackStep(counter: int, i: Instruction, s: real, l: real, l': real)
    requires counter < 3
    requires EngineEffect(i, l) == Some(l')
    requires i.Multiply? || i.Divide?
    ensures var x := PlayerValue(MultiplyTrack, counter, s, l);
      Follow(i, s, x).Some? && Follow(i, s, x).value == PlayerValue(MultiplyTrack, counter + 1, s, l')
  {
    if i.Multiply? {
      MultiplyStep(i, s, l, l');
    } else {
      DivideStep(i, s, l, l');
    }
  }

  /** Dividing by a non-zero secret turns the secret times the total into the
      total, which the engine leaves as it was. */
  lemma CancelStep(s: real, l: real, l': real)
    requires s != 0.0
    requires EngineEffect(DivideSecret, l) == Some(l')
    ensures var x := PlayerValue(MultiplyTrack, 3, s, l);
      Follow(DivideSecret, s, x).Some? && Follow(DivideSecret, s, x).value == PlayerValue(MultiplyTrack, 4, s, l')
  {
    DivideCancels(s, l);
  }

  /** One instruction at `counter` moves the player's value and the engine's
      total in step, provided the secret step comes exactly at counter 3 and,
      on the multiplicative track, the earlier steps only scale. */
  lemma InstructionKeepsAgreement(t: Track, counter: int, i: Instruction, s: real, l: real, l': real)
    requires 1 <= counter <= NumQuestions
    requires EngineEffect(i, l) == Some(l')
    requires counter == 3 <==> i == SecretStep(t)
    requires i.SubtractSecret? || i.DivideSecret? ==> counter == 3
    requires t == AddTrack && counter < 3 ==> i.Add? || i.Subtract?
    requires t == MultiplyTrack && counter < 3 ==> i.Multiply? || i.Divide?
    requires t == MultiplyTrack ==> s != 0.0
    ensures var x := PlayerValue(t, counter, s, l);
      Follow(i, s, x).Some? && Follow(i, s, x).value == PlayerValue(t, counter + 1, s, l')
  {
    if counter > 3 {
      LateStep(t, counter, i, s, l, l');
    } else if t == AddTrack {
      ShiftTrackStep(counter, i, s, l, l');
    } else if counter < 3 {
      ScaleTrackStep(counter, i, s, l, l');
    } else {
      CancelStep(s, l, l');
    }
  }

  /** On the additive track the player's value is the secret plus the total
      up to the secret step, which subtracts the secret back out. */
  lemma ShiftTrackStep(counter: int, i: Instruction, s: real, l: real, l': real)
    requires counter <= 3
    requires EngineEffect(i, l) == Some(l')
    requires counter == 3 <==> i == SubtractSecret
    requires counter < 3 ==> i.Add? || i.Subtract?
    ensures var x := PlayerValue(AddTrack, counter, s, l);
      Follow(i, s, x).Some? && Follow(i, s, x).value == PlayerValue(AddTrack, counter + 1, s, l')
  {
  }

  /** After the secret step the player's value is the total itself, and
      both follow the same plain instruction. */
  lemma LateStep(t: Track, counter: int, i: Instruction, s: real, l: real, l': real)
    requires counter > 3
    requires EngineEffect(i, l) == Some(l')
    requires !i.SubtractSecret? && !i.DivideSecret?
    ensures var x := PlayerValue(t, counter, s, l);
      Follow(i, s, x).Some? && Follow(i, s, x).value == PlayerValue(t, counter + 1, s, l')
  {
  }

  /** One instruction turn keeps the player in agreement with the engine: the
      player can carry it out (on the multiplicative track, with a non-zero
      secret) and their new value agrees with the engine's new state. */
  lemma {:induction false} PlayKeepsAgreement(st: GameState, rolls: seq<real>, s: real, x: real)
    requires Agrees(st, s, x)
    requires st.counter <= NumQuestions
    requires TurnSupplied(st.startOp, st.counter, rolls)
    requires st.startOp == MultiplyTrack ==> s != 0.0
    ensures var o := Play(st, rolls);
      && o.Continue?
      && Follow(o.instruction, s, x).Some?
      && Agrees(o.next, s, Follow(o.instruction, s, x).value)
  {
    var o := Play(st, rolls);
    if st.counter == 1 {
      StartInstruction(st, rolls);
    } else {
      Schedule(st, rolls);
    }
    InstructionKeepsAgreement(st.startOp, st.counter, o.instruction, s, Live(st), Live(o.next));
  }

  /** On the reveal turn the engine announces exactly the player's value. */
  lemma RevealAgrees(st: GameState, rolls: seq<real>, s: real, x: real)
    requires Agrees(st, s, x)
    requires st.counter == NumQuestions + 1
    requires TurnSupplied(st.startOp, st.counter, rolls)
    ensures Play(st, rolls) == Reveal(x, Play(st, rolls).next)
  {
  }

  /** The reveal turn speaks the live total, however it is rendered, and
      asks whether to play again; every other turn speaks its instruction. */
  lemma RevealSpeaksTotal(st: GameState, rolls: seq<real>, show: real -> string)
    requires TurnSupplied(st.startOp, st.counter, rolls)
    ensures st.counter == NumQuestions + 1 ==>
      ReplyText(Play(st, rolls), show) == "Your result is " + show(Live(st)) + ". Do you want to play again?"
    ensures st.counter != NumQuestions + 1 ==>
      ReplyText(Play(st, rolls), show) == InstructionText(Play(st, rolls).instruction)
  {
  }

  /** The draws of consecutive turns from `counter` on are each enough for their turn. */
  predicate SessionSupplied(t: Track, counter: int, rolls: seq<seq<real>>) {
    forall i :: 0 <= i < |rolls| ==> TurnSupplied(t, counter + i, rolls[i])
  }

  /** What a player hears in a run of turns: the instructions, then the
      revealed total if the run reached the reveal. */
  datatype Transcript = Transcript(instructions: seq<Instruction>, revealed: Option<real>)

  /** Successive `playGame` turns from `st`, one list of draws per turn,
      stopping at the reveal. */
  function Session(st: GameState, rolls: seq<seq<real>>): (r: Transcript)
    requires SessionSupplied(st.startOp, st.counter, rolls)
    ensures r.revealed.Some? <==> st.counter <= NumQuestions + 1 < st.counter + |rolls|
    ensures r.revealed.Some? ==> |r.instructions| == NumQuestions + 1 - st.counter
    ensures r.revealed.None? ==> |r.instructions| == |rolls|
    decreases |rolls|
  {
    if rolls == [] then Transcript([], None)
    else
      match Play(st, rolls[0])
      case Reveal(total, _) => Transcript([], Some(total))
      case Continue(i, next) =>
        assert SessionSupplied(next.startOp, next.counter, rolls[1..]) by {
          forall k | 0 <= k < |rolls[1..]|
            ensures TurnSupplied(next.startOp, next.counter + k, rolls[1..][k])
          {
            assert rolls[1..][k] == rolls[k + 1];
          }
        }
        var rest := Session(next, rolls[1..]);
        Transcript([i] + rest.instructions, rest.revealed)
  }

  /** From any turn at which the player agrees with the engine, playing to the
      end yields the remaining instructions and a reveal of exactly the value
      the player reaches by following them. */
  lemma {:induction false} SessionAgrees(st: GameState, rolls: seq<seq<real>>, s: real, x: real)
    requires Agrees(st, s, x)
    requires |rolls| == NumQuestions + 2 - st.counter
    requires SessionSupplied(st.startOp, st.counter, rolls)
    requires st.startOp == MultiplyTrack ==> s != 0.0
    ensures var tr := Session(st, rolls);
      && |tr.instructions| == NumQuestions + 1 - st.counter
      && tr.revealed.Some?
      && FollowAll(tr.instructions, s, x) == tr.revealed
    decreases |rolls|
  {
    assert TurnSupplied(st.startOp, st.counter, rolls[0]);
    if st.counter == NumQuestions + 1 {
      RevealAgrees(st, rolls[0], s, x);
    } else {
      PlayKeepsAgreement(st, rolls[0], s, x);
      var o := Play(st, rolls[0]);
      var y := Follow(o.instruction, s, x).value;
      assert SessionSupplied(o.next.startOp, o.next.counter, rolls[1..]) by {
        forall k | 0 <= k < |rolls[1..]|
          ensures TurnSupplied(o.next.startOp, o.next.counter + k, rolls[1..][k])
        {
          assert rolls[1..][k] == rolls[k + 1];
        }
      }
      SessionAgrees(o.next, rolls[1..], s, y);
      var rest := Session(o.next, rolls[1..]);
      var tr := Session(st, rolls);
      assert tr.instructions == [o.instruction] + rest.instructions;
      assert tr.instructions[1..] == rest.instructions;
    }
  }

  /** The puzzle's promise: whatever secret `s` the player picks (non-zero on
      the multiplicative track), a fresh game speaks five instructions and
      then reveals exactly the number the player reaches by applying them to
      `s`, although the engine never receives `s`. */
  lemma SecretNeverNeeded(st: GameState, rolls: seq<seq<real>>, s: real)
    requires Fresh(st)
    requires |rolls| == NumQuestions + 1
    requires SessionSupplied(st.startOp, st.counter, rolls)
    requires st.startOp == MultiplyTrack ==> s != 0.0
    ensures var tr := Session(st, rolls);
      && |tr.instructions| == NumQuestions
      && tr.revealed.Some?
      && FollowAll(tr.instructions, s, s) == tr.revealed
  {
    FreshAgrees(st, s);
    SessionAgrees(st, rolls, s, s);
  }
}
