/** The calculator of calculation.js: a single named operation applied to the
    two numbers the language platform extracted, or, for any other number of
    recognised operations, the rewritten phrase handed to an expression
    evaluator; then the spoken reply.

    Operands are exact reals. The evaluator (mathjs) and the rendering of a
    value as text are parameters. */
module Calculation {
  import opened Wrappers
  import opened Text
  import opened Normalizer

  /** The operation tags the platform can attach to a phrase. */
  datatype Operation =
    | Add | Subtract | Multiply | Divide | InverseDivide | SquareRoot
    | Factorial | Power | Sine | Cosine | Tangent | Percentage

  /** The tag string of each operation. */
  function Tag(op: Operation): string {
    match op
    case Add => "add"
    case Subtract => "subtract"
    case Multiply => "multiply"
    case Divide => "divide"
    case InverseDivide => "inverse_divide"
    case SquareRoot => "square_root"
    case Factorial => "factorial"
    case Power => "power"
    case Sine => "sine"
    case Cosine => "cos"
    case Tangent => "tan"
    case Percentage => "percentage"
  }

  /** The `switch` of `performOperation`: the operation a tag selects, if any. */
  function ParseOperation(tag: string): (r: Option<Operation>)
    ensures r.Some? ==> Tag(r.value) == tag
    ensures r.None? ==> forall op :: Tag(op) != tag
  {
    if tag == "add" then Some(Add)
    else if tag == "subtract" then Some(Subtract)
    else if tag == "multiply" then Some(Multiply)
    else if tag == "divide" then Some(Divide)
    else if tag == "inverse_divide" then Some(InverseDivide)
    else if tag == "square_root" then Some(SquareRoot)
    else if tag == "factorial" then Some(Factorial)
    else if tag == "power" then Some(Power)
    else if tag == "sine" then Some(Sine)
    else if tag == "cos" then Some(Cosine)
    else if tag == "tan" then Some(Tangent)
    else if tag == "percentage" then Some(Percentage)
    else None
  }

  /** Each operation is selected by its own tag and by no other. */
  lemma TagRoundTrip(op: Operation, tag: string)
    ensures ParseOperation(Tag(op)) == Some(op)
    ensures ParseOperation(tag) == Some(op) <==> tag == Tag(op)
  {
  }

  /** A JavaScript number as far as the calculator produces one: a finite
      value, or the infinity or NaN a division by zero yields. */
  datatype JsNumber = Finite(x: real) | Infinity(positive: bool) | NaN

  /** JavaScript's `a / b` on finite operands. */
  function Quotient(a: real, b: real): (r: JsNumber)
    ensures r.Finite? <==> b != 0.0
    ensures r.Finite? ==> r.x * b == a
    ensures r.Infinity? <==> b == 0.0 && a != 0.0
    ensures r.Infinity? ==> (r.positive <==> a > 0.0)
  {
    if b != 0.0 then Finite(a / b)
    else if a > 0.0 then Infinity(true)
    else if a < 0.0 then Infinity(false)
    else NaN
  }

  /** The functions of `Math` whose floating-point results are not modelled. */
  datatype MathFn = Sqrt | Pow | Sin | Cos | Tan

  /** What an operation returns, before it is turned into text.
      - `Num`: a number;
      - `TooLarge`: the string 'too large';
      - `Fixed(x, d)`: the string `x.toFixed(d)`;
      - `Library(f, args)`: the number `Math.f(args...)`;
      - `FixedLibrary(f, a, d)`: the string `Math.f(a).toFixed(d)`. */
  datatype Value =
    | Num(n: JsNumber)
    | TooLarge
    | Fixed(x: real, digits: nat)
    | Library(f: MathFn, args: seq<real>)
    | FixedLibrary(f: MathFn, arg: real, digits: nat)

  /** The outcome of the calculation: an explicit error message, `undefined`,
      a value, or an exception that escapes `calculate`: the stack overflow
      of `factorial`'s unbounded recursion, or the TypeError of reading
      `.error` from a `null` result. */
  datatype CalcResult = Error(message: string) | Undefined | Answer(v: Value) | Escapes

  /** What `mathjs.eval` gives `doCascadeCalc`: nothing usable (it threw,
      which the `catch` turns into `undefined`, or it returned `undefined`),
      `null`, or a value. */
  datatype Evaluation = NoValue | NullValue | Evaluated(v: Value)

  /** `doAdd`. */
  function DoAdd(a: real, b: real): (r: Value)
    ensures r.Num? && r.n.Finite?
    ensures r.n.x - b == a
  {
    Num(Finite(a + b))
  }

  /** `doSubtract`: the phrase decides the order of the operands. Saying
      "minus" (in any letter case) subtracts the second number from the
      first; otherwise, as in "subtract 3 from 10", the first number is
      taken from the second. */
  predicate SaysMinus(q: string) {
    ContainsIgnoringCase(q, "minus")
  }

  function DoSubtract(a: real, b: real, q: string): (r: Value)
    ensures r.Num? && r.n.Finite?
    ensures SaysMinus(q) ==> r.n.x + b == a
    ensures !SaysMinus(q) ==> r.n.x + a == b
  {
    if SaysMinus(q) then Num(Finite(a - b)) else Num(Finite(b - a))
  }

  /** The same operands under two phrases, one saying "minus" and one not,
      give opposite differences. */
  lemma SubtractPhraseDecides(a: real, b: real, q: string, q': string)
    requires SaysMinus(q) && !SaysMinus(q')
    ensures DoSubtract(a, b, q).n.x == -DoSubtract(a, b, q').n.x
    ensures DoSubtract(a, b, q) == DoSubtract(b, a, q')
  {
  }

  /** `/minus/i` ignores letter case: lower-casing the phrase never changes
      the difference. */
  lemma SubtractIgnoresCase(a: real, b: real, q: string)
    ensures DoSubtract(a, b, Lower(q)) == DoSubtract(a, b, q)
  {
    LowerKeepsLowerCase(Lower(q));
  }

  /** `doMultiply`: a second number of 0 is read as 1. */
  function DoMultiply(a: real, b: real): (r: Value)
    ensures r.Num? && r.n.Finite?
    ensures b != 0.0 ==> r.n.x == a * b
  {
    Num(Finite(a * (if b == 0.0 then 1.0 else b)))
  }

  /** Multiplying by 0 answers the first number, as multiplying by 1 does. */
  lemma MultiplyZeroAsOne(a: real)
    ensures DoMultiply(a, 0.0) == DoMultiply(a, 1.0) == Num(Finite(a))
  {
  }

  /** The phrase "divide <digits> by <digits>" starts at index `i` of `t`,
      its first number ending at index `j`. */
  ghost predicate DividePhraseAt(t: string, i: int, j: int) {
    && OccursAt(t, "divide ", i)
    && i + 7 < j <= |t|
    && (forall k :: i + 7 <= k < j ==> IsDigit(t[k]))
    && OccursAt(t, " by ", j)
    && j + 4 < |t| && IsDigit(t[j + 4])
  }

  /** The regular expression `/divide [0-9]+ by [0-9]+/i` matches `q`. */
  ghost predicate MentionsDivideBy(q: string) {
    exists i, j :: DividePhraseAt(Lower(q), i, j)
  }

  /** The first index from `k` on that does not hold a digit. */
  function DigitsEnd(t: string, k: nat): (r: nat)
    requires k <= |t|
    ensures k <= r <= |t|
    ensures forall m :: k <= m < r ==> IsDigit(t[m])
    ensures r < |t| ==> !IsDigit(t[r])
    decreases |t| - k
  {
    if k < |t| && IsDigit(t[k]) then DigitsEnd(t, k + 1) else k
  }

  /** A run of digits from `k` that stops at a non-digit at `j` ends at `j`. */
  lemma {:induction false} DigitsEndStopsAt(t: string, k: nat, j: nat)
    requires k <= j < |t| && !IsDigit(t[j])
    requires forall m :: k <= m < j ==> IsDigit(t[m])
    ensures DigitsEnd(t, k) == j
    decreases j - k
  {
    if k < j {
      DigitsEndStopsAt(t, k + 1, j);
    }
  }

  /** The phrase starts at `i`, its first number read greedily. */
  predicate PhraseStartsAt(t: string, i: nat) {
    && OccursAt(t, "divide ", i)
    && var j := DigitsEnd(t, i + 7);
      && j > i + 7
      && OccursAt(t, " by ", j)
      && j + 4 < |t| && IsDigit(t[j + 4])
  }

  /** Searching for the phrase from index `i` on. */
  predicate PhraseFrom(t: string, i: nat)
    decreases |t| - i
  {
    i < |t| && (PhraseStartsAt(t, i) || PhraseFrom(t, i + 1))
  }

  /** Reading the first number greedily loses nothing: the character after
      it must be the space of " by ", which is no digit. */
  lemma PhraseStartsAtIff(t: string, i: nat)
    ensures PhraseStartsAt(t, i) <==> exists j :: DividePhraseAt(t, i, j)
  {
    if PhraseStartsAt(t, i) {
      assert DividePhraseAt(t, i, DigitsEnd(t, i + 7));
    }
    if exists j :: DividePhraseAt(t, i, j) {
      var j :| DividePhraseAt(t, i, j);
      assert t[j..j + 4] == " by ";
      assert t[j] == ' ';
      DigitsEndStopsAt(t, i + 7, j);
    }
  }

  /** The left-to-right search finds the phrase exactly when it occurs
      somewhere from `i` on. */
  lemma {:induction false} PhraseFromIff(t: string, i: nat)
    requires i <= |t|
    ensures PhraseFrom(t, i) <==> exists a, j :: i <= a && DividePhraseAt(t, a, j)
    decreases |t| - i
  {
    if i < |t| {
      PhraseFromIff(t, i + 1);
      PhraseStartsAtIff(t, i);
      if exists a, j :: i <= a && DividePhraseAt(t, a, j) {
        var a, j :| i <= a && DividePhraseAt(t, a, j);
        if a > i {
          assert i + 1 <= a;
        }
      }
    }
  }

  /** The test `doDivide` runs on the raw phrase. */
  predicate MatchesDividePattern(q: string) {
    PhraseFrom(Lower(q), 0)
  }

  lemma DividePatternIff(q: string)
    ensures MatchesDividePattern(q) <==> MentionsDivideBy(q)
  {
    PhraseFromIff(Lower(q), 0);
  }

  /** The pattern wants the verb "divide" followed by a space: "divide 10
      by 2" matches it, "what is 10 divided by 2" does not. */
  lemma DividePatternExamples()
    ensures MatchesDividePattern("Divide 10 by 2")
    ensures !MentionsDivideBy("what is 10 divided by 2")
  {
    SpelledOutDivideMatches();
    DividedByDoesNotMatch();
  }

  lemma SpelledOutDivideMatches()
    ensures MatchesDividePattern("Divide 10 by 2")
  {
    var t := "divide 10 by 2";
    assert Lower("Divide 10 by 2") == t by {
      assert forall k :: 0 <= k < |t| ==> Lower("Divide 10 by 2")[k] == t[k];
    }
    assert t[7] == '1' && t[8] == '0' && t[9] == ' ';
    assert DigitsEnd(t, 7) == 9;
    assert t[9..13] == " by ";
    assert PhraseStartsAt(t, 0);
  }

  lemma DividedByDoesNotMatch()
    ensures !MentionsDivideBy("what is 10 divided by 2")
  {
    var u := "what is 10 divided by 2";
    LowerKeepsLowerCase(u);
    forall i | 0 <= i <= |u| - 7
      ensures !OccursAt(u, "divide ", i)
    {
      assert u[i..i + 7][0] == u[i] && u[i..i + 7][1] == u[i + 1] && u[i..i + 7][6] == u[i + 6];
    }
  }

  /** `doDivide`: the first number over the second, except that an inverse
      division whose phrase does not literally say "divide X by Y" divides
      the second by the first. */
  function DoDivide(op: Operation, a: real, b: real, q: string): (r: Value)
    ensures r.Num?
    ensures op == InverseDivide && !MentionsDivideBy(q) ==> r.n == Quotient(b, a)
    ensures op != InverseDivide || MentionsDivideBy(q) ==> r.n == Quotient(a, b)
  {
    DividePatternIff(q);
    if op == InverseDivide && !MatchesDividePattern(q) then Num(Quotient(b, a))
    else Num(Quotient(a, b))
  }

  /** An inverse division is a division with the operands exchanged unless
      the phrase spells out "divide X by Y". */
  lemma InverseDivideSwaps(a: real, b: real, q: string)
    ensures !MentionsDivideBy(q) ==> DoDivide(InverseDivide, a, b, q) == DoDivide(Divide, b, a, q)
    ensures MentionsDivideBy(q) ==> DoDivide(InverseDivide, a, b, q) == DoDivide(Divide, a, b, q)
  {
  }

  /** "What is 10 divided by 2", tagged as an inverse division, answers 2
      divided by 10. */
  lemma InverseDivideExample()
    ensures DoDivide(InverseDivide, 10.0, 2.0, "what is 10 divided by 2") == Num(Finite(0.2))
  {
    DividePatternExamples();
  }

  /** `n!` for a positive integer, as a real number. */
  function FactorialOf(n: nat): real
    requires n >= 1
  {
    if n == 1 then 1.0 else n as real * FactorialOf(n - 1)
  }

  /** `x` is a positive whole number. */
  predicate IsCount(x: real) {
    x >= 1.0 && x.Floor as real == x
  }

  /** The recursion of `factorial(n)` on a JavaScript number, with at most
      `depth` nested calls before the stack is exhausted (`None`). */
  function JsFactorial(x: real, depth: nat): (r: Option<real>)
    ensures r.Some? ==> IsCount(x) && x <= depth as real
    ensures r.Some? ==> r.value == FactorialOf(x.Floor)
    decreases depth
  {
    if depth == 0 then None
    else if x == 1.0 then Some(1.0)
    else
      match JsFactorial(x - 1.0, depth - 1)
      case None => None
      case Some(f) => Some(x * f)
  }

  /** On a positive whole number the recursion computes `n!` once the stack
      allows `n` nested calls. */
  lemma {:induction false} JsFactorialComputes(n: nat, depth: nat)
    requires 1 <= n <= depth
    ensures JsFactorial(n as real, depth).Some? && JsFactorial(n as real, depth).value == FactorialOf(n)
  {
    if n == 1 {
      assert n as real == 1.0;
    } else {
      JsFactorialComputes(n - 1, depth - 1);
      assert (n - 1) as real == n as real - 1.0;
      JsFactorialStep(n as real, depth, FactorialOf(n - 1));
    }
  }

  /** One level of the recursion: `x` times the factorial of `x - 1`. */
  lemma JsFactorialStep(x: real, depth: nat, f: real)
    requires x != 1.0 && depth > 0
    requires JsFactorial(x - 1.0, depth - 1) == Some(f)
    ensures JsFactorial(x, depth).Some? && JsFactorial(x, depth).value == x * f
  {
  }

  /** On anything else the recursion never reaches its base case: it runs
      out of stack whatever the depth. */
  lemma {:induction false} JsFactorialDiverges(x: real, depth: nat)
    requires !IsCount(x)
    ensures JsFactorial(x, depth) == None
    decreases depth
  {
    if depth > 0 {
      assert (x - 1.0).Floor == x.Floor - 1;
      JsFactorialDiverges(x - 1.0, depth - 1);
    }
  }

  /** The largest argument `doFactorial` computes. */
  const FactorialCap: nat := 15

  /** Below the cap, the recursion with the stack `doFactorial` allows
      finishes exactly on the positive whole numbers. */
  lemma CappedFactorialCases(x: real)
    requires x <= FactorialCap as real
    ensures JsFactorial(x, FactorialCap).Some? <==> IsCount(x)
  {
    if IsCount(x) {
      JsFactorialComputes(x.Floor, FactorialCap);
    } else {
      JsFactorialDiverges(x, FactorialCap);
    }
  }

  /** `doFactorial`: 'too large' above the cap; below it the recursion, which
      needs at most `FactorialCap` nested calls when it terminates. */
  function DoFactorial(x: real): (r: CalcResult)
    ensures x > FactorialCap as real ==> r == Answer(TooLarge)
    ensures x <= FactorialCap as real && IsCount(x) ==> r.Answer? && r.v.Num? && r.v.n.Finite?
    ensures x <= FactorialCap as real && !IsCount(x) ==> r == Escapes
  {
    if x > FactorialCap as real then Answer(TooLarge)
    else
      CappedFactorialCases(x);
      match JsFactorial(x, FactorialCap)
      case None => Escapes
      case Some(f) => Answer(Num(Finite(f)))
  }

  /** Up to the cap, `doFactorial` of a whole number is its factorial. */
  lemma DoFactorialComputes(n: nat)
    requires 1 <= n <= FactorialCap
    ensures DoFactorial(n as real) == Answer(Num(Finite(FactorialOf(n))))
  {
    JsFactorialComputes(n, FactorialCap);
  }

  /** The largest value `doFactorial` produces, 15!, is below 2^53, so the
      double-precision products of the source are exact. */
  lemma FactorialStaysExact(n: nat)
    requires 1 <= n <= FactorialCap
    ensures 1.0 <= FactorialOf(n) <= FactorialOf(FactorialCap) < 0x20_0000_0000_0000 as real
  {
    FactorialGrows(n, FactorialCap);
    FactorialAtLeastOne(n);
    assert FactorialOf(15) == 1307674368000.0;
  }

  lemma {:induction false} FactorialAtLeastOne(n: nat)
    requires n >= 1
    ensures FactorialOf(n) >= 1.0
  {
    if n > 1 {
      FactorialAtLeastOne(n - 1);
      AtLeastOneTimes(n as real, FactorialOf(n - 1));
    }
  }

  lemma {:induction false} FactorialGrows(m: nat, n: nat)
    requires 1 <= m <= n
    ensures FactorialOf(m) <= FactorialOf(n)
    decreases n - m
  {
    if m < n {
      FactorialGrows(m, n - 1);
      FactorialAtLeastOne(n - 1);
      AtLeastOneTimes(n as real, FactorialOf(n - 1));
    }
  }

  lemma AtLeastOneTimes(a: real, b: real)
    requires a >= 1.0 && b >= 0.0
    ensures a * b >= b
  {
  }

  /** `doPercentage`: `b` percent of `a`, or `a` percent of 100 when `b` is
      0, as a string with two decimals. */
  function DoPercentage(a: real, b: real): (r: Value)
    ensures r.Fixed? && r.digits == 2
    ensures b != 0.0 ==> r.x * 100.0 == a * b
    ensures b == 0.0 ==> r.x * 100.0 == a
  {
    if b == 0.0 then Fixed(a / 100.0, 2) else Fixed((a * b) / 100.0, 2)
  }

  /** A second number of 0 gives the same value, before rounding, as 1. */
  lemma PercentageZeroAsOne(a: real)
    ensures DoPercentage(a, 0.0) == DoPercentage(a, 1.0)
  {
  }

  /** The branch of `performOperation` for a recognised operation. */
  function Dispatch(op: Operation, a: real, b: real, q: string): (r: CalcResult)
    ensures op != Factorial ==> r.Answer?
    ensures r.Escapes? <==> op == Factorial && a <= FactorialCap as real && !IsCount(a)
    ensures !r.Error? && !r.Undefined?
    ensures op == Add ==> r == Answer(DoAdd(a, b))
    ensures op == Subtract ==> r == Answer(DoSubtract(a, b, q))
    ensures op == Multiply ==> r == Answer(DoMultiply(a, b))
    ensures op == Divide || op == InverseDivide ==> r == Answer(DoDivide(op, a, b, q))
    ensures op == Factorial ==> r == DoFactorial(a)
    ensures op == Percentage ==> r == Answer(DoPercentage(a, b))
  {
    match op
    case Add => Answer(DoAdd(a, b))
    case Subtract => Answer(DoSubtract(a, b, q))
    case Multiply => Answer(DoMultiply(a, b))
    case Divide => Answer(DoDivide(op, a, b, q))
    case InverseDivide => Answer(DoDivide(op, a, b, q))
    case SquareRoot => Answer(Library(Sqrt, [a]))
    case Power => Answer(Library(Pow, [a, b]))
    case Factorial => DoFactorial(a)
    case Sine => Answer(FixedLibrary(Sin, a, 4))
    case Cosine => Answer(FixedLibrary(Cos, a, 4))
    case Tangent => Answer(FixedLibrary(Tan, a, 4))
    case Percentage => Answer(DoPercentage(a, b))
  }

  /** The square root, factorial and trigonometric operations read only
      the first number; the phrase matters only to subtraction and division. */
  lemma OperandsRead(op: Operation, a: real, b: real, q: string, b': real, q': string)
    ensures op in {SquareRoot, Factorial, Sine, Cosine, Tangent} ==> Dispatch(op, a, b, q) == Dispatch(op, a, b', q')
    ensures op !in {Subtract, Divide, InverseDivide} ==> Dispatch(op, a, b, q) == Dispatch(op, a, b, q')
  {
  }

  /** `performOperation`: an unknown tag falls through the `switch` and
      returns `undefined`. */
  function PerformOperation(tag: string, a: real, b: real, q: string): (r: CalcResult)
    ensures ParseOperation(tag).None? <==> r == Undefined
    ensures !r.Error?
  {
    match ParseOperation(tag)
    case None => Undefined
    case Some(op) => Dispatch(op, a, b, q)
  }

  /** The message for an over-long phrase. */
  const TooLongMessage: string := "Sorry, the input is too long"

  /** The longest phrase `doCascadeCalc` rewrites. */
  const MaxQueryLength: nat := 200

  /** `doCascadeCalc`: reject a phrase over the length cap, otherwise rewrite
      it as the source does and evaluate the result. `eval` stands for
      `mathjs.eval`; a `null` from it makes `calculate` throw. */
  function CascadeCalc(q: string, eval: string -> Evaluation): (r: CalcResult)
    ensures r.Error? <==> |q| > MaxQueryLength
    ensures r.Error? ==> r.message == TooLongMessage
    ensures r.Undefined? <==> |q| <= MaxQueryLength && eval(NormalizeAsWritten(q)).NoValue?
    ensures r.Escapes? <==> |q| <= MaxQueryLength && eval(NormalizeAsWritten(q)).NullValue?
    ensures r.Answer? ==> eval(NormalizeAsWritten(q)) == Evaluated(r.v)
  {
    if |q| > MaxQueryLength then Error(TooLongMessage)
    else
      match eval(NormalizeAsWritten(q))
      case NoValue => Undefined
      case NullValue => Escapes
      case Evaluated(v) => Answer(v)
  }

  /** An over-long phrase never reaches the evaluator; a phrase within the
      cap reaches it as a lower-case string no longer than the cap, with no
      space, question mark or full stop. */
  lemma CascadeGuard(q: string, eval: string -> Evaluation, eval': string -> Evaluation)
    ensures |q| > MaxQueryLength ==> CascadeCalc(q, eval) == CascadeCalc(q, eval')
    ensures |q| <= MaxQueryLength ==>
      var e := NormalizeAsWritten(q);
      && |e| <= MaxQueryLength && IsLowerCase(e) && ' ' !in e && '?' !in e && '.' !in e
      && (eval(e) == eval'(e) ==> CascadeCalc(q, eval) == CascadeCalc(q, eval'))
  {
  }

  /** The request fields `calculate` reads: the resolved phrase, the list of
      recognised operation tags and the two numbers. */
  datatype Request = Request(rawQuery: string, ops: seq<string>, number: real, number1: real)

  /** `calculate`, up to the reply: exactly one recognised operation goes to
      `performOperation`, anything else to `doCascadeCalc`. */
  function Calculate(req: Request, eval: string -> Evaluation): (r: CalcResult)
    ensures |req.ops| == 1 ==> r == PerformOperation(req.ops[0], req.number, req.number1, req.rawQuery)
    ensures |req.ops| != 1 ==> r == CascadeCalc(req.rawQuery, eval)
  {
    if |req.ops| == 1 then PerformOperation(req.ops[0], req.number, req.number1, req.rawQuery)
    else CascadeCalc(req.rawQuery, eval)
  }

  /** The route depends only on the number of recognised operations: a
      single operation never consults the evaluator, and any other request
      ignores the operation tags and the numbers. */
  lemma RouteIndependence(req: Request, eval: string -> Evaluation, eval': string -> Evaluation, req': Request)
    requires req'.rawQuery == req.rawQuery
    ensures |req.ops| == 1 ==> Calculate(req, eval) == Calculate(req, eval')
    ensures |req.ops| != 1 && |req'.ops| != 1 ==> Calculate(req, eval) == Calculate(req', eval)
    ensures Calculate(req, eval).Error? ==> |req.ops| != 1 && |req.rawQuery| > MaxQueryLength
  {
  }

  const AnswerPrefix: string := "The answer is "
  const UnablePrefix: string := "Unable to do "

  /** How the answer sentence renders a value: 'too large' is a string and
      is concatenated as it is; every other value is rendered by `show`
      (JavaScript's number and string conversion, not modelled). */
  function Render(v: Value, show: Value -> string): (t: string)
    ensures v.TooLarge? ==> t == "too large"
    ensures !v.TooLarge? ==> t == show(v)
  {
    if v.TooLarge? then "too large" else show(v)
  }

  /** The reply `calculate` builds: the error message verbatim, the
      fallback quoting the raw input for `undefined`, or the answer sentence
      with the value rendered. An escaping exception gives no reply. */
  function Respond(r: CalcResult, raw: string, show: Value -> string): (reply: Option<string>)
    ensures reply.None? <==> r.Escapes?
    ensures r.Error? ==> reply == Some(r.message)
    ensures r.Undefined? ==>
      reply.Some? && StartsWith(reply.value, UnablePrefix) && reply.value[|UnablePrefix|..] == raw
    ensures r.Answer? ==>
      reply.Some? && StartsWith(reply.value, AnswerPrefix) && reply.value[|AnswerPrefix|..] == Render(r.v, show)
    ensures r == Answer(TooLarge) ==> reply == Some("The answer is too large")
  {
    match r
    case Error(m) => Some(m)
    case Undefined => Some(UnablePrefix + raw)
    case Answer(v) =>
      assert v.TooLarge? ==> AnswerPrefix + Render(v, show) == "The answer is too large";
      Some(AnswerPrefix + Render(v, show))
    case Escapes => None
  }

  /** A factorial request above the cap is answered with the sentence
      "The answer is too large", whatever the evaluator and the renderer. */
  lemma FactorialTooLargeReply(req: Request, eval: string -> Evaluation, show: Value -> string)
    requires req.ops == [Tag(Factorial)] && req.number > FactorialCap as real
    ensures Respond(Calculate(req, eval), req.rawQuery, show) == Some("The answer is too large")
  {
    TagRoundTrip(Factorial, Tag(Factorial));
  }

  /** The listener can tell the outcomes of `calculate` apart from the reply
      alone: answers, fallbacks and the length error start differently. */
  lemma RepliesDistinguishOutcomes(req: Request, eval: string -> Evaluation, show: Value -> string)
    ensures var r := Calculate(req, eval);
      var reply := Respond(r, req.rawQuery, show);
      reply.Some? ==>
        && (r.Answer? <==> StartsWith(reply.value, AnswerPrefix))
        && (r.Undefined? <==> StartsWith(reply.value, UnablePrefix))
        && (r.Error? <==> reply.value == TooLongMessage)
  {
    var r := Calculate(req, eval);
    var reply := Respond(r, req.rawQuery, show);
    if reply.Some? {
      var t := reply.value;
      assert AnswerPrefix[0] == 'T' && UnablePrefix[0] == 'U' && TooLongMessage[0] == 'S';
      if StartsWith(t, AnswerPrefix) { assert t[0] == 'T'; }
      if StartsWith(t, UnablePrefix) { assert t[0] == 'U'; }
    }
  }
}
