/**
 * The calculator of `components/workspace/Calculator.tsx`: a five-field state updated by
 * one handler per button. The display is edited character by character; the numbers
 * behind it are floating point and stay abstract: `parseFloat`, `String(number)` and the
 * four operations are supplied by the caller as an `Arithmetic` over any number type.
 */
module Workspace {
  import opened Wrappers

  datatype Operator = Add | Subtract | Multiply | Divide

  function OperatorText(op: Operator): string {
    match op
    case Add => "+"
    case Subtract => "-"
    case Multiply => "*"
    case Divide => "/"
  }

  /** `String(n)` never yields the empty string ("NaN" and "Infinity" included). */
  type Rendering = s: string | s != [] witness "0"

  /** `parseFloat`, `String(number)` and `calculate`, left abstract. */
  datatype Arithmetic<!Num> = Arithmetic(
    parse: string -> Num,
    show: Num -> Rendering,
    calculate: (Num, Num, Operator) -> Num)

  class Calculator<Num> {
    var displayValue: string
    var expression: string
    var operator: Option<Operator>
    var waitingForOperand: bool
    var firstOperand: Option<Num>

    /** The display always shows something. */
    predicate Valid()
      reads this
    {
      displayValue != []
    }

    predicate IsInitial()
      reads this
    {
      displayValue == "0" && expression == "" && operator == None && !waitingForOperand && firstOperand == None
    }

    /** The state `useState(initialState)` starts from. */
    constructor ()
      ensures IsInitial() && Valid()
    {
      displayValue := "0";
      expression := "";
      operator := None;
      waitingForOperand := false;
      firstOperand := None;
    }

    /**
     * `handleDigitClick(digit)`: start a new number after an operator, replace a lone "0",
     * append otherwise.
     */
    method DigitClick(digit: char)
      modifies this
      ensures old(waitingForOperand) ==> displayValue == [digit]
      ensures !old(waitingForOperand) ==>
        displayValue == (if old(displayValue) == "0" then [digit] else old(displayValue) + [digit])
      ensures !waitingForOperand
      ensures expression == old(expression) && operator == old(operator) && firstOperand == old(firstOperand)
      ensures Valid()
    {
      if waitingForOperand {
        displayValue := [digit];
        waitingForOperand := false;
      } else {
        displayValue := if displayValue == "0" then [digit] else displayValue + [digit];
      }
    }

    /** `handleDecimalClick()`: append "." unless the display already has one; nothing else changes. */
    method DecimalClick()
      modifies this
      ensures displayValue == if '.' in old(displayValue) then old(displayValue) else old(displayValue) + "."
      ensures '.' in displayValue
      ensures expression == old(expression) && operator == old(operator)
      ensures waitingForOperand == old(waitingForOperand) && firstOperand == old(firstOperand)
      ensures Valid()
    {
      if '.' !in displayValue {
        displayValue := displayValue + ".";
      }
    }

    /**
     * `handleOperatorClick(next)`: remember the operator and wait for the next operand. When an
     * operator is pending and an operand has been typed, the pending operation is folded in
     * first and its result shown.
     */
    method OperatorClick(next: Operator, arith: Arithmetic<Num>)
      modifies this
      ensures operator == Some(next) && waitingForOperand
      ensures var chains := old(firstOperand).Some? && old(operator).Some? && !old(waitingForOperand);
        (chains ==>
          var result := arith.calculate(old(firstOperand).value, arith.parse(old(displayValue)), old(operator).value);
          displayValue == arith.show(result) && firstOperand == Some(result)
          && expression == arith.show(result) + " " + OperatorText(next))
        && (!chains ==>
          displayValue == old(displayValue) && firstOperand == Some(arith.parse(old(displayValue)))
          && expression == old(displayValue) + " " + OperatorText(next))
      ensures old(displayValue) != [] ==> Valid()
    {
      var inputValue := arith.parse(displayValue);
      if firstOperand.Some? && operator.Some? && !waitingForOperand {
        var result := arith.calculate(firstOperand.value, inputValue, operator.value);
        var resultStr := arith.show(result);
        displayValue := resultStr;
        expression := resultStr + " " + OperatorText(next);
        operator := Some(next);
        waitingForOperand := true;
        firstOperand := Some(result);
      } else {
        expression := displayValue + " " + OperatorText(next);
        operator := Some(next);
        waitingForOperand := true;
        firstOperand := Some(inputValue);
      }
    }

    /**
     * `handleEqualsClick()`: without a pending operator and operand nothing happens; otherwise
     * the result is shown, the expression records the whole operation, and the rest resets.
     */
    method EqualsClick(arith: Arithmetic<Num>)
      modifies this
      ensures old(operator).None? || old(firstOperand).None? ==>
        displayValue == old(displayValue) && expression == old(expression) && operator == old(operator)
        && waitingForOperand == old(waitingForOperand) && firstOperand == old(firstOperand)
      ensures old(operator).Some? && old(firstOperand).Some? ==>
        var second := arith.parse(old(displayValue));
        var result := arith.calculate(old(firstOperand).value, second, old(operator).value);
        displayValue == arith.show(result)
        && expression == arith.show(old(firstOperand).value) + " " + OperatorText(old(operator).value) + " "
                         + arith.show(second) + " ="
        && operator == None && !waitingForOperand && firstOperand == None
      ensures old(displayValue) != [] ==> Valid()
    {
      if operator.None? || firstOperand.None? {
        return;
      }
      var secondOperand := arith.parse(displayValue);
      var result := arith.calculate(firstOperand.value, secondOperand, operator.value);
      var resultStr := arith.show(result);
      expression := arith.show(firstOperand.value) + " " + OperatorText(operator.value) + " "
                    + arith.show(secondOperand) + " =";
      displayValue := resultStr;
      operator := None;
      waitingForOperand := false;
      firstOperand := None;
    }

    /** `handleClear()`: back to the initial state. */
    method Clear()
      modifies this
      ensures IsInitial() && Valid()
    {
      displayValue := "0";
      expression := "";
      operator := None;
      waitingForOperand := false;
      firstOperand := None;
    }

    /**
     * `handleBackspace()`: ignored while waiting for an operand; otherwise drop the last
     * character, or show "0" instead of emptying the display.
     */
    method Backspace()
      modifies this
      ensures old(waitingForOperand) ==> displayValue == old(displayValue)
      ensures !old(waitingForOperand) && |old(displayValue)| > 1 ==>
        displayValue == old(displayValue)[..|old(displayValue)| - 1]
      ensures !old(waitingForOperand) && |old(displayValue)| <= 1 ==> displayValue == "0"
      ensures expression == old(expression) && operator == old(operator)
      ensures waitingForOperand == old(waitingForOperand) && firstOperand == old(firstOperand)
      ensures old(displayValue) != [] ==> Valid()
    {
      if waitingForOperand {
        return;
      }
      if |displayValue| > 1 {
        displayValue := displayValue[..|displayValue| - 1];
      } else {
        displayValue := "0";
      }
    }
  }

  datatype Button = Digit(digit: char) | Decimal | Op(op: Operator) | Equals | ClearAll | Back

  /** Pressing any sequence of buttons keeps the display non-empty. */
  method Press<Num>(pad: Calculator<Num>, buttons: seq<Button>, arith: Arithmetic<Num>)
    requires pad.Valid()
    modifies pad
    ensures pad.Valid()
  {
    var i := 0;
    while i < |buttons|
      invariant 0 <= i <= |buttons|
      invariant pad.Valid()
    {
      match buttons[i] {
        case Digit(d) => pad.DigitClick(d);
        case Decimal => pad.DecimalClick();
        case Op(op) => pad.OperatorClick(op, arith);
        case Equals => pad.EqualsClick(arith);
        case ClearAll => pad.Clear();
        case Back => pad.Backspace();
      }
      i := i + 1;
    }
  }
}
