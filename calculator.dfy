/** What the two keypad calculators share: optional values, the number
    arithmetic they call but do not define, and the operator dispatch of
    `performOperation`. */
module Keypad {

  datatype Option<T> = None | Some(value: T)

  /** JavaScript's number handling as the calculators use it: `parseFloat`,
      truthiness (`x || 0`), zero, the four operators and `String(x)`. It is
      floating point, so the model takes it as a parameter of any number
      type N. */
  datatype Arithmetic<!N> = Arithmetic(
    parse: string -> N,
    truthy: N -> bool,
    zero: N,
    add: (N, N) -> N,
    sub: (N, N) -> N,
    mul: (N, N) -> N,
    div: (N, N) -> N,
    show: N -> string)

  /** `String(x)` never writes two decimal points. */
  ghost predicate ShowsOneDot<N(!new)>(ar: Arithmetic<N>)
  {
    forall x :: Dots(ar.show(x)) <= 1
  }

  /** The number of decimal points in a display. */
  function Dots(s: string): nat
  {
    multiset(s)['.']
  }

  /** The operator dispatch: `+ - * /` apply to the previous and input
      values; any other operator yields the input value. */
  function Apply<N>(ar: Arithmetic<N>, op: string, previous: N, input: N): (r: N)
    ensures op !in {"+", "-", "*", "/"} ==> r == input
    ensures op == "+" ==> r == ar.add(previous, input)
    ensures op == "-" ==> r == ar.sub(previous, input)
    ensures op == "*" ==> r == ar.mul(previous, input)
    ensures op == "/" ==> r == ar.div(previous, input)
  {
    if op == "+" then ar.add(previous, input)
    else if op == "-" then ar.sub(previous, input)
    else if op == "*" then ar.mul(previous, input)
    else if op == "/" then ar.div(previous, input)
    else input
  }

  /** '0' to '9'. */
  predicate IsAsciiDigit(c: char)
  {
    '0' <= c <= '9'
  }

  /** `previousValue || 0`. */
  function OrZero<N>(ar: Arithmetic<N>, x: N): (r: N)
    ensures ar.truthy(x) ==> r == x
    ensures !ar.truthy(x) ==> r == ar.zero
  {
    if ar.truthy(x) then x else ar.zero
  }

  /** `Array.prototype.indexOf` on a table of characters: the first index
      holding c, or -1 when there is none. */
  function IndexOf(t: seq<char>, c: char): (r: int)
    ensures -1 <= r < |t|
    ensures 0 <= r ==> t[r] == c && forall i :: 0 <= i < r ==> t[i] != c
    ensures r == -1 <==> c !in t
  {
    if t == [] then -1
    else if t[0] == c then 0
    else
      var i := IndexOf(t[1..], c);
      if i < 0 then -1 else i + 1
  }

  /** Appending a string without points adds none. */
  lemma DotsAppend(s: string, t: string)
    ensures Dots(s + t) == Dots(s) + Dots(t)
  {
    assert multiset(s + t) == multiset(s) + multiset(t);
  }
}

/** `App.tsx`: the calculator whose display shows Mandarin digits. */
module MandarinCalculator {
  import opened Keypad

  const MandarinDigits: seq<char> :=
    ['\U{96F6}', '\U{4E00}', '\U{4E8C}', '\U{4E09}', '\U{56DB}',
     '\U{4E94}', '\U{516D}', '\U{4E03}', '\U{516B}', '\U{4E5D}']

  /** One character of `toMandarinScript`: an ASCII digit becomes the
      Mandarin digit at its value; anything else is kept. */
  function MandarinChar(c: char): (r: char)
    ensures IsAsciiDigit(c) ==> r == MandarinDigits[c as int - '0' as int] && r in MandarinDigits
    ensures !IsAsciiDigit(c) ==> r == c
  {
    if IsAsciiDigit(c) then MandarinDigits[c as int - '0' as int] else c
  }

  /** `toMandarinScript`: every ASCII digit replaced by its Mandarin digit,
      every other character kept, in place. */
  function ToMandarinScript(s: string): (r: string)
    ensures |r| == |s|
    ensures forall k :: 0 <= k < |s| ==> r[k] == MandarinChar(s[k])
  {
    if s == [] then [] else [MandarinChar(s[0])] + ToMandarinScript(s[1..])
  }

  /** The reverse reading of one character, which the program does not
      have: a Mandarin digit becomes its index as an ASCII digit. */
  function AsciiChar(c: char): (r: char)
    ensures c in MandarinDigits ==> IsAsciiDigit(r) && MandarinDigits[r as int - '0' as int] == c
    ensures c !in MandarinDigits ==> r == c
  {
    var i := IndexOf(MandarinDigits, c);
    if i < 0 then c else (i + '0' as int) as char
  }

  /** The reverse reading of a whole display. */
  function FromMandarinScript(s: string): (r: string)
    ensures |r| == |s|
    ensures forall k :: 0 <= k < |s| ==> r[k] == AsciiChar(s[k])
  {
    if s == [] then [] else [AsciiChar(s[0])] + FromMandarinScript(s[1..])
  }

  /** Different ASCII digits show as different Mandarin digits. */
  lemma MandarinDigitsDistinct(i: int, j: int)
    requires 0 <= i < j < 10
    ensures MandarinDigits[i] != MandarinDigits[j]
  {
  }

  /** One character there and back. */
  lemma CharToThenFrom(c: char)
    requires c !in MandarinDigits
    ensures AsciiChar(MandarinChar(c)) == c
  {
    if IsAsciiDigit(c) {
      var d := c as int - '0' as int;
      var i := IndexOf(MandarinDigits, MandarinDigits[d]);
      if i < d {
        MandarinDigitsDistinct(i, d);
      }
      assert i == d;
    }
  }

  /** One character back and there. */
  lemma CharFromThenTo(c: char)
    requires !IsAsciiDigit(c)
    ensures MandarinChar(AsciiChar(c)) == c
  {
  }

  /** Text without Mandarin digits is read back from its display. */
  lemma ToThenFrom(s: string)
    requires forall k :: 0 <= k < |s| ==> s[k] !in MandarinDigits
    ensures FromMandarinScript(ToMandarinScript(s)) == s
  {
    var u := FromMandarinScript(ToMandarinScript(s));
    forall k | 0 <= k < |s|
      ensures u[k] == s[k]
    {
      CharToThenFrom(s[k]);
    }
  }

  /** Text without ASCII digits is the display of its reading. */
  lemma FromThenTo(s: string)
    requires forall k :: 0 <= k < |s| ==> !IsAsciiDigit(s[k])
    ensures ToMandarinScript(FromMandarinScript(s)) == s
  {
    var u := ToMandarinScript(FromMandarinScript(s));
    forall k | 0 <= k < |s|
      ensures u[k] == s[k]
    {
      CharFromThenTo(s[k]);
    }
  }

  /** The four state fields of `App`. */
  class Calculator<N(!new)> {
    var displayValue: string
    var previousValue: Option<N>
    var operator: Option<string>
    var waitingForOperand: bool

    /** `useState` initial values. */
    constructor ()
      ensures displayValue == "0" && previousValue == None && operator == None && !waitingForOperand
    {
      displayValue, previousValue, operator, waitingForOperand := "0", None, None, false;
    }

    /** `inputDigit`: after an operator the digit starts a new display; a
        lone "0" is replaced; otherwise the digit is appended. */
    method InputDigit(digit: string)
      modifies this
      ensures old(waitingForOperand) ==> displayValue == digit
      ensures !old(waitingForOperand) && old(displayValue) == "0" ==> displayValue == digit
      ensures !old(waitingForOperand) && old(displayValue) != "0" ==> displayValue == old(displayValue) + digit
      ensures !waitingForOperand
      ensures previousValue == old(previousValue) && operator == old(operator)
      ensures Dots(digit) == 0 && Dots(old(displayValue)) <= 1 ==> Dots(displayValue) <= 1
    {
      if waitingForOperand {
        displayValue := digit;
        waitingForOperand := false;
      } else {
        if displayValue == "0" {
          displayValue := digit;
        } else {
          DotsAppend(displayValue, digit);
          displayValue := displayValue + digit;
        }
      }
    }

    /** `inputDot`: after an operator the display becomes "0."; otherwise a
        point is appended only when there is none yet. */
    method InputDot()
      modifies this
      ensures old(waitingForOperand) ==> displayValue == "0." && !waitingForOperand
      ensures !old(waitingForOperand) && '.' in old(displayValue) ==> displayValue == old(displayValue)
      ensures !old(waitingForOperand) && '.' !in old(displayValue) ==> displayValue == old(displayValue) + "."
      ensures !old(waitingForOperand) ==> waitingForOperand == old(waitingForOperand)
      ensures previousValue == old(previousValue) && operator == old(operator)
      ensures '.' in displayValue
      ensures Dots(displayValue) == if Dots(old(displayValue)) == 0 || old(waitingForOperand) then 1 else Dots(old(displayValue))
    {
      if waitingForOperand {
        displayValue := "0.";
        waitingForOperand := false;
        assert displayValue == ['0', '.'];
      } else if '.' !in displayValue {
        DotsAppend(displayValue, ".");
        displayValue := displayValue + ".";
      }
    }

    /** `clear`: back to the initial state, from any state. */
    method Clear()
      modifies this
      ensures displayValue == "0" && previousValue == None && operator == None && !waitingForOperand
    {
      displayValue := "0";
      previousValue := None;
      operator := None;
      waitingForOperand := false;
    }

    /** `performOperation`: the first operator only records the parsed
        display; later ones with a pending operator apply it and show the
        result. Either way the calculator then waits for an operand and
        the new operator is pending. */
    method PerformOperation(nextOperator: Option<string>, ar: Arithmetic<N>)
      modifies this
      ensures waitingForOperand && operator == nextOperator
      ensures old(previousValue) == None ==>
        previousValue == Some(ar.parse(old(displayValue))) && displayValue == old(displayValue)
      ensures old(previousValue) != None && old(operator) == None ==>
        previousValue == old(previousValue) && displayValue == old(displayValue)
      ensures old(previousValue) != None && old(operator) != None ==>
        var result := Apply(ar, old(operator).value, OrZero(ar, old(previousValue).value), ar.parse(old(displayValue)));
        previousValue == Some(result) && displayValue == ar.show(result)
      ensures ShowsOneDot(ar) && Dots(old(displayValue)) <= 1 ==> Dots(displayValue) <= 1
    {
      var inputValue := ar.parse(displayValue);
      if previousValue == None {
        previousValue := Some(inputValue);
      } else if operator != None {
        var currentPrevious := OrZero(ar, previousValue.value);
        var result := Apply(ar, operator.value, currentPrevious, inputValue);
        displayValue := ar.show(result);
        previousValue := Some(result);
      }
      waitingForOperand := true;
      operator := nextOperator;
    }
  }
}

/** `Calculator.js`: the calculator whose display holds Devanagari digits. */
module DevanagariCalculator {
  import opened Keypad

  /** '०' to '९': U+0966 to U+096F. */
  const DevanagariDigits: seq<char> :=
    ['\U{0966}', '\U{0967}', '\U{0968}', '\U{0969}', '\U{096A}',
     '\U{096B}', '\U{096C}', '\U{096D}', '\U{096E}', '\U{096F}']

  /** '०' to '९' are the code points U+0966 to U+096F in order. */
  predicate IsDevanagariDigit(c: char)
  {
    '\U{0966}' <= c <= '\U{096F}'
  }

  /** The table holds exactly the Devanagari digits, digit d at index d. */
  lemma DevanagariTable()
    ensures forall d :: 0 <= d < 10 ==> DevanagariDigits[d] as int == 0x0966 + d
    ensures forall c :: c in DevanagariDigits <==> IsDevanagariDigit(c)
  {
    forall c | IsDevanagariDigit(c)
      ensures c in DevanagariDigits
    {
      assert DevanagariDigits[c as int - 0x0966] == c;
    }
  }

  /** One character of `toDevanagari`: `parseInt` of a single character is
      a number exactly for an ASCII digit, which becomes the Devanagari
      digit at its index. */
  function ToDevanagariChar(c: char): (r: char)
    ensures IsAsciiDigit(c) ==> IsDevanagariDigit(r)
    ensures IsAsciiDigit(c) ==> r == DevanagariDigits[c as int - '0' as int]
    ensures !IsAsciiDigit(c) ==> r == c
  {
    DevanagariTable();
    if IsAsciiDigit(c) then DevanagariDigits[c as int - '0' as int] else c
  }

  /** One character of `fromDevanagari`: a Devanagari digit becomes its
      index in the table, written as an ASCII digit. */
  function FromDevanagariChar(c: char): (r: char)
    ensures IsDevanagariDigit(c) ==> IsAsciiDigit(r) && DevanagariDigits[r as int - '0' as int] == c
    ensures !IsDevanagariDigit(c) ==> r == c
  {
    DevanagariTable();
    var index := IndexOf(DevanagariDigits, c);
    if index == -1 then c else (index + '0' as int) as char
  }

  /** `toDevanagari`: split, map each character, join. */
  function ToDevanagari(s: string): (r: string)
    ensures |r| == |s|
    ensures forall k :: 0 <= k < |s| ==> r[k] == ToDevanagariChar(s[k])
  {
    if s == [] then [] else [ToDevanagariChar(s[0])] + ToDevanagari(s[1..])
  }

  /** `fromDevanagari`: split, map each character, join. */
  function FromDevanagari(s: string): (r: string)
    ensures |r| == |s|
    ensures forall k :: 0 <= k < |s| ==> r[k] == FromDevanagariChar(s[k])
  {
    if s == [] then [] else [FromDevanagariChar(s[0])] + FromDevanagari(s[1..])
  }

  /** One character there and back. */
  lemma CharToThenFrom(c: char)
    requires !IsDevanagariDigit(c)
    ensures FromDevanagariChar(ToDevanagariChar(c)) == c
  {
    if IsAsciiDigit(c) {
      DevanagariTable();
    }
  }

  /** One character back and there. */
  lemma CharFromThenTo(c: char)
    requires !IsAsciiDigit(c)
    ensures ToDevanagariChar(FromDevanagariChar(c)) == c
  {
    if IsDevanagariDigit(c) {
      DevanagariTable();
    }
  }

  /** Text without Devanagari digits survives the way there and back. */
  lemma ToThenFrom(s: string)
    requires forall k :: 0 <= k < |s| ==> !IsDevanagariDigit(s[k])
    ensures FromDevanagari(ToDevanagari(s)) == s
  {
    var u := FromDevanagari(ToDevanagari(s));
    forall k | 0 <= k < |s|
      ensures u[k] == s[k]
    {
      CharToThenFrom(s[k]);
    }
  }

  /** Text without ASCII digits survives the way back and there. */
  lemma FromThenTo(s: string)
    requires forall k :: 0 <= k < |s| ==> !IsAsciiDigit(s[k])
    ensures ToDevanagari(FromDevanagari(s)) == s
  {
    var u := ToDevanagari(FromDevanagari(s));
    forall k | 0 <= k < |s|
      ensures u[k] == s[k]
    {
      CharFromThenTo(s[k]);
    }
  }

  /** The four state fields of `Calculator`. */
  class Calculator<N(!new)> {
    var displayValue: string
    var previousValue: Option<N>
    var operator: Option<string>
    var waitingForOperand: bool

    /** `useState` initial values: the display shows '०'. */
    constructor ()
      ensures displayValue == [DevanagariDigits[0]] && previousValue == None
      ensures operator == None && !waitingForOperand
    {
      displayValue, previousValue, operator, waitingForOperand := [DevanagariDigits[0]], None, None, false;
    }

    /** `inputDigit(digit)`, 0 <= digit <= 9: the Devanagari digit starts a
        new display after an operator, replaces a lone '०', or is appended. */
    method InputDigit(digit: int)
      requires 0 <= digit < 10
      modifies this
      ensures var devDigit := [DevanagariDigits[digit]];
        if old(waitingForOperand) || old(displayValue) == [DevanagariDigits[0]] then displayValue == devDigit
        else displayValue == old(displayValue) + devDigit
      ensures !waitingForOperand
      ensures previousValue == old(previousValue) && operator == old(operator)
      ensures Dots(displayValue) == if old(waitingForOperand) then 0 else Dots(old(displayValue))
    {
      var devDigit := [DevanagariDigits[digit]];
      assert Dots(devDigit) == 0;
      if waitingForOperand {
        displayValue := devDigit;
        waitingForOperand := false;
      } else {
        DotsAppend(displayValue, devDigit);
        displayValue := if displayValue == [DevanagariDigits[0]] then devDigit else displayValue + devDigit;
      }
    }

    /** `inputDot`: after an operator the display becomes "०."; otherwise a
        point is appended only when there is none yet. */
    method InputDot()
      modifies this
      ensures old(waitingForOperand) ==> displayValue == [DevanagariDigits[0], '.'] && !waitingForOperand
      ensures !old(waitingForOperand) && '.' in old(displayValue) ==> displayValue == old(displayValue)
      ensures !old(waitingForOperand) && '.' !in old(displayValue) ==> displayValue == old(displayValue) + "."
      ensures !old(waitingForOperand) ==> waitingForOperand == old(waitingForOperand)
      ensures previousValue == old(previousValue) && operator == old(operator)
      ensures '.' in displayValue
      ensures Dots(displayValue) == if Dots(old(displayValue)) == 0 || old(waitingForOperand) then 1 else Dots(old(displayValue))
    {
      if waitingForOperand {
        displayValue := [DevanagariDigits[0], '.'];
        waitingForOperand := false;
      } else if '.' !in displayValue {
        DotsAppend(displayValue, ".");
        displayValue := displayValue + ".";
      }
    }

    /** `clear`: back to the initial state, from any state. */
    method Clear()
      modifies this
      ensures displayValue == [DevanagariDigits[0]] && previousValue == None
      ensures operator == None && !waitingForOperand
    {
      displayValue := [DevanagariDigits[0]];
      previousValue := None;
      operator := None;
      waitingForOperand := false;
    }

    /** `performOperation`: as in the Mandarin calculator, but the display
        is read through `fromDevanagari`, the result shown through
        `toDevanagari`, and a pending operator counts only when it is
        truthy (an empty operator string is not). */
    method PerformOperation(nextOperator: Option<string>, ar: Arithmetic<N>)
      modifies this
      ensures waitingForOperand && operator == nextOperator
      ensures old(previousValue) == None ==>
        previousValue == Some(ar.parse(FromDevanagari(old(displayValue)))) && displayValue == old(displayValue)
      ensures old(previousValue) != None && (old(operator) == None || old(operator) == Some("")) ==>
        previousValue == old(previousValue) && displayValue == old(displayValue)
      ensures old(previousValue) != None && old(operator) != None && old(operator) != Some("") ==>
        var result := Apply(ar, old(operator).value, OrZero(ar, old(previousValue).value),
                            ar.parse(FromDevanagari(old(displayValue))));
        previousValue == Some(result) && displayValue == ToDevanagari(ar.show(result))
      ensures ShowsOneDot(ar) && Dots(old(displayValue)) <= 1 ==> Dots(displayValue) <= 1
    {
      var inputValue := ar.parse(FromDevanagari(displayValue));
      if previousValue == None {
        previousValue := Some(inputValue);
      } else if operator != None && operator.value != "" {
        var currentValue := OrZero(ar, previousValue.value);
        var result := Apply(ar, operator.value, currentValue, inputValue);
        var shown := ar.show(result);
        ToDevanagariKeepsDots(shown);
        displayValue := ToDevanagari(shown);
        previousValue := Some(result);
      }
      waitingForOperand := true;
      operator := nextOperator;
    }
  }

  /** `toDevanagari` keeps every decimal point and adds none. */
  lemma {:induction false} ToDevanagariKeepsDots(s: string)
    ensures Dots(ToDevanagari(s)) == Dots(s)
  {
    if s != [] {
      ToDevanagariKeepsDots(s[1..]);
      assert s == [s[0]] + s[1..];
      DotsAppend([s[0]], s[1..]);
      DotsAppend([ToDevanagariChar(s[0])], ToDevanagari(s[1..]));
    }
  }
}
