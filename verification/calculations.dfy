/**
  The calculation variants.  The five `Calculation` subclasses become the
  constructors of the closed `Kind` datatype; an instance is a kind together
  with its two operands, and one `Execute` dispatches on the kind.
 */
module Calculations {
  import opened Errors
  import Text
  import Operations

  /** The registered calculation classes. */
  datatype Kind = Add | Subtract | Multiply | Divide | Power

  /** An instance of a calculation class, holding its operands. */
  datatype Calculation = Calculation(kind: Kind, a: real, b: real)

  /** Message of the divide variant's own zero-divisor guard. */
  const DivideGuardMessage := "Cannot divide by zero."

  /** `execute()`: applies the kind's primitive to `(a, b)`, with the divide
      variant refusing a zero divisor before the primitive is reached. */
  function Execute(c: Calculation): (r: Result<real>)
    ensures c.kind == Add ==> r == Success(c.a + c.b)
    ensures c.kind == Subtract ==> r == Success(c.a - c.b)
    ensures c.kind == Multiply ==> r.Success? && r.value == c.a * c.b
    ensures c.kind == Divide ==> (r.Success? <==> c.b != 0.0)
    ensures c.kind == Divide && c.b == 0.0 ==> r == Failure(ZeroDivisionError(DivideGuardMessage))
    ensures c.kind == Divide && r.Success? ==> r.value * c.b == c.a
    ensures c.kind == Power ==> r == Operations.Power(c.a, c.b)
    ensures r != Failure(ValueError(Operations.DivisionByZeroMessage))
  {
    match c.kind
    case Add => Success(Operations.Addition(c.a, c.b))
    case Subtract => Success(Operations.Subtraction(c.a, c.b))
    case Multiply => Success(Operations.Multiplication(c.a, c.b))
    case Divide =>
      if c.b == 0.0 then Failure(ZeroDivisionError(DivideGuardMessage))
      else Operations.Division(c.a, c.b)
    case Power => Operations.Power(c.a, c.b)
  }

  /** Every variant hands its operands to its primitive in order `(a, b)`;
      only a zero divisor keeps the divide variant from doing so. */
  lemma ExecuteDelegates(c: Calculation)
    ensures c.kind == Add ==> Execute(c) == Success(Operations.Addition(c.a, c.b))
    ensures c.kind == Subtract ==> Execute(c) == Success(Operations.Subtraction(c.a, c.b))
    ensures c.kind == Multiply ==> Execute(c) == Success(Operations.Multiplication(c.a, c.b))
    ensures c.kind == Divide && c.b != 0.0 ==> Execute(c) == Operations.Division(c.a, c.b)
    ensures c.kind == Power ==> Execute(c) == Operations.Power(c.a, c.b)
  {
  }

  /** Both layers reject a zero divisor, with different exceptions; through a
      calculation only the guard's message can surface. */
  lemma ZeroDivisorLayers(a: real)
    ensures Execute(Calculation(Divide, a, 0.0)) == Failure(ZeroDivisionError(DivideGuardMessage))
    ensures Operations.Division(a, 0.0) == Failure(ValueError(Operations.DivisionByZeroMessage))
    ensures Execute(Calculation(Divide, a, 0.0)) != Operations.Division(a, 0.0)
  {
  }

  /** The operation label of a description: the class name without its
      trailing word (see `LabelDropsWord`). */
  function Label(k: Kind): (word: string)
  {
    match k
    case Add => "Add"
    case Subtract => "Subtract"
    case Multiply => "Multiply"
    case Divide => "Divide"
    case Power => "Power"
  }

  /** `self.__class__.__name__`: "AddCalculation", "SubtractCalculation", ... */
  function ClassName(k: Kind): (name: string)
  {
    Label(k) + "Calculation"
  }

  /** The class whose name is `s`, if any: the inverse of `ClassName`. */
  function KindOfClassName(s: string): (r: Option<Kind>)
    ensures forall k :: r == Some(k) <==> s == ClassName(k)
  {
    ClassNamesDistinct();
    if s == ClassName(Add) then Some(Add)
    else if s == ClassName(Subtract) then Some(Subtract)
    else if s == ClassName(Multiply) then Some(Multiply)
    else if s == ClassName(Divide) then Some(Divide)
    else if s == ClassName(Power) then Some(Power)
    else None
  }

  /** Different classes have different names: their first letters differ. */
  lemma ClassNamesDistinct()
    ensures forall j, k :: ClassName(j) == ClassName(k) ==> j == k
  {
    forall j, k | ClassName(j) == ClassName(k)
      ensures j == k
    {
      assert ClassName(j)[0] == Label(j)[0];
      assert ClassName(k)[0] == Label(k)[0];
    }
  }

  /** Removing the word "Calculation" from a class name, as the description
      does, leaves exactly the label. */
  lemma LabelDropsWord(k: Kind)
    ensures Text.RemoveAll(ClassName(k), "Calculation") == Label(k)
  {
    Text.RemoveAllDropsSuffix(Label(k), "Calculation");
  }

  /** `repr(c)`: the class name and both operands, each rendered by `show`. */
  function Repr(c: Calculation, show: real -> string): (r: string)
    ensures var n := |ClassName(c.kind)|;
            var at := n + |"(a="|;
            var bt := at + |show(c.a)| + |", b="|;
            && |r| == bt + |show(c.b)| + 1
            && r[..n] == ClassName(c.kind)
            && r[n .. at] == "(a="
            && r[at .. at + |show(c.a)|] == show(c.a)
            && r[at + |show(c.a)| .. bt] == ", b="
            && r[bt .. bt + |show(c.b)|] == show(c.b)
            && r[|r| - 1] == ')'
  {
    ClassName(c.kind) + "(a=" + show(c.a) + ", b=" + show(c.b) + ")"
  }

  /** `str(c)`: runs the calculation and describes it; an exception raised by
      `Execute` passes through unchanged.  The operation label is the class
      name with the word "Calculation" removed. */
  function Str(c: Calculation, show: real -> string): (r: Result<string>)
    ensures r.Failure? <==> Execute(c).Failure?
    ensures r.Failure? ==> r.error == Execute(c).error
    ensures r.Success? ==>
              r.value == ClassName(c.kind) + ": " + show(c.a) + " "
                         + Text.RemoveAll(ClassName(c.kind), "Calculation") + " " + show(c.b)
                         + " = " + show(Execute(c).value)
  {
    var result :- Execute(c);
    LabelDropsWord(c.kind);
    Success(ClassName(c.kind) + ": " + show(c.a) + " " + Label(c.kind) + " " + show(c.b)
            + " = " + show(result))
  }

  /** The kind named at the head of a description, up to its first ':'. */
  function DescribedKind(description: string): (k: Option<Kind>)
  {
    KindOfClassName(Text.PrefixBefore(description, ':'))
  }

  /** The kind named at the head of a repr, up to its first '('. */
  function ReprKind(repr: string): (k: Option<Kind>)
  {
    KindOfClassName(Text.PrefixBefore(repr, '('))
  }

  /** Class names hold neither of the characters that end them in the texts. */
  lemma ClassNameUndelimited(k: Kind)
    ensures ':' !in ClassName(k) && '(' !in ClassName(k)
  {
  }

  /** A repr names its calculation's kind: reading the class name back, up to
      the first '(', gives the kind that produced it. */
  lemma ReprNamesKind(c: Calculation, show: real -> string)
    ensures ReprKind(Repr(c, show)) == Some(c.kind)
  {
    var name := ClassName(c.kind);
    var rest := "a=" + show(c.a) + ", b=" + show(c.b) + ")";
    ClassNameUndelimited(c.kind);
    assert Repr(c, show) == name + ['('] + rest;
    Text.PrefixBeforeFirst(name, '(', rest);
  }

  /** A description names its calculation's kind: reading the class name
      back, up to the first ':', gives the kind that produced it. */
  lemma DescriptionNamesKind(c: Calculation, show: real -> string)
    requires Str(c, show).Success?
    ensures DescribedKind(Str(c, show).value) == Some(c.kind)
  {
    var name := ClassName(c.kind);
    var rest := " " + show(c.a) + " " + Label(c.kind) + " " + show(c.b) + " = "
                + show(Execute(c).value);
    ClassNameUndelimited(c.kind);
    assert Str(c, show).value == name + [':'] + rest;
    Text.PrefixBeforeFirst(name, ':', rest);
  }

  /** The description of `add 10 5`, for a `show` that renders the numbers
      the way Python prints these floats. */
  lemma AddDescription(show: real -> string)
    requires show(10.0) == "10.0" && show(5.0) == "5.0" && show(15.0) == "15.0"
    ensures Str(Calculation(Add, 10.0, 5.0), show) == Success("AddCalculation: 10.0 Add 5.0 = 15.0")
  {
    var text := "Add" + "Calculation" + ": " + show(10.0) + " " + "Add" + " " + show(5.0) + " = " + show(15.0);
    assert text == "AddCalculation: 10.0 Add 5.0 = 15.0";
  }

  /** The description of `divide 10 5`, under the same `show`. */
  lemma DivideDescription(show: real -> string)
    requires show(10.0) == "10.0" && show(5.0) == "5.0" && show(2.0) == "2.0"
    ensures Str(Calculation(Divide, 10.0, 5.0), show) == Success("DivideCalculation: 10.0 Divide 5.0 = 2.0")
  {
    assert Execute(Calculation(Divide, 10.0, 5.0)) == Success(2.0);
    var text := "Divide" + "Calculation" + ": " + show(10.0) + " " + "Divide" + " " + show(5.0) + " = " + show(2.0);
    assert text == "DivideCalculation: 10.0 Divide 5.0 = 2.0";
  }

  /** The repr of `add 10 5`, under the same `show`. */
  lemma AddRepr(show: real -> string)
    requires show(10.0) == "10.0" && show(5.0) == "5.0"
    ensures Repr(Calculation(Add, 10.0, 5.0), show) == "AddCalculation(a=10.0, b=5.0)"
  {
  }
}
