# Calculator dispatch core, modelled in Dafny

This project models the core of a small command-line calculator. It has three parts.

- **The arithmetic primitives of `Operation`.** These are `addition`, `subtraction`, `multiplication`, `division` (which refuses a zero divisor with `ValueError("Division by zero is not allowed.")`) and `power`.
- **The `Calculation` variants.** Each of the five subclasses (`AddCalculation` … `PowerCalculation`) holds two operands. Its `execute()` hands them, in order, to its primitive. The divide variant first refuses a zero divisor with its own `ZeroDivisionError("Cannot divide by zero.")`. `__str__` runs the calculation and describes it. `__repr__` shows the class name and the operands.
- **`CalculationFactory`.** This is a class-level registry from lower-cased operation names to calculation classes:
  - `register_calculation` refuses a name already present (compared case-insensitively) and otherwise stores it;
  - `create_calculation` looks a name up case-insensitively and builds an instance, or raises `ValueError` listing every registered key in registration order;
  - module start-up registers `add`, `subtract`, `multiply`, `divide` and `power`.

The project has five modules:

| file | module | contents |
|---|---|---|
| `errors.dfy` | `Errors` | exceptions as `Error` values carrying their class and message; `Result` and `Option` |
| `text.dfy` | `Text` | ASCII `str.lower`, `str.join`, `str.replace(word, '')`, and cutting a text at a character |
| `operations.dfy` | `Operations` | the primitives over exact `real` arithmetic |
| `calculations.dfy` | `Calculations` | `Kind` (one constructor per subclass) and `Calculation` (a kind plus operands); `Execute`, `Str`, `Repr` |
| `factory.dfy` | `Factory` | the registry as its insertion-ordered list of entries; `Register`, `Create`, the start-up registrations |

Python's in-place mutation of the registry dict is modelled functionally:
- `Register` returns the next registry together with the exception it raised, if any.
- Start-up is `RegisterAll` over the five declarations, in source order.

Python renders floats with `repr`. Here that rendering is a parameter `show: real -> string` of `Str` and `Repr`.

Each failure path raises the class and message the code gives it:
- an already registered name raises `ValueError`;
- an unknown name raises `ValueError`;
- a zero divisor raises `ZeroDivisionError` from the divide variant's guard, before the primitive's own `ValueError` can be reached.

Where the code and the repository's tests disagree, the model follows the code. `tests/test_calculation.py:176` lists `power` among the unsupported names, but the code registers it (`app/calculation/__init__.py:205`). So does the model: `Factory.StartupCreates` shows `power` creating its calculation.

## Model

| member | source | states |
|---|---|---|
| Operations.Division | app/operation/__init__.py:109-112 | fails exactly when the divisor is zero, with `ValueError("Division by zero is not allowed.")`; otherwise the quotient times the divisor is the dividend |
| Operations.SubtractionUndoesAddition | app/operation/__init__.py:36-54 | subtraction and addition undo each other; adding `b` back to `a - b` gives `a`, so `a` is the minuend; swapping the operands of a subtraction negates it |
| Operations.DivisionUndoesMultiplication | app/operation/__init__.py:73-112 | for a non-zero `b`, dividing `a * b` by `b` gives back `a`, and multiplying `a / b` by `b` gives back `a` |
| Operations.NatPower | app/operation/__init__.py:130 | a non-zero base has a non-zero power; zero to a positive power is zero |
| Operations.Power | app/operation/__init__.py:130 | defined exactly for integral exponents, except zero to a negative power; the value is the integral power `IntPower(a, b)`; `x ** 0 == 1`, including `0 ** 0`; `0 ** n == 0` for positive `n`; a non-zero base never gives zero |
| Operations.PowerOfNatural | app/operation/__init__.py:130 | for a natural exponent `n`, `a ** n` is `a` multiplied by itself `n` times |
| Operations.PowerStep | app/operation/__init__.py:130 | for a non-zero base and every integral exponent, negative ones included, `a ** (b + 1) == a * a ** b` |
| Operations.PowerReciprocal | app/operation/__init__.py:130 | for a non-zero base and an integral exponent, `a ** -b` and `a ** b` are reciprocal |
| Operations.NatPowerAdd | app/operation/__init__.py:130 | powers of one base multiply by adding exponents |
| Operations.NatPowerOfNegative | app/operation/__init__.py:130 | a negated base gives the same power for even exponents and the negated power for odd ones |
| Operations.IntPowerStep | app/operation/__init__.py:130 | for every integral exponent, negative ones included, raising the exponent by one multiplies by the base |
| Operations.IntPowerNegate | app/operation/__init__.py:130 | the powers with exponents `n` and `-n` are reciprocal |
| Operations.PowerExamples | app/operation/__init__.py:126-130 | `2 ** 3 == 8`, `(-2) ** 3 == -8`, `(-2) ** 4 == 16`, `2 ** -3 == 0.125`, `0 ** 5 == 0`, `5 ** 0 == 1`, `0 ** 0 == 1` |
| Text.LowerChar | app/calculation/__init__.py:107 | the character is never upper-case afterwards; upper-case ASCII letters move by 32; every other character is unchanged |
| Text.Lower | app/calculation/__init__.py:107 | keeps the length; each upper-case ASCII letter is replaced in place by its lower-case letter, and every other character is kept |
| Text.LowerIdempotent | app/calculation/__init__.py:131 | lower-casing twice is lower-casing once, and it leaves a name unchanged exactly when the name has no upper-case letter |
| Text.JoinListsInOrder | app/calculation/__init__.py:135 | the joined text holds every string in order at its offset; a separator follows each string but the last; the last string ends the text |
| Text.RemoveAllDropsSuffix | app/calculation/__init__.py:63 | removing a word from a text followed by that word, where the word's first letter does not occur in the text, leaves the text |
| Calculations.Execute | app/calculation/__init__.py:155-215 | add, subtract and multiply always succeed, with `a + b`, `a - b`, `a * b`; divide fails exactly when `b` is zero, with the guard's `ZeroDivisionError`, and otherwise its result times `b` is `a`; power is the primitive's outcome; the primitive's `ValueError` never surfaces |
| Calculations.ExecuteDelegates | app/calculation/__init__.py:155-215 | every variant passes `(a, b)` to its own primitive in that order; divide does so whenever `b` is non-zero |
| Calculations.ZeroDivisorLayers | app/calculation/__init__.py:198-203 | for a zero divisor the guard raises `ZeroDivisionError("Cannot divide by zero.")`, while the primitive alone would raise the different `ValueError` |
| Calculations.KindOfClassName | app/calculation/__init__.py:148-206 | recovers the class from its name, and gives nothing for a text that names no class |
| Calculations.ClassNamesDistinct | app/calculation/__init__.py:148-206 | no two calculation classes share a name |
| Calculations.LabelDropsWord | app/calculation/__init__.py:63 | removing "Calculation" from a class name leaves the operation label (`Add`, `Subtract`, …) |
| Calculations.Repr | app/calculation/__init__.py:75 | the text is the class name, `(a=`, the rendered `a`, `, b=`, the rendered `b` and `)`, each piece at its offset |
| Calculations.ReprNamesKind | app/calculation/__init__.py:75 | reading a repr back up to its first `(` gives the calculation's class |
| Calculations.Str | app/calculation/__init__.py:62-64 | fails exactly when `execute()` fails, with the same exception; otherwise the text is the class name, `": "`, the rendered `a`, the class name with "Calculation" removed, the rendered `b`, `" = "` and the rendered result |
| Calculations.DescriptionNamesKind | app/calculation/__init__.py:62-64 | reading a description back up to its first `:` gives the calculation's class |
| Calculations.AddDescription | app/calculation/__init__.py:62-64 | `AddCalculation(10.0, 5.0)` is described as `AddCalculation: 10.0 Add 5.0 = 15.0` |
| Calculations.DivideDescription | app/calculation/__init__.py:62-64 | `DivideCalculation(10.0, 5.0)` is described as `DivideCalculation: 10.0 Divide 5.0 = 2.0` |
| Calculations.AddRepr | app/calculation/__init__.py:75 | the repr of `AddCalculation(10.0, 5.0)` is `AddCalculation(a=10.0, b=5.0)` |
| Factory.KeysAppend | app/calculation/__init__.py:135 | the keys of entries added one run after another are the first run's keys followed by the second's, so key order is registration order |
| Factory.Find | app/calculation/__init__.py:132 | finds nothing exactly when no entry has the key; what it finds is the class of an entry holding the key |
| Factory.LookupFindsEntry | app/calculation/__init__.py:132 | in a registry without repeated keys, a lookup gives a class exactly when the registry holds that entry, and gives nothing exactly when the key is absent |
| Factory.Register | app/calculation/__init__.py:105-114 | raises exactly when the lower-cased name is already a key, with `ValueError` quoting the name as given, and then leaves the registry unchanged; otherwise appends the lower-cased name and class; keys stay lower-case and unique |
| Factory.RegisterExtends | app/calculation/__init__.py:112 | a successful registration appends exactly one key; that key looks up the new class, and every other lookup is as before |
| Factory.CreateAfterRegister | app/calculation/__init__.py:105-138 | after a successful registration, creating under any spelling with the same lower-case form builds the new class with the given operands |
| Factory.DuplicateQuotesName | app/calculation/__init__.py:110 | the duplicate message holds the name as given, between quotes |
| Factory.Create | app/calculation/__init__.py:131-138 | succeeds exactly when the lower-cased name is a key; the instance's class is the one stored under that key, and it holds `a` and `b` unchanged; otherwise raises `ValueError` naming the name and every key |
| Factory.CreateIgnoresCase | app/calculation/__init__.py:131-132 | names that agree once lower-cased create the same calculation |
| Factory.UnsupportedListsKeys | app/calculation/__init__.py:135-136 | the unsupported-type message lists every key, in registration order, each at its offset after the fixed prefix; a `", "` follows every key but the last, and the last key ends the message |
| Factory.UnsupportedQuotesName | app/calculation/__init__.py:136 | the unsupported-type message holds the name as given, between quotes |
| Factory.RegisterAll | app/calculation/__init__.py:148-206 | any exception raised by registering declarations in order is the duplicate error of one of them |
| Factory.RegisterAllRaisesOnRepeat | app/calculation/__init__.py:109-110 | declarations register without an exception exactly when their lower-cased names are new and pairwise different |
| Factory.RegisterAllAppends | app/calculation/__init__.py:112 | declarations that register without an exception are appended, lower-cased, in order |
| Factory.RegisterAllKeepsWellFormed | app/calculation/__init__.py:107-112 | whether or not one raises, registering declarations keeps the keys lower-case and unique |
| Factory.DeclarationsLowerCaseAndDistinct | app/calculation/__init__.py:148-205 | the five declared names are lower-case and pairwise different |
| Factory.StartupRaisesNothing | app/calculation/__init__.py:148-215 | module start-up raises no exception |
| Factory.StartupRegistersFive | app/calculation/__init__.py:148-215 | start-up leaves exactly the keys `add`, `subtract`, `multiply`, `divide`, `power`, in that order, each naming its class, in a well-formed registry |
| Factory.StartupCreates | app/calculation/__init__.py:131-138 | in the start-up registry, `add`, `ADD`, `Divide` and `power` create their calculations |
| Factory.StartupKeysJoined | app/calculation/__init__.py:135 | the five start-up keys are listed as `add, subtract, multiply, divide, power` |
| Factory.StartupRefusesUnknown | app/calculation/__init__.py:134-136 | in the start-up registry `modulus` is refused with the message listing the five keys |
| Factory.StartupRefusesDuplicate | app/calculation/__init__.py:109-110 | in the start-up registry, registering `add` or `Divide` again raises and leaves the registry as it was |

## Left out

- `app/calculator.py` and its REPL are not part of this model: input parsing, history, help text and printing.
- Floating point: operands are exact reals, so IEEE-754 rounding, infinities, NaN and the `OverflowError` that `**` raises when a float result overflows (`10.0 ** 400.0`) are not modelled; the model returns the exact power there. Neither is `-0.0` equalling `0.0` in the zero checks.
- Operations.Addition, Operations.Subtraction and Operations.Multiplication carry no contract of their own. They are the corresponding real operations. The lemmas that relate them to each other and to division stand in for their contracts.
- Operations.Power: defined only for integral exponents, and not for zero raised to a negative exponent. For those excluded inputs Python returns a float, a complex number or raises `ZeroDivisionError`; the model returns `Unmodelled` instead, because real exponentiation has no exact counterpart. On the modelled inputs Python raises `OverflowError` when the result is too large for a float; that is not modelled, and the model returns the exact power there, as under "Floating point" above.
- Calculations.Str and Calculations.Repr: how Python renders a float (`10.0`, `1e-05`) is the parameter `show`. Their contracts hold for every rendering.
- Text.Lower: lower-cases ASCII letters only. Python's `str.lower` also maps other Unicode letters.
- `TypeError` for operands that are not numbers is not modelled, because the operands are typed reals.
- Factory.Register: the registry maps names to one of the five known classes. Registering an arbitrary new subclass, and the decorator returning that subclass, are not modelled.
- The abstract base class mechanics are not modelled: abstract `execute`, and refusing to instantiate `Calculation` itself. Neither are the mocks the tests patch in.
- Mutation of the class-level dict is not modelled. It is a value passed and returned, so sharing between callers and concurrent registration are out of scope.
