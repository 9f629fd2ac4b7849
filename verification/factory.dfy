/**
  `CalculationFactory`: a registry from lower-cased operation names to
  calculation classes.  Python keeps it in a class-level dict, which
  preserves insertion order; here it is the sequence of its entries in
  registration order.  `Register` is the only step that changes it, and it
  only ever appends.
 */
module Factory {
  import opened Errors
  import Text
  import opened Calculations

  /** One registered name and the class it stands for. */
  datatype Entry = Entry(name: string, kind: Kind)

  /** The registry's entries, oldest first. */
  datatype Registry = Registry(entries: seq<Entry>)

  /** The state after a registration, and the exception it raised, if any. */
  datatype Registered = Registered(registry: Registry, raised: Option<Error>)

  const Empty := Registry([])

  /** The registered names in registration order (`dict.keys()`). */
  function Keys(reg: Registry): (ks: seq<string>)
    ensures |ks| == |reg.entries|
    ensures forall i :: 0 <= i < |ks| ==> ks[i] == reg.entries[i].name
  {
    seq(|reg.entries|, i requires 0 <= i < |reg.entries| => reg.entries[i].name)
  }

  /** The keys of two runs of entries, one after the other, are the keys of
      the first run followed by those of the second. */
  lemma KeysAppend(e: seq<Entry>, f: seq<Entry>)
    ensures Keys(Registry(e + f)) == Keys(Registry(e)) + Keys(Registry(f))
  {
  }

  predicate Distinct(ks: seq<string>) {
    forall i, j :: 0 <= i < j < |ks| ==> ks[i] != ks[j]
  }

  /** The dict's invariant: every key is lower-cased and no key repeats. */
  predicate WellFormed(reg: Registry) {
    && Distinct(Keys(reg))
    && forall i :: 0 <= i < |reg.entries| ==> Text.IsLowered(reg.entries[i].name)
  }

  /** The class stored under `key`, found by scanning from the oldest entry. */
  function Find(entries: seq<Entry>, key: string): (r: Option<Kind>)
    ensures r.None? <==> forall i :: 0 <= i < |entries| ==> entries[i].name != key
    ensures r.Some? ==> exists i :: 0 <= i < |entries| && entries[i] == Entry(key, r.value)
  {
    if entries == [] then None
    else if entries[0].name == key then Some(entries[0].kind)
    else
      var r := Find(entries[1..], key);
      assert forall i :: 1 <= i < |entries| ==> entries[i] == entries[1..][i - 1];
      r
  }

  /** `dict.get(key)`. */
  function Lookup(reg: Registry, key: string): (found: Option<Kind>)
  {
    Find(reg.entries, key)
  }

  /** In a registry without repeated keys, a lookup answers with the class of
      the one entry that holds the key, and with nothing when none does. */
  lemma LookupFindsEntry(reg: Registry, key: string, k: Kind)
    requires Distinct(Keys(reg))
    ensures Lookup(reg, key) == Some(k) <==> Entry(key, k) in reg.entries
    ensures Lookup(reg, key).None? <==> key !in Keys(reg)
  {
  }

  function DuplicateMessage(name: string): (message: string) {
    "Calculation type '" + name + "' is already registered."
  }

  /** `register_calculation(name)` applied to a class: refuses a name whose
      lower-cased form is already a key, and otherwise appends the entry. */
  function Register(reg: Registry, name: string, kind: Kind): (r: Registered)
    ensures r.raised.Some? <==> Text.Lower(name) in Keys(reg)
    ensures r.raised.Some? ==> r.raised.value == ValueError(DuplicateMessage(name))
    ensures r.raised.Some? ==> r.registry == reg
    ensures r.raised.None? ==> r.registry.entries == reg.entries + [Entry(Text.Lower(name), kind)]
    ensures WellFormed(reg) ==> WellFormed(r.registry)
  {
    var key := Text.Lower(name);
    if key in Keys(reg) then Registered(reg, Some(ValueError(DuplicateMessage(name))))
    else
      var next := Registry(reg.entries + [Entry(key, kind)]);
      assert Keys(next) == Keys(reg) + [key];
      Registered(next, None)
  }

  /** A registration that succeeds appends its lower-cased name to the keys,
      makes it look up the new class, and leaves every other lookup as it
      was. */
  lemma {:induction false} RegisterExtends(reg: Registry, name: string, kind: Kind, key: string)
    requires Register(reg, name, kind).raised.None?
    ensures Keys(Register(reg, name, kind).registry) == Keys(reg) + [Text.Lower(name)]
    ensures key == Text.Lower(name) ==> Lookup(Register(reg, name, kind).registry, key) == Some(kind)
    ensures key != Text.Lower(name) ==>
              Lookup(Register(reg, name, kind).registry, key) == Lookup(reg, key)
  {
    FindAppended(reg.entries, Entry(Text.Lower(name), kind), key);
  }

  /** Looking a key up after appending an entry whose name is new. */
  lemma {:induction false} FindAppended(entries: seq<Entry>, e: Entry, key: string)
    requires forall i :: 0 <= i < |entries| ==> entries[i].name != e.name
    ensures key == e.name ==> Find(entries + [e], key) == Some(e.kind)
    ensures key != e.name ==> Find(entries + [e], key) == Find(entries, key)
  {
    if entries == [] {
      assert entries + [e] == [e];
    } else {
      assert (entries + [e])[1..] == entries[1..] + [e];
      FindAppended(entries[1..], e, key);
    }
  }

  function UnsupportedPrefix(name: string): (prefix: string) {
    "Unsupported calculation type: '" + name + "'. Available types: "
  }

  /** The message of an unknown name: the name as given, then every key
      joined by ", ". */
  function UnsupportedMessage(name: string, keys: seq<string>): (message: string) {
    UnsupportedPrefix(name) + Text.Join(keys, ", ")
  }

  /** `create_calculation(name, a, b)`: a case-insensitive lookup that builds
      an instance of the class found, holding `a` and `b` as given. */
  function Create(reg: Registry, name: string, a: real, b: real): (r: Result<Calculation>)
    ensures r.Success? <==> Text.Lower(name) in Keys(reg)
    ensures r.Failure? ==> r.error == ValueError(UnsupportedMessage(name, Keys(reg)))
    ensures r.Success? ==> Lookup(reg, Text.Lower(name)) == Some(r.value.kind)
    ensures r.Success? ==> r.value.a == a && r.value.b == b
  {
    match Lookup(reg, Text.Lower(name))
    case None => Failure(ValueError(UnsupportedMessage(name, Keys(reg))))
    case Some(kind) => Success(Calculation(kind, a, b))
  }

  /** Names that agree once lower-cased create the same calculation. */
  lemma CreateIgnoresCase(reg: Registry, n1: string, n2: string, a: real, b: real)
    requires Text.Lower(n1) == Text.Lower(n2)
    ensures Create(reg, n1, a, b).Success? == Create(reg, n2, a, b).Success?
    ensures Create(reg, n1, a, b).Success? ==> Create(reg, n1, a, b) == Create(reg, n2, a, b)
  {
  }

  /** The message for an unknown name lists every key, in registration
      order: the `i`-th key sits at its offset in the joined list, a ", "
      follows every key but the last, and the last key ends the message. */
  lemma UnsupportedListsKeys(reg: Registry, name: string, i: nat)
    requires i < |Keys(reg)|
    ensures var m := UnsupportedMessage(name, Keys(reg));
            var at := |UnsupportedPrefix(name)| + Text.Offset(Keys(reg), ", ", i);
            && at + |Keys(reg)[i]| <= |m|
            && m[at .. at + |Keys(reg)[i]|] == Keys(reg)[i]
            && (i + 1 < |Keys(reg)| ==>
                  && Text.Offset(Keys(reg), ", ", i + 1) == Text.Offset(Keys(reg), ", ", i) + |Keys(reg)[i]| + 2
                  && at + |Keys(reg)[i]| + 2 <= |m|
                  && m[at + |Keys(reg)[i]| .. at + |Keys(reg)[i]| + 2] == ", ")
            && (i + 1 == |Keys(reg)| ==> at + |Keys(reg)[i]| == |m|)
  {
    var ks := Keys(reg);
    Text.JoinListsInOrder(ks, ", ", i);
    var o := Text.Offset(ks, ", ", i);
    Text.SliceOfConcat(UnsupportedPrefix(name), Text.Join(ks, ", "), o, o + |ks[i]|);
    if i + 1 < |ks| {
      Text.SliceOfConcat(UnsupportedPrefix(name), Text.Join(ks, ", "), o + |ks[i]|, Text.Offset(ks, ", ", i + 1));
    }
  }

  /** A name registered successfully creates its class afterwards, under
      any spelling that lower-cases to the same key. */
  lemma CreateAfterRegister(reg: Registry, name: string, kind: Kind, spelling: string, a: real, b: real)
    requires Register(reg, name, kind).raised.None?
    requires Text.Lower(spelling) == Text.Lower(name)
    ensures Create(Register(reg, name, kind).registry, spelling, a, b) == Success(Calculation(kind, a, b))
  {
    RegisterExtends(reg, name, kind, Text.Lower(spelling));
  }

  /** The duplicate-registration message quotes the name as it was given. */
  lemma DuplicateQuotesName(name: string)
    ensures var m := DuplicateMessage(name);
            var at := |"Calculation type '"|;
            at + |name| + 1 <= |m| && m[at .. at + |name|] == name && m[at + |name|] == '\''
  {
  }

  /** The unsupported-type message quotes the name as it was given, before
      the list of keys. */
  lemma UnsupportedQuotesName(name: string, keys: seq<string>)
    ensures var m := UnsupportedMessage(name, keys);
            var at := |"Unsupported calculation type: '"|;
            at + |name| + 1 <= |m| && m[at .. at + |name|] == name && m[at + |name|] == '\''
  {
  }

  /** The lower-cased names of a list of declarations. */
  function LowerNames(decls: seq<Entry>): (ns: seq<string>)
    ensures |ns| == |decls|
    ensures forall i :: 0 <= i < |decls| ==> ns[i] == Text.Lower(decls[i].name)
  {
    if decls == [] then [] else [Text.Lower(decls[0].name)] + LowerNames(decls[1..])
  }

  /** The declarations as they are stored: each name lower-cased. */
  function Lowered(decls: seq<Entry>): (es: seq<Entry>)
    ensures |es| == |decls|
    ensures forall i :: 0 <= i < |decls| ==> es[i] == Entry(Text.Lower(decls[i].name), decls[i].kind)
  {
    if decls == [] then [] else [Entry(Text.Lower(decls[0].name), decls[0].kind)] + Lowered(decls[1..])
  }

  /** Registers the declarations in order, stopping at the first that
      raises, as an import does when a class decorator raises. */
  function RegisterAll(reg: Registry, decls: seq<Entry>): (r: Registered)
    ensures r.raised.Some? ==> exists i :: 0 <= i < |decls| && r.raised == Some(ValueError(DuplicateMessage(decls[i].name)))
    decreases |decls|
  {
    if decls == [] then Registered(reg, None)
    else
      var step := Register(reg, decls[0].name, decls[0].kind);
      if step.raised.Some? then step
      else
        var r := RegisterAll(step.registry, decls[1..]);
        assert forall i :: 1 <= i < |decls| ==> decls[i] == decls[1..][i - 1];
        r
  }

  /** Appending one new key to a list without repeats keeps it without
      repeats. */
  lemma DistinctSnoc(ks: seq<string>, k: string)
    requires Distinct(ks) && k !in ks
    ensures Distinct(ks + [k])
  {
  }

  /** A list whose later part repeats one of its earlier keys has repeats. */
  lemma RepeatNotDistinct(ks: seq<string>, k: string, rest: seq<string>)
    requires k in ks
    ensures !Distinct(ks + [k] + rest)
  {
    var i :| 0 <= i < |ks| && ks[i] == k;
    assert (ks + [k] + rest)[i] == (ks + [k] + rest)[|ks|];
  }

  /** Registering a list of declarations into a registry without repeats
      raises nothing exactly when their lower-cased names are new and
      pairwise different. */
  lemma {:induction false} RegisterAllRaisesOnRepeat(reg: Registry, decls: seq<Entry>)
    requires Distinct(Keys(reg))
    ensures RegisterAll(reg, decls).raised.None? <==> Distinct(Keys(reg) + LowerNames(decls))
    decreases |decls|
  {
    if decls == [] {
      assert Keys(reg) + LowerNames(decls) == Keys(reg);
    } else {
      var key := Text.Lower(decls[0].name);
      var step := Register(reg, decls[0].name, decls[0].kind);
      var all := Keys(reg) + LowerNames(decls);
      assert all == Keys(reg) + [key] + LowerNames(decls[1..]);
      if step.raised.Some? {
        RepeatNotDistinct(Keys(reg), key, LowerNames(decls[1..]));
      } else {
        assert Keys(step.registry) == Keys(reg) + [key];
        DistinctSnoc(Keys(reg), key);
        RegisterAllRaisesOnRepeat(step.registry, decls[1..]);
      }
    }
  }

  /** A registration of declarations that raises nothing appends them,
      lower-cased, in order. */
  lemma {:induction false} RegisterAllAppends(reg: Registry, decls: seq<Entry>)
    ensures RegisterAll(reg, decls).raised.None? ==>
              RegisterAll(reg, decls).registry.entries == reg.entries + Lowered(decls)
    decreases |decls|
  {
    if decls == [] {
      assert reg.entries + Lowered(decls) == reg.entries;
    } else {
      var head := Entry(Text.Lower(decls[0].name), decls[0].kind);
      var step := Register(reg, decls[0].name, decls[0].kind);
      if step.raised.None? {
        var rest := RegisterAll(step.registry, decls[1..]);
        assert RegisterAll(reg, decls) == rest;
        if rest.raised.None? {
          RegisterAllAppends(step.registry, decls[1..]);
          LoweredCons(decls);
          assert rest.registry.entries == (reg.entries + [head]) + Lowered(decls[1..]);
        }
      }
    }
  }

  /** `Lowered` handles the first declaration, then the rest. */
  lemma LoweredCons(decls: seq<Entry>)
    requires decls != []
    ensures Lowered(decls) == [Entry(Text.Lower(decls[0].name), decls[0].kind)] + Lowered(decls[1..])
  {
  }

  /** Registering declarations, whether or not one raises, keeps the
      registry's keys lower-cased and free of repeats. */
  lemma {:induction false} RegisterAllKeepsWellFormed(reg: Registry, decls: seq<Entry>)
    requires WellFormed(reg)
    ensures WellFormed(RegisterAll(reg, decls).registry)
    decreases |decls|
  {
    if decls != [] {
      var step := Register(reg, decls[0].name, decls[0].kind);
      if step.raised.None? {
        RegisterAllKeepsWellFormed(step.registry, decls[1..]);
      }
    }
  }

  /** The module's five class declarations, in source order. */
  const Declarations := [
    Entry("add", Add),
    Entry("subtract", Subtract),
    Entry("multiply", Multiply),
    Entry("divide", Divide),
    Entry("power", Power)
  ]

  /** The registry as module start-up leaves it. */
  function Startup(): (r: Registered)
  {
    RegisterAll(Empty, Declarations)
  }

  /** Declarations whose names are already lower-case are stored as they
      are written. */
  lemma {:induction false} LoweredKeepsLowerCase(decls: seq<Entry>)
    requires forall i :: 0 <= i < |decls| ==> Text.IsLowered(decls[i].name)
    ensures Lowered(decls) == decls
    ensures LowerNames(decls) == Keys(Registry(decls))
  {
    if decls != [] {
      Text.LowerIdempotent(decls[0].name);
      LoweredKeepsLowerCase(decls[1..]);
      assert Keys(Registry(decls)) == [decls[0].name] + Keys(Registry(decls[1..]));
    }
  }

  /** The declared names are lower-case and pairwise different. */
  lemma DeclarationsLowerCaseAndDistinct()
    ensures forall i :: 0 <= i < |Declarations| ==> Text.IsLowered(Declarations[i].name)
    ensures Keys(Registry(Declarations)) == ["add", "subtract", "multiply", "divide", "power"]
    ensures Distinct(Keys(Registry(Declarations)))
  {
  }

  /** Start-up raises nothing: the five names are new and different. */
  lemma StartupRaisesNothing()
    ensures Startup().raised.None?
  {
    var names := Keys(Empty) + LowerNames(Declarations);
    assert Distinct(names) by {
      DeclarationsLowerCaseAndDistinct();
      LoweredKeepsLowerCase(Declarations);
      assert names == Keys(Registry(Declarations));
    }
    RegisterAllRaisesOnRepeat(Empty, Declarations);
  }

  /** Start-up leaves exactly the five keys, in declaration order, each
      naming its class, in a well-formed registry. */
  lemma StartupRegistersFive()
    ensures Startup().registry.entries == Declarations
    ensures Keys(Startup().registry) == ["add", "subtract", "multiply", "divide", "power"]
    ensures WellFormed(Startup().registry)
  {
    StartupRaisesNothing();
    DeclarationsLowerCaseAndDistinct();
    LoweredKeepsLowerCase(Declarations);
    RegisterAllAppends(Empty, Declarations);
    RegisterAllKeepsWellFormed(Empty, Declarations);
  }

  /** The lower-cased forms of the names used with the start-up registry. */
  lemma ExampleNamesLowered()
    ensures Text.Lower("ADD") == "add" && Text.Lower("add") == "add"
    ensures Text.Lower("Divide") == "divide" && Text.Lower("power") == "power"
    ensures Text.Lower("modulus") == "modulus"
  {
  }

  /** In the registry start-up leaves (`StartupRegistersFive`), names are
      looked up whatever their case, and every declared name, `power`
      included, creates its calculation. */
  lemma StartupCreates(reg: Registry, a: real, b: real)
    requires reg.entries == Declarations
    ensures Create(reg, "add", a, b) == Success(Calculation(Add, a, b))
    ensures Create(reg, "ADD", a, b) == Success(Calculation(Add, a, b))
    ensures Create(reg, "Divide", a, b) == Success(Calculation(Divide, a, b))
    ensures Create(reg, "power", a, b) == Success(Calculation(Power, a, b))
  {
    ExampleNamesLowered();
  }

  /** The five start-up keys, joined as the refusal message lists them:
      in declaration order, separated by ", ". */
  lemma StartupKeysJoined()
    ensures Text.Join(["add", "subtract", "multiply", "divide", "power"], ", ")
            == "add" + ", " + "subtract" + ", " + "multiply" + ", " + "divide" + ", " + "power"
  {
  }

  /** In that registry an unknown name is refused with a message that lists
      the five keys in declaration order. */
  lemma StartupRefusesUnknown(reg: Registry, a: real, b: real)
    requires reg.entries == Declarations
    ensures Create(reg, "modulus", a, b)
            == Failure(ValueError(UnsupportedMessage("modulus", ["add", "subtract", "multiply", "divide", "power"])))
  {
    ExampleNamesLowered();
    DeclarationsLowerCaseAndDistinct();
  }

  /** In that registry, registering a declared name again raises, quoting
      the name as given, and leaves the registry as it was. */
  lemma StartupRefusesDuplicate(reg: Registry, k: Kind)
    requires reg.entries == Declarations
    ensures Register(reg, "add", k) == Registered(reg, Some(ValueError(DuplicateMessage("add"))))
    ensures Register(reg, "Divide", k) == Registered(reg, Some(ValueError(DuplicateMessage("Divide"))))
  {
    ExampleNamesLowered();
    DeclarationsLowerCaseAndDistinct();
  }
}
