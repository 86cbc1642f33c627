/** What `OptionParser::parse` does to a command line, one token at a time. */
module OptionSyntax {
  import opened Strings
  import opened Wrappers

  /** The option classes: `Switch` takes no argument, `Value` needs one, `Implicit` may take one. */
  datatype Kind = Switch | Value | Implicit(default: string)

  datatype Attribute = Inactive | Hidden | Required | Optional | Advanced | Expert

  /** A declared option. An absent short name is '\0', an absent long name is empty. */
  datatype Spec = Spec(short: char, long: string, kind: Kind, attribute: Attribute)

  /** What an option records each time it is set. */
  datatype Setting = On | Text(text: string)

  datatype State = State(values: seq<seq<Setting>>, operands: seq<string>, unknown: seq<string>)

  datatype Error = MissingArgument(opt: nat) | MissingOption(opt: nat)

  datatype Outcome = Outcome(state: State, error: Option<Error>)

  /** One step: the new state and how many of the following tokens it took. */
  datatype Step = Step(state: State, used: nat, error: Option<Error>)

  // Lookup.

  function FindLong(specs: seq<Spec>, name: string, from: nat := 0): (r: Option<nat>)
    requires from <= |specs|
    ensures r.Some? ==> from <= r.value < |specs| && specs[r.value].long == name
                        && forall i :: from <= i < r.value ==> specs[i].long != name
    decreases |specs| - from
  {
    if from == |specs| then None
    else if specs[from].long == name then Some(from)
    else FindLong(specs, name, from + 1)
  }

  function FindShort(specs: seq<Spec>, c: char, from: nat := 0): (r: Option<nat>)
    requires from <= |specs|
    ensures r.Some? ==> from <= r.value < |specs| && specs[r.value].short == c
                        && forall i :: from <= i < r.value ==> specs[i].short != c
    decreases |specs| - from
  {
    if from == |specs| then None
    else if specs[from].short == c then Some(from)
    else FindShort(specs, c, from + 1)
  }

  /** An inactive option counts as not found. */
  function Active(specs: seq<Spec>, found: Option<nat>): (r: Option<nat>)
    requires found.Some? ==> found.value < |specs|
    ensures r.Some? ==> r == found
  {
    if found.Some? && specs[found.value].attribute.Inactive? then None else found
  }

  function ActiveLong(specs: seq<Spec>, name: string): (r: Option<nat>)
    ensures r.Some? ==> r.value < |specs| && specs[r.value].long == name
  {
    Active(specs, FindLong(specs, name))
  }

  function ActiveShort(specs: seq<Spec>, c: char): (r: Option<nat>)
    ensures r.Some? ==> r.value < |specs| && specs[r.value].short == c
  {
    Active(specs, FindShort(specs, c))
  }

  // Effects.

  function AddValue(st: State, i: nat, v: Setting): State
    requires i < |st.values|
  {
    st.(values := st.values[i := st.values[i] + [v]])
  }

  function AddUnknown(st: State, token: string): State {
    st.(unknown := st.unknown + [token])
  }

  /** `Option::parse`: what the option records for this argument, if it accepts it. */
  function Recorded(spec: Spec, arg: string): Option<Setting> {
    match spec.kind
    case Switch => Some(On)
    case Value => if arg == "" then None else Some(Text(arg))
    case Implicit(default) => Some(Text(if arg == "" then default else arg))
  }

  function Record(specs: seq<Spec>, st: State, i: nat, arg: string, used: nat): Step
    requires i < |specs| == |st.values|
  {
    match Recorded(specs[i], arg)
    case Some(v) => Step(AddValue(st, i, v), used, None)
    case None => Step(st, used, Some(MissingArgument(i)))
  }

  // Tokens.

  predicate IsLong(token: string) {
    2 <= |token| && token[..2] == "--"
  }

  predicate IsShort(token: string) {
    1 <= |token| && token[0] == '-' && !IsLong(token)
  }

  function LongName(token: string): string
    requires IsLong(token)
  {
    token[2..][..IndexOf(token[2..], '=')]
  }

  function LongArgument(token: string): string
    requires IsLong(token)
  {
    var k := IndexOf(token[2..], '=');
    if k < |token[2..]| then token[2..][k + 1..] else ""
  }

  function LongStep(specs: seq<Spec>, token: string, rest: seq<string>, st: State): (r: Step)
    requires IsLong(token) && |specs| == |st.values|
    ensures r.used <= |rest| && |r.state.values| == |specs|
  {
    var arg := LongArgument(token);
    match ActiveLong(specs, LongName(token))
    case None => Step(AddUnknown(st, token), 0, None)
    case Some(i) =>
      if specs[i].kind.Switch? && arg != "" then Step(AddUnknown(st, token), 0, None)
      else if specs[i].kind.Value? && arg == "" && rest != [] then Record(specs, st, i, rest[0], 1)
      else Record(specs, st, i, arg, 0)
  }

  /** The letters of a short token from position `m` on. */
  function BundleStep(specs: seq<Spec>, token: string, m: nat, rest: seq<string>, st: State, unknown: bool): (r: Step)
    requires 1 <= m <= |token| && |specs| == |st.values|
    ensures r.used <= 1 && r.used <= |rest| && |r.state.values| == |specs|
    decreases |token| - m
  {
    if m == |token| then
      Step(if unknown then AddUnknown(st, token) else st, 0, None)
    else
      match ActiveShort(specs, token[m])
      case None => BundleStep(specs, token, m + 1, rest, st, true)
      case Some(i) =>
        if specs[i].kind.Switch? then
          BundleStep(specs, token, m + 1, rest, AddValue(st, i, On), unknown)
        else
          var arg := token[m + 1..];
          var takeNext := specs[i].kind.Value? && arg == "" && rest != [];
          var r := Record(specs, st, i, if takeNext then rest[0] else arg, if takeNext then 1 else 0);
          if r.error.Some? || !unknown then r else r.(state := AddUnknown(r.state, token))
  }

  function TokenStep(specs: seq<Spec>, token: string, rest: seq<string>, st: State): (r: Step)
    requires |specs| == |st.values|
    ensures r.used <= 1 && r.used <= |rest| && |r.state.values| == |specs|
  {
    if IsLong(token) then LongStep(specs, token, rest, st)
    else if IsShort(token) then BundleStep(specs, token, 1, rest, st, false)
    else Step(st.(operands := st.operands + [token]), 0, None)
  }

  function ParseTokens(specs: seq<Spec>, args: seq<string>, st: State): (r: Outcome)
    requires |specs| == |st.values|
    ensures |r.state.values| == |specs|
    decreases |args|
  {
    if args == [] then Outcome(st, None)
    else if args[0] == "--" then Outcome(st.(operands := st.operands + args[1..]), None)
    else
      var r := TokenStep(specs, args[0], args[1..], st);
      if r.error.Some? then Outcome(r.state, r.error)
      else ParseTokens(specs, args[1 + r.used..], r.state)
  }

  /** The first required option that was never set. */
  function FirstUnset(specs: seq<Spec>, values: seq<seq<Setting>>, from: nat := 0): Option<nat>
    requires |specs| == |values| && from <= |specs|
    decreases |specs| - from
  {
    if from == |specs| then None
    else if specs[from].attribute.Required? && values[from] == [] then Some(from)
    else FirstUnset(specs, values, from + 1)
  }

  /** The whole of `parse`: the loop, then the check for required options. */
  function Parse(specs: seq<Spec>, args: seq<string>, st: State): Outcome
    requires |specs| == |st.values|
  {
    var r := ParseTokens(specs, args, st);
    if r.error.Some? then r
    else
      match FirstUnset(specs, r.state.values)
      case None => r
      case Some(i) => r.(error := Some(MissingOption(i)))
  }

  /** What `add` insists on: no two options share a name. */
  ghost predicate DistinctNames(specs: seq<Spec>) {
    forall i, j :: 0 <= i < j < |specs| ==>
      (specs[i].short == '\0' || specs[i].short != specs[j].short) &&
      (specs[i].long == "" || specs[i].long != specs[j].long)
  }

  /** `add` refuses exactly what would hide an option: every option that has a name is found by it. */
  lemma NamesDistinctIff(specs: seq<Spec>)
    ensures DistinctNames(specs) <==>
            forall i: nat :: i < |specs| ==>
              (specs[i].long != "" ==> FindLong(specs, specs[i].long) == Some(i)) &&
              (specs[i].short != '\0' ==> FindShort(specs, specs[i].short) == Some(i))
  {
    if DistinctNames(specs) {
      forall i: nat | i < |specs|
        ensures specs[i].long != "" ==> FindLong(specs, specs[i].long) == Some(i)
        ensures specs[i].short != '\0' ==> FindShort(specs, specs[i].short) == Some(i)
      {
        FoundFirst(specs, i, 0);
      }
    }
  }

  lemma {:induction false} FoundFirst(specs: seq<Spec>, i: nat, from: nat)
    requires DistinctNames(specs) && from <= i < |specs|
    ensures specs[i].long != "" ==> FindLong(specs, specs[i].long, from) == Some(i)
    ensures specs[i].short != '\0' ==> FindShort(specs, specs[i].short, from) == Some(i)
    decreases i - from
  {
    if from < i {
      FoundFirst(specs, i, from + 1);
    }
  }

  /** Exactly a name that is not declared is not found. */
  lemma {:induction false} NotFound(specs: seq<Spec>, name: string, c: char, from: nat)
    requires from <= |specs|
    ensures FindLong(specs, name, from) == None <==> forall i :: from <= i < |specs| ==> specs[i].long != name
    ensures FindShort(specs, c, from) == None <==> forall i :: from <= i < |specs| ==> specs[i].short != c
    decreases |specs| - from
  {
    if from < |specs| {
      NotFound(specs, name, c, from + 1);
    }
  }

  /** Exactly the tokens without a leading `-` are operands of their own accord. */
  lemma OperandIff(specs: seq<Spec>, token: string, rest: seq<string>, st: State)
    requires |specs| == |st.values|
    ensures var r := TokenStep(specs, token, rest, st);
            if token == "" || token[0] != '-' then r == Step(st.(operands := st.operands + [token]), 0, None)
            else r.state.operands == st.operands
  {
    if IsShort(token) { BundleKeepsOperands(specs, token, 1, rest, st, false); }
  }

  lemma {:induction false} BundleKeepsOperands(specs: seq<Spec>, token: string, m: nat, rest: seq<string>, st: State,
                                              unknown: bool)
    requires 1 <= m <= |token| && |specs| == |st.values|
    ensures BundleStep(specs, token, m, rest, st, unknown).state.operands == st.operands
    decreases |token| - m
  {
    if m < |token| {
      match ActiveShort(specs, token[m])
      case None => BundleKeepsOperands(specs, token, m + 1, rest, st, true);
      case Some(i) =>
        if specs[i].kind.Switch? {
          BundleKeepsOperands(specs, token, m + 1, rest, AddValue(st, i, On), unknown);
        }
    }
  }

  // Required options.

  /** A required option that was never set. */
  predicate Lacking(specs: seq<Spec>, values: seq<seq<Setting>>, i: nat)
    requires |specs| == |values|
  {
    i < |specs| && specs[i].attribute == Required && values[i] == []
  }

  lemma {:induction false} FirstUnsetIs(specs: seq<Spec>, values: seq<seq<Setting>>, from: nat)
    requires |specs| == |values| && from <= |specs|
    ensures var r := FirstUnset(specs, values, from);
            match r
            case None => forall i: nat :: from <= i ==> !Lacking(specs, values, i)
            case Some(i) => from <= i && Lacking(specs, values, i) &&
                            forall j: nat :: from <= j < i ==> !Lacking(specs, values, j)
    decreases |specs| - from
  {
    if from < |specs| {
      FirstUnsetIs(specs, values, from + 1);
    }
  }

  /** What `parse` adds to the tokens' own outcome: if no argument is missing, it succeeds exactly
      if every required option was set, and otherwise names the first one that was not; the state is
      that of the tokens in any case. */
  lemma ParseMeans(specs: seq<Spec>, args: seq<string>, st: State)
    requires |specs| == |st.values|
    ensures var tokens, r := ParseTokens(specs, args, st), Parse(specs, args, st);
            && r.state == tokens.state && (tokens.error.Some? ==> r.error == tokens.error)
            && (tokens.error == None ==>
                 var values := tokens.state.values;
                 && (r.error == None <==> forall i: nat :: !Lacking(specs, values, i))
                 && (r.error != None ==> exists i: nat ::
                       r.error == Some(MissingOption(i)) && Lacking(specs, values, i) &&
                       forall j: nat :: j < i ==> !Lacking(specs, values, j)))
  {
    hide ParseTokens, Lacking;
    FirstUnsetIs(specs, ParseTokens(specs, args, st).state.values, 0);
  }
}
