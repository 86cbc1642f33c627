/** The option parser as an object: options that collect values, and the parser that
    walks the command line with its two cursors. */
module OptionParser {
  import opened Wrappers
  import opened OptionSyntax
  import opened Strings

  /** One declared option and the values it has collected. */
  class Opt {
    const spec: Spec
    var values: seq<Setting>

    constructor (spec: Spec)
      ensures this.spec == spec && values == []
    {
      this.spec := spec;
      values := [];
    }

    /** Records the argument; a `Value` option rejects an empty one. */
    method Parse(arg: string) returns (ok: bool)
      modifies this`values
      ensures ok == Recorded(spec, arg).Some?
      ensures values == if ok then old(values) + [Recorded(spec, arg).value] else old(values)
    {
      match spec.kind {
        case Switch =>
          values := values + [On];
        case Value =>
          if |arg| == 0 { return false; }
          values := values + [Text(arg)];
        case Implicit(default) =>
          values := values + [Text(if |arg| > 0 then arg else default)];
      }
      ok := true;
    }

    method Clear()
      modifies this`values
      ensures values == []
    {
      values := [];
    }
  }

  /** The tokens from index `n` on. */
  function From(argv: seq<string>, n: nat): seq<string> {
    if n <= |argv| then argv[n..] else []
  }

  /** One turn of the loop at a token that took the tokens up to `n'`. */
  lemma LoopStep(specs: seq<Spec>, argv: seq<string>, n: nat, st: State, n': nat, r: Step)
    requires |specs| == |st.values| && n <= n' && n < |argv| && argv[n] != "--"
    requires r == TokenStep(specs, argv[n], argv[n + 1..], st) && r.used == n' - n
    ensures |r.state.values| == |specs|
    ensures ParseTokens(specs, From(argv, n), st) ==
            if r.error.Some? then Outcome(r.state, r.error) else ParseTokens(specs, From(argv, n' + 1), r.state)
  {
    var args := From(argv, n);
    assert args[0] == argv[n] && args[1..] == argv[n + 1..];
    assert args[1 + r.used..] == From(argv, n' + 1);
  }

  lemma LoopEnd(specs: seq<Spec>, argv: seq<string>, n: nat, st: State)
    requires |specs| == |st.values|
    ensures n >= |argv| ==> ParseTokens(specs, From(argv, n), st) == Outcome(st, None)
    ensures n < |argv| && argv[n] == "--" ==>
              ParseTokens(specs, From(argv, n), st) == Outcome(st.(operands := st.operands + argv[n + 1..]), None)
  {
    if n < |argv| { assert From(argv, n)[1..] == argv[n + 1..]; }
  }

  /** One letter of a short token. */
  lemma BundleLetter(specs: seq<Spec>, token: string, m: nat, rest: seq<string>, st: State, unknown: bool)
    requires 1 <= m <= |token| && |specs| == |st.values|
    ensures BundleStep(specs, token, m, rest, st, unknown) ==
            if m == |token| then Step(if unknown then AddUnknown(st, token) else st, 0, None)
            else var found := ActiveShort(specs, token[m]);
              if found.None? then BundleStep(specs, token, m + 1, rest, st, true)
              else if specs[found.value].kind.Switch? then
                BundleStep(specs, token, m + 1, rest, AddValue(st, found.value, On), unknown)
              else
                var arg := token[m + 1..];
                var takeNext := specs[found.value].kind.Value? && arg == "" && rest != [];
                var r := Record(specs, st, found.value, if takeNext then rest[0] else arg, if takeNext then 1 else 0);
                if r.error.Some? || !unknown then r else r.(state := AddUnknown(r.state, token))
  {
  }

  class Parser {
    var options: seq<Opt>
    var nonOptionArgs: seq<string>
    var unknownOptions: seq<string>

    ghost predicate Valid()
      reads this`options
    {
      (forall i, j :: 0 <= i < j < |options| ==> options[i] != options[j]) && DistinctNames(Specs())
    }

    function Specs(): (r: seq<Spec>)
      reads this`options
      ensures |r| == |options| && forall i :: 0 <= i < |r| ==> r[i] == options[i].spec
    {
      var opts := options;
      seq(|opts|, i requires 0 <= i < |opts| => opts[i].spec)
    }

    ghost function Current(): (st: State)
      reads this, options
      ensures |st.values| == |options|
    {
      State(seq(|options|, i requires 0 <= i < |options| reads this, options => options[i].values),
            nonOptionArgs, unknownOptions)
    }

    constructor ()
      ensures Valid() && options == [] && Current() == State([], [], [])
    {
      options, nonOptionArgs, unknownOptions := [], [], [];
    }

    /** Adds an option unless one of its names is taken. */
    method Add(spec: Spec) returns (added: bool)
      requires Valid()
      modifies this`options
      ensures Valid()
      ensures added == DistinctNames(old(Specs()) + [spec])
      ensures if added then Specs() == old(Specs()) + [spec] && fresh(options[|options| - 1])
                            && options[|options| - 1].values == [] && options[..|options| - 1] == old(options)
              else options == old(options)
    {
      var option := new Opt(spec);
      for k := 0 to |options|
        invariant forall j :: 0 <= j < k ==>
          (spec.short == '\0' || spec.short != options[j].spec.short) &&
          (spec.long == "" || spec.long != options[j].spec.long)
      {
        var o := options[k];
        if (spec.short != '\0' && spec.short == o.spec.short) || (spec.long != "" && spec.long == o.spec.long) {
          ghost var all := Specs() + [spec];
          assert all[k] == o.spec && all[|options|] == spec;
          return false;
        }
      }
      options := options + [option];
      assert Specs() == old(Specs()) + [spec];
      added := true;
    }

    method FindLongOption(name: string) returns (r: Option<nat>)
      ensures r == ActiveLong(Specs(), name)
    {
      var k := 0;
      while k < |options| && options[k].spec.long != name
        invariant k <= |options|
        invariant FindLong(Specs(), name) == FindLong(Specs(), name, k)
      {
        k := k + 1;
      }
      r := if k < |options| && !options[k].spec.attribute.Inactive? then Some(k) else None;
    }

    method FindShortOption(c: char) returns (r: Option<nat>)
      ensures r == ActiveShort(Specs(), c)
    {
      var k := 0;
      while k < |options| && options[k].spec.short != c
        invariant k <= |options|
        invariant FindShort(Specs(), c) == FindShort(Specs(), c, k)
      {
        k := k + 1;
      }
      r := if k < |options| && !options[k].spec.attribute.Inactive? then Some(k) else None;
    }

    method ParseOption(i: nat, arg: string) returns (ok: bool)
      requires Valid() && i < |options|
      modifies options[i]
      ensures ok == Recorded(options[i].spec, arg).Some?
      ensures Current() == if ok then AddValue(old(Current()), i, Recorded(options[i].spec, arg).value)
                           else old(Current())
    {
      ghost var before := Current();
      ok := options[i].Parse(arg);
      ghost var after := if ok then AddValue(before, i, Recorded(options[i].spec, arg).value) else before;
      assert Current().values == after.values;
    }

    method MarkUnknown(token: string)
      modifies this`unknownOptions
      ensures Current() == AddUnknown(old(Current()), token)
    {
      ghost var before := Current();
      unknownOptions := unknownOptions + [token];
      assert Current().values == before.values;
    }

    method AddOperands(tokens: seq<string>)
      modifies this`nonOptionArgs
      ensures Current() == var st := old(Current()); st.(operands := st.operands + tokens)
    {
      ghost var before := Current();
      nonOptionArgs := nonOptionArgs + tokens;
      assert Current().values == before.values;
    }

    /** The branch for `--name`, `--name=value` and `--name value`. */
    method ParseLong(argv: seq<string>, n: nat) returns (n': nat, error: Option<Error>)
      requires Valid() && n < |argv| && IsLong(argv[n])
      modifies this`unknownOptions, options
      ensures n <= n' < |argv|
      ensures Step(Current(), n' - n, error) == LongStep(Specs(), argv[n], argv[n + 1..], old(Current()))
    {
      n', error := n, None;
      var opt := argv[n][2..];
      var optarg := "";
      var equalIdx := IndexOf(opt, '=');
      if equalIdx < |opt| {
        optarg := opt[equalIdx + 1..];
        opt := opt[..equalIdx];
      }
      assert opt == LongName(argv[n]) && optarg == LongArgument(argv[n]);
      var found := FindLongOption(opt);
      if found.Some? {
        if options[found.value].spec.kind.Switch? {
          if optarg != "" { found := None; }
        } else if options[found.value].spec.kind.Value? {
          if optarg == "" && n < |argv| - 1 {
            n' := n + 1;
            optarg := argv[n'];
          }
        }
      }
      if found.Some? {
        var ok := ParseOption(found.value, optarg);
        if !ok { error := Some(MissingArgument(found.value)); }
      } else {
        MarkUnknown(argv[n]);
      }
    }

    /** The branch for a token of short options, cursor `m` running over its letters. */
    method ParseBundle(argv: seq<string>, n: nat) returns (n': nat, error: Option<Error>)
      requires Valid() && n < |argv| && IsShort(argv[n])
      modifies this`unknownOptions, options
      ensures n <= n' < |argv|
      ensures Step(Current(), n' - n, error) == BundleStep(Specs(), argv[n], 1, argv[n + 1..], old(Current()), false)
    {
      hide ActiveShort, BundleStep, AddValue, AddUnknown;
      n', error := n, None;
      var opt := argv[n][1..];
      var unknown := false;
      var m := 0;
      ghost var goal := BundleStep(Specs(), argv[n], 1, argv[n + 1..], Current(), false);
      while m < |opt|
        invariant m <= |opt| + 1 && n <= n' < |argv| && error == None
        invariant m <= |opt| ==> n' == n
        invariant m <= |opt| ==> goal == BundleStep(Specs(), argv[n], m + 1, argv[n + 1..], Current(), unknown)
        invariant m > |opt| ==>
                    goal == Step(if unknown then AddUnknown(Current(), argv[n]) else Current(), n' - n, None)
      {
        BundleLetter(Specs(), argv[n], m + 1, argv[n + 1..], Current(), unknown);
        var c := opt[m];
        assert c == argv[n][m + 1] && opt[m + 1..] == argv[n][m + 2..];
        var optarg := "";
        var found := FindShortOption(c);
        if found.Some? {
          if options[found.value].spec.kind.Value? {
            optarg := opt[m + 1..];
            if optarg == "" && n < |argv| - 1 {
              n' := n + 1;
              optarg := argv[n'];
            }
            m := |opt|;
          } else if options[found.value].spec.kind.Implicit? {
            optarg := opt[m + 1..];
            m := |opt|;
          }
        }
        if found.Some? {
          var ok := ParseOption(found.value, optarg);
          if !ok {
            error := Some(MissingArgument(found.value));
            return;
          }
        } else {
          unknown := true;
        }
        m := m + 1;
      }
      if m == |opt| { BundleLetter(Specs(), argv[n], m + 1, argv[n + 1..], Current(), unknown); }
      if unknown { MarkUnknown(argv[n]); }
    }

    /** The branches for a token other than the terminator. */
    method ParseToken(argv: seq<string>, n: nat) returns (n': nat, error: Option<Error>)
      requires Valid() && n < |argv|
      modifies this`nonOptionArgs, this`unknownOptions, options
      ensures n <= n' < |argv|
      ensures Step(Current(), n' - n, error) == TokenStep(Specs(), argv[n], argv[n + 1..], old(Current()))
    {
      hide LongStep, BundleStep;
      var arg := argv[n];
      n', error := n, None;
      if IsLong(arg) {
        n', error := ParseLong(argv, n);
      } else if IsShort(arg) {
        n', error := ParseBundle(argv, n);
      } else {
        AddOperands([arg]);
      }
    }

    /** The loop over the tokens; the program name `argv[0]` is skipped. */
    method ParseLoop(argv: seq<string>) returns (error: Option<Error>)
      requires Valid()
      modifies this`nonOptionArgs, this`unknownOptions, options
      ensures Outcome(Current(), error) == ParseTokens(Specs(), From(argv, 1), old(Current()))
    {
      hide ParseTokens, TokenStep, From;
      var n := 1;
      error := None;
      ghost var goal := ParseTokens(Specs(), From(argv, 1), Current());
      while n < |argv|
        invariant 1 <= n && error == None
        invariant goal == ParseTokens(Specs(), From(argv, n), Current())
        decreases |argv| - n
      {
        ghost var st, n0 := Current(), n;
        LoopEnd(Specs(), argv, n, st);
        if argv[n] == "--" {
          AddOperands(argv[n + 1..]);
          return;
        }
        n, error := ParseToken(argv, n);
        LoopStep(Specs(), argv, n0, st, n, Step(Current(), n - n0, error));
        if error.Some? { return; }
        n := n + 1;
      }
      LoopEnd(Specs(), argv, n, Current());
    }

    /** `parse(argc, argv)`. */
    method Parse(argv: seq<string>) returns (error: Option<Error>)
      requires Valid()
      modifies this`nonOptionArgs, this`unknownOptions, options
      ensures Outcome(Current(), error) == OptionSyntax.Parse(Specs(), From(argv, 1), old(Current()))
    {
      error := ParseLoop(argv);
      if error.Some? { return; }
      for k := 0 to |options|
        invariant FirstUnset(Specs(), Current().values) == FirstUnset(Specs(), Current().values, k)
      {
        if options[k].spec.attribute.Required? && options[k].values == [] {
          return Some(MissingOption(k));
        }
      }
    }

    /** Forgets everything parsed but keeps the declared options. */
    method Reset()
      requires Valid()
      modifies this`nonOptionArgs, this`unknownOptions, options
      ensures Current() == State(seq(|options|, i => []), [], [])
    {
      unknownOptions := [];
      nonOptionArgs := [];
      for k := 0 to |options|
        invariant unknownOptions == [] && nonOptionArgs == []
        invariant forall i :: 0 <= i < k ==> options[i].values == []
      {
        options[k].Clear();
      }
      assert Current().values == seq(|options|, i => []);
    }
  }
}
