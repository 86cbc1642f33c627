/** Which monitors run: the `--disable` options, the environment variable, and the loop
    that creates the monitors. */
module MonitorSelection {
  import opened Wrappers
  import opened Strings

  const WALLMON := "wallmon"

  /** `valid_monitor_disable`: a registered monitor other than the wall clock. */
  predicate ValidDisable(registered: seq<string>, name: string) {
    name != WALLMON && name in registered
  }

  function OnlyValid(registered: seq<string>, names: seq<string>): seq<string> {
    if names == [] then []
    else (if ValidDisable(registered, names[0]) then [names[0]] else []) + OnlyValid(registered, names[1..])
  }

  lemma {:induction false} OnlyValidMembers(registered: seq<string>, names: seq<string>, name: string)
    ensures name in OnlyValid(registered, names) <==> name in names && ValidDisable(registered, name)
  {
    if names != [] {
      OnlyValidMembers(registered, names[1..], name);
    }
  }

  lemma {:induction false} OnlyValidAppend(registered: seq<string>, names: seq<string>, more: seq<string>)
    ensures OnlyValid(registered, names + more) == OnlyValid(registered, names) + OnlyValid(registered, more)
  {
    if names == [] {
      assert names + more == more;
    } else {
      assert (names + more)[1..] == names[1..] + more;
      OnlyValidAppend(registered, names[1..], more);
    }
  }

  lemma AddOne(registered: seq<string>, base: seq<string>, names: seq<string>, name: string)
    ensures base + OnlyValid(registered, names + [name]) ==
            base + OnlyValid(registered, names) + OnlyValid(registered, [name])
    ensures OnlyValid(registered, [name]) == if ValidDisable(registered, name) then [name] else []
  {
    OnlyValidAppend(registered, names, [name]);
    assert [name][1..] == [];
  }

  class Selection {
    const registered: seq<string>
    var disabled: seq<string>

    constructor (registered: seq<string>)
      ensures this.registered == registered && disabled == []
    {
      this.registered := registered;
      disabled := [];
    }

    method SnipStringAndTest(env: string, start: nat, pos: nat)
      requires start <= pos <= |env|
      modifies this`disabled
      ensures disabled == old(disabled) + OnlyValid(registered, [env[start..pos]])
    {
      var monitorName := env[start..pos];
      assert [monitorName][1..] == [];
      if ValidDisable(registered, monitorName) {
        disabled := disabled + [monitorName];
      }
    }

    /** `disable_monitors_from_env`: one pass over the value of the variable, if it is set,
        appends the valid names among its comma-separated pieces, in order. */
    method DisableMonitorsFromEnv(env: Option<string>)
      modifies this`disabled
      ensures disabled == old(disabled) + if env.None? then [] else OnlyValid(registered, Split(env.value, ','))
    {
      if env.None? { return; }
      var s := env.value;
      var pos, start := 0, 0;
      ghost var pieces: seq<string> := [];
      CutStart(s);
      assert OnlyValid(registered, []) == [];
      hide Cut, OnlyValid, ValidDisable;
      while pos < |s|
        invariant start <= pos <= |s| && Cut(s, start, pos, pieces)
        invariant disabled == old(disabled) + OnlyValid(registered, pieces)
      {
        if s[pos] == ',' {
          CutPiece(s, start, pos, pieces);
          AddOne(registered, old(disabled), pieces, s[start..pos]);
          pieces := pieces + [s[start..pos]];
          SnipStringAndTest(s, start, pos);
          pos := pos + 1;
          start := pos;
        } else {
          CutOn(s, start, pos, pieces);
          pos := pos + 1;
        }
      }
      CutEnd(s, start, pieces);
      AddOne(registered, old(disabled), pieces, s[start..pos]);
      SnipStringAndTest(s, start, pos);
    }

    /** The `--disable` options of the command line. */
    method DisableFromCommandLine(names: seq<string>)
      modifies this`disabled
      ensures disabled == old(disabled) + OnlyValid(registered, names)
    {
      for i := 0 to |names|
        invariant disabled == old(disabled) + OnlyValid(registered, names[..i])
      {
        assert names[..i + 1] == names[..i] + [names[i]];
        AddOne(registered, old(disabled), names[..i], names[i]);
        if ValidDisable(registered, names[i]) {
          disabled := disabled + [names[i]];
        }
      }
      assert names[..|names|] == names;
    }

    /** The monitors created: registered, not disabled, and found usable on this machine. */
    method Select(usable: set<string>) returns (monitors: set<string>)
      ensures monitors == set name | name in registered && name !in disabled && name in usable
    {
      monitors := {};
      for i := 0 to |registered|
        invariant monitors == set name | name in registered[..i] && name !in disabled && name in usable
      {
        var className := registered[i];
        var state := true;
        for j := 0 to |disabled|
          invariant state == (className !in disabled[..j])
        {
          assert disabled[..j + 1] == disabled[..j] + [disabled[j]];
          if className == disabled[j] { state := false; }
        }
        assert disabled[..|disabled|] == disabled && registered[..i + 1] == registered[..i] + [className];
        if state && className in usable {
          monitors := monitors + {className};
        }
      }
      assert registered[..|registered|] == registered;
    }

    /** Start-up: options, then environment, then creation. Whatever is asked for, exactly the
        usable registered monitors nobody asked to disable run, and the wall clock always does. */
    method Choose(cli: seq<string>, env: Option<string>, usable: set<string>) returns (monitors: set<string>)
      requires disabled == [] && WALLMON in registered && WALLMON in usable
      modifies this`disabled
      ensures WALLMON in monitors
      ensures forall name :: name in monitors <==>
        name in registered && name in usable && (name == WALLMON || name !in Asked(cli, env))
    {
      DisableFromCommandLine(cli);
      DisableMonitorsFromEnv(env);
      monitors := Select(usable);
      forall name ensures name in monitors <==>
        name in registered && name in usable && (name == WALLMON || name !in Asked(cli, env))
      {
        DisabledNames(registered, cli, env, name);
      }
    }
  }

  /** The pieces before `start` are cut off, and there is no comma between `start` and `pos`. */
  ghost predicate Cut(s: string, start: nat, pos: nat, pieces: seq<string>) {
    start <= pos <= |s| && ',' !in s[start..pos] && pieces + Split(s[start..], ',') == Split(s, ',')
  }

  lemma CutStart(s: string)
    ensures Cut(s, 0, 0, [])
  {
    assert s[0..] == s && [] + Split(s, ',') == Split(s, ',');
  }

  lemma CutOn(s: string, start: nat, pos: nat, pieces: seq<string>)
    requires Cut(s, start, pos, pieces) && pos < |s| && s[pos] != ','
    ensures Cut(s, start, pos + 1, pieces)
  {
    assert s[start..pos + 1] == s[start..pos] + [s[pos]];
  }

  lemma CutPiece(s: string, start: nat, pos: nat, pieces: seq<string>)
    requires Cut(s, start, pos, pieces) && pos < |s| && s[pos] == ','
    ensures Cut(s, pos + 1, pos + 1, pieces + [s[start..pos]])
  {
    hide Split;
    var piece, rest := s[start..pos], s[pos + 1..];
    var more := Split(rest, ',');
    assert s[start..] == piece + [','] + rest;
    FirstPiece(piece, rest, ',');
    assert pieces + ([piece] + more) == (pieces + [piece]) + more;
  }

  lemma CutEnd(s: string, start: nat, pieces: seq<string>)
    requires Cut(s, start, |s|, pieces)
    ensures pieces + [s[start..|s|]] == Split(s, ',')
  {
    assert s[start..|s|] == s[start..];
    OnlyPiece(s[start..], ',');
  }

  /** All names a user asked to disable. */
  function Asked(cli: seq<string>, env: Option<string>): seq<string> {
    cli + if env.None? then [] else Split(env.value, ',')
  }

  /** What is disabled by any combination of options and environment: the registered names
      asked for, but never the wall clock. */
  lemma DisabledNames(registered: seq<string>, cli: seq<string>, env: Option<string>, name: string)
    ensures var fromEnv := if env.None? then [] else OnlyValid(registered, Split(env.value, ','));
            var disabled := OnlyValid(registered, cli) + fromEnv;
            name in disabled <==> name in registered && name != WALLMON && name in Asked(cli, env)
  {
    var fromEnv := if env.None? then [] else Split(env.value, ',');
    OnlyValidAppend(registered, cli, fromEnv);
    OnlyValidMembers(registered, cli + fromEnv, name);
  }
}
