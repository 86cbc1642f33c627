/** The converse of the round trip: every command line is a rendering of items followed by
    an ending, and its tokens are accounted for by them. */
module OptionUnparse {
  import opened Wrappers
  import opened OptionSyntax
  import opened Strings
  import opened OptionGrammar

  /** How a command line ends: by itself, with `--` and operands taken as they are, or with
      a `Value` option that finds no argument. */
  datatype Ending = Done | Terminator(children: seq<string>) | Fault(opt: nat, tokens: seq<string>)

  /** The first position from `m` on whose letter takes an argument. */
  function PlainUntil(specs: seq<Spec>, token: string, m: nat): (e: nat)
    requires m <= |token|
    ensures m <= e <= |token| && (forall k :: m <= k < e ==> PlainLetter(specs, token[k]))
    ensures e < |token| ==> !PlainLetter(specs, token[e])
    decreases |token| - m
  {
    if m == |token| || !PlainLetter(specs, token[m]) then m else PlainUntil(specs, token, m + 1)
  }

  /** The token asks for an argument of the `Value` option `i` and has none attached. */
  predicate Asks(specs: seq<Spec>, token: string, i: nat) {
    i < |specs| && specs[i].kind.Value? &&
    if IsLong(token) then
      token != "--" && ActiveLong(specs, LongName(token)) == Some(i) && LongArgument(token) == ""
    else
      IsShort(token) && PlainUntil(specs, token, 1) == |token| - 1 && ActiveShort(specs, token[|token| - 1]) == Some(i)
  }

  /** ... and there is no next token, or it is empty. */
  predicate Starved(specs: seq<Spec>, i: nat, tokens: seq<string>) {
    tokens != [] && Asks(specs, tokens[0], i) && (|tokens| > 1 ==> tokens[1] == "")
  }

  predicate ProperEnding(specs: seq<Spec>, ending: Ending) {
    ending.Fault? ==> Starved(specs, ending.opt, ending.tokens)
  }

  function RenderEnding(ending: Ending): seq<string> {
    match ending
    case Done => []
    case Terminator(children) => ["--"] + children
    case Fault(_, tokens) => tokens
  }

  function LongItem(specs: seq<Spec>, token: string, rest: seq<string>): Item
    requires IsLong(token)
  {
    var eq, arg := IndexOf(token[2..], '=') < |token[2..]|, LongArgument(token);
    match ActiveLong(specs, LongName(token))
    case None => LongUnknown(token)
    case Some(i) =>
      if specs[i].kind.Switch? && arg != "" then LongUnknown(token)
      else if arg != "" then LongAttached(i, arg)
      else if specs[i].kind.Value? && rest != [] then LongSeparate(i, eq, rest[0])
      else LongBare(i, eq)
  }

  function BundleItem(specs: seq<Spec>, token: string, rest: seq<string>): Item
    requires IsShort(token)
  {
    var e := PlainUntil(specs, token, 1);
    var letters := token[1..e];
    if e == |token| then Bundle(letters, NoTail)
    else
      var i, arg := ActiveShort(specs, token[e]).value, token[e + 1..];
      if specs[i].kind.Value? && arg == "" && rest != [] then Bundle(letters, Separate(i, rest[0]))
      else Bundle(letters, Attached(i, arg))
  }

  function ItemOf(specs: seq<Spec>, token: string, rest: seq<string>): Item {
    if IsLong(token) then LongItem(specs, token, rest)
    else if IsShort(token) then BundleItem(specs, token, rest)
    else Operand(token)
  }

  lemma LongTokenSplits(token: string)
    requires IsLong(token)
    ensures '=' !in LongName(token)
    ensures var eq := IndexOf(token[2..], '=') < |token[2..]|;
            token == "--" + LongName(token) + (if eq then "=" else "") + LongArgument(token)
  {
    var body := token[2..];
    assert token == "--" + body;
    var k := IndexOf(body, '=');
    if k < |body| { assert body == body[..k] + "=" + body[k + 1..]; }
  }

  lemma RestSplits(token: string, rest: seq<string>, tokens: seq<string>)
    requires tokens == [token] || (rest != [] && tokens == [token, rest[0]])
    ensures [token] + rest == tokens + rest[|tokens| - 1..]
  {
  }

  lemma LongUnparse(specs: seq<Spec>, token: string, rest: seq<string>)
    requires IsLong(token) && token != "--" && forall i :: !Starved(specs, i, [token] + rest)
    ensures var item := LongItem(specs, token, rest);
            WellFormed(specs, item) && [token] + rest == Render(specs, item) + rest[|Render(specs, item)| - 1..]
  {
    LongTokenSplits(token);
    var found := ActiveLong(specs, LongName(token));
    var item := LongItem(specs, token, rest);
    if found.Some? {
      assert !Starved(specs, found.value, [token] + rest);
      var eq := IndexOf(token[2..], '=') < |token[2..]|;
      assert token == LongToken(specs, found.value, eq) + LongArgument(token);
    }
    assert Render(specs, item)[0] == token;
    RestSplits(token, rest, Render(specs, item));
  }

  lemma BundleUnparse(specs: seq<Spec>, token: string, rest: seq<string>)
    requires IsShort(token) && forall i :: !Starved(specs, i, [token] + rest)
    ensures var item := BundleItem(specs, token, rest);
            WellFormed(specs, item) && [token] + rest == Render(specs, item) + rest[|Render(specs, item)| - 1..]
  {
    var e := PlainUntil(specs, token, 1);
    assert token == "-" + token[1..e] + token[e..];
    if e < |token| {
      var found := ActiveShort(specs, token[e]);
      assert token[e..] == [token[e]] + token[e + 1..];
      assert !Starved(specs, found.value, [token] + rest);
    }
    var item := BundleItem(specs, token, rest);
    assert BundleToken(specs, item.letters, item.tail) == token;
    RestSplits(token, rest, Render(specs, item));
  }

  /** A token that is not starved starts a well-formed item. */
  lemma Unparse(specs: seq<Spec>, token: string, rest: seq<string>)
    requires token != "--" && forall i :: !Starved(specs, i, [token] + rest)
    ensures var item := ItemOf(specs, token, rest);
            WellFormed(specs, item) && 1 <= |Render(specs, item)| <= 1 + |rest| &&
            [token] + rest == Render(specs, item) + rest[|Render(specs, item)| - 1..]
  {
    if IsLong(token) {
      LongUnparse(specs, token, rest);
    } else if IsShort(token) {
      BundleUnparse(specs, token, rest);
    }
  }

  /** A starved token stops the parse, naming its option. */
  lemma StarvedFails(specs: seq<Spec>, i: nat, tokens: seq<string>, st: State)
    requires |specs| == |st.values| && Starved(specs, i, tokens)
    ensures ParseTokens(specs, tokens, st).error == Some(MissingArgument(i))
  {
    var token := tokens[0];
    if IsShort(token) {
      var e := |token| - 1;
      PlainLetters(specs, token, 1, e, tokens[1..], st, false);
      assert token[e + 1..] == "";
    }
  }

  /** A lone `-` is parsed and leaves no trace. */
  lemma LoneDashVanishes(specs: seq<Spec>, rest: seq<string>, st: State)
    requires |specs| == |st.values|
    ensures TokenStep(specs, "-", rest, st) == Step(st, 0, None)
  {
  }

  ghost predicate LeavesNoTrace(specs: seq<Spec>, item: Item)
    requires WellFormed(specs, item)
  {
    (forall i :: 0 <= i < |specs| ==> ValuesOf(specs, item, i) == []) &&
    OperandsOf(item) == [] && UnknownOf(specs, item) == []
  }

  lemma LettersLeaveTraces(specs: seq<Spec>, letters: string)
    requires letters != "" && !HasUndeclared(specs, letters)
    ensures exists i :: 0 <= i < |specs| && LetterValues(specs, letters, i) != []
  {
    var i := ActiveShort(specs, letters[0]).value;
    assert LetterValues(specs, letters, i) != [];
  }

  /** It is the only item that leaves none. */
  lemma OnlyLoneDashVanishes(specs: seq<Spec>, item: Item)
    requires WellFormed(specs, item)
    ensures LeavesNoTrace(specs, item) <==> Render(specs, item) == ["-"]
  {
    hide ActiveShort, ActiveLong, LetterValues, HasUndeclared;
    match item {
      case Operand(text) =>
        assert text != "-";
      case LongUnknown(text) =>
        assert text != "-";
      case Bundle(letters, tail) =>
        BundleTrace(specs, item);
      case _ =>
        assert ValuesOf(specs, item, item.opt) != [];
        assert Render(specs, item)[0][..2] == "--";
    }
  }

  lemma TailLeavesTrace(specs: seq<Spec>, item: Item)
    requires WellFormed(specs, item) && item.Bundle? && !item.tail.NoTail?
    ensures ValuesOf(specs, item, item.tail.opt) != []
  {
    assert |ValuesOf(specs, item, item.tail.opt)| > 0;
  }

  lemma LetterLeavesTrace(specs: seq<Spec>, item: Item)
    requires WellFormed(specs, item) && item.Bundle? && item.letters != ""
    ensures !LeavesNoTrace(specs, item)
  {
    hide PlainLetter, ActiveShort;
    if !HasUndeclared(specs, item.letters) {
      LettersLeaveTraces(specs, item.letters);
      var i :| 0 <= i < |specs| && LetterValues(specs, item.letters, i) != [];
      assert |ValuesOf(specs, item, i)| > 0;
    }
  }

  lemma LoneDashItem(specs: seq<Spec>)
    requires WellFormed(specs, Bundle("", NoTail))
    ensures LeavesNoTrace(specs, Bundle("", NoTail)) && Render(specs, Bundle("", NoTail)) == ["-"]
  {
    assert "-" + "" + "" == "-";
  }

  lemma BundleTrace(specs: seq<Spec>, item: Item)
    requires WellFormed(specs, item) && item.Bundle?
    ensures LeavesNoTrace(specs, item) <==> Render(specs, item) == ["-"]
  {
    if item == Bundle("", NoTail) {
      LoneDashItem(specs);
    } else {
      BundleTokenParts(specs, item.letters, item.tail);
      assert |Render(specs, item)[0]| > 1;
      if item.tail.NoTail? {
        LetterLeavesTrace(specs, item);
      } else {
        TailLeavesTrace(specs, item);
      }
      hide ValuesOf, UnknownOf, WellFormed;
    }
  }

  lemma RenderMore(specs: seq<Spec>, item: Item, more: seq<Item>, ending: Ending)
    requires WellFormed(specs, item) && forall k :: 0 <= k < |more| ==> WellFormed(specs, more[k])
    ensures forall k :: 0 <= k < |[item] + more| ==> WellFormed(specs, ([item] + more)[k])
    ensures RenderAll(specs, [item] + more) + RenderEnding(ending) ==
            Render(specs, item) + (RenderAll(specs, more) + RenderEnding(ending))
  {
    hide WellFormed, Render, RenderEnding;
    assert ([item] + more)[1..] == more;
  }

  lemma RenderNone(specs: seq<Spec>, args: seq<string>, ending: Ending)
    requires RenderEnding(ending) == args
    ensures args == RenderAll(specs, []) + RenderEnding(ending)
  {
  }

  /** Every command line is items followed by an ending. */
  lemma {:induction false} UnparseAll(specs: seq<Spec>, args: seq<string>)
    returns (items: seq<Item>, ending: Ending)
    ensures forall k :: 0 <= k < |items| ==> WellFormed(specs, items[k])
    ensures ProperEnding(specs, ending)
    ensures args == RenderAll(specs, items) + RenderEnding(ending)
    decreases |args|
  {
    hide WellFormed, Render, RenderAll, Starved, ItemOf;
    if args == [] {
      items, ending := [], Done;
      RenderNone(specs, args, ending);
    } else if args[0] == "--" {
      items, ending := [], Terminator(args[1..]);
      RenderNone(specs, args, ending);
    } else if i: nat :| Starved(specs, i, args) {
      items, ending := [], Fault(i, args);
      RenderNone(specs, args, ending);
    } else {
      var rest := args[1..];
      assert args == [args[0]] + rest;
      forall i ensures !Starved(specs, i, [args[0]] + rest) {
      }
      Unparse(specs, args[0], rest);
      var item := ItemOf(specs, args[0], rest);
      var more, ending' := UnparseAll(specs, rest[|Render(specs, item)| - 1..]);
      items, ending := [item] + more, ending';
      RenderMore(specs, item, more, ending);
    }
  }

  /** Token accounting. Every command line splits into items and an ending; it parses without a
      missing argument exactly if the ending is not a starved option, and then each option has
      exactly the settings, and the two lists exactly the tokens, that the items account for. */
  lemma EveryTokenAccounted(specs: seq<Spec>, args: seq<string>, st: State)
    returns (items: seq<Item>, ending: Ending)
    requires |specs| == |st.values|
    ensures forall k :: 0 <= k < |items| ==> WellFormed(specs, items[k])
    ensures ProperEnding(specs, ending)
    ensures args == RenderAll(specs, items) + RenderEnding(ending)
    ensures var r := ParseTokens(specs, args, st);
            if ending.Fault? then r.error == Some(MissingArgument(ending.opt))
            else
              && r.error == None
              && (forall i :: 0 <= i < |specs| ==> r.state.values[i] == st.values[i] + AllValuesOf(specs, items, i))
              && r.state.operands ==
                 st.operands + AllOperandsOf(items) + (if ending.Terminator? then ending.children else [])
              && r.state.unknown == st.unknown + AllUnknownOf(specs, items)
  {
    items, ending := UnparseAll(specs, args);
    hide RenderAll, WellFormed, TokenStep;
    var end := RenderEnding(ending);
    ItemsParse(specs, items, end, st);
    MeaningByOption(specs, items, st);
    match ending {
      case Done =>
      case Terminator(children) => assert (["--"] + children)[1..] == children;
      case Fault(i, tokens) => StarvedFails(specs, i, tokens, MeaningAll(specs, items, st));
    }
  }

  /** Token accounting through the whole of `parse`. */
  lemma EveryTokenParsed(specs: seq<Spec>, args: seq<string>, st: State)
    returns (items: seq<Item>, ending: Ending)
    requires |specs| == |st.values|
    ensures forall k :: 0 <= k < |items| ==> WellFormed(specs, items[k])
    ensures ProperEnding(specs, ending)
    ensures args == RenderAll(specs, items) + RenderEnding(ending)
    ensures var r := Parse(specs, args, st);
            && |r.state.values| == |specs|
            && if ending.Fault? then r.error == Some(MissingArgument(ending.opt))
               else
                 && (r.error == None <==> forall i: nat :: !Lacking(specs, r.state.values, i))
                 && (r.error != None ==> exists i: nat ::
                       r.error == Some(MissingOption(i)) && Lacking(specs, r.state.values, i) &&
                       forall j: nat :: j < i ==> !Lacking(specs, r.state.values, j))
                 && (forall i :: 0 <= i < |specs| ==> r.state.values[i] == st.values[i] + AllValuesOf(specs, items, i))
                 && r.state.operands ==
                    st.operands + AllOperandsOf(items) + (if ending.Terminator? then ending.children else [])
                 && r.state.unknown == st.unknown + AllUnknownOf(specs, items)
  {
    hide Parse, ParseTokens, Lacking, WellFormed, RenderAll, AllValuesOf, ProperEnding;
    items, ending := EveryTokenAccounted(specs, args, st);
    ParseMeans(specs, args, st);
  }
}
