/** The command lines the parser accepts, as a grammar with a meaning: every rendering of a
    list of items parses to what the items say, and every command line is such a rendering. */
module OptionGrammar {
  import opened Wrappers
  import opened OptionSyntax
  import opened Strings

  /** How a short token ends: with switches only, with an argument of its own, or with
      an option that takes the next token. */
  datatype Tail = NoTail | Attached(opt: nat, arg: string) | Separate(opt: nat, arg: string)

  datatype Item =
    | Operand(text: string)                             // text
    | LongUnknown(text: string)                         // --something undeclared
    | LongBare(opt: nat, eq: bool)                      // --name, --name=
    | LongAttached(opt: nat, arg: string)               // --name=arg
    | LongSeparate(opt: nat, eq: bool, arg: string)     // --name arg, --name= arg
    | Bundle(letters: string, tail: Tail)               // -abc, -abcxarg, -abcx arg

  // Rendering.

  function LongToken(specs: seq<Spec>, i: nat, eq: bool): string
    requires i < |specs|
  {
    "--" + specs[i].long + if eq then "=" else ""
  }

  function BundleToken(specs: seq<Spec>, letters: string, tail: Tail): string
    requires !tail.NoTail? ==> tail.opt < |specs|
  {
    "-" + letters +
    match tail
    case NoTail => ""
    case Attached(i, arg) => [specs[i].short] + arg
    case Separate(i, _) => [specs[i].short]
  }

  function Render(specs: seq<Spec>, item: Item): seq<string>
    requires WellFormed(specs, item)
  {
    match item
    case Operand(text) => [text]
    case LongUnknown(text) => [text]
    case LongBare(i, eq) => [LongToken(specs, i, eq)]
    case LongAttached(i, arg) => [LongToken(specs, i, true) + arg]
    case LongSeparate(i, eq, arg) => [LongToken(specs, i, eq), arg]
    case Bundle(letters, tail) =>
      [BundleToken(specs, letters, tail)] + if tail.Separate? then [tail.arg] else []
  }

  function RenderAll(specs: seq<Spec>, items: seq<Item>): seq<string>
    requires forall k :: 0 <= k < |items| ==> WellFormed(specs, items[k])
  {
    if items == [] then [] else Render(specs, items[0]) + RenderAll(specs, items[1..])
  }

  // Which items there are.

  /** The option can be addressed by its long name; a bare `--` would be the terminator. */
  predicate Named(specs: seq<Spec>, i: nat, eq: bool) {
    i < |specs| && ActiveLong(specs, specs[i].long) == Some(i) && '=' !in specs[i].long && (eq || specs[i].long != "")
  }

  predicate Lettered(specs: seq<Spec>, i: nat) {
    i < |specs| && ActiveShort(specs, specs[i].short) == Some(i)
  }

  /** A letter that takes no argument: an undeclared one or a switch. */
  predicate PlainLetter(specs: seq<Spec>, c: char) {
    var i := ActiveShort(specs, c);
    i.Some? ==> specs[i.value].kind.Switch?
  }

  predicate Undeclared(specs: seq<Spec>, text: string) {
    IsLong(text) && text != "--" &&
    var i := ActiveLong(specs, LongName(text));
    i.Some? ==> specs[i.value].kind.Switch? && LongArgument(text) != ""
  }

  predicate WellFormed(specs: seq<Spec>, item: Item) {
    match item
    case Operand(text) => !IsLong(text) && !IsShort(text)
    case LongUnknown(text) => Undeclared(specs, text)
    case LongBare(i, eq) => Named(specs, i, eq) && !specs[i].kind.Value?
    case LongAttached(i, arg) => Named(specs, i, true) && !specs[i].kind.Switch? && arg != ""
    case LongSeparate(i, eq, arg) => Named(specs, i, eq) && specs[i].kind.Value? && arg != ""
    case Bundle(letters, tail) =>
      && (forall k :: 0 <= k < |letters| ==> PlainLetter(specs, letters[k]))
      && (match tail
          case NoTail => true
          case Attached(i, arg) => Lettered(specs, i) && !specs[i].kind.Switch? && (specs[i].kind.Value? ==> arg != "")
          case Separate(i, arg) => Lettered(specs, i) && specs[i].kind.Value? && arg != "")
      && IsShort(BundleToken(specs, letters, tail))
  }

  /** With no name declared twice, as `add` enforces, an option can be set by name exactly if
      it is active and its long name is non-empty and free of `=`, and by letter if it has one. */
  lemma DeclaredAreAddressable(specs: seq<Spec>, i: nat)
    requires DistinctNames(specs) && i < |specs|
    ensures Named(specs, i, false) <==> !specs[i].attribute.Inactive? && specs[i].long != "" && '=' !in specs[i].long
    ensures specs[i].short != '\0' ==> (Lettered(specs, i) <==> !specs[i].attribute.Inactive?)
  {
    FoundFirst(specs, i, 0);
  }

  // Meaning.

  /** The settings of option `i` in a run of letters, one for each occurrence of its name. */
  function LetterValues(specs: seq<Spec>, letters: string, i: nat): seq<Setting> {
    if letters == "" then []
    else (if ActiveShort(specs, letters[0]) == Some(i) then [On] else []) + LetterValues(specs, letters[1..], i)
  }

  /** An argument as the option stores it: an implicit option has a default for none. */
  function Stored(spec: Spec, arg: string): Setting {
    if spec.kind.Switch? then On
    else if spec.kind.Implicit? && arg == "" then Text(spec.kind.default)
    else Text(arg)
  }

  /** The settings an item gives to option `i`, in order. */
  function ValuesOf(specs: seq<Spec>, item: Item, i: nat): seq<Setting>
    requires i < |specs|
  {
    match item
    case Operand(_) => []
    case LongUnknown(_) => []
    case LongBare(k, _) => if k == i then [Stored(specs[i], "")] else []
    case LongAttached(k, arg) => if k == i then [Text(arg)] else []
    case LongSeparate(k, _, arg) => if k == i then [Text(arg)] else []
    case Bundle(letters, tail) =>
      LetterValues(specs, letters, i) +
      if !tail.NoTail? && tail.opt == i then [Stored(specs[i], tail.arg)] else []
  }

  function OperandsOf(item: Item): seq<string> {
    if item.Operand? then [item.text] else []
  }

  predicate HasUndeclared(specs: seq<Spec>, letters: string) {
    letters != "" && (ActiveShort(specs, letters[0]).None? || HasUndeclared(specs, letters[1..]))
  }

  /** The tokens reported as unknown: a short token as a whole if any letter is undeclared. */
  function UnknownOf(specs: seq<Spec>, item: Item): seq<string>
    requires WellFormed(specs, item)
  {
    match item
    case LongUnknown(text) => [text]
    case Bundle(letters, tail) =>
      if HasUndeclared(specs, letters) then [BundleToken(specs, letters, tail)] else []
    case _ => []
  }

  /** The meaning of one item: what it appends to each list. */
  function Meaning(specs: seq<Spec>, item: Item, st: State): (r: State)
    requires WellFormed(specs, item) && |st.values| == |specs|
    ensures |r.values| == |specs|
  {
    State(seq(|specs|, i requires 0 <= i < |specs| => st.values[i] + ValuesOf(specs, item, i)),
          st.operands + OperandsOf(item), st.unknown + UnknownOf(specs, item))
  }

  function MeaningAll(specs: seq<Spec>, items: seq<Item>, st: State): (r: State)
    requires |st.values| == |specs| && forall k :: 0 <= k < |items| ==> WellFormed(specs, items[k])
    ensures |r.values| == |specs|
  {
    if items == [] then st else MeaningAll(specs, items[1..], Meaning(specs, items[0], st))
  }

  // Parsing what was rendered.

  lemma LongTokenParts(specs: seq<Spec>, i: nat, eq: bool, arg: string)
    requires Named(specs, i, eq) && (eq || arg == "")
    ensures var token := LongToken(specs, i, eq) + arg;
            IsLong(token) && token != "--" && LongName(token) == specs[i].long && LongArgument(token) == arg
  {
    var token, name := LongToken(specs, i, eq) + arg, specs[i].long;
    assert token[..2] == "--";
    assert token[2..] == name + if eq then "=" + arg else "";
    assert token[2..][..|name|] == name;
    IndexOfFirst(token[2..], '=', |name|);
    if eq { assert token[2..][|name| + 1..] == arg; }
  }

  function AddLetters(specs: seq<Spec>, letters: string, st: State): (r: State)
    requires |st.values| == |specs|
    ensures |r.values| == |specs|
  {
    st.(values := seq(|specs|, i requires 0 <= i < |specs| => st.values[i] + LetterValues(specs, letters, i)))
  }

  lemma AddNoLetters(specs: seq<Spec>, st: State)
    requires |st.values| == |specs|
    ensures AddLetters(specs, "", st) == st
  {
    var r := AddLetters(specs, "", st);
    forall i | 0 <= i < |specs| ensures r.values[i] == st.values[i] {
    }
    assert r.values == st.values;
  }

  /** The first letter, recorded if it is declared. */
  function AddLetter(specs: seq<Spec>, c: char, st: State): (r: State)
    requires |st.values| == |specs|
    ensures |r.values| == |specs|
  {
    var found := ActiveShort(specs, c);
    if found.Some? then AddValue(st, found.value, On) else st
  }

  lemma LetterStepAt(specs: seq<Spec>, letters: string, st: State, i: nat)
    requires |st.values| == |specs| && letters != "" && i < |specs|
    ensures AddLetters(specs, letters, st).values[i] ==
            AddLetters(specs, letters[1..], AddLetter(specs, letters[0], st)).values[i]
  {
    hide ActiveShort;
    var found, tail := ActiveShort(specs, letters[0]), LetterValues(specs, letters[1..], i);
    if found == Some(i) {
      assert st.values[i] + ([On] + tail) == (st.values[i] + [On]) + tail;
    } else {
      assert [] + tail == tail;
    }
  }

  lemma AddLettersStep(specs: seq<Spec>, letters: string, st: State)
    requires |st.values| == |specs| && letters != ""
    ensures AddLetters(specs, letters, st) == AddLetters(specs, letters[1..], AddLetter(specs, letters[0], st))
  {
    hide ActiveShort, LetterValues;
    var r, r' := AddLetters(specs, letters, st), AddLetters(specs, letters[1..], AddLetter(specs, letters[0], st));
    assert r.operands == r'.operands && r.unknown == r'.unknown && |r.values| == |r'.values|;
    hide AddLetters, AddLetter;
    forall i | 0 <= i < |specs| ensures r.values[i] == r'.values[i] {
      LetterStepAt(specs, letters, st, i);
    }
    SameState(r, r');
  }

  /** Running over plain letters records each switch and remembers undeclared ones. */
  lemma {:induction false} PlainLetters(specs: seq<Spec>, token: string, m: nat, e: nat, rest: seq<string>,
                                        st: State, unknown: bool)
    requires |specs| == |st.values| && 1 <= m <= e <= |token|
    requires forall k :: m <= k < e ==> PlainLetter(specs, token[k])
    ensures BundleStep(specs, token, m, rest, st, unknown)
            == BundleStep(specs, token, e, rest, AddLetters(specs, token[m..e], st),
                          unknown || HasUndeclared(specs, token[m..e]))
    decreases e - m
  {
    hide ActiveShort;
    var letters := token[m..e];
    if m == e {
      AddNoLetters(specs, st);
    } else {
      assert letters[0] == token[m] && letters[1..] == token[m + 1..e];
      assert PlainLetter(specs, token[m]);
      var found, st1 := ActiveShort(specs, token[m]), AddLetter(specs, token[m], st);
      PlainLetters(specs, token, m + 1, e, rest, st1, unknown || found.None?);
      AddLettersStep(specs, letters, st);
    }
  }

  /** Meanings are equal if they agree list by list. */
  lemma SameState(st: State, st': State)
    requires |st.values| == |st'.values| && st.operands == st'.operands && st.unknown == st'.unknown
    requires forall i :: 0 <= i < |st.values| ==> st.values[i] == st'.values[i]
    ensures st == st'
  {
    assert st.values == st'.values;
  }

  /** A well-formed item is parsed in one step that takes exactly its own tokens. */
  lemma LongItemStep(specs: seq<Spec>, item: Item, rest: seq<string>, st: State)
    requires |specs| == |st.values| && WellFormed(specs, item)
    requires item.LongBare? || item.LongAttached? || item.LongSeparate?
    ensures var tokens := Render(specs, item);
            tokens[0] != "--" && TokenStep(specs, tokens[0], tokens[1..] + rest, st)
                                 == Step(Meaning(specs, item, st), |tokens| - 1, None)
  {
    var i, tokens := item.opt, Render(specs, item);
    var eq := item.LongAttached? || item.eq;
    LongTokenParts(specs, i, eq, if item.LongAttached? then item.arg else "");
    if !item.LongAttached? { assert LongToken(specs, i, eq) + "" == LongToken(specs, i, eq); }
    var arg := if item.LongBare? then "" else item.arg;
    hide ActiveLong;
    assert LongStep(specs, tokens[0], tokens[1..] + rest, st) == Record(specs, st, i, arg, |tokens| - 1);
    SameState(AddValue(st, i, Stored(specs[i], arg)), Meaning(specs, item, st));
  }

  lemma BundleTokenParts(specs: seq<Spec>, letters: string, tail: Tail)
    requires !tail.NoTail? ==> tail.opt < |specs|
    ensures var token, e := BundleToken(specs, letters, tail), 1 + |letters|;
            && e <= |token| && token[1..e] == letters
            && (forall k :: 1 <= k < e ==> token[k] == letters[k - 1])
            && (tail.NoTail? <==> e == |token|)
            && (!tail.NoTail? ==>
                 token[e] == specs[tail.opt].short && token[e + 1..] == if tail.Attached? then tail.arg else "")
  {
    var token, e := BundleToken(specs, letters, tail), 1 + |letters|;
    assert token[1..e] == letters;
  }

  /** What happens at the end of the plain letters. */
  lemma BundleTailStep(specs: seq<Spec>, item: Item, rest: seq<string>, st: State, unknown: bool)
    requires |specs| == |st.values| && WellFormed(specs, item) && item.Bundle?
    ensures var tokens, tail, e := Render(specs, item), item.tail, 1 + |item.letters|;
            var st' := if tail.NoTail? then st else AddValue(st, tail.opt, Stored(specs[tail.opt], tail.arg));
            e <= |tokens[0]| &&
            BundleStep(specs, tokens[0], e, tokens[1..] + rest, st, unknown)
            == Step(if unknown then AddUnknown(st', tokens[0]) else st', |tokens| - 1, None)
  {
    hide BundleToken, PlainLetter, ActiveShort;
    BundleTokenParts(specs, item.letters, item.tail);
  }

  lemma BundleItemStep(specs: seq<Spec>, item: Item, rest: seq<string>, st: State)
    requires |specs| == |st.values| && WellFormed(specs, item) && item.Bundle?
    ensures var tokens := Render(specs, item);
            tokens[0] != "--" && TokenStep(specs, tokens[0], tokens[1..] + rest, st)
                                 == Step(Meaning(specs, item, st), |tokens| - 1, None)
  {
    var tokens, letters := Render(specs, item), item.letters;
    BundleTokenParts(specs, letters, item.tail);
    hide BundleToken, LetterValues, HasUndeclared, AddLetters, Meaning, BundleStep, PlainLetter;
    PlainLetters(specs, tokens[0], 1, 1 + |letters|, tokens[1..] + rest, st, false);
    BundleTailStep(specs, item, rest, AddLetters(specs, letters, st), HasUndeclared(specs, letters));
    BundleMeaning(specs, item, st);
  }

  /** The letters, then the option with an argument if there is one. */
  function BundleEffect(specs: seq<Spec>, item: Item, st: State): (r: State)
    requires |specs| == |st.values| && WellFormed(specs, item) && item.Bundle?
    ensures |r.values| == |specs|
  {
    var tail, st' := item.tail, AddLetters(specs, item.letters, st);
    if tail.NoTail? then st' else AddValue(st', tail.opt, Stored(specs[tail.opt], tail.arg))
  }

  lemma BundleValues(specs: seq<Spec>, item: Item, st: State, i: nat)
    requires |specs| == |st.values| && WellFormed(specs, item) && item.Bundle? && i < |specs|
    ensures BundleEffect(specs, item, st).values[i] == st.values[i] + ValuesOf(specs, item, i)
  {
    hide LetterValues, Stored, ActiveShort, PlainLetter;
    var tail, letters := item.tail, LetterValues(specs, item.letters, i);
    if !tail.NoTail? && tail.opt == i {
      var last := [Stored(specs[i], tail.arg)];
      assert (st.values[i] + letters) + last == st.values[i] + (letters + last);
    } else {
      assert letters + [] == letters;
    }
  }

  lemma BundleMeaning(specs: seq<Spec>, item: Item, st: State)
    requires |specs| == |st.values| && WellFormed(specs, item) && item.Bundle?
    ensures var st' := BundleEffect(specs, item, st);
            Meaning(specs, item, st) ==
            if HasUndeclared(specs, item.letters) then AddUnknown(st', Render(specs, item)[0]) else st'
  {
    hide LetterValues, HasUndeclared, ValuesOf, PlainLetter, BundleToken, Stored;
    var st' := BundleEffect(specs, item, st);
    var r := if HasUndeclared(specs, item.letters) then AddUnknown(st', Render(specs, item)[0]) else st';
    assert st'.operands == st.operands && st'.unknown == st.unknown;
    hide BundleEffect;
    forall i | 0 <= i < |specs| ensures Meaning(specs, item, st).values[i] == r.values[i] {
      BundleValues(specs, item, st, i);
    }
    assert st.operands + [] == st.operands && st.unknown + [] == st.unknown;
    SameState(Meaning(specs, item, st), r);
  }

  lemma ItemStep(specs: seq<Spec>, item: Item, rest: seq<string>, st: State)
    requires |specs| == |st.values| && WellFormed(specs, item)
    ensures var tokens := Render(specs, item);
            tokens[0] != "--" && TokenStep(specs, tokens[0], tokens[1..] + rest, st)
                                 == Step(Meaning(specs, item, st), |tokens| - 1, None)
  {
    match item {
      case Operand(_) => SameState(st.(operands := st.operands + [item.text]), Meaning(specs, item, st));
      case LongUnknown(_) => SameState(AddUnknown(st, item.text), Meaning(specs, item, st));
      case Bundle(_, _) => BundleItemStep(specs, item, rest, st);
      case _ => LongItemStep(specs, item, rest, st);
    }
  }

  lemma ItemParses(specs: seq<Spec>, item: Item, rest: seq<string>, st: State)
    requires |specs| == |st.values| && WellFormed(specs, item)
    ensures ParseTokens(specs, Render(specs, item) + rest, st) == ParseTokens(specs, rest, Meaning(specs, item, st))
  {
    hide TokenStep, Meaning, WellFormed;
    var tokens := Render(specs, item);
    ItemStep(specs, item, rest, st);
    var args := tokens + rest;
    assert args[1..] == tokens[1..] + rest && args[|tokens|..] == rest;
  }

  /** Rendered items parse to their meaning, whatever follows them. */
  lemma {:induction false} ItemsParse(specs: seq<Spec>, items: seq<Item>, rest: seq<string>, st: State)
    requires |specs| == |st.values| && forall k :: 0 <= k < |items| ==> WellFormed(specs, items[k])
    ensures ParseTokens(specs, RenderAll(specs, items) + rest, st)
            == ParseTokens(specs, rest, MeaningAll(specs, items, st))
  {
    hide ParseTokens, WellFormed, Render, Meaning;
    if items == [] {
      assert RenderAll(specs, items) + rest == rest;
    } else {
      var more := RenderAll(specs, items[1..]);
      assert RenderAll(specs, items) + rest == Render(specs, items[0]) + (more + rest);
      ItemParses(specs, items[0], more + rest, st);
      ItemsParse(specs, items[1..], rest, Meaning(specs, items[0], st));
    }
  }

  // What a list of items means, option by option.

  function AllValuesOf(specs: seq<Spec>, items: seq<Item>, i: nat): seq<Setting>
    requires i < |specs|
  {
    if items == [] then [] else ValuesOf(specs, items[0], i) + AllValuesOf(specs, items[1..], i)
  }

  function AllOperandsOf(items: seq<Item>): seq<string> {
    if items == [] then [] else OperandsOf(items[0]) + AllOperandsOf(items[1..])
  }

  function AllUnknownOf(specs: seq<Spec>, items: seq<Item>): seq<string>
    requires forall k :: 0 <= k < |items| ==> WellFormed(specs, items[k])
  {
    if items == [] then [] else UnknownOf(specs, items[0]) + AllUnknownOf(specs, items[1..])
  }

  lemma {:induction false} MeaningByOption(specs: seq<Spec>, items: seq<Item>, st: State)
    requires |specs| == |st.values| && forall k :: 0 <= k < |items| ==> WellFormed(specs, items[k])
    ensures var r := MeaningAll(specs, items, st);
            && (forall i :: 0 <= i < |specs| ==> r.values[i] == st.values[i] + AllValuesOf(specs, items, i))
            && r.operands == st.operands + AllOperandsOf(items)
            && r.unknown == st.unknown + AllUnknownOf(specs, items)
  {
    hide WellFormed, ValuesOf, UnknownOf;
    if items != [] {
      MeaningByOption(specs, items[1..], Meaning(specs, items[0], st));
    }
  }

  /** The round trip. Rendering items, then `--`, then any tokens at all, parses without an
      argument missing; every option gets exactly the items' settings in order, and the
      operands are those of the items followed by the tokens after `--` untouched. */
  lemma RoundTrip(specs: seq<Spec>, items: seq<Item>, children: seq<string>, st: State)
    requires |specs| == |st.values| && forall k :: 0 <= k < |items| ==> WellFormed(specs, items[k])
    ensures var r := ParseTokens(specs, RenderAll(specs, items) + (["--"] + children), st);
            && r.error == None
            && (forall i :: 0 <= i < |specs| ==> r.state.values[i] == st.values[i] + AllValuesOf(specs, items, i))
            && r.state.operands == st.operands + AllOperandsOf(items) + children
            && r.state.unknown == st.unknown + AllUnknownOf(specs, items)
  {
    hide WellFormed, TokenStep, RenderAll, MeaningAll;
    ItemsParse(specs, items, ["--"] + children, st);
    MeaningByOption(specs, items, st);
    assert (["--"] + children)[1..] == children;
  }

  /** The round trip through the whole of `parse`: it succeeds exactly if the items, or earlier
      settings, set every required option, and otherwise names the first that they do not. */
  lemma ParseRoundTrip(specs: seq<Spec>, items: seq<Item>, children: seq<string>, st: State)
    requires |specs| == |st.values| && forall k :: 0 <= k < |items| ==> WellFormed(specs, items[k])
    ensures var r := Parse(specs, RenderAll(specs, items) + (["--"] + children), st);
            && (forall i :: 0 <= i < |specs| ==> r.state.values[i] == st.values[i] + AllValuesOf(specs, items, i))
            && r.state.operands == st.operands + AllOperandsOf(items) + children
            && r.state.unknown == st.unknown + AllUnknownOf(specs, items)
            && (r.error == None <==> forall i: nat :: !Lacking(specs, r.state.values, i))
            && (r.error != None ==> exists i: nat ::
                  r.error == Some(MissingOption(i)) && Lacking(specs, r.state.values, i) &&
                  forall j: nat :: j < i ==> !Lacking(specs, r.state.values, j))
  {
    hide Parse, ParseTokens, Lacking, WellFormed, RenderAll, AllValuesOf;
    RoundTrip(specs, items, children, st);
    ParseMeans(specs, RenderAll(specs, items) + (["--"] + children), st);
  }

  /** Items that only set declared options leave no operand and nothing unknown. */
  predicate OnlySettings(specs: seq<Spec>, item: Item) {
    !item.Operand? && !item.LongUnknown? && (item.Bundle? ==> !HasUndeclared(specs, item.letters))
  }

  lemma {:induction false} SettingsAreClean(specs: seq<Spec>, items: seq<Item>)
    requires forall k :: 0 <= k < |items| ==> WellFormed(specs, items[k]) && OnlySettings(specs, items[k])
    ensures AllOperandsOf(items) == [] && AllUnknownOf(specs, items) == []
  {
    hide WellFormed;
    if items != [] {
      assert OnlySettings(specs, items[0]);
      SettingsAreClean(specs, items[1..]);
    }
  }
}
