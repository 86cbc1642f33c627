/** `parse_lscpu_output` as far as it fills the table from CPUs to NUMA nodes. */
module Lscpu {
  import opened Wrappers
  import opened Strings
  import opened CpuRange

  // Cutting a line into key and value.

  function SkipSpaceBack(s: string): (r: string) {
    if s != "" && IsSpace(s[|s| - 1]) then SkipSpaceBack(s[..|s| - 1]) else s
  }

  /** Without the blanks on either side. */
  function Trim(s: string): string {
    SkipSpaceBack(SkipSpace(s))
  }

  datatype Pair = Pair(key: string, value: string)

  /** The trimmed sides of the first colon; a line with an empty side is skipped. */
  function KeyValue(line: string): Option<Pair> {
    var k := IndexOf(line, ':');
    if k == 0 || k + 1 >= |line| then None else Some(Pair(Trim(line[..k]), Trim(line[k + 1..])))
  }

  predicate IsNumber(s: string) {
    s != "" && DigitRun(s) == |s|
  }

  const KNOWN := ["Model name", "CPU(s)", "Socket(s)", "Core(s) per socket", "Thread(s) per core"]
  const NODES := "NUMA node(s)"
  const HEAD := "NUMA node"
  const TAIL := " CPU(s)"

  /** The digits of a key "NUMA node<digits> CPU(s)". */
  function NodeDigits(key: string): (r: Option<string>)
    ensures r.Some? ==> IsNumber(r.value) && key == HEAD + r.value + TAIL
  {
    if |key| <= |HEAD| + |TAIL| || key[..|HEAD|] != HEAD || key[|key| - |TAIL|..] != TAIL then None
    else
      var digits := key[|HEAD|..|key| - |TAIL|];
      if IsNumber(digits) then assert key == HEAD + digits + TAIL; Some(digits) else None
  }

  /** One line: a known key is only reported, a node's line fills the table; a number outside
      `int` throws. */
  function ReadLine(m: CpuMap, line: string): Expansion {
    match KeyValue(line)
    case None => Expansion(m, true)
    case Some(Pair(key, value)) =>
      if key in KNOWN || (key == NODES && IsNumber(value)) then
        Expansion(m, IsNumber(value) ==> Stoi(value).Some?)
      else
        match NodeDigits(key)
        case None => Expansion(m, true)
        case Some(digits) =>
          match Stoi(digits)
          case None => Expansion(m, false)
          case Some(node) => ExpandTokens(m, node, Split(value, ','))
  }

  function ReadLines(m: CpuMap, lines: seq<string>): Expansion
    decreases |lines|
  {
    if lines == [] then Expansion(m, true)
    else
      var r := ReadLine(m, lines[0]);
      if r.ok then ReadLines(r.cpus, lines[1..]) else r
  }

  method ReadOneLine(table: CpuTable, line: string) returns (ok: bool)
    modifies table
    ensures Expansion(table.cpuToNode, ok) == ReadLine(old(table.cpuToNode), line)
  {
    hide Stoi, Trim, ExpandTokens;
    if line == "" { return true; }
    var splitIdx := IndexOf(line, ':');
    if splitIdx == |line| { return true; }
    var key, value := line[..splitIdx], line[splitIdx + 1..];
    if key == "" || value == "" { return true; }
    key, value := Trim(key), Trim(value);
    if key in KNOWN || (key == NODES && IsNumber(value)) {
      if IsNumber(value) && Stoi(value) == None { return false; }
      return true;
    }
    var digits := NodeDigits(key);
    if digits == None { return true; }
    var node := Stoi(digits.value);
    if node == None { return false; }
    ok := table.ExpandCpuRange(node.value, value);
  }

  /** `parse_lscpu_output`; `ok` is false where the original lets an exception escape. */
  method ParseLscpuOutput(table: CpuTable, lines: seq<string>) returns (ok: bool)
    modifies table
    ensures Expansion(table.cpuToNode, ok) == ReadLines(old(table.cpuToNode), lines)
  {
    hide ReadLine;
    for k := 0 to |lines|
      invariant ReadLines(old(table.cpuToNode), lines) == ReadLines(table.cpuToNode, lines[k..])
    {
      assert lines[k..][1..] == lines[k + 1..];
      ok := ReadOneLine(table, lines[k]);
      if !ok { return; }
    }
    ok := true;
  }

  // What any output does to the table.

  /** What one token or one line does: the CPUs it moves, and whether it succeeds. */
  datatype Moves = Moves(cpus: set<int>, ok: bool)
  datatype Effect = Effect(node: int, moves: Moves)

  function TokenMoves(token: string): Moves {
    var dash := IndexOf(token, '-');
    if token == "" then Moves({}, true)
    else if dash == |token| then
      match Stoi(token)
      case Some(cpu) => Moves({cpu}, true)
      case None => Moves({}, false)
    else
      match (Stoi(token[..dash]), Stoi(token[dash + 1..]))
      case (Some(start), Some(end)) =>
        if start <= end == INT_MAX then Moves({}, false) else Moves(Interval(start, end), true)
      case _ => Moves({}, false)
  }

  /** Tokens up to the first that fails. */
  function TokensMove(tokens: seq<string>): Moves {
    if tokens == [] then Moves({}, true)
    else
      var first := TokenMoves(tokens[0]);
      if !first.ok then first
      else var rest := TokensMove(tokens[1..]); Moves(first.cpus + rest.cpus, rest.ok)
  }

  function LineEffect(line: string): Effect {
    match KeyValue(line)
    case None => Effect(0, Moves({}, true))
    case Some(Pair(key, value)) =>
      if key in KNOWN || (key == NODES && IsNumber(value)) then
        Effect(0, Moves({}, IsNumber(value) ==> Stoi(value).Some?))
      else
        match NodeDigits(key)
        case None => Effect(0, Moves({}, true))
        case Some(digits) =>
          match Stoi(digits)
          case None => Effect(0, Moves({}, false))
          case Some(node) => Effect(node, TokensMove(Split(value, ',')))
  }

  function Moved(m: CpuMap, node: int, moves: Moves): Expansion {
    Expansion(Assign(m, moves.cpus, node), moves.ok)
  }

  lemma TokenIsMove(m: CpuMap, node: int, token: string)
    ensures ExpandToken(m, node, token) == Moved(m, node, TokenMoves(token))
  {
    hide Stoi, Assign, AssignRange;
    AssignNothing(m, node);
    var dash := IndexOf(token, '-');
    if dash < |token| {
      var start, end := Stoi(token[..dash]), Stoi(token[dash + 1..]);
      if start.Some? && end.Some? { AssignRangeIsAssign(m, start.value, end.value, node); }
    } else if token != "" && Stoi(token).Some? {
      AssignOne(m, Stoi(token).value, node);
    }
  }

  lemma AssignOne(m: CpuMap, cpu: int, node: int)
    ensures Assign(m, {cpu}, node) == m[cpu := node]
  {
  }

  lemma {:induction false} TokensAreMoves(m: CpuMap, node: int, tokens: seq<string>)
    ensures ExpandTokens(m, node, tokens) == Moved(m, node, TokensMove(tokens))
    decreases |tokens|
  {
    hide ExpandToken, TokenMoves, Assign;
    if tokens == [] {
      AssignNothing(m, node);
    } else {
      var first := TokenMoves(tokens[0]);
      TokenIsMove(m, node, tokens[0]);
      if first.ok {
        TokensAreMoves(Assign(m, first.cpus, node), node, tokens[1..]);
        AssignTwice(m, first.cpus, TokensMove(tokens[1..]).cpus, node);
      }
    }
  }

  /** A line moves certain CPUs to one node, whatever the table is. */
  lemma LineIsEffect(m: CpuMap, line: string)
    ensures ReadLine(m, line) == Moved(m, LineEffect(line).node, LineEffect(line).moves)
  {
    hide Stoi, Trim, ExpandTokens, TokensMove, Assign, IsNumber, NodeDigits;
    AssignNothing(m, 0);
    var pair := KeyValue(line);
    if pair.Some? {
      var digits := NodeDigits(pair.value.key);
      if digits.Some? && Stoi(digits.value).Some? {
        TokensAreMoves(m, Stoi(digits.value).value, Split(pair.value.value, ','));
      }
    }
  }

  predicate AllRead(lines: seq<string>) {
    forall i :: 0 <= i < |lines| ==> LineEffect(lines[i]).moves.ok
  }

  /** The lines up to the first that fails. */
  function Reached(lines: seq<string>): seq<string> {
    if lines == [] || AllRead(lines[..|lines| - 1]) then lines else Reached(lines[..|lines| - 1])
  }

  function AssignAll(m: CpuMap, lines: seq<string>): CpuMap {
    if lines == [] then m
    else
      var e := LineEffect(lines[|lines| - 1]);
      Assign(AssignAll(m, lines[..|lines| - 1]), e.moves.cpus, e.node)
  }

  lemma AllReadOneMore(lines: seq<string>, line: string)
    ensures AllRead(lines + [line]) <==> AllRead(lines) && LineEffect(line).moves.ok
  {
    hide LineEffect;
    var all := lines + [line];
    assert all[|lines|] == line && forall i :: 0 <= i < |lines| ==> all[i] == lines[i];
  }

  /** Any lines at all: reading them succeeds exactly if each does, and applies the effects of
      those up to the first that does not, one after the other. */
  lemma {:induction false} AnyLinesRead(m: CpuMap, lines: seq<string>)
    ensures ReadLines(m, lines) == Expansion(AssignAll(m, Reached(lines)), AllRead(lines))
  {
    hide ReadLine, ReadLines, LineEffect, Assign, AllRead;
    if lines == [] {
      NothingRead(m);
      NoLineFails();
    } else {
      var n := |lines| - 1;
      var past, line := lines[..n], lines[n];
      assert lines == past + [line];
      AnyLinesRead(m, past);
      ReadsAppend(m, past, line);
      AllReadOneMore(past, line);
      if AllRead(past) {
        ReachedAll(past);
        LineIsEffect(AssignAll(m, past), line);
      }
    }
  }

  lemma NoLineFails()
    ensures AllRead([])
  {
  }

  lemma {:induction false} ReachedAll(lines: seq<string>)
    requires AllRead(lines)
    ensures Reached(lines) == lines
  {
  }

  /** Some line moves the CPU to the node. */
  ghost predicate Sends(lines: seq<string>, node: int, cpu: int) {
    exists line :: line in lines && LineEffect(line).node == node && cpu in LineEffect(line).moves.cpus
  }

  /** No CPU is sent to two nodes. */
  ghost predicate EffectsDisjoint(lines: seq<string>) {
    forall node, node', cpu :: Sends(lines, node, cpu) && Sends(lines, node', cpu) ==> node == node'
  }

  lemma SendsOneMore(lines: seq<string>, line: string, node: int, cpu: int)
    ensures Sends(lines + [line], node, cpu) <==>
            Sends(lines, node, cpu) || (LineEffect(line).node == node && cpu in LineEffect(line).moves.cpus)
  {
    hide LineEffect;
    if other :| other in lines && LineEffect(other).node == node && cpu in LineEffect(other).moves.cpus {
      assert other in lines + [line];
    }
    assert line in lines + [line];
  }

  lemma StillDisjoint(past: seq<string>, line: string)
    requires EffectsDisjoint(past + [line])
    ensures EffectsDisjoint(past)
  {
    hide Sends;
    forall node, node', cpu | Sends(past, node, cpu) && Sends(past, node', cpu) ensures node == node' {
      SendsOneMore(past, line, node, cpu);
      SendsOneMore(past, line, node', cpu);
    }
  }

  /** Where the CPU is after these lines. */
  ghost predicate EndsUp(m: CpuMap, lines: seq<string>, cpu: int, r: CpuMap) {
    && (forall node :: Sends(lines, node, cpu) ==> cpu in r && r[cpu] == node)
    && ((forall node :: !Sends(lines, node, cpu)) ==> (cpu in r <==> cpu in m) && (cpu in m ==> r[cpu] == m[cpu]))
  }

  lemma EndsUpStep(m: CpuMap, past: seq<string>, line: string, cpu: int, r: CpuMap)
    requires EffectsDisjoint(past + [line]) && EndsUp(m, past, cpu, r)
    ensures EndsUp(m, past + [line], cpu, Assign(r, LineEffect(line).moves.cpus, LineEffect(line).node))
  {
    hide LineEffect, Sends;
    var e, lines := LineEffect(line), past + [line];
    var r' := Assign(r, e.moves.cpus, e.node);
    SendsOneMore(past, line, e.node, cpu);
    forall node ensures Sends(lines, node, cpu) <==> Sends(past, node, cpu) || (e.node == node && cpu in e.moves.cpus) {
      SendsOneMore(past, line, node, cpu);
    }
    if cpu in e.moves.cpus {
      assert r'[cpu] == e.node && Sends(lines, e.node, cpu);
    } else {
      assert cpu in r' <==> cpu in r;
    }
  }

  /** A CPU ends up on the node it is sent to, and otherwise stays where it was. */
  lemma {:induction false} AssignedAll(m: CpuMap, lines: seq<string>, cpu: int)
    requires EffectsDisjoint(lines)
    ensures EndsUp(m, lines, cpu, AssignAll(m, lines))
  {
    hide LineEffect, Assign;
    if lines != [] {
      var n := |lines| - 1;
      var past, line := lines[..n], lines[n];
      assert lines == past + [line];
      hide Sends, EndsUp;
      StillDisjoint(past, line);
      AssignedAll(m, past, cpu);
      EndsUpStep(m, past, line, cpu, AssignAll(m, past));
    }
  }

  lemma SameEnd(m: CpuMap, lines: seq<string>, lines': seq<string>, cpu: int, r: CpuMap, r': CpuMap)
    requires EndsUp(m, lines, cpu, r) && EndsUp(m, lines', cpu, r')
    requires forall node :: Sends(lines, node, cpu) <==> Sends(lines', node, cpu)
    ensures (cpu in r <==> cpu in r') && (cpu in r ==> r[cpu] == r'[cpu])
  {
    hide Sends;
    if node :| Sends(lines, node, cpu) {
      assert Sends(lines', node, cpu);
    }
  }

  lemma SameSendsDisjoint(lines: seq<string>, lines': seq<string>)
    requires EffectsDisjoint(lines) && forall node, cpu :: Sends(lines, node, cpu) <==> Sends(lines', node, cpu)
    ensures EffectsDisjoint(lines')
  {
    hide Sends;
  }

  /** For any two outputs that can be read, send the same CPUs to the same nodes, and none of them
      to two, the table is the same: neither the order of lines matters nor their form nor what
      else is printed. */
  lemma OutputOrderDoesNotMatter(m: CpuMap, lines: seq<string>, lines': seq<string>)
    requires EffectsDisjoint(lines)
    requires forall node, cpu :: Sends(lines, node, cpu) <==> Sends(lines', node, cpu)
    ensures var r, r' := ReadLines(m, lines), ReadLines(m, lines');
            && (r.ok <==> AllRead(lines)) && (r'.ok <==> AllRead(lines'))
            && (r.ok && r'.ok ==> r == r')
  {
    AnyLinesRead(m, lines);
    AnyLinesRead(m, lines');
    if AllRead(lines) && AllRead(lines') {
      ReachedAll(lines);
      ReachedAll(lines');
      hide LineEffect, Sends, ReadLines, AssignAll, AllRead, Reached, EffectsDisjoint, EndsUp;
      var r, r' := AssignAll(m, lines), AssignAll(m, lines');
      SameSendsDisjoint(lines, lines');
      forall cpu ensures (cpu in r <==> cpu in r') && (cpu in r ==> r[cpu] == r'[cpu]) {
        AssignedAll(m, lines, cpu);
        AssignedAll(m, lines', cpu);
        SameEnd(m, lines, lines', cpu, r, r');
      }
      assert r == r';
    }
  }

  // What lscpu prints.

  /** A node with its CPUs, after some blanks; or any other text. */
  datatype Output = NodeLine(line: Line, blanks: string) | Other(text: string)

  ghost predicate Proper(o: Output) {
    o.NodeLine? ==>
      0 <= o.line.node <= INT_MAX && (forall c :: c in o.blanks ==> IsSpace(c)) &&
      forall i :: 0 <= i < |o.line.items| ==> InRange(o.line.items[i])
  }

  function Ranges(items: seq<Item>): string {
    if items == [] then "" else Join(PrintAll(items), ',')
  }

  function Shown(o: Output): string {
    match o
    case NodeLine(line, blanks) =>
      if line.node < 0 then "" else HEAD + Decimal(line.node) + TAIL + ":" + blanks + Ranges(line.items)
    case Other(text) => text
  }

  function ShownAll(os: seq<Output>): seq<string> {
    seq(|os|, i requires 0 <= i < |os| => Shown(os[i]))
  }

  function NodeLines(os: seq<Output>): seq<Line> {
    if os == [] then []
    else NodeLines(os[..|os| - 1]) + match os[|os| - 1] case NodeLine(line, _) => [line] case Other(_) => []
  }

  /** Text that starts and ends without a blank survives trimming, whatever blanks precede it. */
  lemma TrimBlanks(blanks: string, s: string)
    requires forall c :: c in blanks ==> IsSpace(c)
    requires s != "" ==> !IsSpace(s[0]) && !IsSpace(s[|s| - 1])
    ensures Trim(blanks + s) == s
  {
    SkipBlanks(blanks, s);
  }

  ghost predicate Bare(s: string) {
    s != "" && IsDigit(s[0]) && IsDigit(s[|s| - 1])
  }

  lemma PrintIsBare(item: Item)
    ensures Bare(Print(item))
  {
  }

  lemma {:induction false} JoinIsBare(parts: seq<string>, c: char)
    requires parts != [] && forall i :: 0 <= i < |parts| ==> Bare(parts[i])
    ensures Bare(Join(parts, c))
  {
    if |parts| > 1 {
      JoinIsBare(parts[1..], c);
    }
  }

  lemma RangesTrimmed(blanks: string, items: seq<Item>)
    requires forall c :: c in blanks ==> IsSpace(c)
    ensures Trim(blanks + Ranges(items)) == Ranges(items)
  {
    hide Print, Trim;
    if items != [] {
      forall i | 0 <= i < |items| ensures Bare(PrintAll(items)[i]) {
        PrintIsBare(items[i]);
      }
      JoinIsBare(PrintAll(items), ',');
    }
    hide Join;
    TrimBlanks(blanks, Ranges(items));
  }

  /** The empty list of a node without CPUs changes nothing, like the absent one. */
  lemma RangesExpand(m: CpuMap, node: int, items: seq<Item>)
    requires forall i :: 0 <= i < |items| ==> InRange(items[i])
    ensures ExpandTokens(m, node, Split(Ranges(items), ',')) == Expansion(Assign(m, AllDenoted(items), node), true)
  {
    if items == [] {
      OnlyPiece("", ',');
      assert [""][1..] == [];
      AssignNothing(m, node);
    } else {
      PrintedRangeExpands(m, node, items);
    }
  }

  lemma KeyDigits(digits: string)
    requires digits != "" && forall i :: 0 <= i < |digits| ==> IsDigit(digits[i])
    ensures NodeDigits(HEAD + digits + TAIL) == Some(digits)
  {
    AllDigits(digits);
    hide DigitRun;
    var key := HEAD + digits + TAIL;
    assert key[..|HEAD|] == HEAD && key[|key| - |TAIL|..] == TAIL && key[|HEAD|..|key| - |TAIL|] == digits;
  }

  lemma KeyIsOther(digits: string)
    requires digits != ""
    ensures var key := HEAD + digits + TAIL; key !in KNOWN && key != NODES
  {
    var key := HEAD + digits + TAIL;
    assert key[0] == 'N' && |key| > |NODES|;
    forall k | k in KNOWN ensures k[0] != 'N' {
    }
  }

  lemma NodeKey(n: nat)
    ensures var key := HEAD + Decimal(n) + TAIL;
            ':' !in key && Trim(key) == key && NodeDigits(key) == Some(Decimal(n)) && key !in KNOWN && key != NODES
  {
    var digits := Decimal(n);
    var key := HEAD + digits + TAIL;
    KeyDigits(digits);
    KeyIsOther(digits);
    hide Decimal, Trim, NodeDigits;
    assert key[0] == 'N' && key[|key| - 1] == ')';
    assert "" + key == key;
    TrimBlanks("", key);
  }

  lemma NodeLineParts(n: nat, value: string)
    ensures var line := HEAD + Decimal(n) + TAIL + ":" + value;
            KeyValue(line) == if value == "" then None else Some(Pair(HEAD + Decimal(n) + TAIL, Trim(value)))
  {
    var key := HEAD + Decimal(n) + TAIL;
    NodeKey(n);
    hide Trim, Decimal;
    var line := key + ":" + value;
    assert line[..|key|] == key && line[|key| + 1..] == value;
    IndexOfFirst(line, ':', |key|);
  }

  lemma ReadNodeLine(m: CpuMap, o: Output)
    requires o.NodeLine? && Proper(o)
    ensures ReadLine(m, Shown(o)) == Expansion(Assign(m, AllDenoted(o.line.items), o.line.node), true)
  {
    hide Decimal, Ranges, Trim, NodeDigits, Stoi, Split, ExpandTokens, Assign, AllDenoted, InRange;
    var n, items := o.line.node, o.line.items;
    var value := o.blanks + Ranges(items);
    assert Shown(o) == HEAD + Decimal(n) + TAIL + ":" + value;
    NodeKey(n);
    NodeLineParts(n, value);
    RangesTrimmed(o.blanks, items);
    RangesExpand(m, n, items);
    StoiOfDecimal(n);
    if value == "" {
      NoRanges(items);
      EmptyAssign(m, items, n);
    }
  }

  lemma NoRanges(items: seq<Item>)
    ensures Ranges(items) == "" <==> items == []
  {
    if items != [] {
      RangesTrimmed("", items);
      forall i | 0 <= i < |items| ensures Bare(PrintAll(items)[i]) {
        PrintIsBare(items[i]);
      }
      JoinIsBare(PrintAll(items), ',');
    }
  }

  lemma EmptyAssign(m: CpuMap, items: seq<Item>, node: int)
    requires items == []
    ensures Assign(m, AllDenoted(items), node) == m
  {
    AssignNothing(m, node);
  }

  lemma ReadsAppend(m: CpuMap, lines: seq<string>, line: string)
    ensures ReadLines(m, lines + [line]) ==
            var r := ReadLines(m, lines); if r.ok then ReadLine(r.cpus, line) else r
    decreases |lines|
  {
    hide ReadLine;
    if lines == [] {
      assert lines + [line] == [line] && [line][1..] == [];
    } else {
      assert (lines + [line])[1..] == lines[1..] + [line];
      var r := ReadLine(m, lines[0]);
      if r.ok { ReadsAppend(r.cpus, lines[1..], line); }
    }
  }

  lemma NothingRead(m: CpuMap)
    ensures ReadLines(m, []) == Expansion(m, true)
  {
  }

  lemma SameAssignment(cpus: set<int>, node: int, cpus': set<int>, node': int)
    requires Assign(map[], cpus, node) == Assign(map[], cpus', node')
    ensures cpus == cpus' && (cpus != {} ==> node == node')
  {
    assert Assign(map[], cpus, node).Keys == cpus && Assign(map[], cpus', node').Keys == cpus';
    if cpu :| cpu in cpus {
      assert Assign(map[], cpus, node)[cpu] == node;
    }
  }

  /** The effect of a printed node line is what it says. */
  lemma NodeLineEffect(o: Output)
    requires o.NodeLine? && Proper(o)
    ensures var e := LineEffect(Shown(o));
            e.moves == Moves(AllDenoted(o.line.items), true) && (e.moves.cpus != {} ==> e.node == o.line.node)
  {
    hide ReadLine, LineEffect, Shown, Assign, AllDenoted;
    ReadNodeLine(map[], o);
    LineIsEffect(map[], Shown(o));
    var e := LineEffect(Shown(o));
    SameAssignment(e.moves.cpus, e.node, AllDenoted(o.line.items), o.line.node);
  }

  /** Node lines assign what they say, anything else what it does, one after the other. */
  function AssignOutputs(m: CpuMap, os: seq<Output>): CpuMap {
    if os == [] then m
    else
      var past := AssignOutputs(m, os[..|os| - 1]);
      match os[|os| - 1]
      case NodeLine(line, _) => Assign(past, AllDenoted(line.items), line.node)
      case Other(text) => Assign(past, LineEffect(text).moves.cpus, LineEffect(text).node)
  }

  /** Every text between the node lines can be read. */
  predicate OthersRead(os: seq<Output>) {
    forall i :: 0 <= i < |os| && os[i].Other? ==> LineEffect(os[i].text).moves.ok
  }

  lemma OthersReadOneMore(os: seq<Output>, o: Output)
    ensures OthersRead(os + [o]) <==> OthersRead(os) && (o.Other? ==> LineEffect(o.text).moves.ok)
  {
    hide LineEffect;
    var all := os + [o];
    assert all[|os|] == o && forall i :: 0 <= i < |os| ==> all[i] == os[i];
  }

  lemma ReadOutput(m: CpuMap, o: Output)
    requires Proper(o)
    ensures ReadLine(m, Shown(o)) ==
            match o
            case NodeLine(line, _) => Expansion(Assign(m, AllDenoted(line.items), line.node), true)
            case Other(text) => Moved(m, LineEffect(text).node, LineEffect(text).moves)
  {
    hide ReadLine, LineEffect, Assign;
    if o.NodeLine? {
      ReadNodeLine(m, o);
    } else {
      LineIsEffect(m, o.text);
    }
  }

  /** Reading node lines as lscpu prints them among any other texts succeeds exactly if each of those
      texts can be read, and then assigns to every node line exactly its CPUs, in order. */
  lemma {:induction false} OutputRead(m: CpuMap, os: seq<Output>)
    requires forall i :: 0 <= i < |os| ==> Proper(os[i])
    ensures var r := ReadLines(m, ShownAll(os));
            (r.ok <==> OthersRead(os)) && (r.ok ==> r.cpus == AssignOutputs(m, os))
  {
    hide ReadLine, ReadLines, Shown, Proper, Assign, LineEffect, OthersRead;
    if os == [] {
      NothingRead(m);
      NoOthers();
    } else {
      var n := |os| - 1;
      var past, o := os[..n], os[n];
      OutputRead(m, past);
      assert os == past + [o] && ShownAll(os) == ShownAll(past) + [Shown(o)];
      ReadsAppend(m, ShownAll(past), Shown(o));
      OthersReadOneMore(past, o);
      ReadOutput(AssignOutputs(m, past), o);
    }
  }

  lemma NoOthers()
    ensures OthersRead([])
  {
  }

  /** If the other texts move no CPU, the table is that of the node lines alone. */
  lemma {:induction false} OthersIdle(m: CpuMap, os: seq<Output>)
    requires forall i :: 0 <= i < |os| && os[i].Other? ==> LineEffect(os[i].text).moves.cpus == {}
    ensures AssignOutputs(m, os) == AssignLines(m, NodeLines(os))
  {
    hide LineEffect, Assign;
    if os != [] {
      var n := |os| - 1;
      OthersIdle(m, os[..n]);
      var lines := NodeLines(os[..n]);
      if os[n].NodeLine? {
        assert (lines + [os[n].line])[..|lines|] == lines;
      } else {
        assert lines + [] == lines;
        AssignNothing(AssignLines(m, lines), LineEffect(os[n].text).node);
      }
    }
  }

  // Cutting lines.

  lemma {:induction false} SkipBlanksBack(s: string, blanks: string)
    requires forall c :: c in blanks ==> IsSpace(c)
    ensures SkipSpaceBack(s + blanks) == SkipSpaceBack(s)
  {
    if blanks == "" {
      assert s + blanks == s;
    } else {
      var n := |blanks| - 1;
      assert (s + blanks)[..|s| + n] == s + blanks[..n];
      SkipBlanksBack(s, blanks[..n]);
    }
  }

  /** Trimming takes off exactly the blanks on both sides. */
  lemma TrimBoth(before: string, s: string, after: string)
    requires forall c :: c in before + after ==> IsSpace(c)
    requires s != "" ==> !IsSpace(s[0]) && !IsSpace(s[|s| - 1])
    ensures Trim(before + (s + after)) == s
  {
    assert forall c :: c in before || c in after ==> c in before + after;
    SkipBlanks(before, s + after);
    if s == "" {
      assert s + after == after && after + "" == after;
      SkipBlanks(after, "");
    } else {
      assert SkipSpace(s + after) == s + after;
      SkipBlanksBack(s, after);
    }
  }

  /** A line is cut at its first colon, and skipped without one or with nothing on a side of it. */
  lemma KeyValueIs(key: string, value: string)
    requires ':' !in key
    ensures KeyValue(key) == None
    ensures KeyValue(key + ":" + value) ==
            if key == "" || value == "" then None else Some(Pair(Trim(key), Trim(value)))
  {
    var line := key + ":" + value;
    assert line[..|key|] == key && line[|key| + 1..] == value && key[..|key|] == key;
    IndexOfFirst(line, ':', |key|);
    IndexOfFirst(key, ':', |key|);
  }

  lemma {:induction false} IsNumberIff(s: string)
    ensures IsNumber(s) <==> s != "" && forall i :: 0 <= i < |s| ==> IsDigit(s[i])
  {
    if forall i :: 0 <= i < |s| ==> IsDigit(s[i]) {
      AllDigits(s);
    }
  }
}
