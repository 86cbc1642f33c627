/** CPU lists such as "0-3,8-11": what their text denotes and what expanding it stores. */
module CpuRange {
  import opened Wrappers
  import opened Strings

  const INT_MAX := 0x7FFF_FFFF

  // std::stoi.

  predicate IsDigit(c: char) {
    '0' <= c <= '9'
  }

  predicate IsSpace(c: char) {
    c == ' ' || '\t' <= c <= '\r'
  }

  function SkipSpace(s: string): string {
    if s != "" && IsSpace(s[0]) then SkipSpace(s[1..]) else s
  }

  /** The number of leading digits. */
  function DigitRun(s: string): (k: nat)
    ensures k <= |s| && forall i :: 0 <= i < k ==> IsDigit(s[i])
    ensures k < |s| ==> !IsDigit(s[k])
  {
    if s == "" || !IsDigit(s[0]) then 0 else 1 + DigitRun(s[1..])
  }

  function DigitsValue(s: string): nat
    requires forall i :: 0 <= i < |s| ==> IsDigit(s[i])
  {
    if s == "" then 0
    else assert IsDigit(s[|s| - 1]); 10 * DigitsValue(s[..|s| - 1]) + (s[|s| - 1] as int - '0' as int)
  }

  /** The value of the leading digits, if there are any and it fits in `int`. */
  function Leading(u: string, negative: bool): Option<int> {
    var k := DigitRun(u);
    if k == 0 then None
    else
      var v: int := DigitsValue(u[..k]);
      var x := if negative then -v else v;
      if -INT_MAX - 1 <= x <= INT_MAX then Some(x) else None
  }

  /** Leading space and a sign are allowed, anything after the digits is ignored; no digits
      or a value outside `int` throws. */
  function Stoi(s: string): Option<int> {
    var t := SkipSpace(s);
    if t != "" && (t[0] == '-' || t[0] == '+') then Leading(t[1..], t[0] == '-') else Leading(t, false)
  }

  function Decimal(n: nat): (s: string)
    ensures s != "" && forall i :: 0 <= i < |s| ==> IsDigit(s[i])
  {
    (if n < 10 then "" else Decimal(n / 10)) + [(n % 10 + '0' as int) as char]
  }

  lemma {:induction false} DecimalValue(n: nat)
    ensures DigitsValue(Decimal(n)) == n
  {
    var s := Decimal(n);
    if n >= 10 {
      DecimalValue(n / 10);
      assert s[..|s| - 1] == Decimal(n / 10);
    } else {
      assert s[..|s| - 1] == "";
    }
  }

  lemma {:induction false} AllDigits(s: string)
    requires forall i :: 0 <= i < |s| ==> IsDigit(s[i])
    ensures DigitRun(s) == |s|
  {
    if s != "" {
      AllDigits(s[1..]);
    }
  }

  /** Parsing inverts printing, as far as `int` reaches. */
  lemma StoiOfDecimal(n: nat)
    ensures Stoi(Decimal(n)) == if n <= INT_MAX then Some(n) else None
  {
    var s := Decimal(n);
    AllDigits(s);
    DecimalValue(n);
    assert IsDigit(s[0]);
    assert s[..|s|] == s && SkipSpace(s) == s && s[0] != '-' && s[0] != '+';
    hide Decimal, DigitRun;
  }

  lemma {:induction false} SkipBlanks(blanks: string, rest: string)
    requires forall c :: c in blanks ==> IsSpace(c)
    ensures SkipSpace(blanks + rest) == SkipSpace(rest)
  {
    if blanks == "" {
      assert blanks + rest == rest;
    } else {
      assert (blanks + rest)[1..] == blanks[1..] + rest;
      SkipBlanks(blanks[1..], rest);
    }
  }

  lemma {:induction false} RunOf(digits: string, rest: string)
    requires (forall i :: 0 <= i < |digits| ==> IsDigit(digits[i])) && (rest == "" || !IsDigit(rest[0]))
    ensures DigitRun(digits + rest) == |digits|
  {
    if digits == "" {
      assert digits + rest == rest;
    } else {
      assert (digits + rest)[1..] == digits[1..] + rest;
      RunOf(digits[1..], rest);
    }
  }

  /** What the leading digits of a text say. */
  function Signed(digits: string, negative: bool): Option<int>
    requires forall i :: 0 <= i < |digits| ==> IsDigit(digits[i])
  {
    var v: int := DigitsValue(digits);
    var x := if negative then -v else v;
    if digits != "" && -INT_MAX - 1 <= x <= INT_MAX then Some(x) else None
  }

  lemma LeadingReads(digits: string, rest: string, negative: bool)
    requires (forall i :: 0 <= i < |digits| ==> IsDigit(digits[i])) && (rest == "" || !IsDigit(rest[0]))
    ensures Leading(digits + rest, negative) == Signed(digits, negative)
  {
    RunOf(digits, rest);
    assert (digits + rest)[..|digits|] == digits;
    hide DigitsValue, DigitRun;
  }

  lemma NothingSkipped(t: string)
    requires t == "" || !IsSpace(t[0])
    ensures SkipSpace(t) == t
  {
  }

  /** Any text that `stoi` reads: blanks, a sign or none, digits, and whatever is no digit. It gives the
      value if that fits in `int`; without a digit in that place it gives nothing. */
  lemma StoiReads(blanks: string, sign: string, digits: string, rest: string)
    requires (forall c :: c in blanks ==> IsSpace(c)) && sign in {"", "+", "-"}
    requires (forall i :: 0 <= i < |digits| ==> IsDigit(digits[i])) && (rest == "" || !IsDigit(rest[0]))
    requires sign == "" && digits == "" && rest != "" ==> !IsSpace(rest[0]) && rest[0] != '+' && rest[0] != '-'
    ensures Stoi(blanks + (sign + (digits + rest))) == Signed(digits, sign == "-")
  {
    var u, t := digits + rest, sign + (digits + rest);
    SkipBlanks(blanks, t);
    LeadingReads(digits, rest, sign == "-");
    assert digits != "" ==> IsDigit(digits[0]) && u[0] == digits[0];
    hide Leading, Signed, SkipSpace;
    if sign == "" {
      assert t == u;
    } else {
      assert t[0] == sign[0] && t[1..] == u;
    }
    NothingSkipped(t);
  }

  /** Digit by digit; leading zeros do not count. */
  lemma {:induction false} DigitsAppend(s: string, c: char)
    requires (forall i :: 0 <= i < |s| ==> IsDigit(s[i])) && IsDigit(c)
    ensures DigitsValue(s + [c]) == 10 * DigitsValue(s) + (c as int - '0' as int)
  {
    assert (s + [c])[..|s|] == s;
  }

  // Expanding.

  type CpuMap = map<int, int>

  datatype Expansion = Expansion(cpus: CpuMap, ok: bool)

  function AssignRange(m: CpuMap, start: int, end: int, node: int): CpuMap
    decreases end - start
  {
    if start > end then m else AssignRange(m[start := node], start + 1, end, node)
  }

  /** One token; a number that does not parse throws before anything is stored. A range that
      ends at the largest `int` is no success either, as its counter would have to pass it. */
  function ExpandToken(m: CpuMap, node: int, token: string): Expansion {
    var dash := IndexOf(token, '-');
    if token == "" then Expansion(m, true)
    else if dash == |token| then
      match Stoi(token)
      case Some(cpu) => Expansion(m[cpu := node], true)
      case None => Expansion(m, false)
    else
      match (Stoi(token[..dash]), Stoi(token[dash + 1..]))
      case (Some(start), Some(end)) =>
        if start <= end == INT_MAX then Expansion(m, false)
        else Expansion(AssignRange(m, start, end, node), true)
      case _ => Expansion(m, false)
  }

  function ExpandTokens(m: CpuMap, node: int, tokens: seq<string>): Expansion
    decreases |tokens|
  {
    if tokens == [] then Expansion(m, true)
    else
      var r := ExpandToken(m, node, tokens[0]);
      if r.ok then ExpandTokens(r.cpus, node, tokens[1..]) else r
  }

  class CpuTable {
    var cpuToNode: CpuMap

    constructor ()
      ensures cpuToNode == map[]
    {
      cpuToNode := map[];
    }

    method StoreToken(node: int, token: string) returns (ok: bool)
      modifies this
      ensures Expansion(cpuToNode, ok) == ExpandToken(old(cpuToNode), node, token)
    {
      hide Stoi;
      if token == "" { return true; }
      var dashIdx := IndexOf(token, '-');
      if dashIdx == |token| {
        var cpu := Stoi(token);
        if cpu == None { return false; }
        cpuToNode := cpuToNode[cpu.value := node];
      } else {
        var start, end := Stoi(token[..dashIdx]), Stoi(token[dashIdx + 1..]);
        if start == None || end == None { return false; }
        if start.value <= end.value == INT_MAX { return false; }
        var cpu := start.value;
        ghost var filled := AssignRange(cpuToNode, start.value, end.value, node);
        while cpu <= end.value
          invariant AssignRange(cpuToNode, cpu, end.value, node) == filled
        {
          cpuToNode := cpuToNode[cpu := node];
          cpu := cpu + 1;
        }
      }
      ok := true;
    }

    /** `expand_cpu_range`; `ok` is false where the original lets an exception escape, or would
        let its counter overflow. */
    method ExpandCpuRange(node: int, range: string) returns (ok: bool)
      modifies this
      ensures Expansion(cpuToNode, ok) == ExpandTokens(old(cpuToNode), node, Split(range, ','))
    {
      hide ExpandToken;
      var rest, more := range, true;
      ghost var goal := ExpandTokens(cpuToNode, node, Split(range, ','));
      while more
        invariant goal == if more then ExpandTokens(cpuToNode, node, Split(rest, ',')) else Expansion(cpuToNode, true)
        decreases |rest|, more
      {
        var comma := IndexOf(rest, ',');
        var token := rest[..comma];
        assert Split(rest, ',')[0] == token;
        if comma == |rest| {
          assert Split(rest, ',')[1..] == [];
        } else {
          assert Split(rest, ',')[1..] == Split(rest[comma + 1..], ',');
        }
        more := comma < |rest|;
        rest := if more then rest[comma + 1..] else "";
        ok := StoreToken(node, token);
        if !ok { return; }
      }
      ok := true;
    }
  }

  // What the text means.

  datatype Item = One(cpu: nat) | Span(low: nat, high: nat)

  /** Within `int`, a range also short of its maximum, which the counting loop cannot pass. */
  predicate InRange(item: Item) {
    match item
    case One(cpu) => cpu <= INT_MAX
    case Span(low, high) => low <= INT_MAX && high < INT_MAX
  }

  function Interval(low: int, high: int): (r: set<int>)
    ensures forall cpu :: cpu in r <==> low <= cpu <= high
    decreases high - low
  {
    if low > high then {} else {low} + Interval(low + 1, high)
  }

  function Denoted(item: Item): set<int> {
    match item
    case One(cpu) => {cpu}
    case Span(low, high) => Interval(low, high)
  }

  function AllDenoted(items: seq<Item>): set<int> {
    if items == [] then {} else Denoted(items[0]) + AllDenoted(items[1..])
  }

  function Print(item: Item): string {
    match item
    case One(cpu) => Decimal(cpu)
    case Span(low, high) => Decimal(low) + "-" + Decimal(high)
  }

  function PrintAll(items: seq<Item>): seq<string> {
    seq(|items|, i requires 0 <= i < |items| => Print(items[i]))
  }

  /** The map with exactly these CPUs moved to the node. */
  function Assign(m: CpuMap, cpus: set<int>, node: int): CpuMap {
    m + map cpu | cpu in cpus :: node
  }

  lemma {:induction false} AssignRangeIsAssign(m: CpuMap, start: int, end: int, node: int)
    ensures AssignRange(m, start, end, node) == Assign(m, Interval(start, end), node)
    decreases end - start
  {
    if start <= end {
      AssignRangeIsAssign(m[start := node], start + 1, end, node);
      assert Interval(start, end) == {start} + Interval(start + 1, end);
    } else {
      assert Interval(start, end) == {};
    }
  }

  lemma DecimalHasNoSeparator(n: nat)
    ensures '-' !in Decimal(n) && ',' !in Decimal(n)
  {
  }

  lemma PrintedSpanExpands(m: CpuMap, node: int, low: nat, high: nat)
    ensures ExpandToken(m, node, Decimal(low) + "-" + Decimal(high)) ==
            if InRange(Span(low, high)) then Expansion(Assign(m, Interval(low, high), node), true)
            else Expansion(m, false)
  {
    var s, t := Decimal(low), Decimal(high);
    StoiOfDecimal(low);
    StoiOfDecimal(high);
    DecimalHasNoSeparator(low);
    AssignRangeIsAssign(m, low, high, node);
    hide Stoi, Decimal, Interval, AssignRange, Assign;
    var token := s + "-" + t;
    assert token[..|s|] == s && token[|s| + 1..] == t;
    IndexOfFirst(token, '-', |s|);
  }

  lemma PrintedItemExpands(m: CpuMap, node: int, item: Item)
    ensures ',' !in Print(item)
    ensures ExpandToken(m, node, Print(item)) ==
            if InRange(item) then Expansion(Assign(m, Denoted(item), node), true) else Expansion(m, false)
  {
    match item {
      case One(cpu) =>
        StoiOfDecimal(cpu);
        DecimalHasNoSeparator(cpu);
        hide Stoi;
        IndexOfFirst(Decimal(cpu), '-', |Decimal(cpu)|);
      case Span(low, high) =>
        DecimalHasNoSeparator(low);
        DecimalHasNoSeparator(high);
        PrintedSpanExpands(m, node, low, high);
    }
  }

  /** The items before the first that is out of range. */
  function Fitting(items: seq<Item>): seq<Item> {
    if items == [] || !InRange(items[0]) then [] else [items[0]] + Fitting(items[1..])
  }

  lemma {:induction false} AllFit(items: seq<Item>)
    ensures Fitting(items) == items <==> forall i :: 0 <= i < |items| ==> InRange(items[i])
  {
    if items != [] {
      AllFit(items[1..]);
      assert items == [items[0]] + items[1..];
      if InRange(items[0]) && Fitting(items) == items {
        assert Fitting(items)[1..] == Fitting(items[1..]);
      }
    }
  }

  lemma {:induction false} PrintedItemsExpand(m: CpuMap, node: int, items: seq<Item>)
    ensures forall i :: 0 <= i < |items| ==> ',' !in Print(items[i])
    ensures var r := ExpandTokens(m, node, PrintAll(items));
            && r.cpus == Assign(m, AllDenoted(Fitting(items)), node)
            && (r.ok <==> Fitting(items) == items)
    decreases |items|
  {
    hide ExpandToken, Print, Denoted, InRange, Assign;
    if items == [] {
      AssignNothing(m, node);
    } else {
      var first, rest := items[0], items[1..];
      PrintedItemExpands(m, node, first);
      PrintedItemsExpand(Assign(m, Denoted(first), node), node, rest);
      assert PrintAll(items)[1..] == PrintAll(rest);
      assert items == [first] + rest;
      if InRange(first) {
        assert ([first] + Fitting(rest))[1..] == Fitting(rest);
        AssignTwice(m, Denoted(first), AllDenoted(Fitting(rest)), node);
      } else {
        AssignNothing(m, node);
      }
    }
  }

  lemma AssignNothing(m: CpuMap, node: int)
    ensures Assign(m, {}, node) == m
  {
  }

  lemma AssignTwice(m: CpuMap, cpus: set<int>, more: set<int>, node: int)
    ensures Assign(Assign(m, cpus, node), more, node) == Assign(m, cpus + more, node)
  {
  }

  /** A printed list of CPUs and ranges moves exactly the CPUs it denotes to the node. It fails
      exactly if some item is out of range, and then has moved those of the items before it. */
  lemma PrintedRangeExpands(m: CpuMap, node: int, items: seq<Item>)
    requires items != []
    ensures var r := ExpandTokens(m, node, Split(Join(PrintAll(items), ','), ','));
            && (r.ok <==> forall i :: 0 <= i < |items| ==> InRange(items[i]))
            && r.cpus == Assign(m, AllDenoted(if r.ok then items else Fitting(items)), node)
  {
    PrintedItemsExpand(m, node, items);
    AllFit(items);
    hide ExpandTokens, Assign, AllDenoted, InRange, Print;
    SplitJoin(PrintAll(items), ',');
  }

  // Several nodes.

  datatype Line = Line(node: int, items: seq<Item>)

  function AssignLines(m: CpuMap, lines: seq<Line>): CpuMap {
    if lines == [] then m
    else
      var last := lines[|lines| - 1];
      Assign(AssignLines(m, lines[..|lines| - 1]), AllDenoted(last.items), last.node)
  }

  ghost predicate NodesDisjoint(lines: seq<Line>) {
    forall i, j :: 0 <= i < |lines| && 0 <= j < |lines| && lines[i] != lines[j] ==>
      AllDenoted(lines[i].items) !! AllDenoted(lines[j].items)
  }

  lemma {:induction false} AssignedLines(m: CpuMap, lines: seq<Line>, cpu: int)
    requires NodesDisjoint(lines)
    ensures var r := AssignLines(m, lines);
            && (forall line :: line in lines && cpu in AllDenoted(line.items) ==> cpu in r && r[cpu] == line.node)
            && ((forall line :: line in lines ==> cpu !in AllDenoted(line.items)) ==>
                 (cpu in r <==> cpu in m) && (cpu in m ==> r[cpu] == m[cpu]))
  {
    if lines != [] {
      var n := |lines| - 1;
      AssignedLines(m, lines[..n], cpu);
      forall line | line in lines && cpu in AllDenoted(line.items)
        ensures cpu in AssignLines(m, lines) && AssignLines(m, lines)[cpu] == line.node
      {
        var i :| 0 <= i < |lines| && lines[i] == line;
        if lines[n] != line {
          assert lines[..n][i] == line;
        }
      }
    }
  }

  /** For lines that share no CPU, the final map does not depend on their order. */
  lemma LineOrderDoesNotMatter(m: CpuMap, lines: seq<Line>, lines': seq<Line>)
    requires NodesDisjoint(lines) && forall line :: line in lines <==> line in lines'
    ensures AssignLines(m, lines) == AssignLines(m, lines')
  {
    forall i, j | 0 <= i < |lines'| && 0 <= j < |lines'| && lines'[i] != lines'[j]
      ensures AllDenoted(lines'[i].items) !! AllDenoted(lines'[j].items)
    {
      assert lines'[i] in lines && lines'[j] in lines;
    }
    var r, r' := AssignLines(m, lines), AssignLines(m, lines');
    forall cpu ensures (cpu in r <==> cpu in r') && (cpu in r ==> r[cpu] == r'[cpu]) {
      AssignedLines(m, lines, cpu);
      AssignedLines(m, lines', cpu);
    }
  }
}
