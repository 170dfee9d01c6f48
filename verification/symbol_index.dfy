/**
  The symbol range index of src/lib/symbol_ops.c.  Addresses live in [0, m), where m is
  2^32 or 2^64 (ATHRILL_ADDRESS_WIDTH); the end of a range is computed modulo m, as the code does.
 */
module SymbolIndex {
  import opened Numbers

  datatype Symbol = Symbol(addr: nat, size: nat)

  function End(s: Symbol, m: nat): (end: nat)
    requires 0 < m
    ensures end < m
  {
    (s.addr + s.size) % m
  }

  predicate Contains(s: Symbol, m: nat, a: nat)
    requires 0 < m
  {
    s.addr <= a < End(s, m)
  }

  /** The address lies in the symbol's range in true integers, and the range ends below the top of the address space. */
  predicate Spans(s: Symbol, m: nat, a: nat) {
    s.addr + s.size < m && s.addr <= a < s.addr + s.size
  }

  /** Addresses and sizes that fit the address type. */
  ghost predicate Fit(table: seq<Symbol>, m: nat) {
    forall i :: 0 <= i < |table| ==> table[i].addr < m && table[i].size < m
  }

  /** What a symbol contains: the `size` addresses from its start on, or nothing if its end wraps. */
  lemma ContainsIff(s: Symbol, m: nat, a: nat)
    requires s.addr < m && s.size < m
    ensures Contains(s, m, a) <==> Spans(s, m, a)
  {
    if s.addr + s.size >= m {
      assert (s.addr + s.size) % m == s.addr + s.size - m;
    }
  }

  // ---- The reference: a linear scan ----

  /** The lowest id, from `i` on, whose range contains `a`; -1 if there is none (symbol_pc2func). */
  function Scan(table: seq<Symbol>, m: nat, a: nat, i: nat): (id: int)
    requires 0 < m && i <= |table|
    ensures -1 <= id < |table|
    decreases |table| - i
  {
    if i == |table| then -1
    else if Contains(table[i], m, a) then i
    else Scan(table, m, a, i + 1)
  }

  /** What a scan result means. */
  ghost predicate IsLowest(table: seq<Symbol>, m: nat, a: nat, id: int)
    requires 0 < m
  {
    && -1 <= id < |table|
    && (id >= 0 ==> Contains(table[id], m, a))
    && (forall n :: 0 <= n < (if id >= 0 then id else |table|) ==> !Contains(table[n], m, a))
  }

  lemma {:induction false} ScanFindsLowest(table: seq<Symbol>, m: nat, a: nat, i: nat)
    requires 0 < m && i <= |table| && forall n :: 0 <= n < i ==> !Contains(table[n], m, a)
    ensures IsLowest(table, m, a, Scan(table, m, a, i))
    decreases |table| - i
  {
    if i < |table| && !Contains(table[i], m, a) {
      ScanFindsLowest(table, m, a, i + 1);
    }
  }

  /** The same in true integers: the lowest id whose range holds `a`, or -1 if none does. */
  ghost predicate LowestSpanning(table: seq<Symbol>, m: nat, a: nat, id: int) {
    && -1 <= id < |table|
    && (id >= 0 ==> Spans(table[id], m, a))
    && (forall n :: 0 <= n < (if id >= 0 then id else |table|) ==> !Spans(table[n], m, a))
  }

  lemma ScanIsLowestSpanning(table: seq<Symbol>, m: nat, a: nat)
    requires 0 < m && Fit(table, m)
    ensures LowestSpanning(table, m, a, Scan(table, m, a, 0))
  {
    ScanFindsLowest(table, m, a, 0);
    forall n | 0 <= n < |table|
      ensures Contains(table[n], m, a) <==> Spans(table[n], m, a)
    {
      ContainsIff(table[n], m, a);
    }
  }

  lemma LowestIsScan(table: seq<Symbol>, m: nat, a: nat, id: int)
    requires 0 < m && IsLowest(table, m, a, id)
    ensures id == Scan(table, m, a, 0)
  {
    ScanFindsLowest(table, m, a, 0);
    var other := Scan(table, m, a, 0);
    assert other >= 0 ==> Contains(table[other], m, a);
  }

  // ---- The index ----

  /** symbol_compare_start < 0: by start address, then by id. */
  predicate Before(table: seq<Symbol>, x: nat, y: nat)
    requires x < |table| && y < |table|
  {
    table[x].addr < table[y].addr || (table[x].addr == table[y].addr && x < y)
  }

  /** `order` lists every id below `n` once, sorted. */
  ghost predicate SortedIds(table: seq<Symbol>, n: nat, order: seq<nat>)
    requires n <= |table|
  {
    && |order| == n
    && (forall k :: 0 <= k < |order| ==> order[k] < n)
    && (forall j, k :: 0 <= j < k < |order| ==> Before(table, order[j], order[k]))
    && (forall id :: 0 <= id < n ==> id in order)
  }

  /** The largest end among order[0..k]. */
  function LargestEnd(table: seq<Symbol>, m: nat, order: seq<nat>, k: nat): (end: nat)
    requires 0 < m && k < |order| && forall j :: 0 <= j < |order| ==> order[j] < |table|
  {
    var end := End(table[order[k]], m);
    var before := if k == 0 then 0 else LargestEnd(table, m, order, k - 1);
    if end > before then end else before
  }

  lemma {:induction false} LargestEndBounds(table: seq<Symbol>, m: nat, order: seq<nat>, j: nat, k: nat)
    requires 0 < m && j <= k < |order| && forall j :: 0 <= j < |order| ==> order[j] < |table|
    ensures End(table[order[j]], m) <= LargestEnd(table, m, order, k)
    decreases k
  {
    if j < k {
      LargestEndBounds(table, m, order, j, k - 1);
    }
  }

  ghost predicate PrefixMax(table: seq<Symbol>, m: nat, order: seq<nat>, maxEnd: seq<nat>)
    requires 0 < m && forall k :: 0 <= k < |order| ==> order[k] < |table|
  {
    |maxEnd| <= |order| && forall k :: 0 <= k < |maxEnd| ==> maxEnd[k] == LargestEnd(table, m, order, k)
  }

  ghost predicate IndexOf(table: seq<Symbol>, m: nat, order: seq<nat>, maxEnd: seq<nat>)
    requires 0 < m
  {
    SortedIds(table, |table|, order) && |maxEnd| == |order| && PrefixMax(table, m, order, maxEnd)
  }

  /** The early break of the backward scan never skips a symbol that contains the address. */
  lemma EarlyBreakIsSafe(table: seq<Symbol>, m: nat, order: seq<nat>, maxEnd: seq<nat>, k: nat, a: nat)
    requires 0 < m && IndexOf(table, m, order, maxEnd) && 0 < k <= |order| && maxEnd[k - 1] <= a
    ensures forall j :: 0 <= j < k ==> !Contains(table[order[j]], m, a)
  {
    forall j | 0 <= j < k
      ensures !Contains(table[order[j]], m, a)
    {
      LargestEndBounds(table, m, order, j, k - 1);
    }
  }

  // ---- Lookups with the last result reused ----

  /** symbol_pc2funcid and symbol_addr2glid as documented: the last result while it still contains
      the address, otherwise the lowest id that does. */
  function Lookup(table: seq<Symbol>, m: nat, last: int, a: nat): (id: int)
    requires 0 < m && -1 <= last < |table|
    ensures -1 <= id < |table|
  {
    if last >= 0 && Contains(table[last], m, a) then last else Scan(table, m, a, 0)
  }

  /** The reused result differs from the scan exactly when a lower id contains the address too. */
  lemma ReuseDiffersIff(table: seq<Symbol>, m: nat, last: int, a: nat)
    requires 0 < m && -1 <= last < |table|
    ensures Lookup(table, m, last, a) != Scan(table, m, a, 0) <==>
            last >= 0 && Contains(table[last], m, a) && exists id :: 0 <= id < last && Contains(table[id], m, a)
  {
    ScanFindsLowest(table, m, a, 0);
  }

  datatype Op = Add(symbol: Symbol) | Find(a: nat)

  /** The table and the last result. */
  datatype State = State(table: seq<Symbol>, last: int)

  function Step(s: State, m: nat, op: Op): (t: State)
    requires 0 < m && -1 <= s.last < |s.table|
    ensures -1 <= t.last < |t.table|
  {
    match op
    case Add(symbol) => s.(table := s.table + [symbol])
    case Find(a) =>
      var id := Lookup(s.table, m, s.last, a);
      if id >= 0 then s.(last := id) else s
  }

  function Run(s: State, m: nat, ops: seq<Op>): (t: State)
    requires 0 < m && -1 <= s.last < |s.table|
    ensures -1 <= t.last < |t.table|
    decreases |ops|
  {
    if ops == [] then s else Run(Step(s, m, ops[0]), m, ops[1..])
  }

  /** One lookup of a run: the symbols at that time, the address, and the id that was answered. */
  datatype Answer = Answer(table: seq<Symbol>, a: nat, id: int)

  function Answers(s: State, m: nat, ops: seq<Op>): (answers: seq<Answer>)
    requires 0 < m && -1 <= s.last < |s.table|
    decreases |ops|
  {
    if ops == [] then []
    else (if ops[0].Find? then [Answer(s.table, ops[0].a, Lookup(s.table, m, s.last, ops[0].a))] else [])
         + Answers(Step(s, m, ops[0]), m, ops[1..])
  }

  /** The latest answer that was not a miss; `last` if there is none. */
  function LastHit(answers: seq<Answer>, last: int): int {
    if answers == [] then last
    else if answers[|answers| - 1].id >= 0 then answers[|answers| - 1].id
    else LastHit(answers[..|answers| - 1], last)
  }

  lemma {:induction false} LastHitAfter(answer: Answer, answers: seq<Answer>, last: int)
    ensures LastHit([answer] + answers, last) == LastHit(answers, if answer.id >= 0 then answer.id else last)
  {
    if answers != [] {
      assert ([answer] + answers)[..|answers|] == [answer] + answers[..|answers| - 1];
      LastHitAfter(answer, answers[..|answers| - 1], last);
    } else {
      assert [answer] + answers == [answer] && [answer][..0] == [];
    }
  }

  /** Each answer of a run is a lookup in the table of its time, with the latest hit before it remembered. */
  lemma {:induction false} AnswerIsLookup(s: State, m: nat, ops: seq<Op>, k: nat)
    requires 0 < m && -1 <= s.last < |s.table| && k < |Answers(s, m, ops)|
    ensures
      var answer, last := Answers(s, m, ops)[k], LastHit(Answers(s, m, ops)[..k], s.last);
      -1 <= last < |answer.table| && answer.id == Lookup(answer.table, m, last, answer.a)
    decreases |ops|
  {
    var rest := Answers(Step(s, m, ops[0]), m, ops[1..]);
    if ops[0].Find? {
      if k > 0 {
        var first := Answers(s, m, ops)[0];
        assert Answers(s, m, ops)[..k] == [first] + rest[..k - 1];
        LastHitAfter(first, rest[..k - 1], s.last);
        AnswerIsLookup(Step(s, m, ops[0]), m, ops[1..], k - 1);
      }
    } else {
      assert Answers(s, m, ops) == rest;
      AnswerIsLookup(Step(s, m, ops[0]), m, ops[1..], k);
    }
  }

  /** In every run of additions and lookups, a lookup misses exactly when no range contains the address. */
  lemma MissIff(s: State, m: nat, ops: seq<Op>, k: nat)
    requires 0 < m && -1 <= s.last < |s.table| && k < |Answers(s, m, ops)|
    ensures
      var answer := Answers(s, m, ops)[k];
      answer.id == -1 <==> forall id :: 0 <= id < |answer.table| ==> !Contains(answer.table[id], m, answer.a)
  {
    AnswerIsLookup(s, m, ops, k);
    ScanFindsLowest(Answers(s, m, ops)[k].table, m, Answers(s, m, ops)[k].a, 0);
  }

  /** What every answer of every run means in true integers: a miss exactly when no range holds the address, a hit is
      in a range that does, and it is the lowest unless the latest hit before it is in a range that does too. */
  lemma AnswerInIntegers(s: State, m: nat, ops: seq<Op>, k: nat)
    requires 0 < m && -1 <= s.last < |s.table| && k < |Answers(s, m, ops)| && Fit(Answers(s, m, ops)[k].table, m)
    ensures
      var answer, last := Answers(s, m, ops)[k], LastHit(Answers(s, m, ops)[..k], s.last);
      && -1 <= last < |answer.table| && -1 <= answer.id < |answer.table|
      && (answer.id == -1 <==> forall id :: 0 <= id < |answer.table| ==> !Spans(answer.table[id], m, answer.a))
      && if last >= 0 && Spans(answer.table[last], m, answer.a) then answer.id == last
         else LowestSpanning(answer.table, m, answer.a, answer.id)
  {
    AnswerIsLookup(s, m, ops, k);
    var answer, last := Answers(s, m, ops)[k], LastHit(Answers(s, m, ops)[..k], s.last);
    ScanIsLowestSpanning(answer.table, m, answer.a);
    if last >= 0 {
      ContainsIff(answer.table[last], m, answer.a);
    }
  }

  /** Earlier lookups change an answer exactly when the latest hit among them still contains the address and a lower id
      does too. */
  lemma HistoryMattersIff(s: State, m: nat, ops: seq<Op>, k: nat)
    requires 0 < m && -1 <= s.last < |s.table| && k < |Answers(s, m, ops)|
    ensures
      var answer, last := Answers(s, m, ops)[k], LastHit(Answers(s, m, ops)[..k], s.last);
      && -1 <= last < |answer.table|
      && (answer.id != Scan(answer.table, m, answer.a, 0) <==>
          && last >= 0 && Contains(answer.table[last], m, answer.a)
          && exists id :: 0 <= id < last && Contains(answer.table[id], m, answer.a))
  {
    AnswerIsLookup(s, m, ops, k);
    var answer, last := Answers(s, m, ops)[k], LastHit(Answers(s, m, ops)[..k], s.last);
    ReuseDiffersIff(answer.table, m, last, answer.a);
  }

  ghost predicate Disjoint(table: seq<Symbol>, m: nat)
    requires 0 < m
  {
    forall i, j, a: nat ::
      0 <= i < |table| && 0 <= j < |table| && Contains(table[i], m, a) && Contains(table[j], m, a) ==> i == j
  }

  /** A lookup among symbols that do not overlap answers as the scan does, whatever came before. */
  lemma HistoryDoesNotMatter(s: State, m: nat, ops: seq<Op>, k: nat)
    requires 0 < m && -1 <= s.last < |s.table| && k < |Answers(s, m, ops)| && Disjoint(Answers(s, m, ops)[k].table, m)
    ensures
      var answer := Answers(s, m, ops)[k];
      answer.id == Scan(answer.table, m, answer.a, 0)
  {
    AnswerIsLookup(s, m, ops, k);
    ScanFindsLowest(Answers(s, m, ops)[k].table, m, Answers(s, m, ops)[k].a, 0);
  }

  /** With overlaps it does not: after a hit in the later of two overlapping symbols, an address
      in both is answered with that symbol, where the scan answers with the earlier one. */
  lemma OverlapRemembersHistory()
    ensures
      var table := [Symbol(0, 50), Symbol(40, 20)];
      var m := TWO_TO_32;
      var t := Run(State(table, -1), m, [Find(55)]);
      t.table == table && Lookup(table, m, t.last, 45) == 1 && Scan(table, m, 45, 0) == 0
  {
  }

  class SymbolTable {
    const m: nat
    var table: seq<Symbol>
    var builtCount: nat
    var order: seq<nat>
    var maxEnd: seq<nat>
    var last: int

    constructor (m: nat)
      requires 0 < m
      ensures Valid() && this.m == m && table == [] && last == -1
    {
      this.m := m;
      table, builtCount, order, maxEnd, last := [], 0, [], [], -1;
    }

    /** The index is that of the symbols present when it was built; symbols are only appended. */
    ghost predicate Valid()
      reads this
    {
      && 0 < m && -1 <= last < |table| && builtCount <= |table|
      && IndexOf(table[..builtCount], m, order, maxEnd)
    }

    /** symbol_func_add, symbol_gl_add */
    method AddSymbol(symbol: Symbol)
      requires Valid()
      modifies this
      ensures Valid() && table == old(table) + [symbol] && last == old(last)
    {
      table := table + [symbol];
      assert table[..builtCount] == old(table)[..builtCount];
    }

    /** qsort with symbol_compare_start, over the ids of the whole table. */
    method SortIds() returns (ids: seq<nat>)
      ensures SortedIds(table, |table|, ids)
    {
      ids := [];
      for n := 0 to |table|
        invariant SortedIds(table, n, ids)
      {
        var pos := n;
        while pos > 0 && table[n].addr < table[ids[pos - 1]].addr
          invariant pos <= n && forall k :: pos <= k < n ==> table[n].addr < table[ids[k]].addr
        {
          pos := pos - 1;
        }
        ghost var before := ids;
        ids := Inserted(ids, pos, n);
        InsertKeeps(table, n, before, pos);
      }
    }

    /** symbol_index_build */
    method Build()
      requires 0 < m && -1 <= last < |table|
      modifies `order, `maxEnd, `builtCount
      ensures Valid() && builtCount == |table|
    {
      order := SortIds();
      maxEnd := [];
      var max := 0;
      for k := 0 to |table|
        invariant |maxEnd| == k && SortedIds(table, |table|, order) && PrefixMax(table, m, order, maxEnd)
        invariant max == if k == 0 then 0 else maxEnd[k - 1]
      {
        var end := End(table[order[k]], m);
        if end > max {
          max := end;
        }
        maxEnd := maxEnd + [max];
      }
      builtCount := |table|;
      assert table[..builtCount] == table;
    }

    /** The binary search of symbol_index_find: how many symbols start at or below `a`. */
    method CountStarts(a: nat) returns (low: nat)
      requires Valid() && builtCount == |table|
      ensures low <= |order|
      ensures forall k :: 0 <= k < |order| ==> order[k] < |table| && (table[order[k]].addr <= a <==> k < low)
    {
      assert table[..builtCount] == table;
      low := 0;
      var high := |table|;
      while low < high
        invariant 0 <= low <= high <= |order|
        invariant forall k :: 0 <= k < low ==> table[order[k]].addr <= a
        invariant forall k :: high <= k < |order| ==> a < table[order[k]].addr
      {
        var middle := low + (high - low) / 2;
        if table[order[middle]].addr <= a {
          low := middle + 1;
        } else {
          high := middle;
        }
      }
    }

    /** symbol_index_find: the scan's answer, from the index, rebuilding it when symbols were added. */
    method FindInIndex(a: nat) returns (found: int)
      requires Valid()
      modifies `order, `maxEnd, `builtCount
      ensures Valid() && found == Scan(table, m, a, 0)
      ensures Fit(table, m) ==> LowestSpanning(table, m, a, found)
    {
      if builtCount != |table| {
        Build();
      }
      var low := CountStarts(a);
      assert table[..builtCount] == table;
      found := -1;
      var k := low;
      while k > 0 && !(maxEnd[k - 1] <= a)
        invariant 0 <= k <= low
        invariant -1 <= found < |table| && (found >= 0 ==> Contains(table[found], m, a))
        invariant forall j :: k <= j < low && Contains(table[order[j]], m, a) ==> 0 <= found <= order[j]
      {
        k := k - 1;
        var id := order[k];
        if a < End(table[id], m) && (found < 0 || id < found) {
          found := id;
        }
      }
      if k > 0 {
        EarlyBreakIsSafe(table, m, order, maxEnd, k, a);
      }
      forall id | 0 <= id < |table| && Contains(table[id], m, a)
        ensures 0 <= found <= id
      {
        assert id in order;
        var j :| 0 <= j < |order| && order[j] == id;
        assert j < low;
      }
      LowestIsScan(table, m, a, found);
      if Fit(table, m) {
        ScanIsLowestSpanning(table, m, a);
      }
    }

    /** symbol_pc2funcid, symbol_addr2glid: the id, and the start address when there is one. */
    method FindSymbol(a: nat) returns (id: int, start: nat)
      requires Valid()
      modifies `order, `maxEnd, `builtCount, `last
      ensures Valid() && id == Lookup(table, m, old(last), a)
      ensures State(table, last) == Step(State(old(table), old(last)), m, Find(a))
      ensures id >= 0 ==> start == table[id].addr
    {
      start := 0;
      if last >= 0 && table[last].addr <= a < End(table[last], m) {
        return last, table[last].addr;
      }
      id := FindInIndex(a);
      if id >= 0 {
        start := table[id].addr;
        last := id;
      }
    }
  }

  /** The real table, with its index and its rebuilds, gives the answers of the run. */
  method RunOps(symbols: SymbolTable, ops: seq<Op>) returns (ids: seq<int>)
    requires symbols.Valid()
    modifies symbols
    ensures symbols.Valid()
    ensures
      var start := State(old(symbols.table), old(symbols.last));
      && State(symbols.table, symbols.last) == Run(start, symbols.m, ops)
      && ids == Ids(Answers(start, symbols.m, ops))
  {
    ids := [];
    ghost var start := State(symbols.table, symbols.last);
    for i := 0 to |ops|
      invariant symbols.Valid()
      invariant Run(State(symbols.table, symbols.last), symbols.m, ops[i..]) == Run(start, symbols.m, ops)
      invariant ids + Ids(Answers(State(symbols.table, symbols.last), symbols.m, ops[i..])) ==
                Ids(Answers(start, symbols.m, ops))
    {
      ghost var now := State(symbols.table, symbols.last);
      assert ops[i..][0] == ops[i] && ops[i..][1..] == ops[i + 1..];
      match ops[i]
      case Add(symbol) =>
        symbols.AddSymbol(symbol);
      case Find(a) =>
        var id, addr := symbols.FindSymbol(a);
        IdsOfMore(Answer(now.table, a, id), Answers(State(symbols.table, symbols.last), symbols.m, ops[i + 1..]));
        ids := ids + [id];
    }
  }

  function Ids(answers: seq<Answer>): (ids: seq<int>)
    ensures |ids| == |answers|
  {
    seq(|answers|, k requires 0 <= k < |answers| => answers[k].id)
  }

  lemma IdsOfMore(answer: Answer, answers: seq<Answer>)
    ensures Ids([answer] + answers) == [answer.id] + Ids(answers)
  {
  }

  function Inserted(ids: seq<nat>, pos: nat, n: nat): (r: seq<nat>)
    requires pos <= |ids|
    ensures |r| == |ids| + 1
  {
    ids[..pos] + [n] + ids[pos..]
  }

  lemma InsertedAt(ids: seq<nat>, pos: nat, n: nat, k: nat)
    requires pos <= |ids| && k <= |ids|
    ensures Inserted(ids, pos, n)[k] == if k < pos then ids[k] else if k == pos then n else ids[k - 1]
  {
  }

  lemma InsertedHas(ids: seq<nat>, pos: nat, n: nat, id: nat)
    requires pos <= |ids| && (id == n || id in ids)
    ensures id in Inserted(ids, pos, n)
  {
    var r := Inserted(ids, pos, n);
    if id == n {
      assert r[pos] == n;
    } else {
      var k :| 0 <= k < |ids| && ids[k] == id;
      assert r[if k < pos then k else k + 1] == id;
    }
  }

  lemma InsertedBefore(table: seq<Symbol>, n: nat, ids: seq<nat>, pos: nat, j: nat, k: nat)
    requires n < |table| && SortedIds(table, n, ids) && pos <= n && j < k <= n
    requires forall k :: pos <= k < n ==> table[n].addr < table[ids[k]].addr
    requires pos > 0 ==> table[ids[pos - 1]].addr <= table[n].addr
    ensures Inserted(ids, pos, n)[j] < |table| && Inserted(ids, pos, n)[k] < |table|
    ensures Before(table, Inserted(ids, pos, n)[j], Inserted(ids, pos, n)[k])
  {
    InsertedAt(ids, pos, n, j);
    InsertedAt(ids, pos, n, k);
    if j != pos && k != pos {
      assert Before(table, ids[if j < pos then j else j - 1], ids[if k < pos then k else k - 1]);
    } else if k == pos && j < pos - 1 {
      assert Before(table, ids[j], ids[pos - 1]);
    }
  }

  lemma InsertKeeps(table: seq<Symbol>, n: nat, ids: seq<nat>, pos: nat)
    requires n < |table| && SortedIds(table, n, ids) && pos <= n
    requires forall k :: pos <= k < n ==> table[n].addr < table[ids[k]].addr
    requires pos > 0 ==> table[ids[pos - 1]].addr <= table[n].addr
    ensures SortedIds(table, n + 1, Inserted(ids, pos, n))
  {
    var r := Inserted(ids, pos, n);
    forall k | 0 <= k < |r|
      ensures r[k] < n + 1
    {
      InsertedAt(ids, pos, n, k);
    }
    forall j, k | 0 <= j < k < |r|
      ensures Before(table, r[j], r[k])
    {
      InsertedBefore(table, n, ids, pos, j, k);
    }
    forall id | 0 <= id < n + 1
      ensures id in r
    {
      InsertedHas(ids, pos, n, id);
    }
  }
}
