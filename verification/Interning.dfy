/**
  From counted stacks to a pprof profile: strings, functions and locations are kept in tables and
  referred to by number. The converter and the signal profiler build their profiles in the same way.
*/
module Interning {
  import opened Bytes
  import opened Options

  datatype Symbol = Symbol(name: string, file: string, line: nat)

  datatype Frame = Frame(stack: seq<Symbol>, count: u64)

  /** The names of the two sample values and of their units. */
  datatype Units = Units(samples: string, count: string, cpu: string, nanoseconds: string)

  datatype Function = Function(id: nat, name: nat, systemName: nat, filename: nat)

  datatype Line = Line(functionId: nat, line: nat)

  datatype Location = Location(id: nat, lines: seq<Line>)

  datatype Sample = Sample(locationId: seq<nat>, value: seq<int>)

  datatype ValueType = ValueType(fieldType: nat, unit: nat)

  datatype Pprof = Pprof(
    sampleType: seq<ValueType>,
    sample: seq<Sample>,
    stringTable: seq<string>,
    function_: seq<Function>,
    location: seq<Location>,
    periodType: ValueType,
    period: int)

  // ---------------------------------------------------------------- what the tables hold

  function Flat(frames: seq<Frame>): seq<Symbol> {
    if frames == [] then [] else Flat(frames[..|frames| - 1]) + frames[|frames| - 1].stack
  }

  function TotalCount(frames: seq<Frame>): nat {
    if frames == [] then 0 else TotalCount(frames[..|frames| - 1]) + frames[|frames| - 1].count
  }

  /** The position of the first symbol called `name`, or the number of symbols. */
  function IndexOf(symbols: seq<Symbol>, name: string): (r: nat)
    ensures r <= |symbols| && (r < |symbols| ==> symbols[r].name == name)
    ensures forall i :: 0 <= i < r ==> symbols[i].name != name
  {
    if symbols == [] || symbols[0].name == name then 0 else 1 + IndexOf(symbols[1..], name)
  }

  predicate Knows(symbols: seq<Symbol>, name: string) {
    IndexOf(symbols, name) < |symbols|
  }

  /** Of every name the first symbol that has it, in the order of their first occurrence. */
  function Firsts(symbols: seq<Symbol>): seq<Symbol> {
    if symbols == [] then []
    else
      var firsts, last := Firsts(symbols[..|symbols| - 1]), symbols[|symbols| - 1];
      if Knows(firsts, last.name) then firsts else firsts + [last]
  }

  function Strings(frames: seq<Frame>, units: Units): set<string> {
    (set s <- Flat(frames) :: s.name) + (set s <- Flat(frames) :: s.file)
    + {units.samples, units.count, units.cpu, units.nanoseconds}
  }

  /** `order` is one of the orders in which a hash set may list the elements of `s`. */
  ghost predicate Enumerates(order: seq<string>, s: set<string>) {
    (forall x :: x in order <==> x in s) && forall i, j :: 0 <= i < j < |order| ==> order[i] != order[j]
  }

  lemma {:induction false} IndexOfIs(symbols: seq<Symbol>, i: nat)
    requires i < |symbols| && forall j :: 0 <= j < i ==> symbols[j].name != symbols[i].name
    ensures IndexOf(symbols, symbols[i].name) == i
  {
  }

  lemma {:induction false} IndexOfGrows(symbols: seq<Symbol>, more: seq<Symbol>, name: string)
    requires Knows(symbols, name) && symbols <= more
    ensures IndexOf(more, name) == IndexOf(symbols, name)
  {
    var i := IndexOf(symbols, name);
    assert more[i] == symbols[i];
    IndexOfIs(more, i);
  }

  predicate NamesDiffer(symbols: seq<Symbol>) {
    forall i, j :: 0 <= i < j < |symbols| ==> symbols[i].name != symbols[j].name
  }

  lemma {:induction false} FirstsNamesDiffer(symbols: seq<Symbol>)
    ensures NamesDiffer(Firsts(symbols))
  {
    if symbols != [] {
      FirstsNamesDiffer(symbols[..|symbols| - 1]);
    }
  }

  lemma {:induction false} IndexOfSnoc(symbols: seq<Symbol>, s: Symbol, name: string)
    ensures IndexOf(symbols + [s], name) ==
            if Knows(symbols, name) || s.name != name
            then IndexOf(symbols, name) + (if Knows(symbols, name) then 0 else 1)
            else |symbols|
  {
    var more := symbols + [s];
    assert forall i :: 0 <= i < |symbols| ==> more[i] == symbols[i];
    var i := IndexOf(symbols, name);
    if i < |symbols| {
      IndexOfIs(more, i);
    } else if s.name == name {
      IndexOfIs(more, i);
    } else {
      assert forall j :: 0 <= j < |more| ==> more[j].name != name;
    }
  }

  /** Both lists know the same name, and for it the same symbol. */
  predicate Agree(a: seq<Symbol>, b: seq<Symbol>, name: string) {
    && (Knows(a, name) <==> Knows(b, name))
    && (Knows(a, name) ==> a[IndexOf(a, name)] == b[IndexOf(b, name)])
  }

  lemma {:induction false} AgreeSnoc(a: seq<Symbol>, b: seq<Symbol>, s: Symbol, name: string)
    requires Agree(a, b, name) && Agree(a, b, s.name)
    ensures Agree(if Knows(a, s.name) then a else a + [s], b + [s], name)
  {
    IndexOfSnoc(a, s, name);
    IndexOfSnoc(b, s, name);
  }

  /** `Firsts` looks a name up as the list itself does. */
  lemma {:induction false} FirstsFind(symbols: seq<Symbol>, name: string)
    ensures Agree(Firsts(symbols), symbols, name)
  {
    if symbols != [] {
      var init, last := symbols[..|symbols| - 1], symbols[|symbols| - 1];
      FirstsFind(init, name);
      FirstsFind(init, last.name);
      AgreeSnoc(Firsts(init), init, last, name);
      assert symbols == init + [last];
    }
  }

  lemma {:induction false} FirstsGrow(symbols: seq<Symbol>, more: seq<Symbol>)
    ensures Firsts(symbols) <= Firsts(symbols + more)
  {
    if more == [] {
      assert symbols + more == symbols;
    } else {
      var init := more[..|more| - 1];
      FirstsGrow(symbols, init);
      assert (symbols + more)[..|symbols + more| - 1] == symbols + init;
    }
  }

  lemma {:induction false} KnowsMember(symbols: seq<Symbol>, s: Symbol)
    requires s in symbols
    ensures Knows(symbols, s.name)
  {
    var i :| 0 <= i < |symbols| && symbols[i] == s;
    assert IndexOf(symbols, s.name) <= i;
  }

  // ---------------------------------------------------------------- arithmetic in 64 bits

  const I64_LIMIT: int := 0x8000_0000_0000_0000
  const BILLION: int := 1_000_000_000

  /** The signed 64-bit value with the same low bits. */
  function AsI64(n: int): (r: int)
    ensures -I64_LIMIT <= r < I64_LIMIT
  {
    (n + I64_LIMIT) % U64_LIMIT - I64_LIMIT
  }

  /** Division towards zero. */
  function TruncDiv(a: int, b: int): int
    requires b != 0
  {
    var q := (if a < 0 then -a else a) / (if b < 0 then -b else b);
    if (a < 0) == (b < 0) then q else -q
  }

  function Magnitude(n: int): nat {
    if n < 0 then -n else n
  }

  /** `q` is `a / b` rounded towards zero: what is left is smaller than `b` and has the sign of `a`. */
  predicate IsQuotient(a: int, b: int, q: int) {
    var left := a - q * b;
    Magnitude(left) < Magnitude(b) && (left == 0 || (left < 0 <==> a < 0))
  }

  lemma {:induction false} TruncDivIs(a: int, b: int)
    requires b != 0
    ensures IsQuotient(a, b, TruncDiv(a, b))
  {
    var m, n := Magnitude(a), Magnitude(b);
    var q := m / n;
    assert m == n * q + m % n;
    Signs(q, b);
  }

  lemma {:induction false} Signs(q: int, b: int)
    ensures q * b == b * q && (-q) * b == -(q * b) && q * (-b) == -(q * b) && (-q) * (-b) == q * b
  {
  }

  /** No two numbers are the quotient. */
  lemma {:induction false} TruncDivIff(a: int, b: int, q: int)
    requires b != 0
    ensures TruncDiv(a, b) == q <==> IsQuotient(a, b, q)
  {
    TruncDivIs(a, b);
    var p := TruncDiv(a, b);
    if IsQuotient(a, b, q) && p != q {
      Apart(p - q, b);
      Shared(p, q, b);
      assert false;
    }
  }

  lemma {:induction false} Shared(p: int, q: int, b: int)
    ensures (p - q) * b == p * b - q * b
  {
  }

  lemma {:induction false} Apart(n: int, b: int)
    requires n != 0
    ensures Magnitude(n * b) >= Magnitude(b)
  {
    Signs(n, b);
    AtLeast(Magnitude(n), Magnitude(b));
  }

  lemma {:induction false} AtLeast(n: nat, b: nat)
    requires n > 0
    ensures n * b >= b
  {
  }

  function Product(count: u64): int {
    AsI64(AsI64(count) * BILLION)
  }

  /** The division that is refused: the quotient does not fit. */
  predicate Refused(count: u64, frequency: int) {
    frequency == 0 || (frequency == -1 && Product(count) == -I64_LIMIT)
  }

  function Nanoseconds(count: u64, frequency: int): int
    requires !Refused(count, frequency)
  {
    TruncDiv(Product(count), frequency)
  }

  lemma {:induction false} Wraps(n: int) returns (k: int)
    ensures AsI64(n) == n - 0x1_0000_0000_0000_0000 * k
  {
    k := (n + I64_LIMIT) / U64_LIMIT;
  }

  lemma {:induction false} ProductWraps(count: u64) returns (k: int)
    ensures Product(count) == count * BILLION - U64_LIMIT * k
    ensures k == 0 <==> count * BILLION < I64_LIMIT
    ensures k >= 0
  {
    var a := Wraps(count);
    var b := Wraps(AsI64(count) * BILLION);
    k := a * BILLION + b;
    var left := AsI64(count) * BILLION;
    assert left == count * BILLION - U64_LIMIT * (a * BILLION) by {
      Distribute(count, U64_LIMIT * a, BILLION);
    }
    assert Product(count) == left - U64_LIMIT * b;
  }

  lemma {:induction false} Distribute(a: int, b: int, c: int)
    ensures (a - b) * c == a * c - b * c
  {
  }

  lemma {:induction false} Larger(a: nat, b: nat, f: nat)
    requires f > 0 && a + f <= b
    ensures a / f < b / f
  {
    var p, q := a / f, b / f;
    assert f * p <= a;
    assert b < f * q + f;
  }

  /**
    The time of a sample is its count at the given frequency exactly when the product fits in 63
    bits. The frequency is any signed 64-bit number but zero; negative ones are accepted too.
  */
  lemma {:induction false} NanosecondsIff(count: u64, frequency: int)
    requires -I64_LIMIT <= frequency < I64_LIMIT && !Refused(count, frequency)
    ensures IsQuotient(count * 1_000_000_000, frequency, Nanoseconds(count, frequency)) <==>
            count * 1_000_000_000 < 0x8000_0000_0000_0000
  {
    TruncDivIff(count * BILLION, frequency, Nanoseconds(count, frequency));
    var k := ProductWraps(count);
    if k > 0 {
      QuotientsDiffer(Product(count), count * BILLION, if frequency < 0 then -frequency else frequency);
    }
  }

  /** A division is refused exactly when there is no quotient, or none that 63 bits and a sign are enough for. */
  lemma {:induction false} RefusedIff(count: u64, frequency: int)
    requires -I64_LIMIT <= frequency < I64_LIMIT
    ensures !Refused(count, frequency) <==>
            exists q :: -0x8000_0000_0000_0000 <= q < 0x8000_0000_0000_0000 && IsQuotient(Product(count), frequency, q)
  {
    var n := Product(count);
    if frequency != 0 {
      var quotient := TruncDiv(n, frequency);
      TruncDivIs(n, frequency);
      Shrinks(n, frequency);
      forall q | IsQuotient(n, frequency, q)
        ensures q == quotient
      {
        TruncDivIff(n, frequency, q);
      }
    }
  }

  lemma {:induction false} Shrinks(n: int, f: int)
    requires f != 0 && -I64_LIMIT <= n < I64_LIMIT
    ensures -I64_LIMIT <= TruncDiv(n, f) < I64_LIMIT <==> !(f == -1 && n == -I64_LIMIT)
  {
    if f == 1 || f == -1 {
      ByOne(Magnitude(n));
    } else {
      Halves(Magnitude(n), Magnitude(f));
    }
  }

  lemma {:induction false} ByOne(n: nat)
    ensures n / 1 == n
  {
  }

  lemma {:induction false} Halves(n: nat, f: nat)
    requires f >= 2
    ensures 0 <= n / f <= n && (n > 0 ==> n / f < n)
  {
    var q := n / f;
    Nonnegative(n, f);
    assert n == f * q + n % f;
    Doubles(q, f);
  }

  lemma {:induction false} Doubles(q: nat, f: nat)
    requires f >= 2
    ensures f * q >= 2 * q
  {
    AtLeast(f - 1, q);
    Shared(f, 1, q);
  }

  lemma {:induction false} QuotientsDiffer(wrapped: int, n: nat, f: int)
    requires 0 < f <= I64_LIMIT && wrapped >= -I64_LIMIT && wrapped + U64_LIMIT <= n
    ensures TruncDiv(wrapped, f) != TruncDiv(n, f)
    ensures TruncDiv(wrapped, -f) != TruncDiv(n, -f)
  {
    if wrapped >= 0 {
      Larger(wrapped, n, f);
    } else {
      Larger(0, n, f);
      assert 0 / f == 0;
      Nonnegative(-wrapped, f);
    }
  }

  lemma {:induction false} Nonnegative(a: nat, f: nat)
    requires f > 0
    ensures a / f >= 0
  {
  }

  // ---------------------------------------------------------------- building the profile

  function At(strings: map<string, nat>, s: string): nat {
    if s in strings then strings[s] else 0
  }

  function FunctionOf(strings: map<string, nat>, id: nat, s: Symbol): Function {
    Function(id, At(strings, s.name), At(strings, s.name), At(strings, s.file))
  }

  function FunctionTable(strings: map<string, nat>, known: seq<Symbol>): (r: seq<Function>)
    ensures |r| == |known|
  {
    seq(|known|, i requires 0 <= i < |known| => FunctionOf(strings, i + 1, known[i]))
  }

  function LocationTable(known: seq<Symbol>): (r: seq<Location>)
    ensures |r| == |known|
  {
    seq(|known|, i requires 0 <= i < |known| => Location(i + 1, [Line(i + 1, known[i].line)]))
  }

  function Ids(known: seq<Symbol>, stack: seq<Symbol>): (r: seq<nat>)
    ensures |r| == |stack|
  {
    seq(|stack|, i requires 0 <= i < |stack| => IndexOf(known, stack[i].name) + 1)
  }

  function SampleOf(known: seq<Symbol>, f: Frame, frequency: int): Sample
    requires !Refused(f.count, frequency)
  {
    Sample(Ids(known, f.stack), [AsI64(f.count), Nanoseconds(f.count, frequency)])
  }

  function Samples(known: seq<Symbol>, frames: seq<Frame>, frequency: int): seq<Sample>
    requires forall f <- frames :: !Refused(f.count, frequency)
  {
    seq(|frames|, i requires 0 <= i < |frames| => SampleOf(known, frames[i], frequency))
  }

  /** `functions`: the number of every known name. */
  ghost predicate Numbers(functions: map<string, nat>, known: seq<Symbol>) {
    forall name :: Numbered(functions, known, name)
  }

  predicate Numbered(functions: map<string, nat>, known: seq<Symbol>, name: string) {
    && (name in functions <==> Knows(known, name))
    && (name in functions ==> functions[name] == IndexOf(known, name) + 1)
  }

  lemma {:induction false} NumbersMore(functions: map<string, nat>, known: seq<Symbol>, s: Symbol)
    requires Numbers(functions, known) && !Knows(known, s.name)
    ensures Numbers(functions[s.name := |known| + 1], known + [s])
  {
    var functions', known' := functions[s.name := |known| + 1], known + [s];
    forall name
      ensures Numbered(functions', known', name)
    {
      assert Numbered(functions, known, name);
      IndexOfSnoc(known, s, name);
    }
  }

  /** The map of the strings of a table to where they stand in it. */
  ghost predicate IndexesTable(strings: map<string, nat>, table: seq<string>) {
    forall x :: (x in strings <==> x in table) && (x in strings ==> strings[x] < |table| && table[strings[x]] == x)
  }

  method IndexStrings(table: seq<string>) returns (strings: map<string, nat>)
    ensures IndexesTable(strings, table)
  {
    strings := map[];
    for i := 0 to |table|
      invariant IndexesTable(strings, table[..i])
    {
      assert table[..i + 1] == table[..i] + [table[i]];
      strings := strings[table[i] := i];
    }
    assert table[..|table|] == table;
  }

  method CollectStrings(frames: seq<Frame>, units: Units) returns (dedup: set<string>)
    ensures dedup == Strings(frames, units)
  {
    dedup := {};
    for f := 0 to |frames|
      invariant dedup == (set s <- Flat(frames[..f]) :: s.name) + (set s <- Flat(frames[..f]) :: s.file)
    {
      var stack := frames[f].stack;
      ghost var before := Flat(frames[..f]);
      for j := 0 to |stack|
        invariant dedup == (set s <- before + stack[..j] :: s.name) + (set s <- before + stack[..j] :: s.file)
      {
        assert before + stack[..j + 1] == (before + stack[..j]) + [stack[j]];
        dedup := dedup + {stack[j].name};
        dedup := dedup + {stack[j].file};
      }
      assert stack[..|stack|] == stack && frames[..f + 1][..f] == frames[..f];
    }
    assert frames[..|frames|] == frames;
    dedup := dedup + {units.samples, units.count, units.cpu, units.nanoseconds};
  }

  /** One symbol: its name enters the tables if it is new. */
  method InternSymbol(symbol: Symbol, strings: map<string, nat>, functions: map<string, nat>,
                      fnTbl: seq<Function>, locTbl: seq<Location>, ghost known: seq<Symbol>)
    returns (id: nat, functions': map<string, nat>, fnTbl': seq<Function>, locTbl': seq<Location>)
    requires symbol.name in strings && symbol.file in strings
    requires Interned(functions, fnTbl, locTbl, strings, known)
    ensures Interned(functions', fnTbl', locTbl', strings,
                     if Knows(known, symbol.name) then known else known + [symbol])
    ensures id == if Knows(known, symbol.name) then IndexOf(known, symbol.name) + 1 else |known| + 1
  {
    functions', fnTbl', locTbl' := functions, fnTbl, locTbl;
    assert Numbered(functions, known, symbol.name);
    if symbol.name in functions {
      return functions[symbol.name], functions', fnTbl', locTbl';
    }
    InternedMore(functions, fnTbl, locTbl, strings, known, symbol);
    var functionId := |fnTbl| + 1;
    functions' := functions[symbol.name := functionId];
    fnTbl' := fnTbl + [Function(functionId, strings[symbol.name], strings[symbol.name], strings[symbol.file])];
    locTbl' := locTbl + [Location(functionId, [Line(functionId, symbol.line)])];
    id := functionId;
  }

  /** One stack: every symbol gives the number of its name. */
  method InternStack(stack: seq<Symbol>, strings: map<string, nat>, functions: map<string, nat>,
                     fnTbl: seq<Function>, locTbl: seq<Location>, ghost before: seq<Symbol>)
    returns (locs: seq<nat>, functions': map<string, nat>, fnTbl': seq<Function>, locTbl': seq<Location>)
    requires forall s <- stack :: s.name in strings && s.file in strings
    requires Interned(functions, fnTbl, locTbl, strings, Firsts(before))
    ensures Interned(functions', fnTbl', locTbl', strings, Firsts(before + stack))
    ensures locs == Ids(Firsts(before + stack), stack)
  {
    locs, functions', fnTbl', locTbl' := [], functions, fnTbl, locTbl;
    assert before + stack[..0] == before;
    ghost var known := Firsts(before);
    for j := 0 to |stack|
      invariant known == Firsts(before + stack[..j])
      invariant Interned(functions', fnTbl', locTbl', strings, known)
      invariant locs == Ids(known, stack[..j])
    {
      NextSymbol(before, stack, j);
      var id;
      id, functions', fnTbl', locTbl' := InternSymbol(stack[j], strings, functions', fnTbl', locTbl', known);
      locs := locs + [id];
      known := Firsts(before + stack[..j + 1]);
    }
    assert stack[..|stack|] == stack;
  }

  ghost predicate Interned(functions: map<string, nat>, fnTbl: seq<Function>, locTbl: seq<Location>,
                           strings: map<string, nat>, known: seq<Symbol>)
  {
    Numbers(functions, known) && fnTbl == FunctionTable(strings, known) && locTbl == LocationTable(known)
  }

  lemma {:induction false} InternedMore(functions: map<string, nat>, fnTbl: seq<Function>, locTbl: seq<Location>,
                     strings: map<string, nat>, known: seq<Symbol>, s: Symbol)
    requires Interned(functions, fnTbl, locTbl, strings, known) && !Knows(known, s.name)
    requires s.name in strings && s.file in strings
    ensures var id := |fnTbl| + 1;
            Interned(functions[s.name := id],
                     fnTbl + [Function(id, strings[s.name], strings[s.name], strings[s.file])],
                     locTbl + [Location(id, [Line(id, s.line)])], strings, known + [s])
    ensures |fnTbl| == |known|
  {
    NumbersMore(functions, known, s);
  }

  /** The next symbol of a stack: the known names grow by its name, if at all, and keep their numbers. */
  lemma {:induction false} NextSymbol(before: seq<Symbol>, stack: seq<Symbol>, j: nat)
    requires j < |stack|
    ensures var known, s := Firsts(before + stack[..j]), stack[j];
            && Firsts(before + stack[..j + 1]) == (if Knows(known, s.name) then known else known + [s])
            && Ids(Firsts(before + stack[..j + 1]), stack[..j + 1]) == Ids(known, stack[..j]) +
                 [if Knows(known, s.name) then IndexOf(known, s.name) + 1 else |known| + 1]
  {
    var known, s := Firsts(before + stack[..j]), stack[j];
    var more := before + stack[..j + 1];
    assert more[..|more| - 1] == before + stack[..j];
    IdsGrow(before + stack[..j], Firsts(more), stack[..j]);
    IndexOfSnoc(known, s, s.name);
    assert stack[..j + 1] == stack[..j] + [s];
  }

  lemma {:induction false} IdsGrow(symbols: seq<Symbol>, more: seq<Symbol>, stack: seq<Symbol>)
    requires (forall s <- stack :: s in symbols) && Firsts(symbols) <= more
    ensures Ids(more, stack) == Ids(Firsts(symbols), stack)
  {
    forall i | 0 <= i < |stack|
      ensures IndexOf(more, stack[i].name) == IndexOf(Firsts(symbols), stack[i].name)
    {
      KnowsMember(symbols, stack[i]);
      FirstsFind(symbols, stack[i].name);
      IndexOfGrows(Firsts(symbols), more, stack[i].name);
    }
  }

  function Text(p: Pprof, i: nat): Option<string> {
    if i < |p.stringTable| then Some(p.stringTable[i]) else None
  }

  predicate FunctionMeans(p: Pprof, f: Function, id: nat, s: Symbol) {
    f.id == id && Text(p, f.name) == Text(p, f.systemName) == Some(s.name) && Text(p, f.filename) == Some(s.file)
  }

  predicate TypeMeans(p: Pprof, t: ValueType, kind: string, unit: string) {
    Text(p, t.fieldType) == Some(kind) && Text(p, t.unit) == Some(unit)
  }

  predicate FunctionsMean(p: Pprof, known: seq<Symbol>) {
    |p.function_| == |known| && forall i :: 0 <= i < |known| ==> FunctionMeans(p, p.function_[i], i + 1, known[i])
  }

  predicate UnitsMean(p: Pprof, units: Units) {
    && |p.sampleType| == 2
    && TypeMeans(p, p.sampleType[0], units.samples, units.count)
    && TypeMeans(p, p.sampleType[1], units.cpu, units.nanoseconds)
    && p.periodType == p.sampleType[1]
  }

  /** The profile of `frames`: one function and one location for each name, one sample for each frame. */
  predicate Describes(p: Pprof, frames: seq<Frame>, units: Units, frequency: int)
    requires frequency != 0 && forall f <- frames :: !Refused(f.count, frequency)
  {
    var known := Firsts(Flat(frames));
    && p.stringTable != [] && p.stringTable[0] == ""
    && FunctionsMean(p, known)
    && p.location == LocationTable(known)
    && p.sample == Samples(known, frames, frequency)
    && UnitsMean(p, units)
    && IsQuotient(1_000_000_000, frequency, p.period)
  }

  /** `order` stands for the order in which the hash set lists its strings; `None` is a refused division. */
  method BuildProfile(frames: seq<Frame>, units: Units, frequency: int, order: seq<string>) returns (r: Option<Pprof>)
    requires Enumerates(order, Strings(frames, units))
    ensures r.None? <==> frequency == 0 || exists f <- frames :: Refused(f.count, frequency)
    ensures r.Some? ==> r.value.stringTable == [""] + order && Describes(r.value, frames, units, frequency)
  {
    var dedup := CollectStrings(frames, units);
    var strTbl := [""] + order;
    var strings := IndexStrings(strTbl);
    assert forall x <- dedup :: x in strings;

    var samples := [];
    var functions := map[];
    var fnTbl, locTbl := [], [];
    for f := 0 to |frames|
      invariant forall g <- frames[..f] :: !Refused(g.count, frequency)
      invariant Interned(functions, fnTbl, locTbl, strings, Firsts(Flat(frames[..f])))
      invariant samples == Samples(Firsts(Flat(frames[..f])), frames[..f], frequency)
    {
      var frame := frames[f];
      ghost var before := Flat(frames[..f]);
      AllCollected(frames, units, f);
      var locs;
      locs, functions, fnTbl, locTbl := InternStack(frame.stack, strings, functions, fnTbl, locTbl, before);
      if Refused(frame.count, frequency) {
        assert frame in frames;
        return None;
      }
      samples := samples + [Sample(locs, [AsI64(frame.count), Nanoseconds(frame.count, frequency)])];
      NextFrame(frames, f, frequency);
    }
    assert frames[..|frames|] == frames;
    if frequency == 0 {
      return None;
    }
    var samplesValue := ValueType(strings[units.samples], strings[units.count]);
    var timeValue := ValueType(strings[units.cpu], strings[units.nanoseconds]);
    var p := Pprof([samplesValue, timeValue], samples, strTbl, fnTbl, locTbl, timeValue, TruncDiv(BILLION, frequency));
    TablesMean(p, frames, units, strings, functions);
    TruncDivIs(BILLION, frequency);
    r := Some(p);
  }

  lemma {:induction false} AllCollected(frames: seq<Frame>, units: Units, f: nat)
    requires f < |frames|
    ensures forall s <- frames[f].stack :: s.name in Strings(frames, units) && s.file in Strings(frames, units)
  {
    forall s | s in frames[f].stack
      ensures s in Flat(frames)
    {
      InFlat(frames, f, s);
    }
  }

  lemma {:induction false} InFlat(frames: seq<Frame>, f: nat, s: Symbol)
    requires f < |frames| && s in frames[f].stack
    ensures s in Flat(frames)
  {
    if f < |frames| - 1 {
      InFlat(frames[..|frames| - 1], f, s);
    }
  }

  /** A further frame leaves the samples before it as they are. */
  lemma {:induction false} NextFrame(frames: seq<Frame>, f: nat, frequency: int)
    requires f < |frames| && forall g <- frames[..f + 1] :: !Refused(g.count, frequency)
    ensures Flat(frames[..f + 1]) == Flat(frames[..f]) + frames[f].stack
    ensures Samples(Firsts(Flat(frames[..f + 1])), frames[..f + 1], frequency)
         == Samples(Firsts(Flat(frames[..f])), frames[..f], frequency)
            + [SampleOf(Firsts(Flat(frames[..f + 1])), frames[f], frequency)]
  {
    var before, after := Flat(frames[..f]), Flat(frames[..f + 1]);
    assert frames[..f + 1][..f] == frames[..f];
    SameIds(frames, f);
    assert frames[..f + 1] == frames[..f] + [frames[f]];
    SamplesSnoc(Firsts(before), Firsts(after), frames[..f], frames[f], frequency);
  }

  lemma {:induction false} SameIds(frames: seq<Frame>, f: nat)
    requires f < |frames| && Flat(frames[..f + 1]) == Flat(frames[..f]) + frames[f].stack
    ensures forall g <- frames[..f] ::
              Ids(Firsts(Flat(frames[..f + 1])), g.stack) == Ids(Firsts(Flat(frames[..f])), g.stack)
  {
    var before, after := Flat(frames[..f]), Flat(frames[..f + 1]);
    FirstsGrow(before, frames[f].stack);
    forall g | g in frames[..f]
      ensures Ids(Firsts(after), g.stack) == Ids(Firsts(before), g.stack)
    {
      var i :| 0 <= i < f && frames[..f][i] == g;
      forall s | s in g.stack
        ensures s in before
      {
        InFlat(frames[..f], i, s);
      }
      IdsGrow(before, Firsts(after), g.stack);
    }
  }

  lemma {:induction false} SamplesSnoc(known: seq<Symbol>, more: seq<Symbol>, frames: seq<Frame>, f: Frame,
      frequency: int)
    requires !Refused(f.count, frequency) && forall g <- frames :: !Refused(g.count, frequency)
    requires forall g <- frames :: Ids(more, g.stack) == Ids(known, g.stack)
    ensures Samples(more, frames + [f], frequency)
         == Samples(known, frames, frequency) + [SampleOf(more, f, frequency)]
  {
    var all := Samples(more, frames + [f], frequency);
    forall i | 0 <= i < |frames|
      ensures all[i] == Samples(known, frames, frequency)[i]
    {
      assert frames[i] in frames;
    }
  }

  lemma {:induction false} TablesMean(p: Pprof, frames: seq<Frame>, units: Units, strings: map<string, nat>,
      functions: map<string, nat>)
    requires IndexesTable(strings, p.stringTable) && forall x <- Strings(frames, units) :: x in strings
    requires p.function_ == FunctionTable(strings, Firsts(Flat(frames)))
    requires p.periodType == ValueType(strings[units.cpu], strings[units.nanoseconds])
    requires p.sampleType == [ValueType(strings[units.samples], strings[units.count]), p.periodType]
    ensures FunctionsMean(p, Firsts(Flat(frames))) && UnitsMean(p, units)
  {
    var known := Firsts(Flat(frames));
    forall i | 0 <= i < |known|
      ensures FunctionMeans(p, p.function_[i], i + 1, known[i])
    {
      FirstsIn(Flat(frames), known[i]);
    }
  }

  lemma {:induction false} FirstsIn(symbols: seq<Symbol>, s: Symbol)
    requires s in Firsts(symbols)
    ensures s in symbols
  {
    if symbols != [] && s in Firsts(symbols[..|symbols| - 1]) {
      FirstsIn(symbols[..|symbols| - 1], s);
    }
  }

  // ---------------------------------------------------------------- reading the profile

  /** What a reader of the profile makes of a location: everything is looked up by its id. */
  function FindLocation(locations: seq<Location>, id: nat): Option<Location> {
    if locations == [] then None
    else if locations[0].id == id then Some(locations[0])
    else FindLocation(locations[1..], id)
  }

  function FindFunction(functions: seq<Function>, id: nat): Option<Function> {
    if functions == [] then None
    else if functions[0].id == id then Some(functions[0])
    else FindFunction(functions[1..], id)
  }

  function SymbolAt(p: Pprof, id: nat): Option<Symbol> {
    match FindLocation(p.location, id)
    case None => None
    case Some(loc) =>
      if loc.lines == [] then None
      else
        match FindFunction(p.function_, loc.lines[0].functionId)
        case None => None
        case Some(f) =>
          if Text(p, f.name).None? || Text(p, f.filename).None? then None
          else Some(Symbol(Text(p, f.name).value, Text(p, f.filename).value, loc.lines[0].line))
  }

  lemma {:induction false} LocationFound(locations: seq<Location>, first: nat, i: nat)
    requires i < |locations| && forall j :: 0 <= j < |locations| ==> locations[j].id == first + j
    ensures FindLocation(locations, first + i) == Some(locations[i])
  {
    if i > 0 {
      LocationFound(locations[1..], first + 1, i - 1);
    }
  }

  lemma {:induction false} FunctionFound(functions: seq<Function>, first: nat, i: nat)
    requires i < |functions| && forall j :: 0 <= j < |functions| ==> functions[j].id == first + j
    ensures FindFunction(functions, first + i) == Some(functions[i])
  {
    if i > 0 {
      FunctionFound(functions[1..], first + 1, i - 1);
    }
  }

  lemma {:induction false} NumberRead(p: Pprof, known: seq<Symbol>, i: nat)
    requires FunctionsMean(p, known) && p.location == LocationTable(known) && i < |known|
    ensures SymbolAt(p, i + 1) == Some(known[i])
  {
    LocationFound(p.location, 1, i);
    FunctionFound(p.function_, 1, i);
    assert FunctionMeans(p, p.function_[i], i + 1, known[i]);
  }

  /** Ids are 1 to n, in the functions and in the locations alike, and no two functions have the same name. */
  lemma {:induction false} TablesAreSound(p: Pprof, frames: seq<Frame>, units: Units, frequency: int)
    requires frequency != 0 && forall f <- frames :: !Refused(f.count, frequency)
    requires Describes(p, frames, units, frequency)
    ensures |p.function_| == |p.location|
    ensures forall i :: 0 <= i < |p.function_| ==> p.function_[i].id == p.location[i].id == i + 1
    ensures forall i, j :: 0 <= i < j < |p.function_| ==> Text(p, p.function_[i].name) != Text(p, p.function_[j].name)
  {
    var known := Firsts(Flat(frames));
    FirstsNamesDiffer(Flat(frames));
    assert forall i :: 0 <= i < |known| ==> FunctionMeans(p, p.function_[i], i + 1, known[i]);
  }

  /** A sample has the count of its frame and, if 63 bits are enough for it, the time that it took. */
  lemma {:induction false} SampleValues(p: Pprof, frames: seq<Frame>, units: Units, frequency: int, i: nat)
    requires frequency != 0 && forall f <- frames :: !Refused(f.count, frequency)
    requires Describes(p, frames, units, frequency) && i < |frames|
    requires -0x8000_0000_0000_0000 <= frequency < 0x8000_0000_0000_0000
    ensures |p.sample| == |frames| && |p.sample[i].value| == 2
    ensures p.sample[i].value[0] == frames[i].count <==> frames[i].count < 0x8000_0000_0000_0000
    ensures IsQuotient(frames[i].count * 1_000_000_000, frequency, p.sample[i].value[1]) <==>
            frames[i].count * 1_000_000_000 < 0x8000_0000_0000_0000
  {
    var count := frames[i].count;
    assert frames[i] in frames && p.sample[i] == SampleOf(Firsts(Flat(frames)), frames[i], frequency);
    NanosecondsIff(count, frequency);
    var k := Wraps(count);
  }

  /** The symbol that stands for all of its name. */
  function Namesake(frames: seq<Frame>, s: Symbol): Symbol
    requires s in Flat(frames)
  {
    KnowsMember(Flat(frames), s);
    Flat(frames)[IndexOf(Flat(frames), s.name)]
  }

  /** Every symbol of every stack reads back, in order, as the first symbol of its name. */
  lemma {:induction false} StacksReadBack(p: Pprof, frames: seq<Frame>, units: Units, frequency: int, f: nat, j: nat)
    requires frequency != 0 && forall f <- frames :: !Refused(f.count, frequency)
    requires Describes(p, frames, units, frequency)
    requires f < |frames| && j < |frames[f].stack|
    ensures |p.sample| == |frames| && |p.sample[f].locationId| == |frames[f].stack|
    ensures frames[f].stack[j] in Flat(frames)
    ensures SymbolAt(p, p.sample[f].locationId[j]) == Some(Namesake(frames, frames[f].stack[j]))
    ensures SymbolAt(p, p.sample[f].locationId[j]).value.name == frames[f].stack[j].name
  {
    var s := frames[f].stack[j];
    InFlat(frames, f, s);
    KnowsMember(Flat(frames), s);
    FirstsFind(Flat(frames), s.name);
    NumberRead(p, Firsts(Flat(frames)), IndexOf(Firsts(Flat(frames)), s.name));
  }

  /** Every symbol of every stack reads back whole. */
  ghost predicate AllReadBack(p: Pprof, frames: seq<Frame>) {
    forall f, j :: 0 <= f < |frames| && 0 <= j < |frames[f].stack| ==> ReadsBack(p, frames, f, j)
  }

  predicate ReadsBack(p: Pprof, frames: seq<Frame>, f: nat, j: nat)
    requires f < |frames| && j < |frames[f].stack|
  {
    && f < |p.sample| && j < |p.sample[f].locationId|
    && SymbolAt(p, p.sample[f].locationId[j]) == Some(frames[f].stack[j])
  }

  lemma {:induction false} FlatFrom(frames: seq<Frame>, s: Symbol) returns (f: nat, j: nat)
    requires s in Flat(frames)
    ensures f < |frames| && j < |frames[f].stack| && frames[f].stack[j] == s
  {
    var last := |frames| - 1;
    if s in frames[last].stack {
      f := last;
      j :| 0 <= j < |frames[last].stack| && frames[last].stack[j] == s;
    } else {
      f, j := FlatFrom(frames[..last], s);
    }
  }

  predicate NamesDetermine(symbols: seq<Symbol>) {
    forall s <- symbols, t <- symbols :: s.name == t.name ==> s == t
  }

  /** So files and lines survive exactly when no two symbols share a name but not a file or line. */
  lemma {:induction false} AllReadBackIff(p: Pprof, frames: seq<Frame>, units: Units, frequency: int)
    requires frequency != 0 && forall f <- frames :: !Refused(f.count, frequency)
    requires Describes(p, frames, units, frequency)
    ensures AllReadBack(p, frames) <==> NamesDetermine(Flat(frames))
  {
    if NamesDetermine(Flat(frames)) {
      forall f, j | 0 <= f < |frames| && 0 <= j < |frames[f].stack|
        ensures ReadsBack(p, frames, f, j)
      {
        StacksReadBack(p, frames, units, frequency, f, j);
        assert Namesake(frames, frames[f].stack[j]) in Flat(frames);
      }
    }
    if AllReadBack(p, frames) {
      forall s, t | s in Flat(frames) && t in Flat(frames) && s.name == t.name
        ensures s == t
      {
        NamesakeIs(p, frames, units, frequency, s);
        NamesakeIs(p, frames, units, frequency, t);
      }
    }
  }

  lemma {:induction false} NamesakeIs(p: Pprof, frames: seq<Frame>, units: Units, frequency: int, s: Symbol)
    requires frequency != 0 && forall f <- frames :: !Refused(f.count, frequency)
    requires Describes(p, frames, units, frequency) && AllReadBack(p, frames) && s in Flat(frames)
    ensures Namesake(frames, s) == s
  {
    var f, j := FlatFrom(frames, s);
    StacksReadBack(p, frames, units, frequency, f, j);
    assert ReadsBack(p, frames, f, j);
  }
}
