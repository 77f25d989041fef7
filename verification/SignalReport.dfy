/** The signal profiler's report: how often each stack was sampled, and the profile made of it. */
module SignalReport {
  import opened Options
  import opened Interning

  const UNITS := Units("samples", "count", "cpu", "nanoseconds")

  /** Every stack in `m` as often as it is there. */
  ghost predicate Tallies(data: map<seq<Symbol>, nat>, m: multiset<seq<Symbol>>) {
    forall f :: (f in data <==> f in m) && (f in data ==> data[f] == m[f])
  }

  /** `frames` is one of the orders in which the hash map may list its entries. */
  ghost predicate Lists(frames: seq<Frame>, data: map<seq<Symbol>, nat>) {
    && (forall f <- frames :: f.stack in data && f.count == data[f.stack])
    && (forall stack <- data :: exists f <- frames :: f.stack == stack)
    && (forall i, j :: 0 <= i < j < |frames| ==> frames[i].stack != frames[j].stack)
  }

  class Report {
    var data: map<seq<Symbol>, nat>
    ghost var recorded: multiset<seq<Symbol>>

    ghost predicate Valid()
      reads this
    {
      Tallies(data, recorded)
    }

    constructor ()
      ensures Valid() && recorded == multiset{}
    {
      data := map[];
      recorded := multiset{};
    }

    method Record(frame: seq<Symbol>)
      requires Valid()
      modifies this
      ensures Valid() && recorded == old(recorded) + multiset{frame}
    {
      if frame in data {
        data := data[frame := data[frame] + 1];
      } else {
        data := data[frame := 1];
      }
      recorded := recorded + multiset{frame};
    }

    method Pprof(frequency: int, frames: seq<Frame>, order: seq<string>) returns (r: Option<Pprof>)
      requires Valid() && Lists(frames, data) && Enumerates(order, Strings(frames, UNITS))
      ensures r.None? <==> frequency == 0 || exists f <- frames :: Refused(f.count, frequency)
      ensures r.Some? ==> Describes(r.value, frames, UNITS, frequency)
    {
      r := BuildProfile(frames, UNITS, frequency, order);
    }
  }

  /** What the values of the samples are called. */
  lemma {:induction false} UnitsRead(p: Pprof, frames: seq<Frame>, frequency: int)
    requires frequency != 0 && forall f <- frames :: !Refused(f.count, frequency)
    requires Describes(p, frames, UNITS, frequency)
    ensures |p.sampleType| == 2
    ensures Text(p, p.sampleType[0].fieldType) == Some("samples") && Text(p, p.sampleType[0].unit) == Some("count")
    ensures Text(p, p.sampleType[1].fieldType) == Some("cpu") && Text(p, p.sampleType[1].unit) == Some("nanoseconds")
    ensures p.periodType == p.sampleType[1]
  {
  }

  function TotalValue(samples: seq<Sample>): int {
    if samples == [] then 0
    else TotalValue(samples[..|samples| - 1]) + (var v := samples[|samples| - 1].value; if v == [] then 0 else v[0])
  }

  /** However the map is listed, the counts add up to the number of stacks recorded. */
  lemma {:induction false} CountsAddUp(data: map<seq<Symbol>, nat>, m: multiset<seq<Symbol>>, frames: seq<Frame>)
    requires Tallies(data, m) && Lists(frames, data)
    ensures TotalCount(frames) == |m|
  {
    if frames == [] {
      assert forall stack :: stack !in data;
      assert m == multiset{};
    } else {
      var last := frames[|frames| - 1];
      ListsFewer(data, frames);
      TalliesFewer(data, m, last.stack);
      assert last in frames;
      CountsAddUp(data - {last.stack}, m[last.stack := 0], frames[..|frames| - 1]);
    }
  }

  lemma {:induction false} ListsFewer(data: map<seq<Symbol>, nat>, frames: seq<Frame>)
    requires frames != [] && Lists(frames, data)
    ensures Lists(frames[..|frames| - 1], data - {frames[|frames| - 1].stack})
  {
    var last := frames[|frames| - 1];
    var init := frames[..|frames| - 1];
    forall i | 0 <= i < |init|
      ensures init[i].stack in data - {last.stack} && init[i].count == (data - {last.stack})[init[i].stack]
    {
      assert init[i] == frames[i] && frames[i] in frames && frames[i].stack != last.stack;
    }
    forall stack | stack in data - {last.stack}
      ensures exists f <- init :: f.stack == stack
    {
      var f :| f in frames && f.stack == stack;
      var i :| 0 <= i < |frames| && frames[i] == f;
      assert init[i] == f && f in init;
    }
  }

  lemma {:induction false} TalliesFewer(data: map<seq<Symbol>, nat>, m: multiset<seq<Symbol>>, stack: seq<Symbol>)
    requires Tallies(data, m)
    ensures Tallies(data - {stack}, m[stack := 0])
    ensures stack in data ==> |m[stack := 0]| == |m| - data[stack]
  {
  }

  /** The sample counts of a profile add up to the number of stacks recorded, as long as they fit in 63 bits. */
  lemma {:induction false} SamplesAddUp(p: Pprof, frequency: int, data: map<seq<Symbol>, nat>,
      m: multiset<seq<Symbol>>, frames: seq<Frame>)
    requires Tallies(data, m) && Lists(frames, data)
    requires frequency != 0 && forall f <- frames :: !Refused(f.count, frequency)
    requires Describes(p, frames, UNITS, frequency)
    requires forall f <- frames :: f.count < I64_LIMIT
    ensures TotalValue(p.sample) == |m|
  {
    CountsAddUp(data, m, frames);
    ValuesAddUp(Firsts(Flat(frames)), frames, frequency);
  }

  lemma {:induction false} ValuesAddUp(known: seq<Symbol>, frames: seq<Frame>, frequency: int)
    requires forall f <- frames :: !Refused(f.count, frequency) && f.count < I64_LIMIT
    ensures TotalValue(Samples(known, frames, frequency)) == TotalCount(frames)
  {
    if frames != [] {
      var init, last := frames[..|frames| - 1], frames[|frames| - 1];
      ValuesAddUp(known, init, frequency);
      var samples := Samples(known, frames, frequency);
      assert samples[..|samples| - 1] == Samples(known, init, frequency);
      SmallAsI64(last.count);
    }
  }

  lemma {:induction false} SmallAsI64(n: nat)
    requires n < I64_LIMIT
    ensures AsI64(n) == n
  {
  }
}
