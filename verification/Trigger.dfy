/** Time stamps of seconds and nanoseconds, and the statistics that a trigger keeps of its passes. */
module Timespecs {
  const NSEC_PER_SEC := 1_000_000_000

  /** Division and remainder of C, which truncate towards zero. */
  function CDiv(a: int, b: int): int
    requires b > 0
  {
    if a >= 0 then a / b else -(-a / b)
  }

  function CRem(a: int, b: int): (r: int)
    requires b > 0
    ensures a == CDiv(a, b) * b + r && -b < r < b && (a >= 0 ==> r >= 0) && (a <= 0 ==> r <= 0)
  {
    if a >= 0 then a % b else -(-a % b)
  }

  /** The time in nanoseconds. */
  function Nanos(sec: int, nsec: int): int {
    sec * NSEC_PER_SEC + nsec
  }

  /** Less than a second of nanoseconds, and no opposite signs. */
  predicate IsNormal(sec: int, nsec: int) {
    -NSEC_PER_SEC < nsec < NSEC_PER_SEC && !(sec > 0 && nsec < 0) && !(sec < 0 && nsec > 0)
  }

  /** A time has one normal form. */
  lemma NormalIsUnique(sec: int, nsec: int, sec': int, nsec': int)
    requires IsNormal(sec, nsec) && IsNormal(sec', nsec') && Nanos(sec, nsec) == Nanos(sec', nsec')
    ensures sec == sec' && nsec == nsec'
  {}

  class UbxTimespec {
    var sec: int
    var nsec: int

    constructor (sec: int, nsec: int)
      ensures this.sec == sec && this.nsec == nsec
    {
      this.sec, this.nsec := sec, nsec;
    }

    function Time(): int
      reads this
    {
      Nanos(sec, nsec)
    }

    predicate Normal()
      reads this
    {
      IsNormal(sec, nsec)
    }
  }

  /** The order of two time stamps. */
  method UbxTsCmp(ts1: UbxTimespec, ts2: UbxTimespec) returns (r: int)
    ensures ts1.Normal() && ts2.Normal() ==>
              r == if ts1.Time() > ts2.Time() then 1 else if ts1.Time() < ts2.Time() then -1 else 0
    ensures r == 0 <==> ts1.sec == ts2.sec && ts1.nsec == ts2.nsec
  {
    if ts1.sec > ts2.sec {
      return 1;
    } else if ts1.sec < ts2.sec {
      return -1;
    } else if ts1.nsec > ts2.nsec {
      return 1;
    } else if ts1.nsec < ts2.nsec {
      return -1;
    } else {
      return 0;
    }
  }

  /** The same time, in normal form. */
  method UbxTsNorm(ts: UbxTimespec)
    modifies ts
    ensures ts.Time() == old(ts.Time()) && ts.Normal()
  {
    if ts.nsec >= NSEC_PER_SEC {
      ts.sec := ts.sec + CDiv(ts.nsec, NSEC_PER_SEC);
      ts.nsec := CRem(ts.nsec, NSEC_PER_SEC);
    }
    // a divisor of either sign leaves the same remainder
    if ts.nsec <= -NSEC_PER_SEC {
      ts.sec := ts.sec + CDiv(ts.nsec, NSEC_PER_SEC);
      ts.nsec := CRem(ts.nsec, NSEC_PER_SEC);
    }
    if ts.sec > 0 && ts.nsec < 0 {
      ts.sec := ts.sec - 1;
      ts.nsec := ts.nsec + NSEC_PER_SEC;
    }
    if ts.sec < 0 && ts.nsec > 0 {
      ts.sec := ts.sec + 1;
      ts.nsec := ts.nsec - NSEC_PER_SEC;
    }
  }

  /** The difference; out may be one of the operands. */
  method UbxTsSub(ts1: UbxTimespec, ts2: UbxTimespec, out: UbxTimespec)
    modifies out
    ensures out.Time() == old(ts1.Time()) - old(ts2.Time()) && out.Normal()
  {
    out.sec := ts1.sec - ts2.sec;
    out.nsec := ts1.nsec - ts2.nsec;
    UbxTsNorm(out);
  }

  /** The sum; out may be one of the operands. */
  method UbxTsAdd(ts1: UbxTimespec, ts2: UbxTimespec, out: UbxTimespec)
    modifies out
    ensures out.Time() == old(ts1.Time()) + old(ts2.Time()) && out.Normal()
  {
    out.sec := ts1.sec + ts2.sec;
    out.nsec := ts1.nsec + ts2.nsec;
    UbxTsNorm(out);
  }
}

/** The trigger block. */
module Trigger {
  import opened Timespecs

  /** A pass over the trigger list: the clock before and after, how many steps each entry asks for, and which
      steps fail. */
  datatype Pass = Pass(startSec: int, startNsec: int, endSec: int, endNsec: int, numSteps: seq<nat>,
                       fails: set<(nat, nat)>)

  /** Step k of entry i fails. */
  predicate Fails(pass: Pass, i: nat, k: nat) {
    (i, k) in pass.fails
  }

  ghost predicate Completes(pass: Pass) {
    forall i, k {:trigger Fails(pass, i, k)} :: 0 <= i < |pass.numSteps| && 0 <= k < pass.numSteps[i] ==>
      !Fails(pass, i, k)
  }

  function Duration(pass: Pass): int {
    Nanos(pass.endSec, pass.endNsec) - Nanos(pass.startSec, pass.startNsec)
  }

  class TrigInf {
    const min: UbxTimespec
    const max: UbxTimespec
    const total: UbxTimespec
    var cnt: nat

    /** The durations of the completed passes. */
    ghost var durations: seq<int>

    ghost predicate Valid()
      reads this, min, max, total
    {
      && min != max && min != total && max != total
      && min.Normal() && max.Normal() && total.Normal()
      && cnt == |durations| && total.Time() == Sum(durations)
      && min.Time() == Least(durations) && max.Time() == Greatest(durations)
    }

    constructor TrigInit()
      ensures Valid() && durations == [] && fresh(min) && fresh(max) && fresh(total)
    {
      min := new UbxTimespec(999999999, 999999999);
      max := new UbxTimespec(0, 0);
      total := new UbxTimespec(0, 0);
      cnt := 0;
      durations := [];
    }

    /** Triggers the blocks; a pass that completes is counted and measured. */
    method DoTrigger(pass: Pass) returns (ret: int)
      requires Valid()
      modifies this, min, max, total
      ensures Valid()
      ensures ret == 0 <==> Completes(pass)
      ensures durations == old(durations) + if Completes(pass) then [Duration(pass)] else []
    {
      ret := -1;
      for i := 0 to |pass.numSteps|
        invariant forall m, k {:trigger Fails(pass, m, k)} :: 0 <= m < i && 0 <= k < pass.numSteps[m] ==>
          !Fails(pass, m, k)
      {
        for steps := 0 to pass.numSteps[i]
          invariant forall k :: 0 <= k < steps ==> !Fails(pass, i, k)
        {
          if Fails(pass, i, steps) {
            return;
          }
        }
      }
      Measure(pass);
      ret := 0;
    }

    method Measure(pass: Pass)
      requires Valid()
      modifies this, min, max, total
      ensures Valid() && durations == old(durations) + [Duration(pass)]
    {
      hide Sum, Least, Greatest, IsNormal;
      var start := new UbxTimespec(pass.startSec, pass.startNsec);
      var end := new UbxTimespec(pass.endSec, pass.endNsec);
      var dur := new UbxTimespec(0, 0);
      UbxTsSub(end, start, dur);
      Record(dur);
    }

    /** Enters a duration into the statistics. */
    method Record(dur: UbxTimespec)
      requires Valid() && dur.Normal() && dur != min && dur != max && dur != total
      modifies this, min, max, total
      ensures Valid() && durations == old(durations) + [dur.Time()]
    {
      hide Sum, Least, Greatest, IsNormal, Nanos;
      OneMore(durations, dur.Time());
      Shorter(dur);
      Longer(dur);
      UbxTsAdd(total, dur, total);
      cnt := cnt + 1;
      durations := durations + [dur.Time()];
    }

    method Shorter(dur: UbxTimespec)
      requires min.Normal() && dur.Normal() && dur != min
      modifies min
      ensures min.Normal() && min.Time() == if dur.Time() < old(min.Time()) then dur.Time() else old(min.Time())
    {
      var c := UbxTsCmp(dur, min);
      if c == -1 {
        min.sec, min.nsec := dur.sec, dur.nsec;
      }
    }

    method Longer(dur: UbxTimespec)
      requires max.Normal() && dur.Normal() && dur != max
      modifies max
      ensures max.Normal() && max.Time() == if dur.Time() > old(max.Time()) then dur.Time() else old(max.Time())
    {
      var c := UbxTsCmp(dur, max);
      if c == 1 {
        max.sec, max.nsec := dur.sec, dur.nsec;
      }
    }
  }

  function Sum(ds: seq<int>): int {
    if ds == [] then 0 else Sum(ds[..|ds| - 1]) + ds[|ds| - 1]
  }

  /** The least of the durations and the initial value. */
  function Least(ds: seq<int>): (m: int)
    ensures m <= Nanos(999999999, 999999999) && forall d :: d in ds ==> m <= d
    ensures m == Nanos(999999999, 999999999) || m in ds
  {
    if ds == [] then Nanos(999999999, 999999999)
    else
      var m, d := Least(ds[..|ds| - 1]), ds[|ds| - 1];
      assert ds == ds[..|ds| - 1] + [d];
      if d < m then d else m
  }

  /** The greatest of the durations and zero. */
  function Greatest(ds: seq<int>): (m: int)
    ensures m >= 0 && forall d :: d in ds ==> m >= d
    ensures m == 0 || m in ds
  {
    if ds == [] then 0
    else
      var m, d := Greatest(ds[..|ds| - 1]), ds[|ds| - 1];
      assert ds == ds[..|ds| - 1] + [d];
      if d > m then d else m
  }

  lemma OneMore(ds: seq<int>, d: int)
    ensures Sum(ds + [d]) == Sum(ds) + d
    ensures Least(ds + [d]) == if d < Least(ds) then d else Least(ds)
    ensures Greatest(ds + [d]) == if d > Greatest(ds) then d else Greatest(ds)
  {
    assert (ds + [d])[..|ds|] == ds;
  }

  /** The durations of the passes that complete. */
  ghost function Completed(passes: seq<Pass>): seq<int> {
    if passes == [] then []
    else Completed(passes[..|passes| - 1]) +
         if Completes(passes[|passes| - 1]) then [Duration(passes[|passes| - 1])] else []
  }

  /** Over any run, the statistics are those of the passes that completed. */
  method Run(passes: seq<Pass>) returns (inf: TrigInf)
    ensures fresh(inf) && inf.Valid() && inf.durations == Completed(passes)
    ensures inf.cnt == |Completed(passes)| && inf.total.Time() == Sum(Completed(passes))
  {
    inf := new TrigInf.TrigInit();
    for i := 0 to |passes|
      invariant fresh(inf) && fresh(inf.min) && fresh(inf.max) && fresh(inf.total)
      invariant inf.Valid() && inf.durations == Completed(passes[..i])
    {
      var ret := inf.DoTrigger(passes[i]);
      assert passes[..i + 1][..i] == passes[..i];
    }
    assert passes[..|passes|] == passes;
  }

  /** The minimum is that of the durations exactly if one of them is within the initial value, and the maximum
      exactly if one of them is not negative; otherwise the initial values remain. */
  lemma TrueExtrema(ds: seq<int>)
    ensures Least(ds) in ds <==> exists d :: d in ds && d <= Nanos(999999999, 999999999)
    ensures Greatest(ds) in ds <==> exists d :: d in ds && d >= 0
  {
    if d :| d in ds && d <= Nanos(999999999, 999999999) {
      assert Least(ds) <= d;
    }
    if d :| d in ds && d >= 0 {
      assert Greatest(ds) >= d;
    }
  }
}
