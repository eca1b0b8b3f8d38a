/**
 * The experimental modal analysis object as far as it keeps its
 * measurements and lists their signal names.
 */
module Ema {
  import opened Wrappers
  import opened Measurement

  /** The names of one measurement: excitation names, then response names. */
  function NamesOf<S>(m: Measurement<S>): seq<string>
  {
    GetNames(m).0 + GetNames(m).1
  }

  /** The names of every measurement in list order. */
  function AllNames<S>(ms: seq<Measurement<S>>): seq<string>
  {
    if ms == [] then [] else AllNames(ms[..|ms| - 1]) + NamesOf(ms[|ms| - 1])
  }

  /** The list with every repeat of an earlier element dropped. */
  function Dedup(s: seq<string>): seq<string>
  {
    if s == [] then []
    else
      var d := Dedup(s[..|s| - 1]);
      if s[|s| - 1] in d then d else d + [s[|s| - 1]]
  }

  /** Where x first occurs in s. */
  function FirstIndex(s: seq<string>, x: string): (i: nat)
    requires x in s
    ensures i < |s| && s[i] == x
    ensures forall m :: 0 <= m < i ==> s[m] != x
  {
    if s[0] == x then 0 else 1 + FirstIndex(s[1..], x)
  }

  predicate NoDuplicates(s: seq<string>)
  {
    forall i, j :: 0 <= i < j < |s| ==> s[i] != s[j]
  }

  /** Dedup keeps exactly the elements of the list, each once. */
  lemma {:induction false} DedupMembers(s: seq<string>)
    ensures forall x :: x in Dedup(s) <==> x in s
    ensures NoDuplicates(Dedup(s))
    decreases |s|
  {
    if s != [] {
      var p := s[..|s| - 1];
      DedupMembers(p);
      assert s == p + [s[|s| - 1]];
    }
  }

  /** An element of a prefix first occurs where it first occurs in the prefix. */
  lemma FirstIndexPrefix(p: seq<string>, t: seq<string>, x: string)
    requires x in p
    ensures FirstIndex(p + t, x) == FirstIndex(p, x)
  {
    var i := FirstIndex(p, x);
    var j := FirstIndex(p + t, x);
    assert (p + t)[i] == x;
  }

  /** Dedup lists the elements in the order of their first occurrence. */
  lemma {:induction false} DedupOrder(s: seq<string>)
    ensures forall x :: x in Dedup(s) ==> x in s
    ensures forall i, j :: 0 <= i < j < |Dedup(s)| ==> FirstIndex(s, Dedup(s)[i]) < FirstIndex(s, Dedup(s)[j])
    decreases |s|
  {
    DedupMembers(s);
    if s != [] {
      var p := s[..|s| - 1];
      var x := s[|s| - 1];
      var d := Dedup(p);
      DedupOrder(p);
      DedupMembers(p);
      assert s == p + [x];
      forall y | y in d
        ensures FirstIndex(s, y) == FirstIndex(p, y) < |p|
      {
        FirstIndexPrefix(p, [x], y);
      }
      if x !in d {
        assert x !in p;
      }
    }
  }

  /** The unique names of a list begin with the unique names of any prefix. */
  lemma {:induction false} DedupPrefix(s: seq<string>, t: seq<string>)
    ensures |Dedup(s)| <= |Dedup(s + t)|
    ensures Dedup(s + t)[..|Dedup(s)|] == Dedup(s)
    decreases |t|
  {
    if t == [] {
      assert s + t == s;
    } else {
      var u := t[..|t| - 1];
      DedupPrefix(s, u);
      assert (s + t)[..|s + t| - 1] == s + u;
      var d := Dedup(s + u);
      assert Dedup(s + t) == d || Dedup(s + t) == d + [t[|t| - 1]];
      assert (d + [t[|t| - 1]])[..|Dedup(s)|] == d[..|Dedup(s)|];
    }
  }

  /** `SDLMAEMA`: the fit settings and the measurements, in the order
      they were given or added. */
  class Ema<S> {
    var lower: real
    var upper: real
    var polOrder: int
    var solver: string
    var freqEstimates: seq<int>
    var measurements: seq<Measurement<S>>

    /** `__init__`: a measurements argument of None stands for an empty list. */
    constructor (lower: real, upper: real, polOrder: int, solver: string,
                 freqEstimates: seq<int>, measurements: Option<seq<Measurement<S>>>)
      ensures this.lower == lower && this.upper == upper && this.polOrder == polOrder
      ensures this.solver == solver && this.freqEstimates == freqEstimates
      ensures this.measurements == (if measurements.None? then [] else measurements.value)
    {
      this.lower := lower;
      this.upper := upper;
      this.polOrder := polOrder;
      this.solver := solver;
      this.freqEstimates := freqEstimates;
      this.measurements := if measurements.None? then [] else measurements.value;
    }

    /** `add_measurement`: appends at the end; nothing else changes. */
    method AddMeasurement(m: Measurement<S>)
      modifies this
      ensures measurements == old(measurements) + [m]
      ensures lower == old(lower) && upper == old(upper) && polOrder == old(polOrder)
      ensures solver == old(solver) && freqEstimates == old(freqEstimates)
    {
      measurements := measurements + [m];
    }

    /** `get_unique_names`: every signal name of every measurement, once
      each, in the order of first occurrence. */
    method GetUniqueNames() returns (names: seq<string>)
      ensures names == Dedup(AllNames(measurements))
    {
      names := [];
      for i := 0 to |measurements|
        invariant names == Dedup(AllNames(measurements[..i]))
      {
        var ns := NamesOf(measurements[i]);
        ghost var before := AllNames(measurements[..i]);
        AllNamesStep(measurements, i);
        assert before + ns[..0] == before;
        for j := 0 to |ns|
          invariant names == Dedup(before + ns[..j])
        {
          DedupStep(before, ns, j);
          if ns[j] !in names {
            names := names + [ns[j]];
          }
        }
        assert ns[..|ns|] == ns;
      }
      assert measurements[..|measurements|] == measurements;
    }
  }

  lemma AllNamesStep<S>(ms: seq<Measurement<S>>, i: nat)
    requires i < |ms|
    ensures AllNames(ms[..i + 1]) == AllNames(ms[..i]) + NamesOf(ms[i])
  {
    assert ms[..i + 1][..i] == ms[..i];
  }

  lemma DedupStep(before: seq<string>, ns: seq<string>, j: nat)
    requires j < |ns|
    ensures Dedup(before + ns[..j + 1]) ==
      if ns[j] in Dedup(before + ns[..j]) then Dedup(before + ns[..j])
      else Dedup(before + ns[..j]) + [ns[j]]
  {
    var s := before + ns[..j + 1];
    assert s[..|s| - 1] == before + ns[..j];
  }

  /** The names `get_unique_names` returns: no name twice, exactly the names
      of the measurements, in order of first occurrence. */
  lemma UniqueNames<S>(ms: seq<Measurement<S>>)
    ensures NoDuplicates(Dedup(AllNames(ms)))
    ensures forall x :: x in Dedup(AllNames(ms)) <==> x in AllNames(ms)
    ensures forall i, j :: 0 <= i < j < |Dedup(AllNames(ms))| ==>
      FirstIndex(AllNames(ms), Dedup(AllNames(ms))[i]) < FirstIndex(AllNames(ms), Dedup(AllNames(ms))[j])
  {
    DedupMembers(AllNames(ms));
    DedupOrder(AllNames(ms));
  }

  /** Adding a measurement keeps every earlier unique name in its place. */
  lemma AddKeepsNames<S>(ms: seq<Measurement<S>>, m: Measurement<S>)
    ensures |Dedup(AllNames(ms))| <= |Dedup(AllNames(ms + [m]))|
    ensures Dedup(AllNames(ms + [m]))[..|Dedup(AllNames(ms))|] == Dedup(AllNames(ms))
  {
    assert (ms + [m])[..|ms|] == ms;
    assert AllNames(ms + [m]) == AllNames(ms) + NamesOf(m);
    DedupPrefix(AllNames(ms), NamesOf(m));
  }
}
