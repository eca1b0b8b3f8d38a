/**
 * A measurement's signals and the preparation that stacks its signals
 * into rows and cuts them into windows of equal width for the FRF
 * estimate. Samples are values of an arbitrary type S: nothing here
 * computes with them.
 */
module Measurement {
  import opened Wrappers

  /** One SEP005 time-series dict: a row of samples and its metadata. */
  datatype Signal<S> = Signal(
    data: seq<S>, unitStr: string, fs: int, quantity: string, name: string, direction: string)

  /** One dict of the prepared list: a block of rows and the metadata. */
  datatype Block<S> = Block(
    data: seq<seq<S>>, unitStr: string, fs: int, quantity: string, name: string, direction: string)

  /** `SDLMAMeasurement` as the rest of the model sees it: its
      constructor arguments. */
  datatype Measurement<S> = Measurement(
    name: string, windowLen: int, samplingFreq: int,
    exc: seq<Signal<S>>, resp: seq<Signal<S>>, comment: string)

  /** Why `prepare_time_series` raises. */
  datatype PrepareError =
    | NoSignals          // an empty list leaves `out` at None, which is then subscripted
    | RowLengthMismatch  // `np.vstack` of rows of different lengths
    | ZeroWindow         // division by a window length of 0
    | PartialWindow      // the assertion that the windows tile each row
    | NoSections         // `np.split` into no sections

  // ---------------------------------------------------------------------
  // Names

  /** The names of a list of signals, in list order. */
  function SignalNames<S>(sigs: seq<Signal<S>>): (ns: seq<string>)
    ensures |ns| == |sigs|
    ensures forall i :: 0 <= i < |sigs| ==> ns[i] == sigs[i].name
  {
    if sigs == [] then [] else [sigs[0].name] + SignalNames(sigs[1..])
  }

  /** `get_names`: the excitation names and the response names. */
  function GetNames<S>(m: Measurement<S>): (r: (seq<string>, seq<string>))
    ensures |r.0| == |m.exc| && forall i :: 0 <= i < |m.exc| ==> r.0[i] == m.exc[i].name
    ensures |r.1| == |m.resp| && forall i :: 0 <= i < |m.resp| ==> r.1[i] == m.resp[i].name
  {
    (SignalNames(m.exc), SignalNames(m.resp))
  }

  /** The name of the prepared blocks: the first name, then "_" and each
      later name in order. */
  function JoinNames(ns: seq<string>): string
    requires |ns| >= 1
  {
    if |ns| == 1 then ns[0] else JoinNames(ns[..|ns| - 1]) + "_" + ns[|ns| - 1]
  }

  /** A string cut at every '_'. */
  function SplitNames(s: string): (parts: seq<string>)
    ensures |parts| >= 1
  {
    if s == [] then [""]
    else
      var rest := SplitNames(s[..|s| - 1]);
      var c := s[|s| - 1];
      if c == '_' then rest + [""] else rest[..|rest| - 1] + [rest[|rest| - 1] + [c]]
  }

  /** The parts with text appended to the last one. */
  function ExtendLast(p: seq<string>, t: string): (q: seq<string>)
    requires |p| >= 1
    ensures |q| == |p|
  {
    p[..|p| - 1] + [p[|p| - 1] + t]
  }

  /** Appending text without a '_' extends the last part. */
  lemma {:induction false} SplitNoSeparator(s: string, t: string)
    requires '_' !in t
    ensures SplitNames(s + t) == ExtendLast(SplitNames(s), t)
    decreases |t|
  {
    if t == [] {
      assert s + t == s;
      LastPartUnchanged(SplitNames(s));
    } else {
      var u := t[..|t| - 1];
      var c := t[|t| - 1];
      NoSeparatorFront(t);
      SplitNoSeparator(s, u);
      SplitNoSeparatorStep(s, u, c, t);
    }
  }

  lemma NoSeparatorFront(t: string)
    requires t != [] && '_' !in t
    ensures '_' !in t[..|t| - 1] && t[|t| - 1] != '_'
    ensures t[..|t| - 1] + [t[|t| - 1]] == t
  {
    var u := t[..|t| - 1];
    forall k | 0 <= k < |u| ensures u[k] != '_' {
      assert u[k] == t[k];
    }
  }

  /** One more character other than '_' after u extends the last part. */
  lemma SplitNoSeparatorStep(s: string, u: string, c: char, t: string)
    requires c != '_' && t == u + [c]
    requires SplitNames(s + u) == ExtendLast(SplitNames(s), u)
    ensures SplitNames(s + t) == ExtendLast(SplitNames(s), t)
  {
    AppendLast(s, u, c, t);
    SplitAppendChar(s + u, c);
    ExtendLastPart(SplitNames(s), u, c);
  }

  lemma AppendLast(s: string, u: string, c: char, t: string)
    requires t == u + [c]
    ensures s + t == (s + u) + [c]
  {
  }

  lemma LastPartUnchanged(p: seq<string>)
    requires |p| >= 1
    ensures ExtendLast(p, []) == p
  {
    assert p[|p| - 1] + [] == p[|p| - 1];
  }

  /** A character other than '_' extends the last part. */
  lemma SplitAppendChar(s: string, c: char)
    requires c != '_'
    ensures SplitNames(s + [c]) == ExtendLast(SplitNames(s), [c])
  {
    assert (s + [c])[..|s + [c]| - 1] == s;
  }

  lemma ExtendLastPart(p: seq<string>, u: string, c: char)
    requires |p| >= 1
    ensures ExtendLast(ExtendLast(p, u), [c]) == ExtendLast(p, u + [c])
  {
    var q := ExtendLast(p, u);
    assert q[..|q| - 1] == p[..|p| - 1];
    assert (p[|p| - 1] + u) + [c] == p[|p| - 1] + (u + [c]);
  }

  /** When no name contains '_', cutting the joined name at '_' gives the
      names back. */
  lemma {:induction false} JoinSplit(ns: seq<string>)
    requires |ns| >= 1
    requires forall i :: 0 <= i < |ns| ==> '_' !in ns[i]
    ensures SplitNames(JoinNames(ns)) == ns
    decreases |ns|
  {
    if |ns| == 1 {
      SplitOnePart(ns[0]);
      assert ns == [ns[0]];
    } else {
      var front := ns[..|ns| - 1];
      assert forall i :: 0 <= i < |front| ==> front[i] == ns[i];
      JoinSplit(front);
      JoinSplitStep(ns);
    }
  }

  /** A name without '_' is one part. */
  lemma SplitOnePart(name: string)
    requires '_' !in name
    ensures SplitNames(name) == [name]
  {
    SplitNoSeparator("", name);
    assert "" + name == name;
    assert ExtendLast([""], name) == [name];
  }

  /** The last name, joined after a '_', becomes one more part. */
  lemma JoinSplitStep(ns: seq<string>)
    requires |ns| >= 2 && '_' !in ns[|ns| - 1]
    requires SplitNames(JoinNames(ns[..|ns| - 1])) == ns[..|ns| - 1]
    ensures SplitNames(JoinNames(ns)) == ns
  {
    var front := ns[..|ns| - 1];
    var last := ns[|ns| - 1];
    var j := JoinNames(front) + "_";
    SplitAfterSeparator(JoinNames(front));
    SplitNoSeparator(j, last);
    NewLastPart(front, last);
    FrontAndLast(ns);
  }

  lemma FrontAndLast<T>(s: seq<T>)
    requires |s| >= 1
    ensures s[..|s| - 1] + [s[|s| - 1]] == s
  {
  }

  /** A trailing '_' opens an empty last part. */
  lemma SplitAfterSeparator(x: string)
    ensures SplitNames(x + "_") == SplitNames(x) + [""]
  {
    assert (x + "_")[..|x|] == x;
  }

  lemma NewLastPart(front: seq<string>, last: string)
    ensures ExtendLast(front + [""], last) == front + [last]
  {
    var p := front + [""];
    assert p[..|p| - 1] == front;
    assert p[|p| - 1] + last == last;
  }

  // ---------------------------------------------------------------------
  // Windows

  /** Every row has as many samples as the first, so as every other. */
  predicate SameLength<S>(sigs: seq<Signal<S>>)
  {
    forall i :: 0 <= i < |sigs| ==> |sigs[i].data| == |sigs[0].data|
  }

  /** The rows the signals stack into. */
  function Stack<S>(sigs: seq<Signal<S>>): (rows: seq<seq<S>>)
    ensures |rows| == |sigs|
  {
    seq(|sigs|, i requires 0 <= i < |sigs| => sigs[i].data)
  }

  /** A row of k * w samples cut into k windows of w consecutive samples. */
  function Windows<S>(row: seq<S>, w: nat, k: nat): (ws: seq<seq<S>>)
    requires |row| == k * w
    ensures |ws| == k
    decreases k
  {
    if k == 0 then [] else [row[..w]] + Windows(row[w..], w, k - 1)
  }

  /** The concatenation of a list of sample runs. */
  function Flatten<S>(parts: seq<seq<S>>): seq<S>
  {
    if parts == [] then [] else parts[0] + Flatten(parts[1..])
  }

  /** Window i holds samples i*w up to (i+1)*w of the row. */
  lemma {:induction false} WindowAt<S>(row: seq<S>, w: nat, k: nat, i: nat)
    requires |row| == k * w && i < k
    ensures i * w + w <= |row|
    ensures Windows(row, w, k)[i] == row[i * w..i * w + w]
    decreases k
  {
    WindowArithmetic(k, i, w);
    if i > 0 {
      WindowAt(row[w..], w, k - 1, i - 1);
      DropSlice(row, w, (i - 1) * w, (i - 1) * w + w);
    }
  }

  lemma WindowArithmetic(k: nat, i: nat, w: nat)
    requires i < k
    ensures k * w - w == (k - 1) * w
    ensures i * w + w <= k * w
    ensures i >= 1 ==> (i - 1) * w + w == i * w
  {
    assert k * w == (k - 1) * w + w;
    assert i * w + w == (i + 1) * w;
    assert (i + 1) * w <= k * w;
    if i >= 1 {
      assert i * w == (i - 1) * w + w;
    }
  }

  lemma DropSlice<S>(row: seq<S>, w: nat, a: nat, b: nat)
    requires a <= b && w + b <= |row|
    ensures row[w..][a..b] == row[w + a..w + b]
  {
  }

  /** The windows of a row, put back together, are the row. */
  lemma {:induction false} FlattenWindows<S>(row: seq<S>, w: nat, k: nat)
    requires |row| == k * w
    ensures Flatten(Windows(row, w, k)) == row
    decreases k
  {
    if k > 0 {
      FlattenWindows(row[w..], w, k - 1);
      FlattenCons(row[..w], Windows(row[w..], w, k - 1));
      TakeDrop(row, w);
    }
  }

  lemma FlattenCons<S>(part: seq<S>, parts: seq<seq<S>>)
    ensures Flatten([part] + parts) == part + Flatten(parts)
  {
    assert ([part] + parts)[1..] == parts;
  }

  lemma TakeDrop<S>(s: seq<S>, n: nat)
    requires n <= |s|
    ensures s[..n] + s[n..] == s
  {
  }

  /** The rows split along the columns into k blocks of w columns each. */
  function SplitColumns<S>(rows: seq<seq<S>>, w: nat, k: nat): (blocks: seq<seq<seq<S>>>)
    requires forall j :: 0 <= j < |rows| ==> |rows[j]| == k * w
    ensures |blocks| == k
    ensures forall i :: 0 <= i < k ==> |blocks[i]| == |rows|
  {
    seq(k, i requires 0 <= i < k =>
      seq(|rows|, j requires 0 <= j < |rows| => Windows(rows[j], w, k)[i]))
  }

  /** The result of `prepare_time_series`: every block carries the first
      signal's metadata and the joined name. */
  function PrepareSpec<S>(sigs: seq<Signal<S>>, windowLen: int): (r: Result<seq<Block<S>>, PrepareError>)
    ensures r.Success? ==>
      sigs != [] && SameLength(sigs) && windowLen >= 1 && |r.value| >= 1 &&
      |sigs[0].data| == |r.value| * windowLen
  {
    if sigs == [] then Failure(NoSignals)
    else if !SameLength(sigs) then Failure(RowLengthMismatch)
    else
      var cols := |sigs[0].data|;
      if windowLen == 0 then Failure(ZeroWindow)
      else if cols % windowLen != 0 then Failure(PartialWindow)
      else if cols / windowLen <= 0 then Failure(NoSections)
      else
        StackWidths(sigs, windowLen);
        var k := cols / windowLen;
        var first := sigs[0];
        var name := JoinNames(SignalNames(sigs));
        var chunks := SplitColumns(Stack(sigs), windowLen, k);
        Success(seq(k, i requires 0 <= i < k =>
          Block(chunks[i], first.unitStr, first.fs, first.quantity, name, first.direction)))
  }

  /** Rows of a common length that a window length divides into at least
      one window: the window is positive and every row holds whole windows. */
  lemma StackWidths<S>(sigs: seq<Signal<S>>, w: int)
    requires sigs != [] && SameLength(sigs) && w != 0
    requires |sigs[0].data| % w == 0 && |sigs[0].data| / w > 0
    ensures w >= 1 && |sigs[0].data| == (|sigs[0].data| / w) * w
    ensures forall j :: 0 <= j < |Stack(sigs)| ==> |Stack(sigs)[j]| == (|sigs[0].data| / w) * w
  {
    var cols := |sigs[0].data|;
    assert cols == (cols / w) * w;
  }

  /** `prepare_time_series(meas_list, window_len)`: stack the rows and join
      the names, then cut the stack into windows of `window_len` columns. */
  method PrepareTimeSeries<S>(measList: seq<Signal<S>>, windowLen: int)
    returns (r: Result<seq<Block<S>>, PrepareError>)
    ensures r == PrepareSpec(measList, windowLen)
  {
    if |measList| == 0 {
      return Failure(NoSignals);
    }
    var stacked := StackSignals(measList);
    if stacked.Failure? {
      return Failure(stacked.error);
    }
    var (name, rows) := stacked.value;
    var cols := |rows[0]|;
    if windowLen == 0 {
      return Failure(ZeroWindow);
    }
    if cols % windowLen != 0 {
      return Failure(PartialWindow);
    }
    var k := cols / windowLen;
    if k <= 0 {
      return Failure(NoSections);
    }
    var chunks := SplitColumns(rows, windowLen, k);
    var out := CollectBlocks(chunks, measList[0], name);
    return Success(out);
  }

  /** The first loop of `prepare_time_series`: the joined name and the
      stacked rows, or the error `np.vstack` raises on a row of another
      length. */
  method StackSignals<S>(measList: seq<Signal<S>>) returns (r: Result<(string, seq<seq<S>>), PrepareError>)
    requires measList != []
    ensures r == StackSpec(measList)
  {
    var name := measList[0].name;
    var rows := [measList[0].data];
    StackedFirst(measList);
    for i := 1 to |measList|
      invariant Stacked(measList, i, name, rows)
    {
      StackedStep(measList, i, name, rows);
      name := name + "_" + measList[i].name;
      if |measList[i].data| != |rows[0]| {
        return Failure(RowLengthMismatch);
      }
      rows := rows + [measList[i].data];
    }
    StackedAll(measList, name, rows);
    return Success((name, rows));
  }

  /** What the first loop of `prepare_time_series` holds after i signals:
      their joined name, their stacked rows, all of one length. */
  ghost predicate Stacked<S>(sigs: seq<Signal<S>>, i: nat, name: string, rows: seq<seq<S>>)
    requires 1 <= i <= |sigs|
  {
    name == JoinNames(SignalNames(sigs[..i])) && rows == Stack(sigs[..i]) && SameLength(sigs[..i])
  }

  lemma StackedFirst<S>(sigs: seq<Signal<S>>)
    requires sigs != []
    ensures Stacked(sigs, 1, sigs[0].name, [sigs[0].data])
  {
    assert SignalNames(sigs[..1]) == [sigs[0].name];
    assert Stack(sigs[..1]) == [sigs[0].data];
  }

  /** One more signal: a row of another length means the rows differ,
      otherwise the name and the stack grow by that signal. */
  lemma StackedStep<S>(sigs: seq<Signal<S>>, i: nat, name: string, rows: seq<seq<S>>)
    requires 1 <= i < |sigs| && Stacked(sigs, i, name, rows)
    ensures |rows| >= 1 && rows[0] == sigs[0].data
    ensures |sigs[i].data| != |rows[0]| ==> StackSpec(sigs) == Failure(RowLengthMismatch)
    ensures |sigs[i].data| == |rows[0]| ==>
      Stacked(sigs, i + 1, name + "_" + sigs[i].name, rows + [sigs[i].data])
  {
    assert sigs[..i][0] == sigs[0];
    JoinStep(sigs, i);
    StackGrows(sigs, i);
    SameLengthGrows(sigs, i);
  }

  lemma StackGrows<S>(sigs: seq<Signal<S>>, i: nat)
    requires i < |sigs|
    ensures Stack(sigs[..i + 1]) == Stack(sigs[..i]) + [sigs[i].data]
  {
    assert sigs[..i + 1][..i] == sigs[..i];
  }

  /** The rows stay of one length exactly while each new row is as long as
      the first. */
  lemma SameLengthGrows<S>(sigs: seq<Signal<S>>, i: nat)
    requires 1 <= i < |sigs| && SameLength(sigs[..i])
    ensures |sigs[i].data| == |sigs[0].data| ==> SameLength(sigs[..i + 1])
    ensures |sigs[i].data| != |sigs[0].data| ==> !SameLength(sigs)
  {
    var p := sigs[..i + 1];
    if |sigs[i].data| == |sigs[0].data| {
      forall j | 0 <= j < |p|
        ensures |p[j].data| == |p[0].data|
      {
        if j < i {
          assert p[j] == sigs[..i][j];
        }
      }
    }
  }

  lemma StackedAll<S>(sigs: seq<Signal<S>>, name: string, rows: seq<seq<S>>)
    requires sigs != [] && Stacked(sigs, |sigs|, name, rows)
    ensures StackSpec(sigs) == Success((name, rows))
  {
    assert sigs[..|sigs|] == sigs;
  }

  lemma JoinStep<S>(sigs: seq<Signal<S>>, i: nat)
    requires 1 <= i < |sigs|
    ensures JoinNames(SignalNames(sigs[..i + 1])) == JoinNames(SignalNames(sigs[..i])) + "_" + sigs[i].name
  {
    var ns := SignalNames(sigs[..i + 1]);
    assert ns[..i] == SignalNames(sigs[..i]);
  }

  /** The joined name and the stacked rows when every row has one length. */
  function StackSpec<S>(sigs: seq<Signal<S>>): Result<(string, seq<seq<S>>), PrepareError>
    requires sigs != []
  {
    if SameLength(sigs) then Success((JoinNames(SignalNames(sigs)), Stack(sigs)))
    else Failure(RowLengthMismatch)
  }

  /** The second loop of `prepare_time_series`: one dict per block, with
      the first signal's metadata and the joined name. */
  method CollectBlocks<S>(chunks: seq<seq<seq<S>>>, first: Signal<S>, name: string) returns (out: seq<Block<S>>)
    ensures out == seq(|chunks|, i requires 0 <= i < |chunks| =>
      Block(chunks[i], first.unitStr, first.fs, first.quantity, name, first.direction))
  {
    out := [];
    for i := 0 to |chunks|
      invariant |out| == i
      invariant forall j :: 0 <= j < i ==>
        out[j] == Block(chunks[j], first.unitStr, first.fs, first.quantity, name, first.direction)
    {
      out := out + [Block(chunks[i], first.unitStr, first.fs, first.quantity, name, first.direction)];
    }
  }

  // ---------------------------------------------------------------------
  // Properties of the preparation

  /** The preparation succeeds exactly when there are signals, their rows
      have one length, the window length is positive and the windows tile
      the rows (at least one window); then there is one block per window. */
  lemma PrepareSucceeds<S>(sigs: seq<Signal<S>>, windowLen: int)
    ensures PrepareSpec(sigs, windowLen).Success? <==>
      sigs != [] && SameLength(sigs) && windowLen >= 1 &&
      |sigs[0].data| >= windowLen && |sigs[0].data| % windowLen == 0
    ensures PrepareSpec(sigs, windowLen).Success? ==>
      |PrepareSpec(sigs, windowLen).value| == |sigs[0].data| / windowLen
  {
    if sigs != [] && SameLength(sigs) && windowLen != 0 && |sigs[0].data| % windowLen == 0 {
      var cols := |sigs[0].data|;
      assert cols == windowLen * (cols / windowLen);
      if windowLen < 0 {
        assert cols / windowLen <= 0;
      } else if cols >= windowLen {
        assert cols / windowLen >= 1;
      }
    }
  }

  /** Each block holds, for every signal in order, columns i*w up to
      (i+1)*w of its row, and carries the first signal's metadata and the
      joined name. */
  lemma PreparedBlock<S>(sigs: seq<Signal<S>>, windowLen: int, i: nat, j: nat)
    requires PrepareSpec(sigs, windowLen).Success?
    requires i < |PrepareSpec(sigs, windowLen).value| && j < |sigs|
    ensures var b := PrepareSpec(sigs, windowLen).value[i];
      |b.data| == |sigs| && i * windowLen + windowLen <= |sigs[j].data| &&
      b.data[j] == sigs[j].data[i * windowLen..i * windowLen + windowLen] &&
      b.unitStr == sigs[0].unitStr && b.fs == sigs[0].fs && b.quantity == sigs[0].quantity &&
      b.direction == sigs[0].direction && b.name == JoinNames(SignalNames(sigs))
  {
    var k := |PrepareSpec(sigs, windowLen).value|;
    assert |sigs[j].data| == |sigs[0].data|;
    WindowAt(sigs[j].data, windowLen, k, i);
  }

  /** Signal j's windows, read across the blocks in order and put back
      together, are its row: the blocks lose and reorder nothing. */
  lemma PreparedRowsRestore<S>(sigs: seq<Signal<S>>, windowLen: int, j: nat)
    requires PrepareSpec(sigs, windowLen).Success? && j < |sigs|
    ensures var bs := PrepareSpec(sigs, windowLen).value;
      Flatten(seq(|bs|, i requires 0 <= i < |bs| => bs[i].data[j])) == sigs[j].data
  {
    var bs := PrepareSpec(sigs, windowLen).value;
    var cols := |sigs[0].data|;
    var k := cols / windowLen;
    assert cols == k * windowLen;
    assert |sigs[j].data| == cols;
    var column := seq(|bs|, i requires 0 <= i < |bs| => bs[i].data[j]);
    assert column == Windows(sigs[j].data, windowLen, k);
    FlattenWindows(sigs[j].data, windowLen, k);
  }
}
