/**
 * One worker of src/generate.py (`generate_func`): for every index of its
 * sub-range it resamples until `apply_rules` accepts a list that the
 * process has not produced before, records the list in the process-wide
 * `used_attributes` dictionary, and emits the file name and the CSV row.
 *
 * Randomness is a parameter: each pass of the resample loop consumes one
 * `Draw`, the list `random_attr()` returned (`None` where it raised
 * StopIteration) together with the force picks of that pass.
 */
module Generation {
  import opened Wrappers
  import opened Text
  import opened Rules

  datatype Draw = Draw(sample: Option<seq<Attr>>, pick: nat -> nat)

  /** How a worker ends: all rows produced, an exception, or the finite draw sequence exhausted. */
  datatype Status = Done | Crashed | OutOfDraws

  /** One CSV row: the saved path and a `(trait_type, value)` cell per attribute. */
  datatype Row = Row(path: string, cells: seq<(string, string)>)

  /** What one pass of the resample loop does with its draw. */
  datatype Attempt = Crash | Retry | Fresh(attrs: seq<Attr>)

  /** The lists accepted in order, and how the loop ended. */
  datatype Batch = Batch(status: Status, accepted: seq<seq<Attr>>)

  /** `[a["value"][-1] for a in attributes]`. */
  function Values(attrs: seq<Attr>): (r: seq<string>)
    ensures |r| == |attrs| && forall i :: 0 <= i < |attrs| ==> r[i] == attrs[i].value.name
  {
    seq(|attrs|, i requires 0 <= i < |attrs| => attrs[i].value.name)
  }

  function TraitTypes(attrs: seq<Attr>): (r: seq<string>)
    ensures |r| == |attrs| && forall i :: 0 <= i < |attrs| ==> r[i] == attrs[i].traitType
  {
    seq(|attrs|, i requires 0 <= i < |attrs| => attrs[i].traitType)
  }

  /** The name an image is saved under: `f"{index}-{'-'.join(values)}.png"`. */
  function FileName(index: int, attrs: seq<Attr>): string {
    IntToString(index) + "-" + Join(Values(attrs), '-') + ".png"
  }

  /** A saved name starts with the index and a `-`, and ends with `.png`. */
  lemma FileNameShape(index: int, attrs: seq<Attr>)
    ensures StartsWith(FileName(index, attrs), IntToString(index) + "-")
    ensures EndsWith(FileName(index, attrs), ".png")
  {
    var prefix := IntToString(index) + "-";
    var name := FileName(index, attrs);
    assert name == prefix + (Join(Values(attrs), '-') + ".png");
    assert name[..|prefix|] == prefix;
    assert name[|name| - 4..] == ".png";
  }

  function Cells(attrs: seq<Attr>): (r: seq<(string, string)>)
    ensures |r| == |attrs| && forall i :: 0 <= i < |attrs| ==> r[i] == (attrs[i].traitType, attrs[i].value.name)
  {
    seq(|attrs|, i requires 0 <= i < |attrs| => (attrs[i].traitType, attrs[i].value.name))
  }

  function MakeRow(saveFolder: string, index: int, attrs: seq<Attr>): Row {
    Row(PathJoin(saveFolder, FileName(index, attrs)), Cells(attrs))
  }

  /** The rows for the accepted lists, the j-th carrying index `firstIndex + j`. */
  function RowsFor(saveFolder: string, firstIndex: int, accepted: seq<seq<Attr>>): (r: seq<Row>)
    ensures |r| == |accepted|
    ensures forall j {:trigger r[j]} :: 0 <= j < |accepted| ==> r[j] == MakeRow(saveFolder, firstIndex + j, accepted[j])
  {
    seq(|accepted|, j requires 0 <= j < |accepted| => MakeRow(saveFolder, firstIndex + j, accepted[j]))
  }

  /** `b0` is what is left to come after `accepted`, once the rest of the draws yield `r`. */
  predicate Continues(b0: Batch, accepted: seq<seq<Attr>>, r: Batch) {
    b0.status == r.status && b0.accepted == accepted + r.accepted
  }

  /** The elements of a sequence. */
  function Members(s: seq<seq<Attr>>): (r: set<seq<Attr>>)
    ensures forall x :: x in r <==> x in s
  {
    if |s| == 0 then {} else Members(s[..|s| - 1]) + {s[|s| - 1]}
  }

  /** Each list of `s` keyed by itself, as `used_attributes[key] = attributes` records it. */
  function Identity(s: set<seq<Attr>>): (m: map<seq<Attr>, seq<Attr>>)
    ensures m.Keys == s && forall a :: a in m ==> m[a] == a
  {
    map a | a in s :: a
  }

  /** `used_attributes` after recording each list of `accepted` in turn, keyed by itself. */
  function Record(u0: map<seq<Attr>, seq<Attr>>, accepted: seq<seq<Attr>>): map<seq<Attr>, seq<Attr>> {
    if |accepted| == 0 then u0
    else Record(u0, accepted[..|accepted| - 1])[accepted[|accepted| - 1] := accepted[|accepted| - 1]]
  }

  lemma RecordOne(u0: map<seq<Attr>, seq<Attr>>, accepted: seq<seq<Attr>>, x: seq<Attr>)
    ensures Record(u0, accepted + [x]) == Record(u0, accepted)[x := x]
  {
    assert (accepted + [x])[..|accepted|] == accepted;
  }

  /** Recording the lists one by one is the old dictionary plus every list keyed by itself. */
  lemma {:induction false} RecordIsUnion(u0: map<seq<Attr>, seq<Attr>>, accepted: seq<seq<Attr>>)
    ensures Record(u0, accepted) == u0 + Identity(Members(accepted))
  {
    if |accepted| > 0 {
      var init, x := accepted[..|accepted| - 1], accepted[|accepted| - 1];
      RecordIsUnion(u0, init);
      assert Members(accepted) == Members(init) + {x};
      assert Record(u0, accepted) == (u0 + Identity(Members(init)))[x := x];
    }
  }

  /**
   * The row of generate.py:238-254 for one accepted list, appended to
   * `df_batch`: the file name, the saved path and the value cells.
   */
  method AppendRow(rows: seq<Row>, saveFolder: string, index: int, attributes: seq<Attr>,
                   ghost firstIndex: int, ghost accepted: seq<seq<Attr>>) returns (rows': seq<Row>)
    requires rows == RowsFor(saveFolder, firstIndex, accepted) && index == firstIndex + |accepted|
    ensures rows' == RowsFor(saveFolder, firstIndex, accepted + [attributes])
  {
    rows' := rows + [MakeRow(saveFolder, index, attributes)];
  }

  lemma ContinuesAppend(b0: Batch, accepted: seq<seq<Attr>>, r: Batch, x: seq<Attr>, r': Batch)
    requires Continues(b0, accepted, r) && r.status == r'.status && r.accepted == [x] + r'.accepted
    ensures Continues(b0, accepted + [x], r')
  {
    assert accepted + ([x] + r'.accepted) == (accepted + [x]) + r'.accepted;
  }

  /** The number of indices of `range(startIndex, endIndex)`. */
  function Wanted(startIndex: int, endIndex: int): nat {
    if startIndex <= endIndex then endIndex - startIndex else 0
  }

  /**
   * What one pass of the loop makes of its draw: `None` where `random_attr`
   * raised, otherwise the outcome of `apply_rules` on the sampled list.
   */
  function Verdict(d: Draw, rules: seq<Rule>): Option<Outcome> {
    if d.sample.None? then None else Some(Run(d.sample.value, rules, d.pick, |rules|))
  }

  function Verdicts(draws: seq<Draw>, rules: seq<Rule>): (vs: seq<Option<Outcome>>)
    ensures |vs| == |draws| && forall t :: 0 <= t < |draws| ==> vs[t] == Verdict(draws[t], rules)
  {
    seq(|draws|, t requires 0 <= t < |draws| => Verdict(draws[t], rules))
  }

  /**
   * One pass: a raising `random_attr` or `apply_rules` ends the worker, a
   * rejected or already used list is drawn again, anything else is new.
   */
  function Try(v: Option<Outcome>, used: set<seq<Attr>>): (r: Attempt)
    ensures r.Fresh? <==> v.Some? && v.value.Accepted? && v.value.attrs !in used
    ensures r.Fresh? ==> v == Some(Accepted(r.attrs))
    ensures r.Crash? <==> v.None? || v.value.NoTriggerEntry? || v.value.NoForceTarget?
  {
    match v
    case None => Crash
    case Some(Accepted(t)) => if t in used then Retry else Fresh(t)
    case Some(Rejected) => Retry
    case Some(NoTriggerEntry(_)) => Crash
    case Some(NoForceTarget(_)) => Crash
  }

  /** The resample loop of generate.py:201-218 run for `wanted` indices over the verdicts in order. */
  function Resample(vs: seq<Option<Outcome>>, used: set<seq<Attr>>, wanted: nat): (r: Batch)
    decreases |vs|
  {
    if wanted == 0 then Batch(Done, [])
    else if |vs| == 0 then Batch(OutOfDraws, [])
    else match Try(vs[0], used)
      case Crash => Batch(Crashed, [])
      case Retry => Resample(vs[1..], used, wanted)
      case Fresh(a) =>
        var b := Resample(vs[1..], used + {a}, wanted - 1);
        Batch(b.status, [a] + b.accepted)
  }

  /**
   * Within one worker the accepted lists are pairwise distinct and new to
   * the dictionary, there are at most `wanted` of them and each used up a
   * draw, and the worker is done exactly when it has one per index.
   */
  lemma {:induction false} ResampleDistinct(vs: seq<Option<Outcome>>, used: set<seq<Attr>>, wanted: nat)
    ensures var b := Resample(vs, used, wanted);
            NoDuplicates(b.accepted)
            && (forall j :: 0 <= j < |b.accepted| ==> b.accepted[j] !in used)
            && |b.accepted| <= wanted && |b.accepted| <= |vs|
            && (b.status == Done <==> |b.accepted| == wanted)
    decreases |vs|
  {
    if wanted > 0 && |vs| > 0 {
      match Try(vs[0], used)
      case Crash =>
      case Retry => ResampleDistinct(vs[1..], used, wanted);
      case Fresh(a) =>
        ResampleDistinct(vs[1..], used + {a}, wanted - 1);
        var b := Resample(vs[1..], used + {a}, wanted - 1);
        assert forall j :: 0 <= j < |b.accepted| ==> b.accepted[j] != a;
        var all := [a] + b.accepted;
        forall i, j | 0 <= i < j < |all| ensures all[i] != all[j] {
          if i > 0 {
            assert all[i] == b.accepted[i - 1] && all[j] == b.accepted[j - 1];
          }
        }
    }
  }

  predicate FromSomeVerdict(vs: seq<Option<Outcome>>, a: seq<Attr>) {
    exists t :: 0 <= t < |vs| && vs[t] == Some(Accepted(a))
  }

  lemma ShiftFromSomeVerdict(vs: seq<Option<Outcome>>, lists: seq<seq<Attr>>)
    requires |vs| > 0
    requires forall j :: 0 <= j < |lists| ==> FromSomeVerdict(vs[1..], lists[j])
    ensures forall j :: 0 <= j < |lists| ==> FromSomeVerdict(vs, lists[j])
  {
    forall j | 0 <= j < |lists| ensures FromSomeVerdict(vs, lists[j]) {
      var t :| 0 <= t < |vs[1..]| && vs[1..][t] == Some(Accepted(lists[j]));
      assert vs[t + 1] == vs[1..][t];
    }
  }

  lemma {:induction false} ResampleFromVerdicts(vs: seq<Option<Outcome>>, used: set<seq<Attr>>, wanted: nat)
    ensures forall j :: 0 <= j < |Resample(vs, used, wanted).accepted| ==>
              FromSomeVerdict(vs, Resample(vs, used, wanted).accepted[j])
    decreases |vs|
  {
    if wanted > 0 && |vs| > 0 {
      match Try(vs[0], used)
      case Crash =>
      case Retry =>
        ResampleFromVerdicts(vs[1..], used, wanted);
        ShiftFromSomeVerdict(vs, Resample(vs[1..], used, wanted).accepted);
      case Fresh(a) =>
        ResampleFromVerdicts(vs[1..], used + {a}, wanted - 1);
        var b := Resample(vs[1..], used + {a}, wanted - 1);
        ShiftFromSomeVerdict(vs, b.accepted);
        var all := [a] + b.accepted;
        forall j | 0 <= j < |all| ensures FromSomeVerdict(vs, all[j]) {
          if j > 0 {
            assert all[j] == b.accepted[j - 1];
          }
        }
    }
  }

  /** Every accepted list is what `apply_rules` returned on the sample of one of the draws. */
  lemma ResampleSound(draws: seq<Draw>, rules: seq<Rule>, used: set<seq<Attr>>, wanted: nat)
    ensures var b := Resample(Verdicts(draws, rules), used, wanted);
            forall j :: 0 <= j < |b.accepted| ==>
              exists t :: 0 <= t < |draws| && draws[t].sample.Some?
                && Run(draws[t].sample.value, rules, draws[t].pick, |rules|) == Accepted(b.accepted[j])
  {
    var vs := Verdicts(draws, rules);
    ResampleFromVerdicts(vs, used, wanted);
    var b := Resample(vs, used, wanted);
    forall j | 0 <= j < |b.accepted|
      ensures exists t :: 0 <= t < |draws| && draws[t].sample.Some?
                && Run(draws[t].sample.value, rules, draws[t].pick, |rules|) == Accepted(b.accepted[j])
    {
      assert FromSomeVerdict(vs, b.accepted[j]);
      var t :| 0 <= t < |vs| && vs[t] == Some(Accepted(b.accepted[j]));
      assert vs[t] == Verdict(draws[t], rules);
    }
  }

  /** A draw that `apply_rules` accepts with a new list is taken at once for the current index. */
  lemma FreshDrawIsTaken(draws: seq<Draw>, rules: seq<Rule>, used: set<seq<Attr>>, wanted: nat)
    requires wanted > 0 && |draws| > 0 && draws[0].sample.Some?
    requires Run(draws[0].sample.value, rules, draws[0].pick, |rules|).Accepted?
    requires Run(draws[0].sample.value, rules, draws[0].pick, |rules|).attrs !in used
    ensures var b := Resample(Verdicts(draws, rules), used, wanted);
            |b.accepted| >= 1 && b.accepted[0] == Run(draws[0].sample.value, rules, draws[0].pick, |rules|).attrs
  {
    assert Verdicts(draws, rules)[0] == Verdict(draws[0], rules);
  }

  /** The state of one worker process: its copy of the module-level `used_attributes`. */
  class Worker {
    var used: map<seq<Attr>, seq<Attr>>

    constructor ()
      ensures used == map[]
    {
      used := map[];
    }

    /**
     * The `while` loop of generate.py:206-218 for one index: draws from
     * `pos0` on until a list is accepted and new, or the worker stops.
     * Passes that are rejected or already used leave the outcome of the
     * remaining draws as it was.
     */
    method NextAccepted(draws: seq<Draw>, pos0: nat, rules: seq<Rule>, ghost vs: seq<Option<Outcome>>, ghost wanted: nat)
      returns (found: bool, stop: Status, attributes: seq<Attr>, pos: nat)
      requires pos0 <= |draws| && wanted > 0 && vs == Verdicts(draws, rules)
      modifies this
      ensures pos <= |draws|
      ensures found ==> attributes !in old(used) && used == old(used)[attributes := attributes]
      ensures !found ==> used == old(used)
      ensures var r := Resample(vs[pos0..], old(used).Keys, wanted);
              if found then
                var r' := Resample(vs[pos..], used.Keys, wanted - 1);
                r.status == r'.status && r.accepted == [attributes] + r'.accepted
              else r == Batch(stop, [])
    {
      pos := pos0;
      stop := Done;
      attributes := [];
      while pos < |draws|
        invariant pos0 <= pos <= |draws| && used == old(used)
        invariant Resample(vs[pos..], used.Keys, wanted) == Resample(vs[pos0..], used.Keys, wanted)
        decreases |draws| - pos
      {
        var d := draws[pos];
        assert vs[pos..][0] == vs[pos] == Verdict(d, rules) && vs[pos..][1..] == vs[pos + 1..];
        pos := pos + 1;
        if d.sample.None? {
          return false, Crashed, attributes, pos;
        }
        var outcome := ApplyRules(d.sample.value, rules, d.pick);
        if outcome.Rejected? {
          continue;
        }
        if !outcome.Accepted? {
          return false, Crashed, attributes, pos;
        }
        if outcome.attrs in used {
          continue;
        }
        used := used[outcome.attrs := outcome.attrs];
        assert used.Keys == old(used).Keys + {outcome.attrs};
        return true, stop, outcome.attrs, pos;
      }
      return false, OutOfDraws, attributes, pos;
    }

    /**
     * One index of `for i in range(start_index, end_index)` (generate.py:201-254):
     * resample until a new list is accepted, record it, and append its row.
     * `accepted` are the lists of the earlier indices, `b0` the outcome of
     * the whole worker.
     */
    method GenerateOne(draws: seq<Draw>, pos0: nat, rules: seq<Rule>, saveFolder: string, index: int, rows: seq<Row>,
                       ghost vs: seq<Option<Outcome>>, ghost u0: map<seq<Attr>, seq<Attr>>, ghost b0: Batch,
                       ghost accepted: seq<seq<Attr>>, ghost firstIndex: int, ghost left: nat)
      returns (found: bool, stop: Status, pos: nat, rows': seq<Row>,
               ghost accepted': seq<seq<Attr>>, ghost left': nat, ghost rest: Batch)
      requires pos0 <= |draws| && left > 0 && vs == Verdicts(draws, rules)
      requires used == Record(u0, accepted) && rows == RowsFor(saveFolder, firstIndex, accepted)
      requires index == firstIndex + |accepted|
      requires Continues(b0, accepted, Resample(vs[pos0..], used.Keys, left))
      modifies this
      ensures pos <= |draws|
      ensures used == Record(u0, accepted') && rows' == RowsFor(saveFolder, firstIndex, accepted')
      ensures found ==> |accepted'| == |accepted| + 1 && left' == left - 1
                        && rest == Resample(vs[pos..], used.Keys, left') && Continues(b0, accepted', rest)
      ensures !found ==> accepted' == accepted && left' == left && Continues(b0, accepted, Batch(stop, []))
    {
      ghost var r := Resample(vs[pos0..], used.Keys, left);
      var attributes;
      found, stop, attributes, pos := NextAccepted(draws, pos0, rules, vs, left);
      rows', accepted', left' := rows, accepted, left;
      if found {
        accepted', left' := accepted + [attributes], left - 1;
        RecordOne(u0, accepted, attributes);
        ContinuesAppend(b0, accepted, r, attributes, Resample(vs[pos..], used.Keys, left'));
        rows' := AppendRow(rows, saveFolder, index, attributes, firstIndex, accepted);
      }
      rest := Resample(vs[pos..], used.Keys, left');
    }

    /**
     * `generate_func(start_index, end_index, start_id)`. The column header
     * takes one extra `random_attr()` call, `headerSample`. Each accepted list
     * is recorded in `used` under itself as key; row j carries index
     * `startIndex + j + startId`.
     */
    method GenerateFunc(startIndex: int, endIndex: int, startId: int, saveFolder: string,
                        rules: seq<Rule>, headerSample: Option<seq<Attr>>, draws: seq<Draw>)
      returns (status: Status, header: seq<string>, rows: seq<Row>)
      modifies this
      ensures headerSample.None? ==> status == Crashed && rows == [] && used == old(used)
      ensures headerSample.Some? ==>
                var b := Resample(Verdicts(draws, rules), old(used).Keys, Wanted(startIndex, endIndex));
                header == ["path"] + TraitTypes(headerSample.value)
                && status == b.status
                && rows == RowsFor(saveFolder, startIndex + startId, b.accepted)
                && used == old(used) + Identity(Members(b.accepted))
    {
      header := [];
      rows := [];
      status := Crashed;
      if headerSample.None? {
        return;
      }
      header := ["path"] + TraitTypes(headerSample.value);
      ghost var u0 := used;
      ghost var w := Wanted(startIndex, endIndex);
      ghost var vs := Verdicts(draws, rules);
      ghost var b0 := Resample(vs, u0.Keys, w);
      ghost var accepted: seq<seq<Attr>> := [];
      var pos: nat := 0;
      var i := startIndex;
      var stopped := false;
      ghost var left: nat := w;
      ghost var rest := b0;
      assert vs[0..] == vs;
      while i < endIndex && !stopped
        invariant i == startIndex + |accepted| && left == w - |accepted| && pos <= |draws|
        invariant rows == RowsFor(saveFolder, startIndex + startId, accepted)
        invariant used == Record(u0, accepted)
        invariant stopped ==> Continues(b0, accepted, Batch(status, []))
        invariant !stopped ==> Continues(b0, accepted, rest)
        invariant !stopped ==> rest == Resample(vs[pos..], used.Keys, left)
        decreases endIndex - i, if stopped then 0 else 1
      {
        var found, stop;
        found, stop, pos, rows, accepted, left, rest :=
          GenerateOne(draws, pos, rules, saveFolder, i + startId, rows, vs, u0, b0, accepted, startIndex + startId, left);
        if found {
          i := i + 1;
        } else {
          status, stopped := stop, true;
        }
      }
      if !stopped {
        status := Done;
      }
      assert accepted + [] == accepted;
      RecordIsUnion(u0, accepted);
    }
  }
}
