/**
 * The rule engine of src/generate.py: `check_rules`, which validates the rule
 * table, and `apply_rules`, which walks the table in order over a sampled
 * attribute list and forbids it, rewrites it, or lets it through.
 */
module Rules {
  import opened Wrappers

  /** The `value` tuple of an attribute entry: (folder, prop, value). */
  datatype TraitValue = TraitValue(folder: string, prop: string, name: string)

  /** One `RandomAttr` entry: `{"value": (folder, prop, value), "trait_type": prop}`. */
  datatype Attr = Attr(value: TraitValue, traitType: string)

  /**
   * One row of rules.csv. `code` is the `rule` column (-1 forbid, 0 no-op,
   * 1 force); `targets` is the `list_prop_value` column, already parsed.
   */
  datatype Rule = Rule(prop: string, value: string, code: int, targets: seq<(string, string)>)

  /**
   * What `apply_rules` does with an attribute list: `(True, list)`, `(False, "")`,
   * or one of the two exceptions it can raise: StopIteration when no entry
   * carries the trigger property (generate.py:78) and IndexError when a firing
   * force row has an empty target list (generate.py:99).
   */
  datatype Outcome =
    | Accepted(attrs: seq<Attr>)
    | Rejected
    | NoTriggerEntry(row: nat)
    | NoForceTarget(row: nat)

  const ForbidCode: int := -1
  const NoopCode: int := 0
  const ForceCode: int := 1

  // ---------------------------------------------------------------------------
  // check_rules

  predicate SameKey(a: Rule, b: Rule) {
    a.prop == b.prop && a.value == b.value && a.code == b.code
  }

  /** Some row of `rules` has the same (prop, value, rule) as `r`. */
  predicate HasKey(rules: seq<Rule>, r: Rule) {
    exists j :: 0 <= j < |rules| && SameKey(rules[j], r)
  }

  /**
   * `check_rules`: no row is `duplicated` on (prop, value, rule). As pandas
   * marks every repetition of a key after its first occurrence, the table
   * passes exactly when no row repeats the key of an earlier row.
   */
  function CheckRules(rules: seq<Rule>): (ok: bool)
    ensures ok <==> forall j :: 0 <= j < |rules| ==> !HasKey(rules[..j], rules[j])
  {
    if |rules| == 0 then true
    else
      var init := rules[..|rules| - 1];
      assert forall j :: 0 <= j < |init| ==> init[..j] == rules[..j] && init[j] == rules[j];
      CheckRules(init) && !HasKey(init, rules[|rules| - 1])
  }

  /** The table is valid exactly when no two distinct rows share their key. */
  lemma {:induction false} CheckRulesIff(rules: seq<Rule>)
    ensures CheckRules(rules)
        <==> forall i, j :: 0 <= i < j < |rules| ==> !SameKey(rules[i], rules[j])
  {
    if |rules| > 0 {
      var init := rules[..|rules| - 1];
      CheckRulesIff(init);
      if CheckRules(rules) {
        forall i, j | 0 <= i < j < |rules| ensures !SameKey(rules[i], rules[j]) {
          if j == |rules| - 1 {
            assert init[i] == rules[i];
          } else {
            assert init[i] == rules[i] && init[j] == rules[j];
          }
        }
      } else if CheckRules(init) {
        var j :| 0 <= j < |init| && SameKey(init[j], rules[|rules| - 1]);
        assert rules[j] == init[j];
      } else {
        var i, j :| 0 <= i < j < |init| && SameKey(init[i], init[j]);
        assert rules[i] == init[i] && rules[j] == init[j];
      }
    }
  }

  // ---------------------------------------------------------------------------
  // The specification of apply_rules

  /** The entry the trigger test reads: the first whose `value[1]` is `prop` (generate.py:78). */
  function FindProp(attrs: seq<Attr>, prop: string): (r: Option<nat>)
    ensures r.Some? ==> r.value < |attrs| && attrs[r.value].value.prop == prop
                        && forall k :: 0 <= k < r.value ==> attrs[k].value.prop != prop
    ensures r.None? ==> forall k :: 0 <= k < |attrs| ==> attrs[k].value.prop != prop
  {
    if |attrs| == 0 then None
    else if attrs[0].value.prop == prop then Some(0)
    else match FindProp(attrs[1..], prop)
      case None => None
      case Some(i) => Some(i + 1)
  }

  /** Rule row `rule` applies to `attrs`: it is not a no-op and its trigger entry carries the trigger value. */
  predicate Fires(rule: Rule, attrs: seq<Attr>) {
    rule.code != NoopCode
    && var t := FindProp(attrs, rule.prop);
       t.Some? && attrs[t.value].value.name == rule.value
  }

  predicate Matches(a: Attr, target: (string, string)) {
    a.traitType == target.0 && a.value.name == target.1
  }

  /** Some entry carries one of the forbidden (trait_type, value) pairs. */
  predicate Forbidden(attrs: seq<Attr>, targets: seq<(string, string)>) {
    exists i, k :: 0 <= i < |targets| && 0 <= k < |attrs| && Matches(attrs[k], targets[i])
  }

  /** The entry written back by a force rule (generate.py:110-113). */
  function Rewrite(a: Attr, prop: string, newValue: string): Attr {
    Attr(TraitValue(a.value.folder, a.value.prop, newValue), prop)
  }

  /**
   * Every entry whose trait_type is `prop` rewritten to `newValue`, the others
   * left alone: the slots stay where they were and only values change.
   */
  function Forced(attrs: seq<Attr>, prop: string, newValue: string): (r: seq<Attr>)
    ensures SameSlots(attrs, r)
    ensures forall k :: 0 <= k < |r| && attrs[k].traitType == prop ==> r[k].value.name == newValue
    ensures forall k :: 0 <= k < |r| && attrs[k].traitType != prop ==> r[k] == attrs[k]
  {
    seq(|attrs|, k requires 0 <= k < |attrs| =>
      if attrs[k].traitType == prop then Rewrite(attrs[k], prop, newValue) else attrs[k])
  }

  /** Forcing the same value twice is forcing it once. */
  lemma ForcedIdempotent(attrs: seq<Attr>, prop: string, newValue: string)
    ensures Forced(Forced(attrs, prop, newValue), prop, newValue) == Forced(attrs, prop, newValue)
  {
    var once := Forced(attrs, prop, newValue);
    forall k | 0 <= k < |once| ensures Forced(once, prop, newValue)[k] == once[k] {
      if once[k].traitType == prop {
        assert once[k] == Rewrite(attrs[k], prop, newValue);
      }
    }
  }

  /** `s` has the slots of `attrs`: same length, and each slot keeps its folder, prop and trait_type. */
  predicate SameSlots(attrs: seq<Attr>, s: seq<Attr>) {
    |s| == |attrs|
    && forall k :: 0 <= k < |s| ==>
         s[k].value.folder == attrs[k].value.folder
         && s[k].value.prop == attrs[k].value.prop
         && s[k].traitType == attrs[k].traitType
  }

  /** The (prop, value) a force row writes: drawn with `d` when there are several, else the only one. */
  function ForceTarget(targets: seq<(string, string)>, d: nat): (t: (string, string))
    requires |targets| > 0
    ensures t in targets
  {
    if |targets| > 1 then targets[d % |targets|] else targets[0]
  }

  /**
   * The effect of rule row number `row` on the current list `attrs`, with
   * random draw `d`: StopIteration exactly when a rule that is not a no-op
   * finds no entry of its prop, IndexError exactly when a firing force row has
   * no target, a rejection exactly when a firing forbid row finds a target;
   * a row that does not fire passes the list on, and an accepted list keeps
   * its slots.
   */
  function Step(attrs: seq<Attr>, rule: Rule, row: nat, d: nat): (r: Outcome)
    ensures r.NoTriggerEntry? <==> rule.code != NoopCode && FindProp(attrs, rule.prop).None?
    ensures r.NoForceTarget? <==> rule.code == ForceCode && Fires(rule, attrs) && |rule.targets| == 0
    ensures r == Rejected <==> rule.code == ForbidCode && Fires(rule, attrs) && Forbidden(attrs, rule.targets)
    ensures r.NoTriggerEntry? || r.NoForceTarget? ==> r.row == row
    ensures !Fires(rule, attrs) && !r.NoTriggerEntry? ==> r == Accepted(attrs)
    ensures r.Accepted? ==> SameSlots(attrs, r.attrs)
  {
    if rule.code == NoopCode then Accepted(attrs)
    else match FindProp(attrs, rule.prop)
      case None => NoTriggerEntry(row)
      case Some(t) =>
        if attrs[t].value.name != rule.value then Accepted(attrs)
        else if rule.code == ForbidCode && Forbidden(attrs, rule.targets) then Rejected
        else if rule.code == ForceCode then
          if |rule.targets| == 0 then NoForceTarget(row)
          else
            var target := ForceTarget(rule.targets, d);
            Accepted(Forced(attrs, target.0, target.1))
        else Accepted(attrs)
  }

  /**
   * The first `n` rows of the table applied in order, each to the list the
   * previous rows left; `draw(r)` is the random pick of row `r`. An exception
   * names a row among the first `n` that can raise it.
   */
  function Run(attrs: seq<Attr>, rules: seq<Rule>, draw: nat -> nat, n: nat): (r: Outcome)
    requires n <= |rules|
    ensures r.NoTriggerEntry? ==> r.row < n && rules[r.row].code != NoopCode
    ensures r.NoForceTarget? ==> r.row < n && rules[r.row].code == ForceCode && |rules[r.row].targets| == 0
  {
    if n == 0 then Accepted(attrs)
    else match Run(attrs, rules, draw, n - 1)
      case Accepted(s) => Step(s, rules[n - 1], n - 1, draw(n - 1))
      case other => other
  }

  // ---------------------------------------------------------------------------
  // apply_rules as the source runs it

  /** `random_source.index(x)`: the first position holding an entry equal to `x`. */
  function IndexOf(s: seq<Attr>, x: Attr): (r: nat)
    requires x in s
    ensures r < |s| && s[r] == x && forall k :: 0 <= k < r ==> s[k] != x
  {
    if s[0] == x then 0 else 1 + IndexOf(s[1..], x)
  }

  /**
   * The force loop of generate.py:102-114. The skip of an already modified
   * index never happens, since every recorded index is at most the index being
   * visited, and `index` never raises, since the visited entry is in the list.
   */
  method ForceRewrite(source0: seq<Attr>, prop: string, newValue: string) returns (source: seq<Attr>)
    ensures source == Forced(source0, prop, newValue)
  {
    source := source0;
    var modified: set<nat> := {};
    var idx := 0;
    while idx < |source|
      invariant 0 <= idx <= |source| == |source0|
      invariant forall k :: 0 <= k < idx ==> source[k] == Forced(source0, prop, newValue)[k]
      invariant forall k :: idx <= k < |source| ==> source[k] == source0[k]
      invariant forall m :: m in modified ==> m < idx
    {
      var attr := source[idx];
      if attr.traitType == prop {
        assert idx !in modified;
        var index := IndexOf(source, attr);
        if index < idx {
          assert source[index] == Forced(source0, prop, newValue)[index];
          assert Rewrite(attr, prop, newValue) == attr;
        }
        source := source[index := Rewrite(attr, prop, newValue)];
        modified := modified + {index};
      }
      idx := idx + 1;
    }
  }

  /** The forbid scan of generate.py:86-91: is some target (trait_type, value) carried by some entry? */
  method ScanForbidden(source: seq<Attr>, targets: seq<(string, string)>) returns (hit: bool)
    ensures hit <==> Forbidden(source, targets)
  {
    var i := 0;
    while i < |targets|
      invariant 0 <= i <= |targets|
      invariant forall i', k :: 0 <= i' < i && 0 <= k < |source| ==> !Matches(source[k], targets[i'])
    {
      var k := 0;
      while k < |source|
        invariant 0 <= k <= |source|
        invariant forall k' :: 0 <= k' < k ==> !Matches(source[k'], targets[i])
      {
        if source[k].traitType == targets[i].0 && source[k].value.name == targets[i].1 {
          assert Matches(source[k], targets[i]);
          return true;
        }
        k := k + 1;
      }
      i := i + 1;
    }
    return false;
  }

  /** One pass of the loop body of generate.py:71-115: rule row number `r` applied to the current list. */
  method ApplyRow(source: seq<Attr>, row: Rule, r: nat, d: nat) returns (outcome: Outcome)
    ensures outcome == Step(source, row, r, d)
  {
    if row.code == NoopCode {
      return Accepted(source);
    }
    var t := FindProp(source, row.prop);
    if t.None? {
      return NoTriggerEntry(r);
    }
    if source[t.value].value.name != row.value {
      return Accepted(source);
    }
    if row.code == ForbidCode {
      var hit := ScanForbidden(source, row.targets);
      if hit {
        return Rejected;
      }
    }
    if row.code == ForceCode {
      if |row.targets| == 0 {
        return NoForceTarget(r);
      }
      var target := if |row.targets| > 1 then row.targets[d % |row.targets|] else row.targets[0];
      var forced := ForceRewrite(source, target.0, target.1);
      return Accepted(forced);
    }
    return Accepted(source);
  }

  /** `apply_rules(random, df)`: the rows in table order over a copy of `random`. */
  method ApplyRules(random: seq<Attr>, rules: seq<Rule>, draw: nat -> nat) returns (outcome: Outcome)
    ensures outcome == Run(random, rules, draw, |rules|)
  {
    var source := random;
    var r := 0;
    while r < |rules|
      invariant 0 <= r <= |rules|
      invariant Run(random, rules, draw, r) == Accepted(source)
    {
      var step := ApplyRow(source, rules[r], r, draw(r));
      if !step.Accepted? {
        StopIsFinal(random, rules, draw, r + 1, |rules|);
        return step;
      }
      source := step.attrs;
      r := r + 1;
    }
    return Accepted(source);
  }

  // ---------------------------------------------------------------------------
  // Properties of the rule engine

  /** An entry shape the sampler always produces: `value[1]` equals `trait_type`. */
  predicate Canonical(attrs: seq<Attr>) {
    forall k :: 0 <= k < |attrs| ==> attrs[k].value.prop == attrs[k].traitType
  }

  /**
   * Rules only ever rewrite values in place: whatever the table, an accepted
   * list keeps the length, order, folders, props and trait types of the input,
   * and so a canonical input stays canonical.
   */
  lemma {:induction false} RunKeepsSlots(attrs: seq<Attr>, rules: seq<Rule>, draw: nat -> nat, n: nat)
    requires n <= |rules|
    ensures Run(attrs, rules, draw, n).Accepted? ==> SameSlots(attrs, Run(attrs, rules, draw, n).attrs)
    ensures Run(attrs, rules, draw, n).Accepted? && Canonical(attrs) ==> Canonical(Run(attrs, rules, draw, n).attrs)
  {
    if n > 0 {
      RunKeepsSlots(attrs, rules, draw, n - 1);
    }
  }

  /** Once a row rejects or raises, no later row is evaluated: the outcome stays what it was. */
  lemma {:induction false} StopIsFinal(attrs: seq<Attr>, rules: seq<Rule>, draw: nat -> nat, n: nat, m: nat)
    requires n <= m <= |rules|
    requires !Run(attrs, rules, draw, n).Accepted?
    ensures Run(attrs, rules, draw, m) == Run(attrs, rules, draw, n)
    decreases m - n
  {
    if n < m {
      StopIsFinal(attrs, rules, draw, n, m - 1);
    }
  }

  /** The first `n` steps look at the first `n` rows only: two tables agreeing on them agree there. */
  lemma {:induction false} RunAgree(attrs: seq<Attr>, rules1: seq<Rule>, rules2: seq<Rule>, draw: nat -> nat, n: nat)
    requires n <= |rules1| && n <= |rules2|
    requires rules1[..n] == rules2[..n]
    ensures Run(attrs, rules1, draw, n) == Run(attrs, rules2, draw, n)
  {
    if n > 0 {
      assert rules1[..n - 1] == rules1[..n][..n - 1];
      assert rules2[..n - 1] == rules2[..n][..n - 1];
      assert rules1[n - 1] == rules1[..n][n - 1];
      assert rules2[n - 1] == rules2[..n][n - 1];
      RunAgree(attrs, rules1, rules2, draw, n - 1);
    }
  }

  /**
   * Forbid: when the list that reaches a firing forbid row contains one of its
   * (prop, value) targets, the whole call returns `(False, "")`, whatever rows
   * follow.
   */
  lemma ForbidRejects(attrs: seq<Attr>, rules: seq<Rule>, draw: nat -> nat, n: nat, s: seq<Attr>)
    requires n < |rules|
    requires Run(attrs, rules, draw, n) == Accepted(s)
    requires rules[n].code == ForbidCode && Fires(rules[n], s)
    requires Forbidden(s, rules[n].targets)
    ensures Run(attrs, rules, draw, |rules|) == Rejected
  {
    assert Run(attrs, rules, draw, n + 1) == Rejected;
    StopIsFinal(attrs, rules, draw, n + 1, |rules|);
  }

  /**
   * If no row fires on the input (every row is a no-op or finds its trigger
   * entry holding another value), the result is `(True, input)`.
   */
  lemma {:induction false} NoFirePassThrough(attrs: seq<Attr>, rules: seq<Rule>, draw: nat -> nat, n: nat)
    requires n <= |rules|
    requires forall r :: 0 <= r < n ==> rules[r].code == NoopCode || FindProp(attrs, rules[r].prop).Some?
    requires forall r :: 0 <= r < n ==> !Fires(rules[r], attrs)
    ensures Run(attrs, rules, draw, n) == Accepted(attrs)
  {
    if n > 0 {
      NoFirePassThrough(attrs, rules, draw, n - 1);
    }
  }

  /**
   * Force: a firing force row with targets rewrites, in the list it receives,
   * the value of every entry whose trait_type is the chosen prop, keeping
   * `value[0]` and `value[1]`, and leaves every other entry unchanged.
   */
  lemma ForceStep(attrs: seq<Attr>, rules: seq<Rule>, draw: nat -> nat, n: nat, s: seq<Attr>)
    requires n < |rules|
    requires Run(attrs, rules, draw, n) == Accepted(s)
    requires rules[n].code == ForceCode && Fires(rules[n], s) && |rules[n].targets| > 0
    ensures var t := ForceTarget(rules[n].targets, draw(n));
            var o := Run(attrs, rules, draw, n + 1);
            o.Accepted? && |o.attrs| == |s|
            && (forall k :: 0 <= k < |s| && s[k].traitType == t.0 ==>
                  o.attrs[k] == Attr(TraitValue(s[k].value.folder, s[k].value.prop, t.1), s[k].traitType))
            && (forall k :: 0 <= k < |s| && s[k].traitType != t.0 ==> o.attrs[k] == s[k])
  {
  }

  /** Rows that can fire a choice each have at most one target: then the random draws do not matter. */
  predicate SingleTargets(rules: seq<Rule>) {
    forall r :: 0 <= r < |rules| && rules[r].code == ForceCode ==> |rules[r].targets| <= 1
  }

  lemma {:induction false} SingleTargetDeterministic(attrs: seq<Attr>, rules: seq<Rule>, d1: nat -> nat, d2: nat -> nat, n: nat)
    requires n <= |rules|
    requires SingleTargets(rules)
    ensures Run(attrs, rules, d1, n) == Run(attrs, rules, d2, n)
  {
    if n > 0 {
      SingleTargetDeterministic(attrs, rules, d1, d2, n - 1);
    }
  }

  // ---------------------------------------------------------------------------
  // Worked examples. rules.csv is not part of this model; the table below is
  // one that produces the outcomes test/test_rule.py expects.

  function Entry(prop: string, v: string): Attr {
    Attr(TraitValue("parts", prop, v), prop)
  }

  function ExampleTable(): seq<Rule> {
    [ Rule("Background", "green", ForbidCode, [("First Letter", "B"), ("Second Letter", "A")]),
      Rule("Background", "blue", ForceCode, [("First Letter", "B")]),
      Rule("First Letter", "B", ForceCode, [("Second Letter", "A")]) ]
  }

  /** test_rule1 and test_rule4: nothing fires, the list comes back unchanged. */
  lemma ExamplePassThrough(draw: nat -> nat)
    ensures var white := [Entry("Background", "white"), Entry("First Letter", "H"), Entry("Second Letter", "A")];
            Run(white, ExampleTable(), draw, 3) == Accepted(white)
    ensures var black := [Entry("Background", "black"), Entry("First Letter", "1"), Entry("Second Letter", "empty")];
            Run(black, ExampleTable(), draw, 3) == Accepted(black)
  {
  }

  /** test_rule2: the second row's rewrite makes the third row fire. */
  lemma ExampleForceChain(draw: nat -> nat)
    ensures Run([Entry("Background", "blue"), Entry("First Letter", "C"), Entry("Second Letter", "R")],
                ExampleTable(), draw, 3)
         == Accepted([Entry("Background", "blue"), Entry("First Letter", "B"), Entry("Second Letter", "A")])
  {
    var t := ExampleTable();
    var s0 := [Entry("Background", "blue"), Entry("First Letter", "C"), Entry("Second Letter", "R")];
    var s1 := [Entry("Background", "blue"), Entry("First Letter", "B"), Entry("Second Letter", "R")];
    var s2 := [Entry("Background", "blue"), Entry("First Letter", "B"), Entry("Second Letter", "A")];
    assert FindProp(s0, "Background") == Some(0);
    assert Run(s0, t, draw, 1) == Accepted(s0);
    assert Forced(s0, "First Letter", "B") == s1;
    assert Run(s0, t, draw, 2) == Accepted(s1);
    assert FindProp(s1, "First Letter") == Some(1);
    assert Forced(s1, "Second Letter", "A") == s2;
  }

  /** test_rule3: the forbid row rejects. */
  lemma ExampleForbid(draw: nat -> nat)
    ensures Run([Entry("Background", "green"), Entry("First Letter", "B"), Entry("Second Letter", "A")],
                ExampleTable(), draw, 3)
         == Rejected
  {
    var s0 := [Entry("Background", "green"), Entry("First Letter", "B"), Entry("Second Letter", "A")];
    assert FindProp(s0, "Background") == Some(0);
    assert Matches(s0[1], ExampleTable()[0].targets[0]);
    ForbidRejects(s0, ExampleTable(), draw, 0, s0);
  }

  /**
   * Applying the table a second time to an accepted list need not give the
   * same list: the second row's rewrite makes the first row fire, but only
   * on the next pass.
   */
  lemma SecondPassCanDiffer(draw: nat -> nat)
    ensures var rules := [Rule("A", "c", ForceCode, [("B", "y")]), Rule("A", "a", ForceCode, [("A", "c")])];
            var once := Run([Entry("A", "a"), Entry("B", "x")], rules, draw, 2);
            once == Accepted([Entry("A", "c"), Entry("B", "x")])
            && Run(once.attrs, rules, draw, 2) == Accepted([Entry("A", "c"), Entry("B", "y")])
  {
    var rules := [Rule("A", "c", ForceCode, [("B", "y")]), Rule("A", "a", ForceCode, [("A", "c")])];
    var s0 := [Entry("A", "a"), Entry("B", "x")];
    var s1 := [Entry("A", "c"), Entry("B", "x")];
    var s2 := [Entry("A", "c"), Entry("B", "y")];
    assert FindProp(s0, "A") == Some(0);
    assert Run(s0, rules, draw, 1) == Accepted(s0);
    assert Forced(s0, "A", "c") == s1;
    assert Run(s0, rules, draw, 2) == Accepted(s1);
    assert FindProp(s1, "A") == Some(0);
    assert Forced(s1, "B", "y") == s2;
    assert Run(s1, rules, draw, 1) == Accepted(s2);
    assert FindProp(s2, "A") == Some(0);
  }
}
