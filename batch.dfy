/**
 * The batch coordinator of src/generate.py (`generate_images`): the checks it
 * makes before any image is written, the combinatorial capacity, and the
 * split of `[0, amount)` into one contiguous sub-range per worker.
 */
module Batch {
  import opened Wrappers
  import opened Text
  import opened Rules

  // ---------------------------------------------------------------------------
  // Capacity: a sum over folders of the product of per-prop value counts

  function Product(counts: seq<nat>): nat {
    if |counts| == 0 then 1 else counts[0] * Product(counts[1..])
  }

  function Sum(xs: seq<nat>): nat {
    if |xs| == 0 then 0 else Sum(xs[..|xs| - 1]) + xs[|xs| - 1]
  }

  /**
   * `sum_count` of generate.py:278-283: for each folder, the last entry of the
   * `cumprod` of its per-prop row counts, summed. `None` where a folder has no
   * rows and `cumprod()[-1]` raises IndexError.
   */
  function Capacity(folderCounts: seq<seq<nat>>): (r: Option<nat>)
    ensures r.None? <==> exists f :: 0 <= f < |folderCounts| && |folderCounts[f]| == 0
  {
    if |folderCounts| == 0 then Some(0)
    else match Capacity(folderCounts[..|folderCounts| - 1])
      case None => None
      case Some(c) =>
        var last := folderCounts[|folderCounts| - 1];
        if |last| == 0 then None else Some(c + Product(last))
  }

  function Products(folderCounts: seq<seq<nat>>): (r: seq<nat>)
    ensures |r| == |folderCounts|
    ensures forall f :: 0 <= f < |r| ==> r[f] == Product(folderCounts[f])
  {
    seq(|folderCounts|, f requires 0 <= f < |folderCounts| => Product(folderCounts[f]))
  }

  /** The capacity is the sum of the per-folder products, and defined exactly when no folder is empty. */
  lemma {:induction false} CapacityIsSumOfProducts(folderCounts: seq<seq<nat>>)
    ensures (forall f :: 0 <= f < |folderCounts| ==> |folderCounts[f]| > 0)
        ==> Capacity(folderCounts) == Some(Sum(Products(folderCounts)))
    ensures (exists f :: 0 <= f < |folderCounts| && |folderCounts[f]| == 0) ==> Capacity(folderCounts) == None
  {
    if |folderCounts| > 0 {
      var init := folderCounts[..|folderCounts| - 1];
      CapacityIsSumOfProducts(init);
      assert Products(folderCounts)[..|folderCounts| - 1] == Products(init);
      if exists f :: 0 <= f < |folderCounts| && |folderCounts[f]| == 0 {
        var f :| 0 <= f < |folderCounts| && |folderCounts[f]| == 0;
        if f < |init| {
          assert |init[f]| == 0;
        }
      }
    }
  }

  // ---------------------------------------------------------------------------
  // The same sum as numpy computes it, in int64

  const Int64Max: int := 0x7FFF_FFFF_FFFF_FFFF
  const Int64Modulus: int := 0x1_0000_0000_0000_0000

  /** The int64 that holds `x` after wrap-around: `x` modulo 2^64, read as a signed value. */
  function Wrap64(x: int): (r: int)
    ensures -Int64Max - 1 <= r <= Int64Max
    ensures -Int64Max - 1 <= x <= Int64Max ==> r == x
  {
    if -Int64Max - 1 <= x <= Int64Max then
      DivModUnique(x + Int64Max + 1, Int64Modulus, 0, x + Int64Max + 1);
      (x + Int64Max + 1) % Int64Modulus - (Int64Max + 1)
    else (x + Int64Max + 1) % Int64Modulus - (Int64Max + 1)
  }

  /** `folder_df.values.cumprod()[-1]`: the running product of the counts, wrapped at every step. */
  function CumProd64(counts: seq<nat>): int
    requires |counts| >= 1
  {
    if |counts| == 1 then Wrap64(counts[0])
    else Wrap64(CumProd64(counts[..|counts| - 1]) * counts[|counts| - 1])
  }

  /** `sum_count` of generate.py:279-283 with numpy's int64 additions; `None` where `cumprod()[-1]` raises. */
  function SumCount64(folderCounts: seq<seq<nat>>): Option<int> {
    if |folderCounts| == 0 then Some(0)
    else match SumCount64(folderCounts[..|folderCounts| - 1])
      case None => None
      case Some(c) =>
        var last := folderCounts[|folderCounts| - 1];
        if |last| == 0 then None else Some(Wrap64(c + CumProd64(last)))
  }

  /** Adding a multiple of 2^64 does not change the wrapped value. */
  lemma WrapShift(x: int, j: int)
    ensures Wrap64(x + j * Int64Modulus) == Wrap64(x)
  {
    var y := x + Int64Max + 1;
    assert y + j * Int64Modulus == (y / Int64Modulus + j) * Int64Modulus + y % Int64Modulus;
    DivModUnique(y + j * Int64Modulus, Int64Modulus, y / Int64Modulus + j, y % Int64Modulus);
  }

  /** Wrapping an operand first gives the same wrapped sum and product. */
  lemma WrapOperand(a: int, b: int)
    ensures Wrap64(Wrap64(a) + b) == Wrap64(a + b)
    ensures Wrap64(Wrap64(a) * b) == Wrap64(a * b)
  {
    var y := a + Int64Max + 1;
    var q := y / Int64Modulus;
    assert Wrap64(a) == a - q * Int64Modulus;
    WrapShift(a + b, -q);
    assert Wrap64(a) * b == a * b + (-q * b) * Int64Modulus;
    WrapShift(a * b, -q * b);
  }

  lemma {:induction false} ProductSnoc(counts: seq<nat>)
    requires |counts| >= 1
    ensures Product(counts) == Product(counts[..|counts| - 1]) * counts[|counts| - 1]
  {
    if |counts| > 1 {
      ProductSnoc(counts[1..]);
      assert counts[1..][..|counts[1..]| - 1] == counts[..|counts| - 1][1..];
      var init := counts[..|counts| - 1];
      assert Product(init) == counts[0] * Product(init[1..]);
      assert counts[0] * (Product(init[1..]) * counts[|counts| - 1])
          == (counts[0] * Product(init[1..])) * counts[|counts| - 1];
    }
  }

  lemma {:induction false} CumProd64IsWrappedProduct(counts: seq<nat>)
    requires |counts| >= 1
    ensures CumProd64(counts) == Wrap64(Product(counts))
  {
    if |counts| == 1 {
      assert counts[1..] == [];
    } else {
      var init := counts[..|counts| - 1];
      CumProd64IsWrappedProduct(init);
      ProductSnoc(counts);
      WrapOperand(Product(init), counts[|counts| - 1]);
    }
  }

  /**
   * numpy's `sum_count` is the exact capacity modulo 2^64, and equal to it
   * whenever the capacity fits in an int64.
   */
  lemma {:induction false} SumCount64Wraps(folderCounts: seq<seq<nat>>)
    ensures SumCount64(folderCounts).Some? <==> Capacity(folderCounts).Some?
    ensures SumCount64(folderCounts).Some? ==> SumCount64(folderCounts).value == Wrap64(Capacity(folderCounts).value)
    ensures Capacity(folderCounts).Some? && Capacity(folderCounts).value <= Int64Max ==> SumCount64(folderCounts) == Capacity(folderCounts)
  {
    if |folderCounts| > 0 {
      var init := folderCounts[..|folderCounts| - 1];
      var last := folderCounts[|folderCounts| - 1];
      SumCount64Wraps(init);
      if Capacity(init).Some? && |last| > 0 {
        CumProd64IsWrappedProduct(last);
        WrapOperand(Capacity(init).value, CumProd64(last));
        WrapOperand(Product(last), Capacity(init).value);
        assert Capacity(init).value + Wrap64(Product(last)) == Wrap64(Product(last)) + Capacity(init).value;
        assert Capacity(init).value + Product(last) == Product(last) + Capacity(init).value;
      }
    }
  }

  /** `n` props of `v` values each. */
  function Repeat(v: nat, n: nat): (r: seq<nat>)
    ensures |r| == n
  {
    if n == 0 then [] else [v] + Repeat(v, n - 1)
  }

  function Power(v: nat, n: nat): nat {
    if n == 0 then 1 else v * Power(v, n - 1)
  }

  lemma {:induction false} ProductRepeat(v: nat, n: nat)
    ensures Product(Repeat(v, n)) == Power(v, n)
  {
    if n > 0 {
      ProductRepeat(v, n - 1);
      assert Repeat(v, n)[1..] == Repeat(v, n - 1);
    }
  }

  /** Thirteen props of thirty values each. */
  const Thirties: seq<nat> := Repeat(30, 13)

  lemma ThirtiesProduct()
    ensures Product(Thirties) == 15943230000000000000
  {
    ProductRepeat(30, 13);
    assert Power(30, 13) == 15943230000000000000;
  }

  /**
   * One folder with 13 props of 30 values each: 30^13 combinations, but the
   * int64 sum wraps to a negative number, so `amount <= sum_count` fails for
   * every amount.
   */
  lemma CapacityOverflowExample()
    ensures Capacity([Thirties]) == Some(15943230000000000000)
    ensures SumCount64([Thirties]) == Some(-2503514073709551616)
  {
    ThirtiesProduct();
    assert [Thirties][..0] == [];
    assert Capacity([Thirties]) == Some(Product(Thirties));
    SumCount64Wraps([Thirties]);
    var y := 15943230000000000000 + Int64Max + 1;
    DivModUnique(y, Int64Modulus, 1, y - Int64Modulus);
  }

  /** Every choice of one value index per prop, in lexicographic order. */
  function Combos(counts: seq<nat>): seq<seq<nat>>
    decreases |counts|
  {
    if |counts| == 0 then [[]] else PrefixAll(counts[0], Combos(counts[1..]))
  }

  /** `[i] + t` for every t in `tails`. */
  function Block(i: nat, tails: seq<seq<nat>>): (r: seq<seq<nat>>)
    ensures |r| == |tails| && forall j :: 0 <= j < |tails| ==> r[j] == [i] + tails[j]
  {
    seq(|tails|, j requires 0 <= j < |tails| => [i] + tails[j])
  }

  /** `Block(0, tails) + ... + Block(n - 1, tails)`. */
  function PrefixAll(n: nat, tails: seq<seq<nat>>): seq<seq<nat>> {
    if n == 0 then [] else PrefixAll(n - 1, tails) + Block(n - 1, tails)
  }

  predicate IsCombo(counts: seq<nat>, c: seq<nat>) {
    |c| == |counts| && forall i :: 0 <= i < |c| ==> c[i] < counts[i]
  }

  lemma {:induction false} PrefixAllLength(n: nat, tails: seq<seq<nat>>)
    ensures |PrefixAll(n, tails)| == n * |tails|
  {
    if n > 0 {
      PrefixAllLength(n - 1, tails);
      assert (n - 1) * |tails| + |tails| == n * |tails|;
    }
  }

  lemma {:induction false} PrefixAllMembers(n: nat, tails: seq<seq<nat>>, c: seq<nat>)
    ensures c in PrefixAll(n, tails) <==> |c| >= 1 && c[0] < n && c[1..] in tails
  {
    if n > 0 {
      PrefixAllMembers(n - 1, tails, c);
      if |c| >= 1 && c[0] == n - 1 && c[1..] in tails {
        var j :| 0 <= j < |tails| && tails[j] == c[1..];
        assert Block(n - 1, tails)[j] == c;
      }
    }
  }

  lemma {:induction false} PrefixAllDistinct(n: nat, tails: seq<seq<nat>>)
    requires NoDuplicates(tails)
    ensures NoDuplicates(PrefixAll(n, tails))
  {
    if n > 0 {
      PrefixAllDistinct(n - 1, tails);
      var p: seq<seq<nat>> := PrefixAll(n - 1, tails);
      var b: seq<seq<nat>> := Block(n - 1, tails);
      var all: seq<seq<nat>> := p + b;
      assert all == PrefixAll(n, tails);
      forall i, j | 0 <= i < j < |all| ensures all[i] != all[j] {
        if i < |p| <= j {
          PrefixAllMembers(n - 1, tails, p[i]);
          assert all[j][0] == n - 1;
        } else if |p| <= i {
          assert b[i - |p|][1..] == tails[i - |p|];
          assert b[j - |p|][1..] == tails[j - |p|];
        }
      }
    }
  }

  /**
   * The capacity of one folder is the number of distinct attribute lists it
   * can produce: `Combos` lists every choice of one value per prop, each once,
   * and has `Product(counts)` entries.
   */
  lemma {:induction false} CombosCount(counts: seq<nat>)
    ensures |Combos(counts)| == Product(counts)
    ensures NoDuplicates(Combos(counts))
    ensures forall c :: c in Combos(counts) <==> IsCombo(counts, c)
    decreases |counts|
  {
    if |counts| > 0 {
      var tails := Combos(counts[1..]);
      CombosCount(counts[1..]);
      PrefixAllLength(counts[0], tails);
      PrefixAllDistinct(counts[0], tails);
      forall c ensures c in Combos(counts) <==> IsCombo(counts, c) {
        PrefixAllMembers(counts[0], tails, c);
        if IsCombo(counts, c) {
          assert IsCombo(counts[1..], c[1..]);
        }
        if |c| >= 1 && IsCombo(counts[1..], c[1..]) {
          forall i | 1 <= i < |c| ensures c[i] < counts[i] {
            assert c[i] == c[1..][i - 1];
          }
        }
      }
    }
  }

  lemma MulPositive(d: int, m: int)
    requires d >= 1 && m > 0
    ensures d * m >= m
    decreases d
  {
    if d > 1 {
      MulPositive(d - 1, m);
      assert d * m == (d - 1) * m + m;
    }
  }

  lemma DivModUnique(k: int, m: int, q: int, r: int)
    requires m > 0 && 0 <= r < m && k == q * m + r
    ensures k / m == q && k % m == r
  {
    var d := q - k / m;
    assert d * m == k % m - r by {
      assert k == (k / m) * m + k % m;
      assert q * m - (k / m) * m == d * m;
    }
    if d >= 1 {
      MulPositive(d, m);
    } else if d <= -1 {
      MulPositive(-d, m);
    }
  }

  // ---------------------------------------------------------------------------
  // The worker sub-ranges of generate.py:298-307

  /** `x * amount // processes`, the start of sub-range x: the floor of `x * amount / processes`. */
  function Bound(amount: nat, processes: nat, x: nat): (b: int)
    requires processes >= 1
    ensures b * processes <= x * amount < b * processes + processes
  {
    x * amount / processes
  }

  function Partition(amount: nat, processes: nat): (r: seq<(int, int)>)
    requires processes >= 1
    ensures |r| == processes
  {
    seq(processes, x requires 0 <= x < processes =>
      (Bound(amount, processes, x), Bound(amount, processes, x + 1)))
  }

  lemma MulMono(a: nat, b: nat, c: nat)
    requires a <= b
    ensures a * c <= b * c
  {
  }

  lemma DivMono(a: int, b: int, p: int)
    requires 0 <= a <= b && p > 0
    ensures a / p <= b / p
  {
    if a / p > b / p {
      MulMono(b / p + 1, a / p, p);
    }
  }

  lemma BoundMono(amount: nat, processes: nat, x: nat, y: nat)
    requires processes >= 1 && x <= y
    ensures 0 <= Bound(amount, processes, x) <= Bound(amount, processes, y)
  {
    MulMono(x, y, amount);
    DivMono(x * amount, y * amount, processes);
  }

  lemma BoundEnds(amount: nat, processes: nat)
    requires processes >= 1
    ensures Bound(amount, processes, 0) == 0 && Bound(amount, processes, processes) == amount
  {
    DivModUnique(processes * amount, processes, amount, 0);
  }

  /** `[lo, hi)` in order, `range(lo, hi)`. */
  function Range(lo: int, hi: int): (r: seq<int>)
    ensures |r| == if lo <= hi then hi - lo else 0
    ensures forall i :: 0 <= i < |r| ==> r[i] == lo + i
  {
    if lo < hi then seq(hi - lo, i requires 0 <= i < hi - lo => lo + i) else []
  }

  /** The indices the sub-ranges visit, sub-range after sub-range. */
  function Flatten(ranges: seq<(int, int)>): seq<int> {
    if |ranges| == 0 then [] else Flatten(ranges[..|ranges| - 1]) + Range(ranges[|ranges| - 1].0, ranges[|ranges| - 1].1)
  }

  /**
   * The sub-ranges start at 0, end at `amount`, each starts where the previous
   * one ends, and together they visit every index of `[0, amount)` exactly
   * once and in increasing order.
   */
  lemma PartitionCovers(amount: nat, processes: nat)
    requires processes >= 1
    ensures var r := Partition(amount, processes);
            r[0].0 == 0 && r[processes - 1].1 == amount
            && (forall x :: 0 <= x < processes ==> 0 <= r[x].0 <= r[x].1 <= amount)
            && (forall x :: 0 <= x < processes - 1 ==> r[x].1 == r[x + 1].0)
            && Flatten(r) == Range(0, amount)
  {
    var r := Partition(amount, processes);
    BoundEnds(amount, processes);
    forall x | 0 <= x < processes ensures 0 <= r[x].0 <= r[x].1 <= amount {
      BoundMono(amount, processes, x, x + 1);
      BoundMono(amount, processes, x + 1, processes);
    }
    FlattenPrefix(amount, processes, processes);
    assert r[..processes] == r;
  }

  lemma {:induction false} FlattenPrefix(amount: nat, processes: nat, n: nat)
    requires 1 <= processes && n <= processes
    ensures Flatten(Partition(amount, processes)[..n]) == Range(0, Bound(amount, processes, n))
  {
    var r := Partition(amount, processes);
    if n == 0 {
      BoundEnds(amount, processes);
    } else {
      FlattenPrefix(amount, processes, n - 1);
      assert r[..n][..n - 1] == r[..n - 1];
      BoundMono(amount, processes, n - 1, n);
      var lo, hi := Bound(amount, processes, n - 1), Bound(amount, processes, n);
      assert Range(0, lo) + Range(lo, hi) == Range(0, hi);
    }
  }

  // ---------------------------------------------------------------------------
  // The checks of generate_images before any work is dispatched

  datatype GenerateError =
    | InvalidRules       // ValueError("Rules are not satisfied"), generate.py:276-277
    | EmptyFolder        // IndexError from `cumprod()[-1]` on a folder without rows
    | AmountOutOfRange   // AssertionError of generate.py:284-286
    | NameWithoutDot     // IndexError from `f.split(".")[1]` while listing the save folder
    | FolderNotEmpty     // AssertionError of generate.py:291-294
    | NoWorkers          // Pool(processes) with processes < 1 raises ValueError

  datatype Plan = Ready(ranges: seq<(int, int, int)>) | Fail(error: GenerateError)

  /** `f.split(".")[1] == "png"`; `None` where the name has no dot and the index raises. */
  function PngBySplit(name: string): Option<bool> {
    var fields := Split(name, '.');
    if |fields| >= 2 then Some(fields[1] == "png") else None
  }

  /** `len(list(filter(lambda f: f.split(".")[1] == "png", names)))`; `None` where it raises. */
  function CountPng(names: seq<string>): (r: Option<nat>)
    ensures r.None? <==> exists i :: 0 <= i < |names| && PngBySplit(names[i]).None?
    ensures r == Some(0) <==> forall i :: 0 <= i < |names| ==> PngBySplit(names[i]) == Some(false)
  {
    if |names| == 0 then Some(0)
    else match (CountPng(names[..|names| - 1]), PngBySplit(names[|names| - 1]))
      case (Some(c), Some(b)) =>
        assert names[..|names| - 1] + [names[|names| - 1]] == names;
        Some(if b then c + 1 else c)
      case _ => None
  }

  /**
   * `generate_images` up to the pool: the rule check, the capacity check
   * against numpy's int64 `sum_count`, the empty-folder check, and the
   * sub-ranges handed to the workers as `(start, end, start_id)`. The
   * `min_ratio * amount >= 1` check is not part of this model.
   */
  function GenerateImagesPlan(rules: seq<Rule>, folderCounts: seq<seq<nat>>, amount: int,
                              saveFolder: seq<string>, processes: int, startId: int): (p: Plan)
    ensures !CheckRules(rules) ==> p == Fail(InvalidRules)
    ensures p.Ready? <==>
              CheckRules(rules)
              && SumCount64(folderCounts).Some? && 0 < amount <= SumCount64(folderCounts).value
              && CountPng(saveFolder) == Some(0)
              && processes >= 1
    ensures p.Ready? ==>
              |p.ranges| == processes
              && forall x :: 0 <= x < processes ==>
                   p.ranges[x] == (Partition(amount, processes)[x].0, Partition(amount, processes)[x].1, startId)
  {
    if !CheckRules(rules) then Fail(InvalidRules)
    else match SumCount64(folderCounts)
      case None => Fail(EmptyFolder)
      case Some(sumCount) =>
        if !(amount <= sumCount && amount > 0) then Fail(AmountOutOfRange)
        else match CountPng(saveFolder)
          case None => Fail(NameWithoutDot)
          case Some(n) =>
            if n != 0 then Fail(FolderNotEmpty)
            else if processes < 1 then Fail(NoWorkers)
            else
              var parts := Partition(amount, processes);
              Ready(seq(processes, x requires 0 <= x < processes => (parts[x].0, parts[x].1, startId)))
  }

  /**
   * With a folder of 13 props of 30 values, `generate_images` refuses every
   * amount, although the folder has 30^13 distinct combinations.
   */
  lemma OverflowRefusesEveryAmount(rules: seq<Rule>, amount: int, saveFolder: seq<string>, processes: int, startId: int)
    requires CheckRules(rules)
    ensures GenerateImagesPlan(rules, [Thirties], amount, saveFolder, processes, startId) == Fail(AmountOutOfRange)
  {
    CapacityOverflowExample();
  }
}
