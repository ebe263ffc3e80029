/**
 * The post-generation pass of src/final_check.py over a directory listing:
 * `remove_duplicate_by_traits`, which keeps the first image per trait key
 * and deletes the later ones, and `generate_csv`, which renumbers the images
 * consecutively and parses each new name back into its trait values.
 * The directory is a sequence of file names; SHA-1 of the key is the key
 * itself.
 */
module FinalCheck {
  import opened Wrappers
  import opened Text
  import opened Rules
  import opened Batch
  import opened Generation

  // ---------------------------------------------------------------------------
  // remove_duplicate_by_traits

  /** `list(filter(lambda f: f.split(".")[1] == "png", names))`; `None` where a name has no `.`. */
  function ListPng(names: seq<string>): (r: Option<seq<string>>)
    ensures r.None? <==> exists i :: 0 <= i < |names| && PngBySplit(names[i]).None?
    ensures r.Some? ==> |r.value| <= |names|
  {
    if |names| == 0 then Some([])
    else match (ListPng(names[..|names| - 1]), PngBySplit(names[|names| - 1]))
      case (Some(kept), Some(b)) =>
        assert names[..|names| - 1] + [names[|names| - 1]] == names;
        Some(if b then kept + [names[|names| - 1]] else kept)
      case _ => None
  }

  /** The listing keeps exactly the names whose second `.`-field is `png`, in directory order. */
  lemma {:induction false} ListPngMembers(names: seq<string>)
    requires ListPng(names).Some?
    ensures forall f :: f in ListPng(names).value <==> f in names && PngBySplit(f) == Some(true)
    ensures CountPng(names) == Some(|ListPng(names).value|)
  {
    if |names| > 0 {
      var init := names[..|names| - 1];
      assert init + [names[|names| - 1]] == names;
      ListPngMembers(init);
    }
  }

  /** `[i + 1 for i in range(nprops)]`, the columns used when none are configured. */
  function DefaultColumns(nprops: nat): (r: seq<int>)
    ensures |r| == nprops && forall i :: 0 <= i < nprops ==> r[i] == i + 1
  {
    seq(nprops, i requires 0 <= i < nprops => i + 1)
  }

  function Columns(traitColIndex: seq<int>, nprops: nat): seq<int> {
    if |traitColIndex| == 0 then DefaultColumns(nprops) else traitColIndex
  }

  /** Python's `fields[i]`, counting from the end for a negative `i`; `None` where it raises IndexError. */
  function PyIndex(fields: seq<string>, i: int): (r: Option<string>)
    ensures r.Some? <==> -|fields| <= i < |fields|
    ensures 0 <= i < |fields| ==> r == Some(fields[i])
  {
    if 0 <= i < |fields| then Some(fields[i])
    else if -|fields| <= i < 0 then Some(fields[|fields| + i])
    else None
  }

  /** `[fields[i] for i in cols]`; `None` where any index raises. */
  function Picks(fields: seq<string>, cols: seq<int>): (r: Option<seq<string>>)
    ensures r.Some? <==> forall j :: 0 <= j < |cols| ==> PyIndex(fields, cols[j]).Some?
    ensures r.Some? ==> |r.value| == |cols| && forall j :: 0 <= j < |cols| ==> Some(r.value[j]) == PyIndex(fields, cols[j])
  {
    if |cols| == 0 then Some([])
    else match (PyIndex(fields, cols[0]), Picks(fields, cols[1..]))
      case (Some(x), Some(rest)) => Some([x] + rest)
      case _ => None
  }

  /**
   * The trait key of a file name: the `-`-join of its `-`-fields at `cols`;
   * `None` for an invalid name, where some column index raises.
   */
  function TraitKey(filename: string, cols: seq<int>): Option<string> {
    match Picks(Split(filename, '-'), cols)
    case None => None
    case Some(picked) => Some(Join(picked, '-'))
  }

  /**
   * Joining loses nothing: with at least one column, two valid names share a
   * key exactly when their fields at the columns agree.
   */
  lemma TraitKeyFaithful(f: string, g: string, cols: seq<int>)
    requires |cols| >= 1 && TraitKey(f, cols).Some? && TraitKey(g, cols).Some?
    ensures TraitKey(f, cols) == TraitKey(g, cols) <==> Picks(Split(f, '-'), cols) == Picks(Split(g, '-'), cols)
  {
    var pf, pg := Picks(Split(f, '-'), cols).value, Picks(Split(g, '-'), cols).value;
    PicksNoChar(Split(f, '-'), cols);
    PicksNoChar(Split(g, '-'), cols);
    SplitJoin(pf, '-');
    SplitJoin(pg, '-');
  }

  /** Fields picked from a split carry no separator. */
  lemma PicksNoChar(fields: seq<string>, cols: seq<int>)
    requires forall i :: 0 <= i < |fields| ==> NoChar(fields[i], '-')
    requires Picks(fields, cols).Some?
    ensures forall j :: 0 <= j < |cols| ==> NoChar(Picks(fields, cols).value[j], '-')
  {
    forall j | 0 <= j < |cols| ensures NoChar(Picks(fields, cols).value[j], '-') {
      assert Some(Picks(fields, cols).value[j]) == PyIndex(fields, cols[j]);
    }
  }

  /** The key of every listed file, in order. */
  function Keys(files: seq<string>, cols: seq<int>): (ks: seq<Option<string>>)
    ensures |ks| == |files| && forall i :: 0 <= i < |files| ==> ks[i] == TraitKey(files[i], cols)
  {
    seq(|files|, i requires 0 <= i < |files| => TraitKey(files[i], cols))
  }

  /** Some earlier file carries the same key as file `i`. */
  predicate HasEarlier(keys: seq<Option<string>>, i: nat)
    requires i < |keys|
  {
    exists j :: 0 <= j < i && keys[j] == keys[i]
  }

  /** File `i` is the first component of some recorded pair. */
  predicate Marked(duplicates: seq<(nat, nat)>, i: nat) {
    exists t :: 0 <= t < |duplicates| && duplicates[t].0 == i
  }

  lemma MarkedAppend(duplicates: seq<(nat, nat)>, p: (nat, nat), i: nat)
    ensures Marked(duplicates + [p], i) <==> Marked(duplicates, i) || p.0 == i
  {
    var d := duplicates + [p];
    if Marked(duplicates, i) {
      var t :| 0 <= t < |duplicates| && duplicates[t].0 == i;
      assert d[t] == duplicates[t];
    }
    if p.0 == i {
      assert d[|duplicates|].0 == i;
    }
    if Marked(d, i) && p.0 != i {
      var t :| 0 <= t < |d| && d[t].0 == i;
      assert t < |duplicates| && duplicates[t] == d[t];
    }
  }

  /**
   * What the scan promises: the first `examined` files have keys and the
   * next one (if any) has none; every pair is a later file against the
   * first file with its key; a file is marked exactly when an earlier file
   * has its key; and the marked positions are increasing.
   */
  predicate IsScan(keys: seq<Option<string>>, duplicates: seq<(nat, nat)>, examined: nat) {
    examined <= |keys|
    && (forall i :: 0 <= i < examined ==> keys[i].Some?)
    && (examined < |keys| ==> keys[examined].None?)
    && (forall t :: 0 <= t < |duplicates| ==>
          duplicates[t].1 < duplicates[t].0 < examined
          && keys[duplicates[t].0] == keys[duplicates[t].1]
          && !HasEarlier(keys, duplicates[t].1))
    && (forall i :: 0 <= i < examined ==> (Marked(duplicates, i) <==> HasEarlier(keys, i)))
    && (forall t, u :: 0 <= t < u < |duplicates| ==> duplicates[t].0 < duplicates[u].0)
  }

  /** The state of the scan after `index` files: `hashKeys` maps each key seen to its first file. */
  predicate ScanInv(keys: seq<Option<string>>, hashKeys: map<string, nat>, duplicates: seq<(nat, nat)>, index: nat) {
    index <= |keys|
    && (forall i :: 0 <= i < index ==> keys[i].Some? && keys[i].value in hashKeys)
    && (forall k :: k in hashKeys ==>
          hashKeys[k] < index && keys[hashKeys[k]] == Some(k) && !HasEarlier(keys, hashKeys[k]))
    && (forall t :: 0 <= t < |duplicates| ==>
          duplicates[t].1 < duplicates[t].0 < index
          && keys[duplicates[t].0] == keys[duplicates[t].1]
          && !HasEarlier(keys, duplicates[t].1))
    && (forall i :: 0 <= i < index ==> (Marked(duplicates, i) <==> HasEarlier(keys, i)))
    && (forall t, u :: 0 <= t < u < |duplicates| ==> duplicates[t].0 < duplicates[u].0)
  }

  /** One file with a valid key (src/final_check.py:25-28): first sighting recorded, later ones paired. */
  method Visit(ghost keys: seq<Option<string>>, index: nat, key: string, hashKeys: map<string, nat>, duplicates: seq<(nat, nat)>)
    returns (hashKeys': map<string, nat>, duplicates': seq<(nat, nat)>)
    requires index < |keys| && keys[index] == Some(key) && ScanInv(keys, hashKeys, duplicates, index)
    ensures ScanInv(keys, hashKeys', duplicates', index + 1)
  {
    if key !in hashKeys {
      assert !HasEarlier(keys, index);
      hashKeys' := hashKeys[key := index];
      duplicates' := duplicates;
      assert !Marked(duplicates, index);
    } else {
      var first := hashKeys[key];
      assert HasEarlier(keys, index);
      forall i | 0 <= i <= index ensures Marked(duplicates + [(index, first)], i) <==> Marked(duplicates, i) || i == index {
        MarkedAppend(duplicates, (index, first), i);
      }
      hashKeys' := hashKeys;
      duplicates' := duplicates + [(index, first)];
    }
  }

  /**
   * The scan of src/final_check.py:14-28 over the listed files: a key per
   * file, the first index of each key in `hashKeys`, and a pair
   * `(index, first)` for every later file with a known key. An invalid name
   * ends the scan; `examined` is how many files were looked at before.
   */
  method ScanDuplicates(files: seq<string>, cols: seq<int>) returns (duplicates: seq<(nat, nat)>, examined: nat)
    ensures IsScan(Keys(files, cols), duplicates, examined)
  {
    ghost var keys := Keys(files, cols);
    var hashKeys: map<string, nat> := map[];
    duplicates := [];
    var index := 0;
    while index < |files|
      invariant index <= |files| && ScanInv(keys, hashKeys, duplicates, index)
    {
      var key := TraitKey(files[index], cols);
      assert key == keys[index];
      if key.None? {
        return duplicates, index;
      }
      hashKeys, duplicates := Visit(keys, index, key.value, hashKeys, duplicates);
      index := index + 1;
    }
    return duplicates, index;
  }

  /** What `remove_duplicate_by_traits` does to a directory: no listing, or the files it deletes. */
  datatype Dedup = ListingFailed | Deleted(files: seq<string>, duplicates: seq<(nat, nat)>, examined: nat, removed: seq<string>)

  /**
   * `remove_duplicate_by_traits(root, trait_col_index)`: `nprops` is the
   * number of properties, the length of the default column list. The
   * removed names are the files at the first components of the pairs.
   */
  method RemoveDuplicateByTraits(names: seq<string>, traitColIndex: seq<int>, nprops: nat) returns (r: Dedup)
    ensures r.ListingFailed? <==> ListPng(names).None?
    ensures r.Deleted? ==>
              r.files == ListPng(names).value
              && IsScan(Keys(r.files, Columns(traitColIndex, nprops)), r.duplicates, r.examined)
              && |r.removed| == |r.duplicates|
              && forall t :: 0 <= t < |r.duplicates| ==>
                   r.duplicates[t].0 < |r.files| && r.removed[t] == r.files[r.duplicates[t].0]
  {
    var fileList := ListPng(names);
    if fileList.None? {
      return ListingFailed;
    }
    var files := fileList.value;
    var cols := Columns(traitColIndex, nprops);
    var duplicates, examined := ScanDuplicates(files, cols);
    var removed: seq<string> := [];
    for t := 0 to |duplicates|
      invariant |removed| == t
      invariant forall t' :: 0 <= t' < t ==> removed[t'] == files[duplicates[t'].0]
    {
      removed := removed + [files[duplicates[t].0]];
    }
    return Deleted(files, duplicates, examined, removed);
  }

  /**
   * Among the examined files exactly one per key survives: two unmarked files
   * never share a key, and every examined file has an unmarked file with its
   * key at or before it.
   */
  lemma {:induction false} OneSurvivorPerKey(keys: seq<Option<string>>, duplicates: seq<(nat, nat)>, examined: nat, i: nat)
    requires IsScan(keys, duplicates, examined) && i < examined
    ensures forall j :: (0 <= j < examined && !Marked(duplicates, i) && !Marked(duplicates, j)
                         && keys[i] == keys[j]) ==> i == j
    ensures exists j :: 0 <= j <= i && !Marked(duplicates, j) && keys[j] == keys[i]
  {
    forall j | 0 <= j < examined && !Marked(duplicates, i) && !Marked(duplicates, j) && keys[i] == keys[j]
      ensures i == j
    {
      if i < j {
        assert HasEarlier(keys, j);
      } else if j < i {
        assert HasEarlier(keys, i);
      }
    }
    if Marked(duplicates, i) {
      assert HasEarlier(keys, i);
      var j :| 0 <= j < i && keys[j] == keys[i];
      OneSurvivorPerKey(keys, duplicates, examined, j);
      var j' :| 0 <= j' <= j && !Marked(duplicates, j') && keys[j'] == keys[j];
      assert 0 <= j' <= i;
    } else {
      assert 0 <= i <= i;
    }
  }

  // ---------------------------------------------------------------------------
  // Stable sort by an integer key (Python's `list.sort(key=...)`)

  predicate SortedBy<T>(s: seq<(int, T)>) {
    forall i, j :: 0 <= i < j < |s| ==> s[i].0 <= s[j].0
  }

  /** Put `x` before the first element whose key is not smaller. */
  function InsertBy<T>(x: (int, T), s: seq<(int, T)>): seq<(int, T)> {
    if |s| == 0 then [x]
    else if x.0 <= s[0].0 then [x] + s
    else [s[0]] + InsertBy(x, s[1..])
  }

  /** Insertion sort by key; it rearranges the elements and neither adds nor drops any. */
  function SortBy<T>(xs: seq<(int, T)>): (r: seq<(int, T)>)
    ensures multiset(r) == multiset(xs)
  {
    if |xs| == 0 then []
    else
      var rest := SortBy(xs[1..]);
      InsertByPerm(xs[0], rest);
      assert xs == [xs[0]] + xs[1..];
      InsertBy(xs[0], rest)
  }

  /** The elements carrying key `k`, in order. */
  function WithKey<T>(s: seq<(int, T)>, k: int): seq<(int, T)> {
    if |s| == 0 then [] else (if s[0].0 == k then [s[0]] else []) + WithKey(s[1..], k)
  }

  lemma {:induction false} InsertByPerm<T>(x: (int, T), s: seq<(int, T)>)
    ensures multiset(InsertBy(x, s)) == multiset(s) + multiset{x}
  {
    if |s| > 0 && x.0 > s[0].0 {
      InsertByPerm(x, s[1..]);
      assert s == [s[0]] + s[1..];
    }
  }

  /** Inserting keeps a lower bound on the keys. */
  lemma {:induction false} InsertByBound<T>(x: (int, T), s: seq<(int, T)>, b: int)
    requires b <= x.0 && forall m :: 0 <= m < |s| ==> b <= s[m].0
    ensures forall k :: 0 <= k < |InsertBy(x, s)| ==> b <= InsertBy(x, s)[k].0
  {
    if |s| > 0 && x.0 > s[0].0 {
      InsertByBound(x, s[1..], b);
      var rest := InsertBy(x, s[1..]);
      assert InsertBy(x, s) == [s[0]] + rest;
    }
  }

  lemma {:induction false} InsertBySorted<T>(x: (int, T), s: seq<(int, T)>)
    requires SortedBy(s)
    ensures SortedBy(InsertBy(x, s))
  {
    if |s| > 0 && x.0 > s[0].0 {
      var r := InsertBy(x, s);
      var rest := InsertBy(x, s[1..]);
      SortedTail(s);
      InsertBySorted(x, s[1..]);
      InsertByBound(x, s[1..], s[0].0);
      assert r == [s[0]] + rest;
      forall i, j | 0 <= i < j < |r| ensures r[i].0 <= r[j].0 {
        assert r[j] == rest[j - 1];
        if i > 0 {
          assert r[i] == rest[i - 1];
        }
      }
    }
  }

  lemma SortedTail<T>(s: seq<(int, T)>)
    requires SortedBy(s) && |s| > 0
    ensures SortedBy(s[1..])
  {
    forall i, j | 0 <= i < j < |s[1..]| ensures s[1..][i].0 <= s[1..][j].0 {
      assert s[1..][i] == s[i + 1] && s[1..][j] == s[j + 1];
    }
  }

  lemma {:induction false} InsertByWithKey<T>(x: (int, T), s: seq<(int, T)>, k: int)
    requires SortedBy(s)
    ensures WithKey(InsertBy(x, s), k) == (if x.0 == k then [x] else []) + WithKey(s, k)
  {
    var r := InsertBy(x, s);
    if |s| == 0 {
    } else if x.0 <= s[0].0 {
      assert r[1..] == s;
    } else {
      var rest := InsertBy(x, s[1..]);
      SortedTail(s);
      InsertByWithKey(x, s[1..], k);
      assert r[1..] == rest && r[0] == s[0];
      var tail := WithKey(s[1..], k);
      assert WithKey(s, k) == (if s[0].0 == k then [s[0]] else []) + tail;
      assert WithKey(r, k) == (if s[0].0 == k then [s[0]] else []) + WithKey(rest, k);
      if x.0 == k {
        assert WithKey(r, k) == [x] + tail;
      } else {
        assert WithKey(rest, k) == tail;
      }
    }
  }

  /** Python's sort is stable: the result is sorted, a permutation, and keeps the order of equal keys. */
  lemma {:induction false} SortByProps<T>(xs: seq<(int, T)>, k: int)
    ensures SortedBy(SortBy(xs))
    ensures multiset(SortBy(xs)) == multiset(xs)
    ensures WithKey(SortBy(xs), k) == WithKey(xs, k)
  {
    if |xs| > 0 {
      SortByProps(xs[1..], k);
      InsertByPerm(xs[0], SortBy(xs[1..]));
      InsertBySorted(xs[0], SortBy(xs[1..]));
      InsertByWithKey(xs[0], SortBy(xs[1..]), k);
      assert xs == [xs[0]] + xs[1..];
    }
  }

  /** Sorting a sequence that is already in key order changes nothing. */
  lemma {:induction false} SortBySorted<T>(xs: seq<(int, T)>)
    requires SortedBy(xs)
    ensures SortBy(xs) == xs
  {
    if |xs| > 0 {
      SortedTail(xs);
      SortBySorted(xs[1..]);
      assert xs == [xs[0]] + xs[1..];
    }
  }

  // ---------------------------------------------------------------------------
  // generate_csv

  /** The sort key of src/final_check.py:43-45: 0 for the two non-image names; `None` where `int()` raises. */
  function FileSortKey(a: string): (r: Option<int>)
    ensures a == "attr.csv" || a == ".DS_Store" ==> r == Some(0)
  {
    if a == "attr.csv" || a == ".DS_Store" then Some(0) else ParseInt(Split(a, '-')[0])
  }

  /** Each name with its key; `None` where any key raises. */
  function Keyed(names: seq<string>): (r: Option<seq<(int, string)>>)
    ensures r.None? <==> exists i :: 0 <= i < |names| && FileSortKey(names[i]).None?
    ensures r.Some? ==> |r.value| == |names|
                        && forall i :: 0 <= i < |names| ==> r.value[i] == (FileSortKey(names[i]).value, names[i])
  {
    if |names| == 0 then Some([])
    else match (FileSortKey(names[0]), Keyed(names[1..]))
      case (Some(k), Some(rest)) => Some([(k, names[0])] + rest)
      case _ => None
  }

  /** `os.path.splitext(name)[1] == ".png"` for a name without `/`: the last `.` must follow a character other than `.`. */
  predicate PngExtension(name: string): (b: bool)
    ensures b ==> |name| >= 5 && EndsWith(name, ".png")
  {
    EndsWith(name, ".png") && exists i :: 0 <= i < |name| - 4 && name[i] != '.'
  }

  /** The `.png` files of a listing, in order. */
  function PngOnly(files: seq<string>): (r: seq<string>)
    ensures |r| <= |files|
  {
    if |files| == 0 then []
    else
      assert files == files[..|files| - 1] + [files[|files| - 1]];
      PngOnly(files[..|files| - 1]) + (if PngExtension(files[|files| - 1]) then [files[|files| - 1]] else [])
  }

  /** `str(n) + "-" + "-".join(file.split("-")[1:])`. */
  function NewName(n: int, file: string): string {
    IntToString(n) + "-" + Join(Split(file, '-')[1..], '-')
  }

  /**
   * The new name is `str(n)`, a `-`, and everything after the first `-` of
   * the old name; with no `-` in the old name nothing follows the `-`.
   */
  lemma NewNameSpec(n: int, file: string)
    ensures NoChar(file, '-') ==> NewName(n, file) == IntToString(n) + "-"
    ensures forall p :: 0 <= p < |file| && file[p] == '-' && NoChar(file[..p], '-') ==>
              NewName(n, file) == IntToString(n) + "-" + file[p + 1..]
  {
    if NoChar(file, '-') {
      SplitNoChar(file, '-');
    }
    forall p | 0 <= p < |file| && file[p] == '-' && NoChar(file[..p], '-')
      ensures NewName(n, file) == IntToString(n) + "-" + file[p + 1..]
    {
      NewNameAt(n, file, p);
    }
  }

  /** `NewNameSpec` for the first `-` at position `p`. */
  lemma NewNameAt(n: int, file: string, p: nat)
    requires p < |file| && file[p] == '-' && NoChar(file[..p], '-')
    ensures NewName(n, file) == IntToString(n) + "-" + file[p + 1..]
  {
    var tail := file[p..];
    assert file == file[..p] + tail;
    SplitPrefix(file[..p], tail, '-');
    assert tail[1..] == file[p + 1..];
    assert Split(tail, '-') == [""] + Split(file[p + 1..], '-');
    assert Split(file, '-')[1..] == Split(file[p + 1..], '-');
    SplitThenJoin(file[p + 1..], '-');
  }

  /** One row of `all_data`: the index, the new path and the trait values. */
  datatype CsvRow = CsvRow(index: int, path: string, args: seq<string>)

  /**
   * The row for image `file` renumbered `n` (src/final_check.py:50-54):
   * `index, *args, _ = new_file.replace(".", "-").split("-")`; `None` where
   * the unpacking or `int(index)` raises.
   */
  function RowFor(images: string, n: int, file: string): (r: Option<CsvRow>)
    ensures n >= 0 ==> r.Some? && r.value.index == n
  {
    var newFile := NewName(n, file);
    var fields := Split(Replace(newFile, '.', '-'), '-');
    assert n >= 0 ==> |fields| >= 2 && ParseInt(fields[0]) == Some(n) by {
      if n >= 0 {
        RowIndex(n, file);
      }
    }
    if |fields| < 2 then None
    else match ParseInt(fields[0])
      case None => None
      case Some(index) => Some(CsvRow(index, PathJoin(images, newFile), fields[1..|fields| - 1]))
  }

  /** Row `j` is the parse of the `j`-th image renumbered `startId + j`. */
  predicate RowsMatch(images: string, startId: int, pngs: seq<string>, rows: seq<CsvRow>) {
    |rows| == |pngs| && forall j :: 0 <= j < |pngs| ==> Some(rows[j]) == RowFor(images, startId + j, pngs[j])
  }

  /** Rename `j` moves the `j`-th image to its new name under `images`. */
  predicate RenamesMatch(images: string, startId: int, pngs: seq<string>, renames: seq<(string, string)>) {
    |renames| == |pngs|
    && forall j :: 0 <= j < |pngs| ==>
         renames[j] == (PathJoin(images, pngs[j]), PathJoin(images, NewName(startId + j, pngs[j])))
  }

  lemma RowsMatchAppend(images: string, startId: int, pngs: seq<string>, rows: seq<CsvRow>, n: int, file: string, row: CsvRow)
    requires RowsMatch(images, startId, pngs, rows) && n == startId + |pngs| && Some(row) == RowFor(images, n, file)
    ensures RowsMatch(images, startId, pngs + [file], rows + [row])
  {
    var ps, rs := pngs + [file], rows + [row];
    forall j | 0 <= j < |ps| ensures Some(rs[j]) == RowFor(images, startId + j, ps[j]) {
      if j < |pngs| {
        assert rs[j] == rows[j] && ps[j] == pngs[j];
      }
    }
  }

  lemma RenamesMatchAppend(images: string, startId: int, pngs: seq<string>, renames: seq<(string, string)>,
                           n: int, file: string, rename: (string, string))
    requires RenamesMatch(images, startId, pngs, renames) && n == startId + |pngs|
    requires rename == (PathJoin(images, file), PathJoin(images, NewName(n, file)))
    ensures RenamesMatch(images, startId, pngs + [file], renames + [rename])
  {
  }

  /**
   * The renaming loop of src/final_check.py:47-55 over one sorted
   * directory: every `.png` file in order gets the next number from
   * `startId`, is renamed to `images/NewName`, and yields its row. The
   * first image whose new name does not parse ends the loop, after its
   * rename.
   */
  method RenameAndParse(files: seq<string>, images: string, startId: int)
    returns (rows: Option<seq<CsvRow>>, renames: seq<(string, string)>)
    ensures var pngs := PngOnly(files);
            rows.Some? ==> RowsMatch(images, startId, pngs, rows.value) && RenamesMatch(images, startId, pngs, renames)
    ensures var pngs := PngOnly(files);
            var m := |renames| - 1;
            rows.None? ==> 0 <= m < |pngs| && RenamesMatch(images, startId, pngs[..m + 1], renames)
                           && (forall j :: 0 <= j < m ==> RowFor(images, startId + j, pngs[j]).Some?)
                           && RowFor(images, startId + m, pngs[m]).None?
  {
    var allData: seq<CsvRow> := [];
    renames := [];
    ghost var seen: seq<string> := [];
    var n := startId;
    for i := 0 to |files|
      invariant seen == PngOnly(files[..i]) && n == startId + |seen|
      invariant RowsMatch(images, startId, seen, allData) && RenamesMatch(images, startId, seen, renames)
    {
      PngOnlyPrefix(files, i);
      var file := files[i];
      if PngExtension(file) {
        var rename := (PathJoin(images, file), PathJoin(images, NewName(n, file)));
        var row := RowFor(images, n, file);
        RenamesMatchAppend(images, startId, seen, renames, n, file, rename);
        renames := renames + [rename];
        if row.None? {
          PngOnlyPrefixOf(files, i + 1);
          NoneAtEnd(images, startId, PngOnly(files), seen, allData, file, renames, n);
          return None, renames;
        }
        RowsMatchAppend(images, startId, seen, allData, n, file, row.value);
        allData := allData + [row.value];
        seen := seen + [file];
        n := n + 1;
      }
    }
    assert files[..|files|] == files;
    return Some(allData), renames;
  }

  lemma NoneAtEnd(images: string, startId: int, pngs: seq<string>, seen: seq<string>, allData: seq<CsvRow>,
                  file: string, renames: seq<(string, string)>, n: int)
    requires |seen| < |pngs| && pngs[..|seen| + 1] == seen + [file]
    requires RowsMatch(images, startId, seen, allData) && RenamesMatch(images, startId, seen + [file], renames)
    requires n == startId + |seen| && RowFor(images, n, file).None?
    ensures var m := |renames| - 1;
            0 <= m < |pngs| && RenamesMatch(images, startId, pngs[..m + 1], renames)
            && (forall j :: 0 <= j < m ==> RowFor(images, startId + j, pngs[j]).Some?)
            && RowFor(images, startId + m, pngs[m]).None?
  {
    var m := |renames| - 1;
    assert pngs[m] == (seen + [file])[m] == file;
    forall j | 0 <= j < m ensures RowFor(images, startId + j, pngs[j]).Some? {
      assert pngs[j] == (seen + [file])[j] == seen[j];
    }
  }

  /** A name of the listing is kept exactly when its extension is `.png`. */
  lemma {:induction false} PngOnlyMembers(files: seq<string>)
    ensures forall f :: f in PngOnly(files) <==> f in files && PngExtension(f)
    decreases |files|
  {
    if |files| > 0 {
      var init := files[..|files| - 1];
      PngOnlyMembers(init);
      assert files == init + [files[|files| - 1]];
    }
  }

  /** The `.png` files of a prefix of the listing are a prefix of its `.png` files. */
  lemma {:induction false} PngOnlyPrefixOf(files: seq<string>, i: nat)
    requires i <= |files|
    ensures |PngOnly(files[..i])| <= |PngOnly(files)| && PngOnly(files[..i]) == PngOnly(files)[..|PngOnly(files[..i])|]
    decreases |files| - i
  {
    if i < |files| {
      PngOnlyPrefixOf(files, i + 1);
      PngOnlyPrefix(files, i);
      var short, long, all := PngOnly(files[..i]), PngOnly(files[..i + 1]), PngOnly(files);
      assert long[..|short|] == short;
      assert all[..|long|][..|short|] == all[..|short|];
    } else {
      assert files[..i] == files;
    }
  }

  lemma PngOnlyPrefix(files: seq<string>, i: nat)
    requires i < |files|
    ensures PngOnly(files[..i + 1]) == PngOnly(files[..i]) + (if PngExtension(files[i]) then [files[i]] else [])
  {
    assert files[..i + 1][..i] == files[..i];
  }

  /** The rows of src/final_check.py:54 for the images `pngs`; `None` when some name does not parse. */
  function Parsed(images: string, startId: int, pngs: seq<string>): (r: Option<seq<CsvRow>>)
    ensures r.Some? <==> forall j :: 0 <= j < |pngs| ==> RowFor(images, startId + j, pngs[j]).Some?
    ensures r.Some? ==> RowsMatch(images, startId, pngs, r.value)
    ensures startId >= 0 ==> r.Some?
  {
    if forall j :: 0 <= j < |pngs| ==> RowFor(images, startId + j, pngs[j]).Some? then
      Some(seq(|pngs|, j requires 0 <= j < |pngs| => RowFor(images, startId + j, pngs[j]).value))
    else None
  }

  /** The rows that match the images are the parsed rows. */
  lemma ParsedMatches(images: string, startId: int, pngs: seq<string>, rows: seq<CsvRow>)
    requires RowsMatch(images, startId, pngs, rows)
    ensures Parsed(images, startId, pngs) == Some(rows)
  {
    var p := Parsed(images, startId, pngs);
    assert p.Some? by {
      forall j | 0 <= j < |pngs| ensures RowFor(images, startId + j, pngs[j]).Some? {
        assert Some(rows[j]) == RowFor(images, startId + j, pngs[j]);
      }
    }
    assert p.value == rows;
  }

  /** Why `generate_csv` raises. */
  datatype CsvError =
    | HeaderRaised   // `random_attr()` raised while the column names were built
    | SortKeyRaised  // `int()` raised on a name while the listing was sorted
    | ParseRaised    // a new name did not split into an index and a tail
    | WidthMismatch  // pandas refused rows whose widest one is not as wide as the header

  /** The table `generate_csv(sort)` writes, after the `index` column is dropped: its column names and its rows. */
  datatype Csv = Csv(columns: seq<string>, frame: seq<(string, seq<Option<string>>)>)

  datatype CsvOutcome = Written(csv: Csv) | Raised(error: CsvError)

  /**
   * pandas' check at src/final_check.py:60: with at least one row, the
   * widest row has exactly as many attribute cells as the header has trait
   * columns; an empty list of rows makes an empty table.
   */
  predicate WidthOk(rows: seq<CsvRow>, width: nat) {
    |rows| == 0 || ((forall x :: x in rows ==> |x.args| <= width) && exists x :: x in rows && |x.args| == width)
  }

  /** A row's attribute cells, padded with missing cells to `width`, as pandas pads rows shorter than the widest. */
  function Padded(args: seq<string>, width: nat): (r: seq<Option<string>>)
    ensures |r| == width
  {
    seq(width, i requires 0 <= i < width => if i < |args| then Some(args[i]) else None)
  }

  /** Padding keeps every cell and adds only missing ones. */
  lemma PaddedKeepsCells(args: seq<string>, width: nat)
    requires |args| <= width
    ensures Padded(args, width)[..|args|] == seq(|args|, i requires 0 <= i < |args| => Some(args[i]))
    ensures forall i :: |args| <= i < width ==> Padded(args, width)[i].None?
  {
  }

  function Frame(rows: seq<CsvRow>, width: nat): (r: seq<(string, seq<Option<string>>)>)
    ensures |r| == |rows|
  {
    seq(|rows|, j requires 0 <= j < |rows| => (rows[j].path, Padded(rows[j].args, width)))
  }

  function IndexKeyed(rows: seq<CsvRow>): (r: seq<(int, CsvRow)>)
    ensures |r| == |rows| && forall j :: 0 <= j < |rows| ==> r[j] == (rows[j].index, rows[j])
  {
    seq(|rows|, j requires 0 <= j < |rows| => (rows[j].index, rows[j]))
  }

  /** `all_data.sort(key=lambda i: i[0])`. */
  function SortRows(rows: seq<CsvRow>): seq<CsvRow> {
    Seconds(SortBy(IndexKeyed(rows)))
  }

  /** Sorting the rows keeps exactly the same rows. */
  lemma SortRowsMembers(rows: seq<CsvRow>)
    ensures |SortRows(rows)| == |rows|
    ensures forall x :: x in SortRows(rows) <==> x in rows
  {
    var keyed := IndexKeyed(rows);
    var sorted := SortBy(keyed);
    assert |sorted| == |multiset(sorted)| == |multiset(keyed)| == |keyed|;
    forall x | x in rows ensures x in SortRows(rows) {
      var j :| 0 <= j < |rows| && rows[j] == x;
      assert keyed[j] in multiset(sorted);
      var k :| 0 <= k < |sorted| && sorted[k] == keyed[j];
      assert SortRows(rows)[k] == x;
    }
    forall x | x in SortRows(rows) ensures x in rows {
      var k :| 0 <= k < |sorted| && SortRows(rows)[k] == x;
      assert sorted[k] in multiset(keyed);
      var j :| 0 <= j < |keyed| && keyed[j] == sorted[k];
      assert rows[j] == x;
    }
  }

  /** The width check gives the same verdict before and after the sort. */
  lemma SortKeepsWidth(rows: seq<CsvRow>, width: nat)
    ensures WidthOk(SortRows(rows), width) == WidthOk(rows, width)
  {
    SortRowsMembers(rows);
  }

  /**
   * `generate_csv(sort)` for the top directory `images` with listing
   * `names`, given the trait types of one `random_attr()` call (`None` where
   * it raises): files sorted stably by their leading integer, renamed and
   * parsed, rows sorted by index when `sort` holds, then handed to pandas.
   * `renames` lists the renames done before the table was made or refused.
   */
  method GenerateCsv(header: Option<seq<string>>, names: seq<string>, images: string, startId: int, sort: bool)
    returns (renames: seq<(string, string)>, r: CsvOutcome)
    ensures header.None? ==> renames == [] && r == Raised(HeaderRaised)
    ensures header.Some? && Keyed(names).None? ==> renames == [] && r == Raised(SortKeyRaised)
    ensures header.Some? && Keyed(names).Some? ==>
              var pngs := PngOnly(Seconds(SortBy(Keyed(names).value)));
              var width := |header.value|;
              match Parsed(images, startId, pngs)
              case None =>
                r == Raised(ParseRaised)
                && 1 <= |renames| <= |pngs| && RenamesMatch(images, startId, pngs[..|renames|], renames)
                && RowFor(images, startId + |renames| - 1, pngs[|renames| - 1]).None?
              case Some(rows) =>
                RenamesMatch(images, startId, pngs, renames)
                && r == if WidthOk(rows, width)
                        then Written(Csv(["path"] + header.value, Frame(if sort then SortRows(rows) else rows, width)))
                        else Raised(WidthMismatch)
  {
    if header.None? {
      return [], Raised(HeaderRaised);
    }
    var width := |header.value|;
    var keyed := Keyed(names);
    if keyed.None? {
      return [], Raised(SortKeyRaised);
    }
    var ordered := Seconds(SortBy(keyed.value));
    var rows;
    rows, renames := RenameAndParse(ordered, images, startId);
    if rows.None? {
      ghost var pngs := PngOnly(ordered);
      ghost var m := |renames| - 1;
      assert !RowFor(images, startId + m, pngs[m]).Some?;
      return renames, Raised(ParseRaised);
    }
    ParsedMatches(images, startId, PngOnly(ordered), rows.value);
    var allData := rows.value;
    if sort {
      allData := SortRows(allData);
      SortKeepsWidth(rows.value, width);
    }
    if !WidthOk(allData, width) {
      return renames, Raised(WidthMismatch);
    }
    return renames, Written(Csv(["path"] + header.value, Frame(allData, width)));
  }

  // ---------------------------------------------------------------------------
  // Properties of the renaming

  /** The index field of a new name is the new number, for a non-negative number. */
  lemma NewNameIndex(n: nat, file: string)
    ensures Split(NewName(n, file), '-')[0] == IntToString(n)
  {
    var digits := IntToString(n);
    AllDigitsNoSeparator(digits);
    var rest := "-" + Join(Split(file, '-')[1..], '-');
    assert NewName(n, file) == digits + rest;
    SplitPrefix(digits, rest, '-');
    assert Split(rest, '-')[0] == "";
    assert digits + "" == digits;
  }

  /** New names given distinct non-negative numbers never collide, so no rename overwrites another. */
  lemma NewNamesDistinct(n: nat, m: nat, f: string, g: string)
    requires n != m
    ensures NewName(n, f) != NewName(m, g)
  {
    NewNameIndex(n, f);
    NewNameIndex(m, g);
    IntToStringRoundTrip(n);
    IntToStringRoundTrip(m);
  }

  /** With a non-negative start the rows carry `startId, startId + 1, ...`, so sorting them changes nothing. */
  lemma RowsConsecutive(images: string, startId: nat, pngs: seq<string>, rows: seq<CsvRow>)
    requires RowsMatch(images, startId, pngs, rows)
    ensures forall j :: 0 <= j < |rows| ==> rows[j].index == startId + j
    ensures SortRows(rows) == rows
  {
    forall j | 0 <= j < |rows| ensures rows[j].index == startId + j {
      var newFile := NewName(startId + j, pngs[j]);
      RowIndex(startId + j, pngs[j]);
    }
    assert SortedBy(IndexKeyed(rows));
    SortBySorted(IndexKeyed(rows));
  }

  /** The parsed index of a renamed file is its number. */
  lemma RowIndex(n: nat, file: string)
    ensures var fields := Split(Replace(NewName(n, file), '.', '-'), '-');
            |fields| >= 2 && ParseInt(fields[0]) == Some(n)
  {
    var digits := IntToString(n);
    AllDigitsNoSeparator(digits);
    var rest := "-" + Join(Split(file, '-')[1..], '-');
    assert NewName(n, file) == digits + rest;
    ReplaceAppend(digits, rest, '.', '-');
    ReplaceNoChar(digits, '.', '-');
    var rest' := Replace(rest, '.', '-');
    assert rest'[0] == '-';
    SplitPrefix(digits, rest', '-');
    assert Split(rest', '-') == [""] + Split(rest'[1..], '-');
    assert digits + "" == digits;
    IntToStringRoundTrip(n);
  }

  /** The values of a generated name carry neither separator. */
  predicate PlainValues(attrs: seq<Attr>) {
    forall j :: 0 <= j < |attrs| ==> NoChar(attrs[j].value.name, '-') && NoChar(attrs[j].value.name, '.')
  }

  /** The listing sort key of a renamed image is its new number, so renamed images sort in their new order. */
  lemma FileSortKeyOfNewName(n: nat, file: string)
    ensures FileSortKey(NewName(n, file)) == Some(n)
  {
    var name := NewName(n, file);
    var digits := IntToString(n);
    assert name[0] == digits[0] && IsDigit(name[0]);
    assert name != "attr.csv" && name != ".DS_Store" by {
      assert !IsDigit("attr.csv"[0]) && !IsDigit(".DS_Store"[0]);
    }
    NewNameIndex(n, file);
    IntToStringRoundTrip(n);
  }

  /**
   * A generated name passes both `.png` tests: the `split(".")` test of the
   * dedup listing (src/final_check.py:11) and the `splitext` test of the
   * renaming loop (src/final_check.py:48), when no value contains `.`.
   */
  lemma GeneratedNameIsPng(n: nat, attrs: seq<Attr>)
    requires forall j :: 0 <= j < |attrs| ==> NoChar(attrs[j].value.name, '.')
    ensures PngExtension(FileName(n, attrs))
    ensures PngBySplit(FileName(n, attrs)) == Some(true)
  {
    var digits := IntToString(n);
    AllDigitsNoSeparator(digits);
    var values := Values(attrs);
    JoinNoChar(values, '.', '-');
    var stem := digits + "-" + Join(values, '-');
    assert NoChar(stem, '.');
    var name := FileName(n, attrs);
    assert name == stem + ".png";
    assert name[0] != '.' && 0 < |name| - 4;
    SplitPrefix(stem, ".png", '.');
    SplitNoChar("png", '.');
    assert ".png"[1..] == "png";
    assert Split(".png", '.') == ["", "png"];
    assert stem + "" == stem;
  }

  /** Renumbering a name made at src/generate.py:238-240 gives the name the new number would have had. */
  lemma NewNameOfFileName(n: int, i: nat, attrs: seq<Attr>)
    requires |attrs| >= 1 && PlainValues(attrs)
    ensures NewName(n, FileName(i, attrs)) == FileName(n, attrs)
  {
    var values := Values(attrs);
    var last := |values| - 1;
    var dotted := values[..last] + [values[last] + ".png"];
    JoinAppendLast(values, ".png", '-');
    var di := IntToString(i);
    AllDigitsNoSeparator(di);
    assert FileName(i, attrs) == di + "-" + Join(dotted, '-');
    JoinCons(di, dotted, '-');
    var parts := [di] + dotted;
    forall k | 0 <= k < |parts| ensures NoChar(parts[k], '-') {
      if 0 < k < |parts| - 1 {
        assert parts[k] == values[k - 1];
      } else if k == |parts| - 1 {
        assert parts[k] == values[last] + ".png";
      }
    }
    SplitJoin(parts, '-');
    assert Split(FileName(i, attrs), '-')[1..] == dotted;
  }

  /** Python's parse of a generated name: the number, each value, then `png`. */
  lemma SplitFileName(n: nat, attrs: seq<Attr>)
    requires |attrs| >= 1 && PlainValues(attrs)
    ensures Split(Replace(FileName(n, attrs), '.', '-'), '-') == [IntToString(n)] + Values(attrs) + ["png"]
  {
    var values := Values(attrs);
    var dn := IntToString(n);
    AllDigitsNoSeparator(dn);
    var joined := Join(values, '-');
    JoinNoChar(values, '.', '-');
    ReplaceNoChar(dn, '.', '-');
    ReplaceNoChar(joined, '.', '-');
    ReplaceAppend(dn + "-" + joined, ".png", '.', '-');
    ReplaceAppend(dn + "-", joined, '.', '-');
    ReplaceAppend(dn, "-", '.', '-');
    assert Replace(".png", '.', '-') == "-png";
    assert Replace("-", '.', '-') == "-";
    assert Replace(FileName(n, attrs), '.', '-') == dn + "-" + (joined + "-" + "png");
    JoinSnoc(values, "png", '-');
    JoinCons(dn, values + ["png"], '-');
    var parts := [dn] + (values + ["png"]);
    forall k | 0 <= k < |parts| ensures NoChar(parts[k], '-') {
      if 0 < k < |parts| - 1 {
        assert parts[k] == values[k - 1];
      }
    }
    SplitJoin(parts, '-');
    assert parts == [dn] + values + ["png"];
  }

  /**
   * The round trip with src/generate.py:238-240: renumbering the name
   * generated for index `i` to `n` and parsing it back yields the index `n`
   * and the attribute values in order, when no value contains `-` or `.`.
   */
  lemma FileNameRoundTrip(images: string, n: nat, i: nat, attrs: seq<Attr>)
    requires |attrs| >= 1 && PlainValues(attrs)
    ensures RowFor(images, n, FileName(i, attrs)) == Some(CsvRow(n, PathJoin(images, FileName(n, attrs)), Values(attrs)))
  {
    NewNameOfFileName(n, i, attrs);
    SplitFileName(n, attrs);
    IntToStringRoundTrip(n);
    var fields := [IntToString(n)] + Values(attrs) + ["png"];
    assert fields[1..|fields| - 1] == Values(attrs);
  }

  lemma DottedNewName(file: string)
    requires file == "0-a.b-c.png"
    ensures NewName(5, file) == "5-a.b-c.png"
  {
    assert file[1] == '-' && NoChar(file[..1], '-');
    NewNameAt(5, file, 1);
    assert NatToString(5) == "5";
    assert "5-" + file[2..] == "5-a.b-c.png";
  }

  lemma DottedFields(newFile: string)
    requires newFile == "5-a.b-c.png"
    ensures Split(Replace(newFile, '.', '-'), '-') == ["5", "a", "b", "c", "png"]
  {
    var fields := ["5", "a", "b", "c", "png"];
    assert Join(fields, '-') == "5-a-b-c-png";
    assert Replace(newFile, '.', '-') == "5-a-b-c-png";
    SplitJoin(fields, '-');
  }

  /**
   * A value with a `.` widens its row: the renamed `0-a.b-c.png` parses to
   * three attribute cells, so with a two-trait header pandas refuses the
   * table and `generate_csv` raises.
   */
  lemma DottedValueWidensRow(images: string, file: string)
    requires file == "0-a.b-c.png"
    ensures RowFor(images, 5, file) == Some(CsvRow(5, PathJoin(images, "5-a.b-c.png"), ["a", "b", "c"]))
    ensures !WidthOk([RowFor(images, 5, file).value], 2)
  {
    DottedNewName(file);
    var newFile := NewName(5, file);
    DottedFields(newFile);
    var fields := ["5", "a", "b", "c", "png"];
    assert fields[1..|fields| - 1] == ["a", "b", "c"];
    assert ParseInt("5") == Some(5);
  }
}
