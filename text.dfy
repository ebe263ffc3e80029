/** Optional values, for the places where the Python code raises or finds nothing. */
module Wrappers {
  datatype Option<+T> = None | Some(value: T)
}

/**
 * The string operations the scripts rely on, written out with Python's
 * semantics: `str.split` with a one-character separator, `str.join`,
 * `str.replace` of one character, `str(int)`, `int(str)`, `str.startswith`
 * and `os.path.join` of two parts; and two facts about sequences: the
 * second components of a sequence of pairs, and no repeated elements.
 */
module Text {
  import opened Wrappers

  predicate StartsWith(s: string, prefix: string) {
    |prefix| <= |s| && s[..|prefix|] == prefix
  }

  predicate EndsWith(s: string, suffix: string) {
    |suffix| <= |s| && s[|s| - |suffix|..] == suffix
  }

  predicate NoChar(s: string, c: char) {
    forall i :: 0 <= i < |s| ==> s[i] != c
  }

  predicate IsDigit(c: char) {
    '0' <= c <= '9'
  }

  predicate AllDigits(s: string) {
    forall i :: 0 <= i < |s| ==> IsDigit(s[i])
  }

  /** Python's `s.split(c)`: the fields between occurrences of `c`, empty fields kept. */
  function Split(s: string, c: char): (r: seq<string>)
    ensures |r| >= 1
    ensures forall i :: 0 <= i < |r| ==> NoChar(r[i], c)
    decreases |s|
  {
    if |s| == 0 then [""]
    else if s[0] == c then [""] + Split(s[1..], c)
    else
      var rest := Split(s[1..], c);
      [[s[0]] + rest[0]] + rest[1..]
  }

  /** Python's `c.join(parts)`: the parts in order with one `c` between neighbours. */
  function Join(parts: seq<string>, c: char): string
  {
    if |parts| == 0 then ""
    else if |parts| == 1 then parts[0]
    else parts[0] + [c] + Join(parts[1..], c)
  }

  /** Python's `s.replace(a, b)` for one-character arguments. */
  function Replace(s: string, a: char, b: char): (r: string)
    ensures |r| == |s|
    ensures forall i :: 0 <= i < |s| ==> r[i] == (if s[i] == a then b else s[i])
  {
    seq(|s|, i requires 0 <= i < |s| => if s[i] == a then b else s[i])
  }

  function DigitChar(d: nat): (c: char)
    requires d < 10
    ensures IsDigit(c)
  {
    ['0', '1', '2', '3', '4', '5', '6', '7', '8', '9'][d]
  }

  function DigitValue(c: char): (d: nat)
    requires IsDigit(c)
    ensures d < 10 && DigitChar(d) == c
  {
    (c as int - '0' as int) as nat
  }

  /** Decimal digits of a natural number, most significant first, no leading zeros. */
  function NatToString(n: nat): (s: string)
    ensures |s| >= 1 && AllDigits(s)
  {
    if n < 10 then [DigitChar(n)] else NatToString(n / 10) + [DigitChar(n % 10)]
  }

  /** Python's `str(n)` for an int. */
  function IntToString(n: int): (s: string)
    ensures n >= 0 ==> AllDigits(s)
    ensures n < 0 ==> |s| >= 2 && s[0] == '-'
  {
    if n < 0 then "-" + NatToString(-n) else NatToString(n)
  }

  /** The value of a non-empty string of ASCII digits. */
  function DigitsValue(s: string): nat
    requires AllDigits(s)
  {
    if |s| == 0 then 0 else DigitsValue(s[..|s| - 1]) * 10 + DigitValue(s[|s| - 1])
  }

  /**
   * Python's `int(s)` on an optional sign followed by ASCII digits; `None`
   * where it raises ValueError. A number ends in a digit, and only a leading
   * `-` makes it negative.
   */
  function ParseInt(s: string): (r: Option<int>)
    ensures r.Some? ==> |s| >= 1 && IsDigit(s[|s| - 1])
    ensures r.Some? && s[0] == '-' ==> r.value <= 0
    ensures r.Some? && s[0] != '-' ==> r.value >= 0
  {
    if |s| >= 1 && (s[0] == '-' || s[0] == '+') then
      (if |s| >= 2 && AllDigits(s[1..]) then
         var v: int := DigitsValue(s[1..]);
         Some(if s[0] == '-' then -v else v)
       else None)
    else if |s| >= 1 && AllDigits(s) then Some(DigitsValue(s))
    else None
  }

  /** `os.path.join(a, b)` on POSIX for two components. */
  function PathJoin(a: string, b: string): string
  {
    if StartsWith(b, "/") then b
    else if a == "" || EndsWith(a, "/") then a + b
    else a + "/" + b
  }

  /** The second component of every pair, in order. */
  function Seconds<A, B>(s: seq<(A, B)>): (r: seq<B>)
    ensures |r| == |s| && forall i :: 0 <= i < |s| ==> r[i] == s[i].1
  {
    seq(|s|, i requires 0 <= i < |s| => s[i].1)
  }

  predicate NoDuplicates<T(==)>(s: seq<T>) {
    forall i, j :: 0 <= i < j < |s| ==> s[i] != s[j]
  }

  // ---------------------------------------------------------------------------
  // Lemmas

  lemma {:induction false} NatToStringRoundTrip(n: nat)
    ensures AllDigits(NatToString(n)) && DigitsValue(NatToString(n)) == n
  {
    var s := NatToString(n);
    if n >= 10 {
      NatToStringRoundTrip(n / 10);
      assert s[..|s| - 1] == NatToString(n / 10);
    }
  }

  /** `int(str(n)) == n` for every int. */
  lemma IntToStringRoundTrip(n: int)
    ensures ParseInt(IntToString(n)) == Some(n)
  {
    var s := IntToString(n);
    if n < 0 {
      var m: nat := -n;
      var digits := NatToString(m);
      NatToStringRoundTrip(m);
      assert s == "-" + digits;
      assert s[1..] == digits;
      assert s[0] == '-' && |s| >= 2;
    } else {
      NatToStringRoundTrip(n);
      assert s == NatToString(n);
      assert s[0] != '-' && s[0] != '+';
    }
  }

  lemma AllDigitsNoSeparator(s: string)
    requires AllDigits(s)
    ensures NoChar(s, '-') && NoChar(s, '.')
  {
  }

  /** Splitting a word free of `c` followed by anything glues the word onto the first field. */
  lemma {:induction false} SplitPrefix(w: string, rest: string, c: char)
    requires NoChar(w, c)
    ensures Split(w + rest, c) == [w + Split(rest, c)[0]] + Split(rest, c)[1..]
    decreases |w|
  {
    if |w| > 0 {
      assert (w + rest)[1..] == w[1..] + rest;
      SplitPrefix(w[1..], rest, c);
      var sr := Split(rest, c);
      assert [w[0]] + (w[1..] + sr[0]) == w + sr[0];
    } else {
      assert w + rest == rest;
      var sr := Split(rest, c);
      assert w == [];
      assert w + sr[0] == sr[0];
      assert sr == [sr[0]] + sr[1..];
    }
  }

  lemma SplitNoChar(w: string, c: char)
    requires NoChar(w, c)
    ensures Split(w, c) == [w]
  {
    SplitPrefix(w, "", c);
    assert w + "" == w;
  }

  /** `Split` inverts `Join` when no part contains the separator. */
  lemma {:induction false} SplitJoin(parts: seq<string>, c: char)
    requires |parts| >= 1
    requires forall i :: 0 <= i < |parts| ==> NoChar(parts[i], c)
    ensures Split(Join(parts, c), c) == parts
  {
    if |parts| == 1 {
      SplitNoChar(parts[0], c);
    } else {
      var tail := Join(parts[1..], c);
      SplitJoin(parts[1..], c);
      assert ([c] + tail)[1..] == tail;
      SplitPrefix(parts[0], [c] + tail, c);
      assert parts[0] + [c] + tail == parts[0] + ([c] + tail);
      assert parts[0] + "" == parts[0];
      assert parts == [parts[0]] + parts[1..];
    }
  }

  /** `Join` inverts `Split`: joining the fields of `s` with the separator gives back `s`. */
  lemma {:induction false} SplitThenJoin(s: string, c: char)
    ensures Join(Split(s, c), c) == s
    decreases |s|
  {
    if |s| > 0 {
      var rest := Split(s[1..], c);
      SplitThenJoin(s[1..], c);
      if s[0] == c {
        assert ([""] + rest)[1..] == rest;
        assert s == [c] + s[1..];
      } else {
        var r := [[s[0]] + rest[0]] + rest[1..];
        assert r[1..] == rest[1..];
        if |rest| > 1 {
          assert Join(rest, c) == rest[0] + [c] + Join(rest[1..], c);
          assert Join(r, c) == [s[0]] + rest[0] + [c] + Join(rest[1..], c);
        }
        assert s == [s[0]] + s[1..];
      }
    }
  }

  /** A join starts with its first part and ends with its last. */
  lemma {:induction false} JoinEnds(parts: seq<string>, c: char)
    requires |parts| >= 1
    ensures StartsWith(Join(parts, c), parts[0]) && EndsWith(Join(parts, c), parts[|parts| - 1])
  {
    if |parts| > 1 {
      var tail := Join(parts[1..], c);
      JoinEnds(parts[1..], c);
      var r := parts[0] + [c] + tail;
      assert r[..|parts[0]|] == parts[0];
      assert r[|r| - |parts[|parts| - 1]|..] == tail[|tail| - |parts[|parts| - 1]|..];
    }
  }

  /** The joined path ends with `b`, and starts with `a` unless `b` is absolute. */
  lemma PathJoinSpec(a: string, b: string)
    ensures EndsWith(PathJoin(a, b), b)
    ensures !StartsWith(b, "/") ==> StartsWith(PathJoin(a, b), a)
  {
    var r := PathJoin(a, b);
    if !StartsWith(b, "/") {
      assert r[..|a|] == a;
    }
    assert r[|r| - |b|..] == b;
  }

  /** Appending to the last part of a join is appending to the join. */
  lemma {:induction false} JoinAppendLast(parts: seq<string>, suffix: string, c: char)
    requires |parts| >= 1
    ensures Join(parts, c) + suffix
         == Join(parts[..|parts| - 1] + [parts[|parts| - 1] + suffix], c)
  {
    if |parts| > 1 {
      JoinAppendLast(parts[1..], suffix, c);
      var q := parts[..|parts| - 1] + [parts[|parts| - 1] + suffix];
      assert q[1..] == parts[1..][..|parts[1..]| - 1] + [parts[1..][|parts[1..]| - 1] + suffix];
    }
  }

  lemma JoinCons(first: string, parts: seq<string>, c: char)
    requires |parts| >= 1
    ensures first + [c] + Join(parts, c) == Join([first] + parts, c)
  {
    assert ([first] + parts)[1..] == parts;
  }

  lemma {:induction false} JoinSnoc(parts: seq<string>, x: string, c: char)
    requires |parts| >= 1
    ensures Join(parts + [x], c) == Join(parts, c) + [c] + x
  {
    assert (parts + [x])[1..] == parts[1..] + [x];
    if |parts| > 1 {
      JoinSnoc(parts[1..], x, c);
    }
  }

  /** A join of parts free of `a` is free of `a`, when the separator is not `a`. */
  lemma {:induction false} JoinNoChar(parts: seq<string>, a: char, c: char)
    requires a != c
    requires forall i :: 0 <= i < |parts| ==> NoChar(parts[i], a)
    ensures NoChar(Join(parts, c), a)
  {
    if |parts| > 1 {
      JoinNoChar(parts[1..], a, c);
    }
  }

  lemma ReplaceAppend(s: string, t: string, a: char, b: char)
    ensures Replace(s + t, a, b) == Replace(s, a, b) + Replace(t, a, b)
  {
  }

  lemma ReplaceNoChar(s: string, a: char, b: char)
    requires NoChar(s, a)
    ensures Replace(s, a, b) == s
  {
  }

  /**
   * Replacing `a` by another character leaves no `a` behind, and when `b`
   * did not occur, replacing `b` back by `a` restores the string.
   */
  lemma ReplaceRoundTrip(s: string, a: char, b: char)
    ensures a != b ==> NoChar(Replace(s, a, b), a)
    ensures NoChar(s, b) ==> Replace(Replace(s, a, b), b, a) == s
  {
  }
}
