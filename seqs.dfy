/** Sequence helpers: `Array.prototype.filter`, `Array.prototype.join` and a splitter for join. */
module Seqs {
  import opened Results

  /** `s.filter(keep)`: the elements of `s` satisfying `keep`, in their original order. */
  function Filter<T(!new)>(s: seq<T>, keep: T -> bool): (r: seq<T>)
    ensures |r| <= |s|
    ensures forall x :: x in r <==> x in s && keep(x)
  {
    if s == [] then [] else (if keep(s[0]) then [s[0]] else []) + Filter(s[1..], keep)
  }

  /** Filtering a non-empty sequence decides its first element, then filters the rest. */
  lemma FilterCons<T(!new)>(x: T, s: seq<T>, keep: T -> bool)
    ensures Filter([x] + s, keep) == (if keep(x) then [x] else []) + Filter(s, keep)
  {
    assert ([x] + s)[0] == x && ([x] + s)[1..] == s;
  }

  /** Filtering works element by element: it distributes over concatenation, so kept elements keep their order. */
  lemma {:induction false} FilterAppend<T(!new)>(a: seq<T>, b: seq<T>, keep: T -> bool)
    ensures Filter(a + b, keep) == Filter(a, keep) + Filter(b, keep)
  {
    if a == [] {
      assert a + b == b;
    } else {
      var x, rest := a[0], a[1..];
      var head := if keep(x) then [x] else [];
      assert a == [x] + rest;
      assert a + b == [x] + (rest + b);
      FilterCons(x, rest + b, keep);
      FilterCons(x, rest, keep);
      FilterAppend(rest, b, keep);
      assert head + (Filter(rest, keep) + Filter(b, keep)) == (head + Filter(rest, keep)) + Filter(b, keep);
    }
  }

  /** When every element is kept, filtering changes nothing. */
  lemma {:induction false} FilterKeepsAll<T(!new)>(s: seq<T>, keep: T -> bool)
    requires forall x :: x in s ==> keep(x)
    ensures Filter(s, keep) == s
  {
    if s != [] {
      FilterKeepsAll(s[1..], keep);
    }
  }

  /** `parts.join(sep)`: the parts with `sep` between neighbours; the empty list gives "". */
  function Join(parts: seq<string>, sep: string): (r: string)
    ensures parts == [] ==> r == []
    ensures |parts| == 1 ==> r == parts[0]
    ensures |parts| > 0 ==> parts[0] <= r
  {
    if parts == [] then ""
    else if |parts| == 1 then parts[0]
    else parts[0] + sep + Join(parts[1..], sep)
  }

  /** Joining two non-empty lists puts one separator between the two joins. */
  lemma {:induction false} JoinAppend(a: seq<string>, b: seq<string>, sep: string)
    requires |a| > 0 && |b| > 0
    ensures Join(a + b, sep) == Join(a, sep) + sep + Join(b, sep)
  {
    assert (a + b)[0] == a[0];
    if |a| == 1 {
      assert (a + b)[1..] == b;
    } else {
      assert (a + b)[1..] == a[1..] + b;
      JoinAppend(a[1..], b, sep);
    }
  }

  /** Splits `s` at every occurrence of `c`; the inverse of joining with `[c]`. */
  function Split(s: string, c: char): (r: seq<string>)
    ensures |r| > 0
    ensures forall k :: 0 <= k < |r| ==> c !in r[k]
  {
    if s == [] then [""]
    else if s[0] == c then [""] + Split(s[1..], c)
    else
      var rest := Split(s[1..], c);
      [[s[0]] + rest[0]] + rest[1..]
  }

  /** Splitting a part that has no separator gives the part back, and a separator starts a new part. */
  lemma {:induction false} SplitPrefix(x: string, t: string, c: char)
    requires c !in x
    ensures Split(x + [c] + t, c) == [x] + Split(t, c)
    ensures Split(x, c) == [x]
  {
    if x == [] {
      assert x + [c] + t == [c] + t;
      assert ([c] + t)[1..] == t;
    } else {
      assert (x + [c] + t)[1..] == x[1..] + [c] + t;
      SplitPrefix(x[1..], t, c);
      assert [x[0]] + x[1..] == x;
    }
  }

  /** Joining with a one-character separator that occurs in no part is undone by splitting. */
  lemma {:induction false} SplitJoin(parts: seq<string>, c: char)
    requires |parts| > 0
    requires forall k :: 0 <= k < |parts| ==> c !in parts[k]
    ensures Split(Join(parts, [c]), c) == parts
  {
    if |parts| == 1 {
      SplitPrefix(parts[0], "", c);
    } else {
      SplitJoin(parts[1..], c);
      SplitPrefix(parts[0], Join(parts[1..], [c]), c);
      assert [parts[0]] + parts[1..] == parts;
    }
  }

  /** `s.reduce((res, x) => step(x) is Some(y) ? [...res, y] : res, [])`: a left fold that emits at most one value per element. */
  function Collect<T, U>(s: seq<T>, step: T -> Option<U>): (r: seq<U>)
    ensures |r| <= |s|
  {
    if s == [] then []
    else Collect(s[..|s| - 1], step) + (match step(s[|s| - 1]) case Some(y) => [y] case None => [])
  }

  /** The fold's output holds exactly the values its steps emit. */
  lemma {:induction false} CollectMembers<T, U(!new)>(s: seq<T>, step: T -> Option<U>)
    ensures forall k :: 0 <= k < |s| && step(s[k]).Some? ==> step(s[k]).value in Collect(s, step)
    ensures forall y :: y in Collect(s, step) ==> exists k :: 0 <= k < |s| && step(s[k]) == Some(y)
  {
    if s != [] {
      var init := s[..|s| - 1];
      CollectMembers(init, step);
      assert forall k :: 0 <= k < |init| ==> init[k] == s[k];
    }
  }

  /** The fold works element by element: it distributes over concatenation, so emitted values keep their order. */
  lemma {:induction false} CollectAppend<T, U>(a: seq<T>, b: seq<T>, step: T -> Option<U>)
    ensures Collect(a + b, step) == Collect(a, step) + Collect(b, step)
    decreases |b|
  {
    if b == [] {
      assert a + b == a;
    } else {
      var init := b[..|b| - 1];
      assert (a + b)[..|a + b| - 1] == a + init;
      assert (a + b)[|a + b| - 1] == b[|b| - 1];
      CollectAppend(a, init, step);
    }
  }

  /** A fold whose every step emits its element unchanged gives back the whole sequence. */
  lemma {:induction false} CollectKeepsAll<T>(s: seq<T>, step: T -> Option<T>)
    requires forall k :: 0 <= k < |s| ==> step(s[k]) == Some(s[k])
    ensures Collect(s, step) == s
  {
    if s != [] {
      var init := s[..|s| - 1];
      assert forall k :: 0 <= k < |init| ==> init[k] == s[k];
      CollectKeepsAll(init, step);
      assert init + [s[|s| - 1]] == s;
    }
  }
}
