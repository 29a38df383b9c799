/** Python values and the outcome of a Python call, as the scripts use them. */
module Py {

  /** A Python value that may be `None`. */
  datatype Option<+T> = None | Some(value: T) {
    function GetOr(default: T): T
    {
      match this
      case Some(v) => v
      case None => default
    }
  }

  /** What a Python call does: return a value, or raise an exception that escapes it. */
  datatype Outcome<+T> = Returned(value: T) | Raised

  lemma TailOfCons<T>(x: T, xs: seq<T>)
    ensures ([x] + xs)[0] == x && ([x] + xs)[1..] == xs
  {
  }

  lemma IndexSnoc<T>(xs: seq<T>, x: T, k: nat)
    requires k <= |xs|
    ensures (xs + [x])[k] == if k < |xs| then xs[k] else x
  {
  }

  lemma PrefixOfPrefix<T>(xs: seq<T>, n: nat, k: nat)
    requires k <= n <= |xs|
    ensures xs[..n][..k] == xs[..k]
  {
  }

  lemma SeqAssoc<T>(x: seq<T>, y: seq<T>, z: seq<T>)
    ensures x + (y + z) == (x + y) + z
  {
  }

  lemma SuffixOfSuffix<T>(xs: seq<T>, n: nat, m: nat)
    requires m <= n <= |xs|
    ensures xs[|xs| - n..][n - m..] == xs[|xs| - m..]
  {
  }

  lemma NotInSuffix<T>(xs: seq<T>, j: nat, x: T)
    requires j <= |xs| && x !in xs
    ensures x !in xs[j..]
  {
  }

  /** `xs[-1]` */
  function Last<T>(xs: seq<T>): T
    requires |xs| > 0
  {
    xs[|xs| - 1]
  }

  /** `range(start, stop, step)` for a positive step, starting at a natural number. */
  function Range(start: nat, stop: int, step: nat): (r: seq<nat>)
    requires step > 0
    ensures forall k :: 0 <= k < |r| ==> start <= r[k] < stop
    decreases stop - start
  {
    if start >= stop then [] else [start] + Range(start + step, stop, step)
  }

  /** The elements of `range(start, stop, step)`: `start + k * step` for each `k`, the last one
      within a step of `stop`, and none at all exactly when `stop <= start`. */
  lemma {:induction false} RangeSpec(start: nat, stop: int, step: nat)
    requires step > 0
    ensures var r := Range(start, stop, step);
      && (|r| == 0 <==> stop <= start)
      && (forall k :: 0 <= k < |r| ==> r[k] == start + k * step)
      && (|r| > 0 ==> stop <= r[|r| - 1] + step)
    decreases stop - start
  {
    if start < stop {
      RangeSpec(start + step, stop, step);
      var rest := Range(start + step, stop, step);
      var r := Range(start, stop, step);
      assert r == [start] + rest;
      forall k | 1 <= k < |r|
        ensures r[k] == start + k * step
      {
        assert r[k] == rest[k - 1];
        assert (start + step) + (k - 1) * step == start + k * step;
      }
    }
  }

  /** `range(start, start + k * step, step)` has exactly `k` elements, the `i`-th being
      `start + i * step`. */
  lemma {:induction false} RangeSteps(start: nat, k: nat, step: nat)
    requires step > 0
    ensures |Range(start, start + k * step, step)| == k
    ensures forall i :: 0 <= i < k ==> Range(start, start + k * step, step)[i] == start + i * step
    decreases k
  {
    if k > 0 {
      assert start + k * step == (start + step) + (k - 1) * step;
      RangeSteps(start + step, k - 1, step);
      var rest := Range(start + step, (start + step) + (k - 1) * step, step);
      assert Range(start, start + k * step, step) == [start] + rest;
      forall i | 1 <= i < k
        ensures ([start] + rest)[i] == start + i * step
      {
        assert ([start] + rest)[i] == rest[i - 1];
        assert (start + step) + (i - 1) * step == start + i * step;
      }
    }
  }

  /** `[f(x) for x in xs if keep(x)]` */
  function KeepMap<A, B>(xs: seq<A>, keep: A -> bool, f: A -> B): (r: seq<B>)
    ensures |r| <= |xs|
  {
    if xs == [] then []
    else KeepMap(xs[..|xs| - 1], keep, f) + (if keep(xs[|xs| - 1]) then [f(xs[|xs| - 1])] else [])
  }

  /** When every element is kept, the result maps `f` over all of them, in order. */
  lemma {:induction false} KeepMapAll<A, B>(xs: seq<A>, keep: A -> bool, f: A -> B)
    requires forall k :: 0 <= k < |xs| ==> keep(xs[k])
    ensures |KeepMap(xs, keep, f)| == |xs|
    ensures forall k :: 0 <= k < |xs| ==> KeepMap(xs, keep, f)[k] == f(xs[k])
  {
    if xs != [] {
      var init := xs[..|xs| - 1];
      KeepMapAll(init, keep, f);
      forall k | 0 <= k < |xs|
        ensures KeepMap(xs, keep, f)[k] == f(xs[k])
      {
        if k < |init| {
          assert xs[k] == init[k];
        }
      }
    }
  }

  /** All elements satisfy `P` exactly when the first and all the rest do. */
  lemma AllOfCons<T>(xs: seq<T>, P: T -> bool)
    requires |xs| >= 1
    ensures (forall k :: 0 <= k < |xs| ==> P(xs[k])) <==>
            P(xs[0]) && forall k :: 0 <= k < |xs[1..]| ==> P(xs[1..][k])
  {
    if P(xs[0]) && forall k :: 0 <= k < |xs[1..]| ==> P(xs[1..][k]) {
      forall k | 0 <= k < |xs|
        ensures P(xs[k])
      {
        if k > 0 {
          assert xs[k] == xs[1..][k - 1];
        }
      }
    }
  }

  /** Every kept element's image satisfies `P` when the image of every kept element does. */
  lemma {:induction false} KeepMapSatisfies<A, B>(xs: seq<A>, keep: A -> bool, f: A -> B, P: B -> bool)
    requires forall k :: 0 <= k < |xs| && keep(xs[k]) ==> P(f(xs[k]))
    ensures forall k :: 0 <= k < |KeepMap(xs, keep, f)| ==> P(KeepMap(xs, keep, f)[k])
  {
    if xs != [] {
      var init := xs[..|xs| - 1];
      forall k | 0 <= k < |init| && keep(init[k])
        ensures P(f(init[k]))
      {
        assert init[k] == xs[k];
      }
      KeepMapSatisfies(init, keep, f, P);
    }
  }
}

/** The `str` methods the scripts rely on, with Python's semantics. */
module PyStr {
  import opened Py

  /** `sep` occurs in `s` starting at index `i`. */
  predicate OccursAt(s: string, sep: string, i: nat)
  {
    i + |sep| <= |s| && s[i..i + |sep|] == sep
  }

  /** `sep in s` */
  predicate Contains(s: string, sep: string)
  {
    exists i: nat :: i <= |s| && OccursAt(s, sep, i)
  }

  /** An occurrence stays one when text is put before it (moving it) or after it. */
  lemma OccursAtShift(p: string, t: string, x: string, i: nat)
    requires OccursAt(t, x, i)
    ensures OccursAt(p + t, x, |p| + i)
  {
    assert (p + t)[|p| + i..|p| + i + |x|] == t[i..i + |x|];
  }

  lemma OccursAtExtend(t: string, s: string, x: string, i: nat)
    requires OccursAt(t, x, i)
    ensures OccursAt(t + s, x, i)
  {
    assert (t + s)[i..i + |x|] == t[i..i + |x|];
  }

  /** Whether `x` occurs at `i` within the first `|t|` characters does not depend on what follows. */
  lemma OccursAtPrefix(t: string, s: string, x: string, i: nat)
    requires i + |x| <= |t|
    ensures OccursAt(t + s, x, i) <==> OccursAt(t, x, i)
  {
    assert (t + s)[i..i + |x|] == t[i..i + |x|];
  }

  /** `s.find(sep, start)`, with `None` standing for -1: the first occurrence at or after `start`. */
  function FindFrom(s: string, sep: string, start: nat): (r: Option<nat>)
    requires |sep| > 0
    ensures r.Some? ==> start <= r.value && OccursAt(s, sep, r.value)
    ensures r.Some? ==> forall j: nat :: start <= j < r.value ==> !OccursAt(s, sep, j)
    ensures r.None? ==> forall j: nat :: start <= j ==> !OccursAt(s, sep, j)
    decreases |s| - start
  {
    if start + |sep| > |s| then None
    else if s[start..start + |sep|] == sep then Some(start)
    else FindFrom(s, sep, start + 1)
  }

  /** `s.split(sep)` for a non-empty separator: the pieces between non-overlapping occurrences,
      scanned from the left. */
  function Split(s: string, sep: string): (r: seq<string>)
    requires |sep| > 0
    ensures |r| >= 1
    decreases |s|
  {
    match FindFrom(s, sep, 0)
    case None => [s]
    case Some(i) => [s[..i]] + Split(s[i + |sep|..], sep)
  }

  /** `sep.join(parts)` */
  function Join(sep: string, parts: seq<string>): string
  {
    if |parts| == 0 then ""
    else if |parts| == 1 then parts[0]
    else parts[0] + sep + Join(sep, parts[1..])
  }

  /** Splitting and joining again with the same separator gives back the string. */
  lemma {:induction false} SplitJoin(s: string, sep: string)
    requires |sep| > 0
    ensures Join(sep, Split(s, sep)) == s
    decreases |s|
  {
    var f := FindFrom(s, sep, 0);
    if f.Some? {
      var i := f.value;
      var rest := s[i + |sep|..];
      var parts := Split(rest, sep);
      SplitJoin(rest, sep);
      SplitStep(s, sep);
      JoinCons(sep, s[..i], parts);
      assert s[i..i + |sep|] == sep;
      assert s == s[..i] + s[i..i + |sep|] + rest;
    } else {
      SplitStep(s, sep);
    }
  }

  lemma JoinCons(sep: string, first: string, more: seq<string>)
    requires |more| >= 1
    ensures Join(sep, [first] + more) == first + sep + Join(sep, more)
  {
    assert ([first] + more)[1..] == more;
  }

  /** No piece of a split contains the separator. */
  lemma {:induction false} SplitPiecesFree(s: string, sep: string)
    requires |sep| > 0
    ensures forall k :: 0 <= k < |Split(s, sep)| ==> !Contains(Split(s, sep)[k], sep)
    decreases |s|
  {
    match FindFrom(s, sep, 0)
    case None =>
      assert Split(s, sep) == [s];
    case Some(i) =>
      var rest := s[i + |sep|..];
      SplitPiecesFree(rest, sep);
      assert Split(s, sep) == [s[..i]] + Split(rest, sep);
      PrefixBeforeFirstFree(s, sep, i);
  }

  /** The text before the first occurrence of `sep` does not contain `sep`. */
  lemma PrefixBeforeFirstFree(s: string, sep: string, i: nat)
    requires |sep| > 0 && FindFrom(s, sep, 0) == Some(i)
    ensures !Contains(s[..i], sep)
  {
    forall j: nat | OccursAt(s[..i], sep, j)
      ensures false
    {
      assert s[..i][j..j + |sep|] == s[j..j + |sep|];
      assert OccursAt(s, sep, j);
    }
  }

  /** For a one-character separator, an occurrence is just that character. */
  lemma OccursAtChar(s: string, c: char, i: nat)
    ensures OccursAt(s, [c], i) <==> i < |s| && s[i] == c
  {
    if i < |s| {
      assert s[i..i + 1] == [s[i]];
    }
  }

  lemma ContainsChar(s: string, c: char)
    ensures Contains(s, [c]) <==> c in s
  {
    if c in s {
      var i :| 0 <= i < |s| && s[i] == c;
      OccursAtChar(s, c, i);
    }
    if Contains(s, [c]) {
      var i: nat :| OccursAt(s, [c], i);
      OccursAtChar(s, c, i);
    }
  }

  /** Splitting on a character yields at least two pieces exactly when the character occurs. */
  lemma SplitCharCount(s: string, c: char)
    ensures |Split(s, [c])| >= 2 <==> c in s
  {
    ContainsChar(s, c);
    match FindFrom(s, [c], 0)
    case None =>
      SplitStep(s, [c]);
    case Some(i) =>
      SplitStep(s, [c]);
      assert OccursAt(s, [c], i);
  }

  /** `s.split(c)[0]`: the prefix of `s` up to the first `c`, which is all of `s` when `c` is absent. */
  lemma SplitCharFirst(s: string, c: char)
    ensures var p := Split(s, [c])[0];
      && p == s[..|p|]
      && c !in p
      && ((p == s && c !in s) || (|p| < |s| && s[|p|] == c))
  {
    var p := Split(s, [c])[0];
    SplitPiecesFree(s, [c]);
    ContainsChar(p, c);
    match FindFrom(s, [c], 0)
    case None =>
      ContainsChar(s, c);
    case Some(i) =>
      assert p == s[..i];
      OccursAtChar(s, c, i);
  }

  /** When `c` does not occur in `a`, splitting `a + [c] + rest` on `c` gives `a`, then the pieces of
      `rest`. */
  lemma SplitCharCons(a: string, c: char, rest: string)
    requires c !in a
    ensures Split(a + [c] + rest, [c]) == [a] + Split(rest, [c])
  {
    var s := a + [c] + rest;
    assert OccursAt(s, [c], |a|) by {
      OccursAtChar(s, c, |a|);
    }
    forall j: nat | j < |a|
      ensures !OccursAt(s, [c], j)
    {
      OccursAtChar(s, c, j);
      assert s[j] == a[j];
    }
    var f := FindFrom(s, [c], 0);
    assert f == Some(|a|);
    assert s[..|a|] == a;
    assert s[|a| + 1..] == rest;
  }

  /** When `c` does not occur in `b`, splitting `a + [c] + b` on `c` gives the pieces of `a`, then `b`. */
  lemma {:induction false} SplitCharSnoc(a: string, c: char, b: string)
    requires c !in b
    ensures Split(a + [c] + b, [c]) == Split(a, [c]) + [b]
    decreases |a|
  {
    if c !in a {
      SplitCharSnocBase(a, c, b);
    } else {
      SplitCharFirst(a, c);
      var a1 := Split(a, [c])[0];
      var a2 := a[|a1| + 1..];
      assert a == a1 + [c] + a2;
      SplitCharCons(a1, c, a2);
      assert a + [c] + b == a1 + [c] + (a2 + [c] + b);
      SplitCharCons(a1, c, a2 + [c] + b);
      SplitCharSnoc(a2, c, b);
      SeqAssoc([a1], Split(a2, [c]), [b]);
    }
  }

  lemma SplitCharSnocBase(a: string, c: char, b: string)
    requires c !in a && c !in b
    ensures Split(a + [c] + b, [c]) == Split(a, [c]) + [b]
  {
    SplitCharAbsent(a, c);
    SplitCharCons(a, c, b);
    SplitCharAbsent(b, c);
  }

  /** The piece after the first occurrence of `sep` is the first piece of what follows it. */
  lemma SplitSecond(s: string, sep: string)
    requires |sep| > 0 && |Split(s, sep)| >= 2
    ensures FindFrom(s, sep, 0).Some?
    ensures var i := FindFrom(s, sep, 0).value;
      Split(s, sep)[1] == Split(s[i + |sep|..], sep)[0]
  {
    SplitStep(s, sep);
  }

  /** One step of `Split`: no occurrence leaves the text whole, and the first occurrence cuts off
      the first piece. */
  lemma SplitStep(s: string, sep: string)
    requires |sep| > 0
    ensures FindFrom(s, sep, 0).None? ==> Split(s, sep) == [s]
    ensures FindFrom(s, sep, 0).Some? ==>
      var i := FindFrom(s, sep, 0).value;
      Split(s, sep) == [s[..i]] + Split(s[i + |sep|..], sep)
  {
  }

  /** `s.split(c)[-1]`: the suffix of `s` after the last `c`, which is all of `s` when `c` is absent. */
  lemma SplitCharLast(s: string, c: char)
    ensures var p := Last(Split(s, [c]));
      && |p| <= |s| && p == s[|s| - |p|..]
      && c !in p
      && ((p == s && c !in s) || (|p| < |s| && s[|s| - |p| - 1] == c))
  {
    match RFind(s, c)
    case None =>
      SplitCharAbsent(s, c);
    case Some(k) =>
      var a, b := s[..k], s[k + 1..];
      assert s == a + [c] + b;
      SplitCharSnoc(a, c, b);
  }

  /** Index of the last occurrence of `c` in `s` (`s.rfind(c)`, with `None` for -1). */
  function RFind(s: string, c: char): (r: Option<nat>)
    ensures r.Some? ==> r.value < |s| && s[r.value] == c && c !in s[r.value + 1..]
    ensures r.None? ==> c !in s
  {
    if |s| == 0 then None
    else if s[|s| - 1] == c then Some(|s| - 1)
    else
      var r := RFind(s[..|s| - 1], c);
      assert r.Some? ==> s[r.value + 1..] == s[..|s| - 1][r.value + 1..] + [s[|s| - 1]];
      assert r.None? ==> s == s[..|s| - 1] + [s[|s| - 1]];
      r
  }

  /** When `c` does not occur in `b`, the last `c` of `a + [c] + b` is the one before `b`. */
  lemma {:induction false} RFindBefore(a: string, c: char, b: string)
    requires c !in b
    ensures RFind(a + [c] + b, c) == Some(|a|)
    decreases |b|
  {
    var s := a + [c] + b;
    if b == [] {
      assert s[|s| - 1] == c;
    } else {
      assert s[|s| - 1] == b[|b| - 1];
      assert s[..|s| - 1] == a + [c] + b[..|b| - 1];
      RFindBefore(a, c, b[..|b| - 1]);
    }
  }

  /** `s.rsplit(c, 1)`: split once, at the last occurrence of `c`. */
  function RSplitOnce(s: string, c: char): (r: seq<string>)
    ensures 1 <= |r| <= 2
  {
    match RFind(s, c)
    case None => [s]
    case Some(k) => [s[..k], s[k + 1..]]
  }

  /** `s.rsplit(c, 1)[0]` is `s` itself when `c` is absent, and otherwise the text before the last `c`,
      with no `c` in the extension that follows. */
  lemma RSplitOnceHead(s: string, c: char)
    ensures var h := RSplitOnce(s, c)[0];
      && h == s[..|h|]
      && (c !in s ==> h == s)
      && (c in s ==> |h| < |s| && s[|h|] == c && c !in s[|h| + 1..])
  {
  }

  /** The whitespace characters of `str.isspace`. */
  predicate IsSpace(ch: char)
  {
    var n := ch as int;
    n == 0x20 || 0x09 <= n <= 0x0D || 0x1C <= n <= 0x1F || n == 0x85 || n == 0xA0 || n == 0x1680
    || 0x2000 <= n <= 0x200A || n == 0x2028 || n == 0x2029 || n == 0x202F || n == 0x205F || n == 0x3000
  }

  predicate AllSpace(s: string)
  {
    forall k :: 0 <= k < |s| ==> IsSpace(s[k])
  }

  /** `s.lstrip()`: drop the leading whitespace. */
  function LStrip(s: string): (r: string)
    ensures |r| <= |s| && r == s[|s| - |r|..]
    ensures r == [] || !IsSpace(r[0])
  {
    if |s| > 0 && IsSpace(s[0]) then LStrip(s[1..]) else s
  }

  /** What `s.lstrip()` drops is whitespace. */
  lemma {:induction false} LStripDropsSpace(s: string)
    ensures AllSpace(s[..|s| - |LStrip(s)|])
  {
    if |s| > 0 && IsSpace(s[0]) {
      var r := LStrip(s[1..]);
      LStripDropsSpace(s[1..]);
      assert s[..|s| - |r|] == [s[0]] + s[1..][..|s[1..]| - |r|];
    }
  }

  /** `s.rstrip()`: drop the trailing whitespace. */
  function RStrip(s: string): (r: string)
    ensures |r| <= |s| && r == s[..|r|]
    ensures r == [] || !IsSpace(r[|r| - 1])
  {
    if |s| > 0 && IsSpace(s[|s| - 1]) then RStrip(s[..|s| - 1]) else s
  }

  /** What `s.rstrip()` drops is whitespace. */
  lemma {:induction false} RStripDropsSpace(s: string)
    ensures AllSpace(s[|RStrip(s)|..])
  {
    if |s| > 0 && IsSpace(s[|s| - 1]) {
      var r := RStrip(s[..|s| - 1]);
      RStripDropsSpace(s[..|s| - 1]);
      assert s[|r|..] == s[..|s| - 1][|r|..] + [s[|s| - 1]];
    }
  }

  /** `s.strip()` */
  function Strip(s: string): string
  {
    RStrip(LStrip(s))
  }

  /** `s.strip()` is the middle of `s` between an all-whitespace head and tail, and it neither starts
      nor ends with whitespace. */
  lemma StripShape(s: string)
    ensures var r := Strip(s);
      exists a: nat, b: nat ::
        a <= b <= |s| && r == s[a..b] && AllSpace(s[..a]) && AllSpace(s[b..])
    ensures Strip(s) == [] || (!IsSpace(Strip(s)[0]) && !IsSpace(Strip(s)[|Strip(s)| - 1]))
  {
    var l := LStrip(s);
    var r := RStrip(l);
    LStripDropsSpace(s);
    RStripDropsSpace(l);
    MiddleSlice(s, l, r);
    var a := |s| - |l|;
    assert AllSpace(s[..a]) && AllSpace(s[a + |r|..]);
    StripEdges(s);
  }

  /** A prefix `r` of a suffix `l` of `s` is a slice of `s`, followed by the rest of `l`. */
  lemma MiddleSlice<T>(s: seq<T>, l: seq<T>, r: seq<T>)
    requires |l| <= |s| && l == s[|s| - |l|..] && |r| <= |l| && r == l[..|r|]
    ensures r == s[|s| - |l|..|s| - |l| + |r|] && s[|s| - |l| + |r|..] == l[|r|..]
  {
  }

  /** The stripped text neither starts nor ends with whitespace. */
  lemma StripEdges(s: string)
    ensures Strip(s) == [] || (!IsSpace(Strip(s)[0]) && !IsSpace(Strip(s)[|Strip(s)| - 1]))
  {
    var l := LStrip(s);
    var r := RStrip(l);
    if r != [] {
      assert r[0] == l[0];
    }
  }

  /** Stripping twice strips nothing more. */
  lemma StripIdempotent(s: string)
    ensures Strip(Strip(s)) == Strip(s)
  {
    StripShape(s);
    var r := Strip(s);
    if r != [] {
      assert LStrip(r) == r;
      assert RStrip(r) == r;
    }
  }

  /** A string that neither starts nor ends with whitespace is its own strip. */
  lemma StripNoop(s: string)
    requires s == [] || (!IsSpace(s[0]) && !IsSpace(s[|s| - 1]))
    ensures Strip(s) == s
  {
  }

  /** Stripping removes exactly a whitespace tail from text that ends in a non-space. */
  lemma {:induction false} RStripSpaceTail(a: string, w: string)
    requires a == [] || !IsSpace(a[|a| - 1])
    requires AllSpace(w)
    ensures RStrip(a + w) == a
    decreases |w|
  {
    if w == [] {
      assert a + w == a;
    } else {
      var w' := w[..|w| - 1];
      assert (a + w)[..|a + w| - 1] == a + w';
      assert (a + w)[|a + w| - 1] == w[|w| - 1];
      RStripSpaceTail(a, w');
    }
  }

  lemma LStripNoLeadingSpace(s: string)
    requires s == [] || !IsSpace(s[0])
    ensures LStrip(s) == s
  {
  }

  /** Splitting on a character that does not occur gives the text itself. */
  lemma SplitCharAbsent(s: string, c: char)
    requires c !in s
    ensures Split(s, [c]) == [s]
  {
    SplitCharCount(s, c);
    SplitCharFirst(s, c);
  }

  /** The distance between an ASCII letter's lower-case and upper-case forms. */
  const CASE_OFFSET := 'a' as int - 'A' as int

  function Upper(ch: char): char
  {
    if 'a' <= ch <= 'z' then (ch as int - CASE_OFFSET) as char else ch
  }

  function Lower(ch: char): char
  {
    if 'A' <= ch <= 'Z' then (ch as int + CASE_OFFSET) as char else ch
  }

  /** `s.lower()` on ASCII letters. */
  function LowerAll(s: string): (r: string)
    ensures |r| == |s|
    ensures forall k :: 0 <= k < |s| ==> r[k] == Lower(s[k])
  {
    seq(|s|, k requires 0 <= k < |s| => Lower(s[k]))
  }

  /** `s.capitalize()` on ASCII letters. */
  function Capitalize(s: string): (r: string)
    ensures |r| == |s|
  {
    if s == [] then [] else [Upper(s[0])] + LowerAll(s[1..])
  }

  /** The first character upper case, the rest lower case. */
  lemma CapitalizeSpec(s: string)
    ensures |s| > 0 ==> Capitalize(s)[0] == Upper(s[0])
    ensures forall k :: 1 <= k < |s| ==> Capitalize(s)[k] == Lower(s[k])
  {
    if s != [] {
      assert Capitalize(s)[1..] == LowerAll(s[1..]);
    }
  }

  /** `s.endswith(suffix)` */
  predicate EndsWith(s: string, suffix: string)
  {
    |suffix| <= |s| && s[|s| - |suffix|..] == suffix
  }

  /** `s.replace(c, by)` for a one-character pattern. */
  function ReplaceChar(s: string, c: char, rep: string): (r: string)
    ensures c !in rep ==> c !in r
    ensures c !in s ==> r == s
  {
    if s == [] then []
    else (if s[0] == c then rep else [s[0]]) + ReplaceChar(s[1..], c, rep)
  }

  /** Replacing distributes over concatenation. */
  lemma {:induction false} ReplaceCharAppend(s: string, t: string, c: char, rep: string)
    ensures ReplaceChar(s + t, c, rep) == ReplaceChar(s, c, rep) + ReplaceChar(t, c, rep)
    decreases |s|
  {
    if s == [] {
      assert s + t == t;
    } else {
      var x, rest := s[0], s[1..];
      assert s == [x] + rest;
      assert s + t == [x] + (rest + t);
      ReplaceCharAppend(rest, t, c, rep);
      ReplaceCharCons(x, rest + t, c, rep);
      ReplaceCharCons(x, rest, c, rep);
      SeqAssoc(if x == c then rep else [x], ReplaceChar(rest, c, rep), ReplaceChar(t, c, rep));
    }
  }

  lemma ReplaceCharCons(x: char, rest: string, c: char, rep: string)
    ensures ReplaceChar([x] + rest, c, rep) == (if x == c then rep else [x]) + ReplaceChar(rest, c, rep)
  {
    assert ([x] + rest)[0] == x && ([x] + rest)[1..] == rest;
  }

  function DigitChar(d: nat): (ch: char)
    requires d < 10
    ensures '0' <= ch <= '9'
  {
    ('0' as int + d) as char
  }

  /** `str(n)` for a natural number. */
  function NatToString(n: nat): (r: string)
    ensures |r| > 0
    ensures forall k :: 0 <= k < |r| ==> '0' <= r[k] <= '9'
  {
    if n < 10 then [DigitChar(n)] else NatToString(n / 10) + [DigitChar(n % 10)]
  }

  /** Different numbers print differently. */
  lemma {:induction false} NatToStringInjective(m: nat, n: nat)
    requires NatToString(m) == NatToString(n)
    ensures m == n
    decreases m
  {
    var sm, sn := NatToString(m), NatToString(n);
    if m < 10 && n < 10 {
      assert sm[0] == DigitChar(m) && sn[0] == DigitChar(n);
    } else if m < 10 || n < 10 {
      assert false;
    } else {
      var pm, pn := NatToString(m / 10), NatToString(n / 10);
      assert sm == pm + [DigitChar(m % 10)] && sn == pn + [DigitChar(n % 10)];
      assert |pm| == |pn|;
      assert pm == sm[..|sm| - 1] && pn == sn[..|sn| - 1];
      assert DigitChar(m % 10) == sm[|sm| - 1] == sn[|sn| - 1] == DigitChar(n % 10);
      NatToStringInjective(m / 10, n / 10);
    }
  }

  /** `s.encode("latin-1")` succeeds: every character is at most U+00FF. */
  predicate Latin1(s: string)
  {
    forall k :: 0 <= k < |s| ==> s[k] <= '\U{FF}'
  }

  lemma Latin1Concat(a: string, b: string)
    ensures Latin1(a + b) <==> Latin1(a) && Latin1(b)
  {
    if Latin1(a + b) {
      forall k | 0 <= k < |a|
        ensures a[k] <= '\U{FF}'
      {
        assert (a + b)[k] == a[k];
      }
      forall k | 0 <= k < |b|
        ensures b[k] <= '\U{FF}'
      {
        assert (a + b)[|a| + k] == b[k];
      }
    }
  }

  /** A join of parts with a Latin-1 separator encodes exactly when every part does. */
  lemma {:induction false} JoinLatin1(sep: string, parts: seq<string>)
    requires Latin1(sep)
    ensures Latin1(Join(sep, parts)) <==> forall k :: 0 <= k < |parts| ==> Latin1(parts[k])
    decreases |parts|
  {
    if |parts| >= 2 {
      var rest := parts[1..];
      JoinLatin1(sep, rest);
      Latin1Concat(parts[0], sep);
      Latin1Concat(parts[0] + sep, Join(sep, rest));
      AllOfCons(parts, Latin1);
    }
  }

  /** A string with a Latin-1 separator encodes exactly when every piece of its split does. */
  lemma SplitLatin1(s: string, sep: string)
    requires |sep| > 0 && Latin1(sep)
    ensures Latin1(s) <==> forall k :: 0 <= k < |Split(s, sep)| ==> Latin1(Split(s, sep)[k])
  {
    SplitJoin(s, sep);
    JoinLatin1(sep, Split(s, sep));
  }

  /** Stripping removes characters and adds none. */
  lemma StripLatin1(s: string)
    requires Latin1(s)
    ensures Latin1(Strip(s))
  {
    StripShape(s);
    var a: nat, b: nat :| a <= b <= |s| && Strip(s) == s[a..b] && AllSpace(s[..a]) && AllSpace(s[b..]);
    forall k | 0 <= k < |Strip(s)|
      ensures Strip(s)[k] <= '\U{FF}'
    {
      assert Strip(s)[k] == s[a + k];
    }
  }

}
