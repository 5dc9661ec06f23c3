/**
 The few Python `str` built-ins the miner relies on: the `<=` order that
 `sorted` uses, `sorted` of a set of labels, `sep.join(parts)`,
 `s.split(sep)` and `s.strip(chars)`.
 */
module Strings {

  /** The elements of a sequence, as a set. */
  function Elems<T(!new)>(s: seq<T>): (r: set<T>)
    ensures forall x :: x in r <==> x in s
  {
    set x | x in s
  }

  /** Python's `a <= b` on `str`: code point by code point, a proper prefix first. */
  predicate NotAfter(a: string, b: string)
  {
    |a| == 0 || (|b| > 0 && (a[0] < b[0] || (a[0] == b[0] && NotAfter(a[1..], b[1..]))))
  }

  /** Python's `a < b` on `str`. */
  predicate Before(a: string, b: string)
  {
    NotAfter(a, b) && a != b
  }

  lemma {:induction false} NotAfterReflexive(a: string)
    ensures NotAfter(a, a)
  {
    if |a| > 0 {
      NotAfterReflexive(a[1..]);
    }
  }

  lemma {:induction false} NotAfterTotal(a: string, b: string)
    ensures NotAfter(a, b) || NotAfter(b, a)
  {
    if |a| > 0 && |b| > 0 && a[0] == b[0] {
      NotAfterTotal(a[1..], b[1..]);
    }
  }

  lemma {:induction false} NotAfterAntisymmetric(a: string, b: string)
    requires NotAfter(a, b) && NotAfter(b, a)
    ensures a == b
  {
    if |a| > 0 && |b| > 0 {
      NotAfterAntisymmetric(a[1..], b[1..]);
      assert a == [a[0]] + a[1..] && b == [b[0]] + b[1..];
    }
  }

  lemma {:induction false} NotAfterTransitive(a: string, b: string, c: string)
    requires NotAfter(a, b) && NotAfter(b, c)
    ensures NotAfter(a, c)
  {
    if |a| > 0 && |b| > 0 && |c| > 0 && a[0] == b[0] == c[0] {
      NotAfterTransitive(a[1..], b[1..], c[1..]);
    }
  }

  /** Every finite, non-empty set of labels has a least element. */
  /** `m` is a label of `s` that comes after none of them. */
  predicate IsLeast(m: string, s: set<string>)
  {
    m in s && forall x :: x in s ==> NotAfter(m, x)
  }

  lemma {:induction false} LeastExists(s: set<string>)
    requires s != {}
    ensures exists m :: IsLeast(m, s)
    decreases |s|
  {
    var y :| y in s;
    var rest := s - {y};
    if rest == {} {
      NotAfterReflexive(y);
      forall x | x in s ensures NotAfter(y, x) {
        assert x !in rest;
      }
      assert IsLeast(y, s);
    } else {
      LeastExists(rest);
      var m :| IsLeast(m, rest);
      LeastOfInsert(rest, y, m);
      assert s == rest + {y};
    }
  }

  /** Adding `y` to a set whose least label is `m` leaves `m` or `y` least. */
  lemma LeastOfInsert(rest: set<string>, y: string, m: string)
    requires IsLeast(m, rest)
    ensures IsLeast(m, rest + {y}) || IsLeast(y, rest + {y})
  {
    NotAfterTotal(m, y);
    if NotAfter(y, m) {
      forall x | x in rest + {y}
        ensures NotAfter(y, x)
      {
        if x == y {
          NotAfterReflexive(y);
        } else {
          NotAfterTransitive(y, m, x);
        }
      }
    }
  }

  /** The least label of a non-empty set: `min(s)`. */
  function Least(s: set<string>): (m: string)
    requires s != {}
    ensures m in s && forall x :: x in s ==> NotAfter(m, x)
  {
    LeastExists(s);
    forall a, b | NotAfter(a, b) && NotAfter(b, a)
      ensures a == b
    {
      NotAfterAntisymmetric(a, b);
    }
    var m :| IsLeast(m, s);
    m
  }

  /** Strictly increasing in Python's order, hence without duplicates. */
  predicate Increasing(s: seq<string>)
  {
    forall i, j :: 0 <= i < j < |s| ==> Before(s[i], s[j])
  }

  /** Python's `sorted(s)` of a set of labels. */
  function Sorted(s: set<string>): (r: seq<string>)
    ensures Increasing(r) && Elems(r) == s && |r| == |s|
    decreases |s|
  {
    if s == {} then []
    else
      var m := Least(s);
      var rest := Sorted(s - {m});
      LeastFirst(s, m, rest);
      [m] + rest
  }

  lemma LeastFirst(s: set<string>, m: string, rest: seq<string>)
    requires m in s && forall x :: x in s ==> NotAfter(m, x)
    requires Increasing(rest) && Elems(rest) == s - {m}
    ensures Increasing([m] + rest) && Elems([m] + rest) == s
  {
    var r := [m] + rest;
    forall i, j | 0 <= i < j < |r| ensures Before(r[i], r[j]) {
      assert r[j] == rest[j - 1] && rest[j - 1] in Elems(rest);
      if i > 0 {
        assert r[i] == rest[i - 1];
      }
    }
    assert forall x :: x in r <==> x == m || x in rest;
  }

  /** Only one increasing sequence lists a given set, so `Sorted` is that sequence. */
  lemma {:induction false} SortedUnique(s: set<string>, r: seq<string>)
    requires Increasing(r) && Elems(r) == s
    ensures r == Sorted(s)
    decreases |r|
  {
    if r != [] {
      var m, rest := r[0], r[1..];
      HeadIsLeast(r);
      TailElems(r);
      SortedUnique(s - {m}, rest);
      SortedCons(s, m, rest);
      HeadTail(r);
    }
  }

  /** `Sorted` of a non-empty set, one step unfolded. */
  lemma SortedCons(s: set<string>, m: string, rest: seq<string>)
    requires s != {} && m == Least(s) && rest == Sorted(s - {m})
    ensures Sorted(s) == [m] + rest
  {
  }

  lemma HeadTail<T>(r: seq<T>)
    requires r != []
    ensures r == [r[0]] + r[1..]
  {
  }

  /** The head of an increasing list is the least of its labels. */
  lemma HeadIsLeast(r: seq<string>)
    requires Increasing(r) && r != []
    ensures Elems(r) != {} && r[0] == Least(Elems(r))
  {
    assert r[0] in Elems(r);
    var m := Least(Elems(r));
    var k :| 0 <= k < |r| && r[k] == m;
    if k > 0 {
      assert Before(r[0], r[k]);
      NotAfterAntisymmetric(r[0], m);
    }
  }

  /** The tail of an increasing list holds every label but the head. */
  lemma TailElems(r: seq<string>)
    requires Increasing(r) && r != []
    ensures Increasing(r[1..]) && Elems(r[1..]) == Elems(r) - {r[0]}
  {
    forall x | x in r[1..] ensures x != r[0] {
      var k :| 1 <= k < |r| && r[k] == x;
      assert Before(r[0], r[k]);
    }
    assert forall x :: x in r ==> x == r[0] || x in r[1..];
  }


  /** Python's `sep.join(parts)`. */
  function Join(sep: string, parts: seq<string>): (r: string)
    ensures |parts| == 1 ==> r == parts[0]
  {
    if |parts| == 0 then ""
    else if |parts| == 1 then parts[0]
    else parts[0] + sep + Join(sep, parts[1..])
  }

  /** Python's `s.split(sep)` for a non-empty separator: the pieces between the
      occurrences of `sep`, found left to right without overlap. */
  function Split(s: string, sep: string): (r: seq<string>)
    requires |sep| > 0
    ensures |r| >= 1
    decreases |s|
  {
    if |s| < |sep| then [s]
    else if s[..|sep|] == sep then [""] + Split(s[|sep|..], sep)
    else
      var rest := Split(s[1..], sep);
      [[s[0]] + rest[0]] + rest[1..]
  }

  /** `s` holds no character of `cs`. */
  predicate Avoids(s: string, cs: set<char>)
  {
    forall i :: 0 <= i < |s| ==> s[i] !in cs
  }

  /** A piece that starts with none of the separator's first character splits off
      at the separator that follows it. */
  lemma {:induction false} SplitAfterPiece(a: string, sep: string, b: string)
    requires |sep| > 0 && Avoids(a, {sep[0]})
    ensures Split(a + sep + b, sep) == [a] + Split(b, sep)
    decreases |a|
  {
    var s := a + sep + b;
    if |a| == 0 {
      assert s[..|sep|] == sep && s[|sep|..] == b;
    } else {
      assert s[..|sep|] != sep by {
        assert s[0] == a[0];
      }
      SplitAfterPiece(a[1..], sep, b);
      assert s[1..] == a[1..] + sep + b;
      assert [s[0]] + a[1..] == a;
    }
  }

  /** A string in which the separator cannot start before the last
      `|sep| - 1` characters is not split at all. */
  lemma {:induction false} SplitWhole(s: string, sep: string)
    requires |sep| > 0 && NoSeparatorStart(s, sep)
    ensures Split(s, sep) == [s]
    decreases |s|
  {
    if |s| >= |sep| {
      assert s[..|sep|] != sep by {
        assert s[0] != sep[0];
      }
      SplitWhole(s[1..], sep);
      assert [s[0]] + s[1..] == s;
    }
  }

  /** No occurrence of `sep` can start in `s`: the separator's first character
      appears only among the last `|sep| - 1` characters. */
  predicate NoSeparatorStart(s: string, sep: string)
    requires |sep| > 0
  {
    forall i :: 0 <= i && i + |sep| <= |s| ==> s[i] != sep[0]
  }

  /** `Split` undoes `Join` when no part holds the separator's first character. */
  lemma {:induction false} SplitJoin(parts: seq<string>, sep: string)
    requires |sep| > 0 && |parts| >= 1
    requires forall k :: 0 <= k < |parts| ==> Avoids(parts[k], {sep[0]})
    ensures Split(Join(sep, parts), sep) == parts
    decreases |parts|
  {
    if |parts| == 1 {
      SplitWhole(parts[0], sep);
    } else {
      SplitAfterPiece(parts[0], sep, Join(sep, parts[1..]));
      SplitJoin(parts[1..], sep);
      assert parts == [parts[0]] + parts[1..];
    }
  }

  /** Python's `s.lstrip(chars)`. */
  function StripLeft(s: string, chars: set<char>): (r: string)
    ensures |r| <= |s| && r == s[|s| - |r|..]
    ensures r != [] ==> r[0] !in chars
    ensures forall i :: 0 <= i < |s| - |r| ==> s[i] in chars
  {
    if |s| > 0 && s[0] in chars then
      var r := StripLeft(s[1..], chars);
      assert s[1..][|s| - 1 - |r|..] == s[|s| - |r|..];
      assert forall i :: 1 <= i < |s| ==> s[i] == s[1..][i - 1];
      r
    else s
  }

  /** Python's `s.rstrip(chars)`. */
  function StripRight(s: string, chars: set<char>): (r: string)
    ensures |r| <= |s| && r == s[..|r|]
    ensures r != [] ==> r[|r| - 1] !in chars
    ensures forall i :: |r| <= i < |s| ==> s[i] in chars
  {
    if |s| > 0 && s[|s| - 1] in chars then
      var r := StripRight(s[..|s| - 1], chars);
      assert s[..|s| - 1][..|r|] == s[..|r|];
      r
    else s
  }

  /** Python's `s.strip(chars)`. */
  function Strip(s: string, chars: set<char>): string
  {
    StripRight(StripLeft(s, chars), chars)
  }

  /** Stripping removes exactly the surrounding characters from `chars`
      and leaves a core that avoids them. */
  lemma {:induction false} StripAround(pre: string, core: string, post: string, chars: set<char>)
    requires Avoids(core, chars)
    requires forall i :: 0 <= i < |pre| ==> pre[i] in chars
    requires forall i :: 0 <= i < |post| ==> post[i] in chars
    ensures Strip(pre + core + post, chars) == core
  {
    var s := pre + core + post;
    var l := StripLeft(s, chars);
    if core == [] {
      assert s == pre + post;
      assert l == [] by {
        assert forall i :: 0 <= i < |s| ==> s[i] in chars;
      }
      return;
    }
    assert |l| == |core| + |post| by {
      assert s[|pre|] == core[0] && s[|pre|] !in chars;
      assert forall i :: 0 <= i < |pre| ==> s[i] == pre[i];
    }
    assert l == core + post;
    var r := StripRight(l, chars);
    assert |r| == |core| by {
      assert l[|core| - 1] == core[|core| - 1] && l[|core| - 1] !in chars;
      assert forall i :: |core| <= i < |l| ==> l[i] == post[i - |core|];
    }
    assert r == core;
  }

  /** A string with nothing to strip is left as it is. */
  lemma StripClean(s: string, chars: set<char>)
    requires Avoids(s, chars)
    ensures Strip(s, chars) == s
  {
    assert [] + s + [] == s;
    StripAround([], s, [], chars);
  }
}
