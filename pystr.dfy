/** The few Python string operations the handler relies on, with CPython's
    semantics: `in` on strings, `str.endswith`, the code-point order used by
    `sorted`, and the padding methods `ljust`, `rjust` and `center`. */
module PyStr {

  function Max(a: int, b: int): int { if a < b then b else a }

  /** `sub in s` */
  predicate Contains(s: string, sub: string)
    decreases |s|
  {
    |sub| <= |s| && (s[..|sub|] == sub || Contains(s[1..], sub))
  }

  /** `s.endswith(suffix)` */
  predicate EndsWith(s: string, suffix: string) {
    |suffix| <= |s| && s[|s| - |suffix|..] == suffix
  }

  /** `a <= b` on `str`: lexicographic by code point, a proper prefix first. */
  predicate StrLe(a: string, b: string)
    decreases |a|
  {
    a == [] || (b != [] && (a[0] < b[0] || (a[0] == b[0] && StrLe(a[1..], b[1..]))))
  }

  lemma {:induction false} StrLeTotal(a: string, b: string)
    ensures StrLe(a, b) || StrLe(b, a)
    decreases |a|
  {
    if a != [] && b != [] && a[0] == b[0] {
      StrLeTotal(a[1..], b[1..]);
    }
  }

  lemma {:induction false} StrLeAntisymmetric(a: string, b: string)
    requires StrLe(a, b) && StrLe(b, a)
    ensures a == b
    decreases |a|
  {
    if a != [] {
      StrLeAntisymmetric(a[1..], b[1..]);
      assert a == [a[0]] + a[1..] && b == [b[0]] + b[1..];
    }
  }

  lemma {:induction false} StrLeTransitive(a: string, b: string, c: string)
    requires StrLe(a, b) && StrLe(b, c)
    ensures StrLe(a, c)
    decreases |a|
  {
    if a != [] && a[0] == b[0] && b[0] == c[0] {
      StrLeTransitive(a[1..], b[1..], c[1..]);
    }
  }

  predicate IsLeast(m: string, s: set<string>) {
    m in s && forall x :: x in s ==> StrLe(m, x)
  }

  lemma {:induction false} LeastExists(s: set<string>)
    requires s != {}
    ensures exists m :: IsLeast(m, s)
    decreases |s|
  {
    var x :| x in s;
    if s == {x} {
      StrLeTotal(x, x);
      assert IsLeast(x, s);
    } else {
      LeastExists(s - {x});
      var m :| IsLeast(m, s - {x});
      StrLeTotal(x, m);
      if StrLe(x, m) {
        forall y | y in s ensures StrLe(x, y) {
          if y != x { StrLeTransitive(x, m, y); }
          else { StrLeTotal(x, x); }
        }
        assert IsLeast(x, s);
      } else {
        assert IsLeast(m, s);
      }
    }
  }

  /** The smallest name of a non-empty set. */
  function Least(s: set<string>): (m: string)
    requires s != {}
    ensures m in s
    ensures forall x :: x in s ==> StrLe(m, x)
  {
    LeastExists(s);
    forall a, b | IsLeast(a, s) && IsLeast(b, s) ensures a == b {
      StrLeAntisymmetric(a, b);
    }
    var m :| IsLeast(m, s);
    m
  }

  /** Strictly increasing in the order `sorted` uses. */
  ghost predicate StrictlySorted(r: seq<string>) {
    forall i, j :: 0 <= i < j < |r| ==> StrLe(r[i], r[j]) && r[i] != r[j]
  }

  /** `sorted(names)` for a collection of distinct names. */
  function SortedSet(s: set<string>): (r: seq<string>)
    ensures |r| == |s|
    ensures forall x :: x in r <==> x in s
    ensures StrictlySorted(r)
    decreases |s|
  {
    if s == {} then []
    else
      var m := Least(s);
      [m] + SortedSet(s - {m})
  }

  function Spaces(n: nat): (r: string)
    ensures |r| == n
    ensures forall i :: 0 <= i < n ==> r[i] == ' '
  {
    if n == 0 then [] else [' '] + Spaces(n - 1)
  }

  function Repeat(c: char, n: nat): (r: string)
    ensures |r| == n
    ensures forall i :: 0 <= i < n ==> r[i] == c
  {
    if n == 0 then [] else [c] + Repeat(c, n - 1)
  }

  /** `s.ljust(w)`: s followed by blanks up to width w; never shortens s. */
  function LJust(s: string, w: nat): (r: string)
    ensures |r| == Max(|s|, w)
    ensures r[..|s|] == s
    ensures forall i :: |s| <= i < |r| ==> r[i] == ' '
  {
    if |s| >= w then s else s + Spaces(w - |s|)
  }

  /** `s.rjust(w)`: blanks up to width w followed by s; never shortens s. */
  function RJust(s: string, w: nat): (r: string)
    ensures |r| == Max(|s|, w)
    ensures r[|r| - |s|..] == s
    ensures forall i :: 0 <= i < |r| - |s| ==> r[i] == ' '
  {
    if |s| >= w then s else Spaces(w - |s|) + s
  }

  /** The left margin CPython's `str.center` uses: half the padding, plus one
      when both the padding and the width are odd. */
  function CenterLeft(len: nat, w: nat): nat {
    if len >= w then 0
    else
      var marg := w - len;
      marg / 2 + (if marg % 2 == 1 && w % 2 == 1 then 1 else 0)
  }

  /** `s.center(w)`: s padded on both sides to width w, the two margins
      differing by at most one; never shortens s. */
  function Center(s: string, w: nat): (r: string)
    ensures |r| == Max(|s|, w)
    ensures CenterLeft(|s|, w) + |s| <= |r|
    ensures r[CenterLeft(|s|, w)..CenterLeft(|s|, w) + |s|] == s
    ensures forall i :: 0 <= i < CenterLeft(|s|, w) ==> r[i] == ' '
    ensures forall i :: CenterLeft(|s|, w) + |s| <= i < |r| ==> r[i] == ' '
    ensures -1 <= (|r| - |s| - CenterLeft(|s|, w)) - CenterLeft(|s|, w) <= 1
  {
    var l := CenterLeft(|s|, w);
    if |s| >= w then s else Spaces(l) + s + Spaces(w - |s| - l)
  }

  /** The report's shortening of a name to a column of `limit` characters:
      a longer name keeps its first `limit - 4` characters and gets "... ". */
  function Abbreviate(s: string, limit: nat): (r: string)
    requires 4 <= limit
    ensures |r| <= limit
    ensures r == s <==> |s| <= limit
    ensures |s| > limit ==> |r| == limit && r[..limit - 4] == s[..limit - 4] && r[limit - 4..] == "... "
  {
    if |s| > limit then s[..limit - 4] + "... " else s
  }

  /** The first n characters of a concatenation whose left part is at
      least n long. */
  lemma PrefixOfConcat(a: string, b: string, n: nat)
    requires n <= |a|
    ensures (a + b)[..n] == a[..n]
  {
    assert forall i :: 0 <= i < n ==> (a + b)[i] == a[i];
  }

  /** The last n characters of a concatenation whose right part is at
      least n long. */
  lemma SuffixOfConcat(a: string, b: string, n: nat)
    requires n <= |b|
    ensures (a + b)[|a + b| - n..] == b[|b| - n..]
  {
    assert (a + b)[|a|..] == b;
    assert (a + b)[|a + b| - n..] == (a + b)[|a|..][|b| - n..];
  }
}
