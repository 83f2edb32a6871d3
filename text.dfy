/**
 * Text primitives the file tree is built on: the ordering of `std::map<std::string, …>`
 * keys, the `find` / `find_last_of` / `getline` splitting the original uses, substring
 * search, and the decimal rendering of a length that `operator<<` and `stoul` exchange.
 * A `char` stands for one byte of a `std::string`.
 */
module Text {

  import opened Options

  /** Lexicographic order on strings, the order `std::string::operator<` gives. */
  predicate Less(a: string, b: string)
    decreases |a|
  {
    if a == [] then b != []
    else if b == [] then false
    else a[0] < b[0] || (a[0] == b[0] && Less(a[1..], b[1..]))
  }

  lemma {:induction false} LessIrreflexive(a: string)
    ensures !Less(a, a)
    decreases |a|
  {
    if a != [] {
      LessIrreflexive(a[1..]);
    }
  }

  lemma {:induction false} LessAsymmetric(a: string, b: string)
    ensures Less(a, b) ==> !Less(b, a)
    decreases |a|
  {
    if a != [] && b != [] && a[0] == b[0] {
      LessAsymmetric(a[1..], b[1..]);
    }
  }

  lemma {:induction false} LessTransitive(a: string, b: string, c: string)
    requires Less(a, b) && Less(b, c)
    ensures Less(a, c)
    decreases |a|
  {
    if a != [] && a[0] == b[0] && b[0] == c[0] {
      LessTransitive(a[1..], b[1..], c[1..]);
    }
  }

  lemma {:induction false} LessTotal(a: string, b: string)
    ensures a == b || Less(a, b) || Less(b, a)
    decreases |a|
  {
    if a != [] && b != [] && a[0] == b[0] {
      LessTotal(a[1..], b[1..]);
      if a[1..] == b[1..] {
        assert a == [a[0]] + a[1..] && b == [b[0]] + b[1..];
      }
    }
  }

  /** Every element is strictly below every later one: the order a `std::map` walk visits its keys in. */
  ghost predicate Ascending(s: seq<string>)
  {
    forall i, j :: 0 <= i < j < |s| ==> Less(s[i], s[j])
  }

  predicate IsLeast(m: string, s: set<string>)
  {
    m in s && forall x :: x in s && x != m ==> Less(m, x)
  }

  lemma {:induction false} LeastExists(s: set<string>)
    requires s != {}
    ensures exists m :: IsLeast(m, s)
    decreases |s|
  {
    var x :| x in s;
    if s != {x} {
      LeastExists(s - {x});
      var m :| IsLeast(m, s - {x});
      LessTotal(m, x);
      if Less(m, x) {
        assert IsLeast(m, s);
      } else {
        forall y | y in s && y != x
          ensures Less(x, y)
        {
          if y != m {
            LessTransitive(x, m, y);
          }
        }
        assert IsLeast(x, s);
      }
    } else {
      assert IsLeast(x, s);
    }
  }

  /** The keys of a map in the order `std::map` iterates them: least first. */
  ghost function SortedKeys(s: set<string>): (r: seq<string>)
    ensures |r| == |s|
    ensures forall x :: x in r <==> x in s
    decreases |s|
  {
    if s == {} then []
    else
      LeastExists(s);
      var m :| IsLeast(m, s);
      var rest := SortedKeys(s - {m});
      assert forall j :: 0 <= j < |rest| ==> rest[j] in s - {m};
      assert ([m] + rest)[1..] == rest;
      [m] + rest
  }

  /** The first key is the least one, and the rest follow in order. */
  lemma SortedKeysUnfold(s: set<string>)
    requires s != {}
    ensures IsLeast(SortedKeys(s)[0], s) && SortedKeys(s)[1..] == SortedKeys(s - {SortedKeys(s)[0]})
  {
  }

  /** The key order is ascending. */
  lemma {:induction false} SortedKeysAscending(s: set<string>)
    ensures Ascending(SortedKeys(s))
    decreases |s|
  {
    if s != {} {
      var r := SortedKeys(s);
      SortedKeysUnfold(s);
      SortedKeysAscending(s - {r[0]});
      forall i, j | 0 <= i < j < |r|
        ensures Less(r[i], r[j])
      {
        if i == 0 {
          assert r[j] == r[1..][j - 1];
          assert r[j] in s - {r[0]};
        } else {
          assert r[i] == r[1..][i - 1] && r[j] == r[1..][j - 1];
        }
      }
    }
  }

  /** Two ascending sequences with the same elements are the same sequence. */
  lemma {:induction false} AscendingUnique(a: seq<string>, b: seq<string>)
    requires Ascending(a) && Ascending(b)
    requires forall x :: x in a <==> x in b
    ensures a == b
    decreases |a|
  {
    if a != [] {
      assert a[0] in a;
    }
    if b != [] {
      assert b[0] in b;
    }
    if a != [] && b != [] {
      var i :| 0 <= i < |b| && b[i] == a[0];
      var j :| 0 <= j < |a| && a[j] == b[0];
      if i != 0 && j != 0 {
        LessAsymmetric(a[0], b[0]);
      }
      assert a[0] == b[0];
      forall x
        ensures x in a[1..] <==> x in b[1..]
      {
        LessIrreflexive(x);
        if x in a[1..] {
          var k :| 0 <= k < |a| - 1 && a[1..][k] == x;
          assert a[k + 1] == x && x in a && x in b;
          var j' :| 0 <= j' < |b| && b[j'] == x;
          assert b[1..][j' - 1] == x;
        }
        if x in b[1..] {
          var k :| 0 <= k < |b| - 1 && b[1..][k] == x;
          assert b[k + 1] == x && x in b && x in a;
          var i' :| 0 <= i' < |a| && a[i'] == x;
          assert a[1..][i' - 1] == x;
        }
      }
      AscendingUnique(a[1..], b[1..]);
    }
  }

  /** `SortedKeys` starts with the least key: the step a `std::map` walk takes each time. */
  lemma SortedKeysStep(s: set<string>, m: string)
    requires IsLeast(m, s)
    ensures SortedKeys(s) == [m] + SortedKeys(s - {m})
  {
    var r := SortedKeys(s);
    SortedKeysUnfold(s);
    if r[0] != m {
      LessAsymmetric(r[0], m);
    }
    assert r == [r[0]] + r[1..];
  }


  /** The index of the first `c` in `s`, or `|s|` when there is none (`std::string::find`, npos as `|s|`). */
  function IndexOf(s: string, c: char): (i: nat)
    ensures i <= |s|
    ensures c !in s[..i]
    ensures i < |s| ==> s[i] == c
  {
    if s == [] then 0
    else if s[0] == c then 0
    else
      var i := 1 + IndexOf(s[1..], c);
      assert s[..i] == [s[0]] + s[1..][..i - 1];
      i
  }

  lemma IndexOfAfter(a: string, c: char, b: string)
    requires c !in a
    ensures IndexOf(a + [c] + b, c) == |a|
    ensures (a + [c] + b)[..|a|] == a && (a + [c] + b)[|a| + 1..] == b
  {
    var s := a + [c] + b;
    assert s[..|a|] == a;
    assert s[|a|] == c;
    assert s[|a| + 1..] == b;
  }

  lemma IndexOfAbsent(a: string, c: char)
    requires c !in a
    ensures IndexOf(a, c) == |a|
  {
  }

  /** The index of the last `c` in `s` (`std::string::find_last_of` with one character). */
  function LastIndexOf(s: string, c: char): (r: Option<nat>)
    ensures r.Some? ==> r.value < |s| && s[r.value] == c && c !in s[r.value + 1..]
    ensures r.None? ==> c !in s
    decreases |s|
  {
    if s == [] then None
    else if s[|s| - 1] == c then Some(|s| - 1)
    else
      var r := LastIndexOf(s[..|s| - 1], c);
      assert s[..|s| - 1] + [s[|s| - 1]] == s;
      r
  }

  lemma LastIndexOfAfter(a: string, c: char, b: string)
    requires c !in b
    ensures LastIndexOf(a + [c] + b, c) == Some(|a|)
    ensures (a + [c] + b)[..|a|] == a && (a + [c] + b)[|a| + 1..] == b
  {
    assert (a + [c] + b)[..|a|] == a;
    var s := a + [c] + b;
    assert s[|a|] == c;
    assert s[|a| + 1..] == b;
  }

  /** One `getline` with delimiter `c`: the text up to the first `c`, and what follows that `c`. */
  function CutAt(s: string, c: char): (r: (string, string))
    ensures s != [] ==> |r.1| < |s|
    ensures c !in r.0
    ensures c in s ==> s == r.0 + [c] + r.1
    ensures c !in s ==> r == (s, [])
  {
    var i := IndexOf(s, c);
    if i < |s| then
      assert s == s[..i] + [c] + s[i + 1..];
      (s[..i], s[i + 1..])
    else
      assert s[..i] == s;
      (s[..i], [])
  }

  /** Cutting at the first `c` of a line that ends at a `c`. */
  lemma CutAtAfter(a: string, c: char, b: string)
    requires c !in a
    ensures CutAt(a + [c] + b, c) == (a, b)
  {
    IndexOfAfter(a, c, b);
  }

  lemma TokensCut(s: string)
    requires s != []
    ensures Tokens(s) == [CutAt(s, '/').0] + Tokens(CutAt(s, '/').1)
  {
  }

  /**
   * The pieces `getline(ss, token, '/')` extracts from `s`: pieces between slashes, where
   * a trailing slash ends the input without a last empty piece and "" gives no piece.
   */
  function Tokens(s: string): seq<string>
    decreases |s|
  {
    if s == [] then []
    else
      var i := IndexOf(s, '/');
      [s[..i]] + (if i < |s| then Tokens(s[i + 1..]) else [])
  }

  function NonEmpty(ts: seq<string>): (r: seq<string>)
    ensures forall x :: x in r <==> x in ts && x != []
  {
    if ts == [] then [] else (if ts[0] == [] then [] else [ts[0]]) + NonEmpty(ts[1..])
  }

  /** The directory names a slash-separated path walks through: empty segments are skipped. */
  function Segments(s: string): (r: seq<string>)
    ensures forall x :: x in r ==> x != []
  {
    NonEmpty(Tokens(s))
  }

  /** A path of names written out as the saved store and `printPath` write it: "/a/b". */
  function JoinPath(p: seq<string>): string
  {
    if p == [] then "" else "/" + p[0] + JoinPath(p[1..])
  }

  lemma {:induction false} JoinPathSnoc(p: seq<string>, k: string)
    ensures JoinPath(p + [k]) == JoinPath(p) + "/" + k
  {
    if p == [] {
      assert [] + [k] == [k];
    } else {
      assert (p + [k])[1..] == p[1..] + [k];
      JoinPathSnoc(p[1..], k);
    }
  }

  /** A name that survives being written into a path: non-empty and free of '/'. */
  predicate PathName(n: string)
  {
    n != [] && '/' !in n
  }

  lemma {:induction false} CharsOfJoinPath(p: seq<string>, c: char)
    requires c != '/'
    requires forall i :: 0 <= i < |p| ==> c !in p[i]
    ensures c !in JoinPath(p)
  {
    if p != [] {
      CharsOfJoinPath(p[1..], c);
      assert JoinPath(p) == ["/"[0]] + p[0] + JoinPath(p[1..]);
    }
  }

  lemma {:induction false} TokensAfterName(a: string, q: seq<string>)
    requires PathName(a)
    requires forall i :: 0 <= i < |q| ==> PathName(q[i])
    ensures Tokens(a + JoinPath(q)) == [a] + q
    decreases |q|
  {
    if q == [] {
      assert a + JoinPath(q) == a;
      IndexOfAbsent(a, '/');
      assert a[..|a|] == a;
    } else {
      var s := a + JoinPath(q);
      var r := q[0] + JoinPath(q[1..]);
      assert JoinPath(q) == ['/'] + r;
      assert s == a + ['/'] + r;
      IndexOfAfter(a, '/', r);
      assert s[..|a|] == a;
      assert s[|a| + 1..] == r;
      TokensAfterName(q[0], q[1..]);
      assert [q[0]] + q[1..] == q;
    }
  }

  lemma NonEmptyAll(ts: seq<string>)
    requires forall i :: 0 <= i < |ts| ==> ts[i] != []
    ensures NonEmpty(ts) == ts
  {
  }

  /** Writing a path out and splitting it again gives the path back. */
  lemma {:induction false} SegmentsOfJoinPath(p: seq<string>)
    requires forall i :: 0 <= i < |p| ==> PathName(p[i])
    ensures Segments(JoinPath(p)) == p
  {
    if p != [] {
      var s := JoinPath(p);
      var r := p[0] + JoinPath(p[1..]);
      assert s == [] + ['/'] + r;
      IndexOfAfter([], '/', r);
      assert s[1..] == r;
      TokensAfterName(p[0], p[1..]);
      assert [p[0]] + p[1..] == p;
      assert Tokens(s) == [[]] + p;
      NonEmptyAll(p);
    }
  }

  /** The pieces between occurrences of `c`, as repeated `find` / `substr` / `erase` cut them. */
  function Split(s: string, c: char): (ps: seq<string>)
    ensures |ps| >= 1
    decreases |s|
  {
    var i := IndexOf(s, c);
    if i == |s| then [s] else [s[..i]] + Split(s[i + 1..], c)
  }

  function Join(ps: seq<string>, c: char): string
    requires |ps| >= 1
  {
    if |ps| == 1 then ps[0] else ps[0] + [c] + Join(ps[1..], c)
  }

  /** Splitting loses nothing: joining the pieces with `c` rebuilds the input, and no piece holds `c`. */
  lemma {:induction false} SplitJoin(s: string, c: char)
    ensures Join(Split(s, c), c) == s
    ensures forall i :: 0 <= i < |Split(s, c)| ==> c !in Split(s, c)[i]
    decreases |s|
  {
    var i := IndexOf(s, c);
    if i < |s| {
      SplitJoin(s[i + 1..], c);
      assert s == s[..i] + [c] + s[i + 1..];
    }
  }

  /** `s.find(pat) != npos`. */
  predicate Contains(s: string, pat: string)
    decreases |s|
  {
    (|pat| <= |s| && s[..|pat|] == pat) || (s != [] && Contains(s[1..], pat))
  }

  /** `pat` occurs in `s` starting at index `i`. */
  ghost predicate OccursAt(s: string, pat: string, i: nat)
  {
    i + |pat| <= |s| && s[i..i + |pat|] == pat
  }

  /** `Contains` holds exactly when `pat` occurs at some position of `s`. */
  lemma {:induction false} ContainsAt(s: string, pat: string)
    ensures Contains(s, pat) <==> exists i: nat :: OccursAt(s, pat, i)
    decreases |s|
  {
    if s != [] {
      ContainsAt(s[1..], pat);
      if |pat| <= |s| {
        assert s[0..|pat|] == s[..|pat|];
        if s[..|pat|] == pat {
          assert OccursAt(s, pat, 0);
        }
      }
      if Contains(s[1..], pat) {
        var i: nat :| OccursAt(s[1..], pat, i);
        assert s[1..][i..i + |pat|] == s[i + 1..i + 1 + |pat|];
        assert OccursAt(s, pat, i + 1);
      }
      if i: nat :| OccursAt(s, pat, i) {
        if i > 0 {
          assert s[1..][i - 1..i - 1 + |pat|] == s[i..i + |pat|];
          assert OccursAt(s[1..], pat, i - 1);
        }
      }
    } else if pat == [] {
      assert OccursAt(s, pat, 0);
    }
  }

  predicate IsDigit(c: char)
  {
    '0' <= c <= '9'
  }

  predicate AllDigits(s: string)
  {
    forall i :: 0 <= i < |s| ==> IsDigit(s[i])
  }

  function DigitChar(d: nat): char
    requires d < 10
  {
    ('0' as int + d) as char
  }

  /** The decimal text `operator<<` writes for a length. */
  function Decimal(n: nat): string
    decreases n
  {
    if n < 10 then [DigitChar(n)] else Decimal(n / 10) + [DigitChar(n % 10)]
  }

  /** The value of a run of decimal digits. */
  function DigitsValue(s: string): nat
    requires AllDigits(s)
    decreases |s|
  {
    if s == [] then 0 else DigitsValue(s[..|s| - 1]) * 10 + (s[|s| - 1] as int - '0' as int)
  }

  /** The run of digits `stoul` reads at the start of `s`. */
  function LeadingDigits(s: string): (r: string)
    ensures AllDigits(r) && r <= s
    ensures r == s || !IsDigit(s[|r|])
  {
    if s == [] || !IsDigit(s[0]) then [] else [s[0]] + LeadingDigits(s[1..])
  }

  /** Reading back what `Decimal` writes gives the number, and the whole of it is read. */
  lemma {:induction false} DecimalRoundTrip(n: nat)
    ensures Decimal(n) != [] && AllDigits(Decimal(n))
    ensures DigitsValue(Decimal(n)) == n
    decreases n
  {
    if n >= 10 {
      DecimalRoundTrip(n / 10);
      var s := Decimal(n);
      assert s[..|s| - 1] == Decimal(n / 10);
    }
  }

  lemma {:induction false} LeadingDigitsAll(s: string)
    requires AllDigits(s)
    ensures LeadingDigits(s) == s
  {
    if s != [] {
      LeadingDigitsAll(s[1..]);
      assert s == [s[0]] + s[1..];
    }
  }

  predicate StartsWith(s: string, prefix: string)
  {
    |prefix| <= |s| && s[..|prefix|] == prefix
  }

  lemma DigitsAvoid(s: string, c: char)
    requires AllDigits(s) && !IsDigit(c)
    ensures c !in s
  {
    forall i | 0 <= i < |s|
      ensures s[i] != c
    {
      assert IsDigit(s[i]);
    }
  }
}
