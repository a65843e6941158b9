/** The string operations the Python code relies on, with Python's meaning:
    `sep.join`, `str.split`, `in` on strings, slices, `str(n).zfill(3)`,
    `int(s)`, string ordering, `sorted` and whitespace `split()`. */
module Text {

  // ---------------------------------------------------------------------
  // Join and split

  /** `sep.join(xs)` */
  function Join(xs: seq<string>, sep: string): string
  {
    if |xs| == 0 then ""
    else if |xs| == 1 then xs[0]
    else xs[0] + sep + Join(xs[1..], sep)
  }

  /** The position of the first `c` in `s`. */
  function FirstIndex(s: string, c: char): (i: nat)
    requires c in s
    ensures i < |s| && s[i] == c && c !in s[..i]
  {
    if s[0] == c then 0 else FirstIndex(s[1..], c) + 1
  }

  /** `s.split(c)` for a one-character separator `c`. */
  function SplitOn(s: string, c: char): (r: seq<string>)
    ensures |r| >= 1
    ensures forall k :: 0 <= k < |r| ==> c !in r[k]
    decreases |s|
  {
    if c !in s then [s]
    else
      var i := FirstIndex(s, c);
      [s[..i]] + SplitOn(s[i + 1..], c)
  }

  /** `s.split(c)[0]`: the text before the first `c`, or all of `s`. */
  function BeforeFirst(s: string, c: char): (r: string)
    ensures |r| <= |s| && r == s[..|r|] && c !in r
    ensures |r| == |s| || s[|r|] == c
  {
    SplitOn(s, c)[0]
  }

  lemma {:induction false} FirstIndexIs(s: string, c: char, j: nat)
    requires j < |s| && s[j] == c && c !in s[..j]
    ensures c in s && FirstIndex(s, c) == j
  {
    assert s[j] in s;
    if j > 0 {
      assert s[0] == s[..j][0];
      assert s[1..][..j - 1] == s[..j][1..];
      FirstIndexIs(s[1..], c, j - 1);
    }
  }

  /** Splitting a join on a separator that no part contains gives the parts back. */
  lemma {:induction false} SplitJoin(xs: seq<string>, c: char)
    requires |xs| >= 1
    requires forall k :: 0 <= k < |xs| ==> c !in xs[k]
    ensures SplitOn(Join(xs, [c]), c) == xs
  {
    if |xs| > 1 {
      var rest := Join(xs[1..], [c]);
      var s := xs[0] + [c] + rest;
      assert s == Join(xs, [c]);
      assert s[..|xs[0]|] == xs[0];
      FirstIndexIs(s, c, |xs[0]|);
      assert s[|xs[0]| + 1..] == rest;
      SplitJoin(xs[1..], c);
    }
  }

  /** A character that occurs in no part and not in the separator does not occur in the join. */
  lemma {:induction false} JoinAvoids(xs: seq<string>, sep: string, c: char)
    requires c !in sep && forall k :: 0 <= k < |xs| ==> c !in xs[k]
    ensures c !in Join(xs, sep)
  {
    if |xs| > 1 {
      JoinAvoids(xs[1..], sep, c);
    }
  }

  // ---------------------------------------------------------------------
  // Substrings and slices

  predicate StartsWith(s: string, p: string)
  {
    |p| <= |s| && s[..|p|] == p
  }

  predicate EndsWith(s: string, p: string)
  {
    |p| <= |s| && s[|s| - |p|..] == p
  }

  /** Python's `p in s` on strings. */
  predicate Contains(s: string, p: string)
    decreases |s|
  {
    StartsWith(s, p) || (|s| > 0 && Contains(s[1..], p))
  }

  /** A string that contains `p` contains every prefix of `p`. */
  lemma {:induction false} ContainsPrefix(s: string, p: string, q: string)
    requires Contains(s, p) && StartsWith(p, q)
    ensures Contains(s, q)
    decreases |s|
  {
    if StartsWith(s, p) {
      assert s[..|q|] == p[..|q|];
    } else {
      ContainsPrefix(s[1..], p, q);
    }
  }

  /** `s[:n]` */
  function Take(s: string, n: nat): (r: string)
    ensures |r| == if n <= |s| then n else |s|
  {
    if n <= |s| then s[..n] else s
  }

  /** `s[n:]` */
  function Drop(s: string, n: nat): (r: string)
    ensures Take(s, n) + r == s
  {
    if n <= |s| then s[n..] else ""
  }

  /** `s[:-n]` for a positive `n` */
  function DropLast(s: string, n: nat): (r: string)
    requires n > 0
    ensures |r| == if n <= |s| then |s| - n else 0
  {
    if n <= |s| then s[..|s| - n] else ""
  }

  // ---------------------------------------------------------------------
  // Paths

  /** `os.path.join(a, b)` for two components. */
  function PathJoin(a: string, b: string): string
  {
    if StartsWith(b, "/") || a == "" then b
    else if a[|a| - 1] == '/' then a + b
    else a + "/" + b
  }

  /** `os.path.split(p)[1]`: what follows the last '/'. */
  function Basename(p: string): (r: string)
    ensures '/' !in r && EndsWith(p, r)
    ensures |r| < |p| ==> p[|p| - |r| - 1] == '/'
  {
    if p == [] || p[|p| - 1] == '/' then []
    else Basename(p[..|p| - 1]) + [p[|p| - 1]]
  }

  lemma {:induction false} BasenameAfterSlash(dir: string, name: string)
    requires dir == [] || dir[|dir| - 1] == '/'
    requires '/' !in name
    ensures Basename(dir + name) == name
    decreases |name|
  {
    if name != [] {
      var p := dir + name;
      assert p[..|p| - 1] == dir + name[..|name| - 1];
      BasenameAfterSlash(dir, name[..|name| - 1]);
    } else {
      assert dir + name == dir;
    }
  }

  /** A file name joined onto a directory is the basename of the result. */
  lemma BasenameOfJoin(dir: string, name: string)
    requires '/' !in name
    ensures Basename(PathJoin(dir, name)) == name
  {
    if name != [] {
      assert name[0] in name;
    }
    if StartsWith(name, "/") || dir == "" {
      BasenameAfterSlash([], name);
      assert [] + name == name;
    } else if dir[|dir| - 1] == '/' {
      BasenameAfterSlash(dir, name);
    } else {
      BasenameAfterSlash(dir + "/", name);
      assert dir + "/" + name == (dir + "/") + name;
    }
  }

  // ---------------------------------------------------------------------
  // Decimal numbers: str(n), zfill, int(s)

  predicate IsDigit(c: char)
  {
    '0' <= c <= '9'
  }

  function Digit(d: nat): (c: char)
    requires d < 10
    ensures IsDigit(c)
  {
    ('0' as int + d) as char
  }

  function DigitValue(c: char): (d: nat)
    requires IsDigit(c)
    ensures d < 10 && Digit(d) == c
  {
    c as int - '0' as int
  }

  /** `str(n)` */
  function NatToString(n: nat): (r: string)
    ensures |r| >= 1
    ensures forall k :: 0 <= k < |r| ==> IsDigit(r[k])
  {
    if n < 10 then [Digit(n)] else NatToString(n / 10) + [Digit(n % 10)]
  }

  function Zeros(k: nat): (r: string)
    ensures |r| == k && forall i :: 0 <= i < k ==> r[i] == '0'
  {
    seq(k, _ => '0')
  }

  /** `s.zfill(width)` for an unsigned `s` */
  function ZFill(s: string, width: nat): (r: string)
    ensures |r| == if |s| >= width then |s| else width
    ensures EndsWith(r, s)
  {
    if |s| >= width then s else Zeros(width - |s|) + s
  }

  /** `str(n).zfill(3)`: the candidate numbering used in every file name. */
  function ZFill3(n: nat): (r: string)
    ensures |r| >= 3
    ensures forall k :: 0 <= k < |r| ==> IsDigit(r[k])
  {
    ZFill(NatToString(n), 3)
  }

  /** `int(s)` for a non-empty string of decimal digits. */
  function DecimalValue(s: string): (v: nat)
    requires forall k :: 0 <= k < |s| ==> IsDigit(s[k])
  {
    if |s| == 0 then 0
    else 10 * DecimalValue(s[..|s| - 1]) + DigitValue(s[|s| - 1])
  }

  lemma {:induction false} DecimalOfNatToString(n: nat)
    ensures DecimalValue(NatToString(n)) == n
  {
    if n >= 10 {
      var s := NatToString(n);
      assert s[..|s| - 1] == NatToString(n / 10);
      DecimalOfNatToString(n / 10);
    }
  }

  lemma {:induction false} DecimalIgnoresLeadingZeros(k: nat, s: string)
    requires forall i :: 0 <= i < |s| ==> IsDigit(s[i])
    ensures DecimalValue(Zeros(k) + s) == DecimalValue(s)
    decreases |s|, k
  {
    var t := Zeros(k) + s;
    if |s| == 0 {
      if k > 0 {
        assert t[..|t| - 1] == Zeros(k - 1) + s;
        DecimalIgnoresLeadingZeros(k - 1, s);
      }
    } else {
      assert t[..|t| - 1] == Zeros(k) + s[..|s| - 1];
      DecimalIgnoresLeadingZeros(k, s[..|s| - 1]);
    }
  }

  /** `int(str(n).zfill(3)) == n` for every n. */
  lemma ZFill3Decimal(n: nat)
    ensures DecimalValue(ZFill3(n)) == n
  {
    var s := NatToString(n);
    DecimalOfNatToString(n);
    if |s| < 3 {
      DecimalIgnoresLeadingZeros(3 - |s|, s);
    }
  }

  lemma ZFill3Injective(a: nat, b: nat)
    requires ZFill3(a) == ZFill3(b)
    ensures a == b
  {
    ZFill3Decimal(a);
    ZFill3Decimal(b);
  }

  /** The decimal digits of a number below 1000. */
  lemma DigitsOf(n: nat) returns (h: nat, t: nat, u: nat)
    requires n < 1000
    ensures h < 10 && t < 10 && u < 10 && n == 100 * h + 10 * t + u
  {
    h, t, u := n / 100, n / 10 % 10, n % 10;
  }

  /** Three digits padded to width 3 spell `100h + 10t + u`. */
  lemma ZFill3Of(n: nat, h: nat, t: nat, u: nat)
    requires h < 10 && t < 10 && u < 10 && n == 100 * h + 10 * t + u
    ensures ZFill3(n) == [Digit(h), Digit(t), Digit(u)]
  {
    var m := 10 * h + t;
    assert n / 10 == m && n % 10 == u;
    assert m / 10 == h && m % 10 == t;
    if h > 0 {
      assert NatToString(m) == [Digit(h), Digit(t)];
      assert NatToString(n) == [Digit(h), Digit(t), Digit(u)];
    } else if t > 0 {
      assert NatToString(n) == [Digit(t), Digit(u)];
      assert Zeros(1) == [Digit(0)];
    } else {
      assert NatToString(n) == [Digit(u)];
      assert Zeros(2) == [Digit(0), Digit(0)];
    }
  }

  /** Below 1000 the padded form is exactly three characters. */
  lemma ZFill3Width(n: nat)
    requires n < 1000
    ensures |ZFill3(n)| == 3
  {
    var h, t, u := DigitsOf(n);
    ZFill3Of(n, h, t, u);
  }

  // ---------------------------------------------------------------------
  // String order (Python compares strings code point by code point)

  predicate Less(a: string, b: string)
  {
    if |a| == 0 then |b| > 0
    else if |b| == 0 then false
    else if a[0] == b[0] then Less(a[1..], b[1..])
    else a[0] < b[0]
  }

  lemma LessIrreflexive(a: string)
    ensures !Less(a, a)
  {
  }

  lemma {:induction false} LessTransitive(a: string, b: string, c: string)
    requires Less(a, b) && Less(b, c)
    ensures Less(a, c)
  {
    if |a| > 0 && |b| > 0 && |c| > 0 && a[0] == b[0] && b[0] == c[0] {
      LessTransitive(a[1..], b[1..], c[1..]);
    }
  }

  lemma {:induction false} LessTotal(a: string, b: string)
    ensures a == b || Less(a, b) || Less(b, a)
  {
    if |a| > 0 && |b| > 0 && a[0] == b[0] {
      LessTotal(a[1..], b[1..]);
      if a[1..] == b[1..] {
        assert a == [a[0]] + a[1..] && b == [b[0]] + b[1..];
      }
    }
  }

  lemma {:induction false} LessAsymmetric(a: string, b: string)
    requires Less(a, b)
    ensures !Less(b, a)
  {
    if |a| > 0 && |b| > 0 && a[0] == b[0] {
      LessAsymmetric(a[1..], b[1..]);
    }
  }

  /** Strings that agree up to position k and differ there are ordered by that character. */
  lemma {:induction false} LessAtFirstDifference(a: string, b: string, k: nat)
    requires k < |a| && k < |b| && a[..k] == b[..k] && a[k] < b[k]
    ensures Less(a, b)
  {
    if k > 0 {
      assert a[0] == a[..k][0] == b[..k][0] == b[0];
      assert a[1..][..k - 1] == b[1..][..k - 1];
      LessAtFirstDifference(a[1..], b[1..], k - 1);
    }
  }

  /** Numbers below 1000 compare like their digits, most significant first. */
  lemma DigitsLess(ha: nat, ta: nat, ua: nat, hb: nat, tb: nat, ub: nat)
    requires ha < 10 && ta < 10 && ua < 10 && hb < 10 && tb < 10 && ub < 10
    requires 100 * ha + 10 * ta + ua < 100 * hb + 10 * tb + ub
    ensures ha < hb || (ha == hb && (ta < tb || (ta == tb && ua < ub)))
  {
  }

  /** Strings that start with three digits in increasing lexicographic
      order compare the same way. */
  lemma DigitPrefixLess(p: string, q: string, x: string, y: string, ha: nat, ta: nat, ua: nat, hb: nat, tb: nat, ub: nat)
    requires ha < 10 && ta < 10 && ua < 10 && hb < 10 && tb < 10 && ub < 10
    requires p == [Digit(ha), Digit(ta), Digit(ua)] && q == [Digit(hb), Digit(tb), Digit(ub)]
    requires ha < hb || (ha == hb && (ta < tb || (ta == tb && ua < ub)))
    ensures Less(p + x, q + y)
  {
    var s, t := p + x, q + y;
    if ha != hb {
      LessAtFirstDifference(s, t, 0);
    } else if ta != tb {
      assert s[..1] == t[..1];
      LessAtFirstDifference(s, t, 1);
    } else {
      assert s[..2] == t[..2];
      LessAtFirstDifference(s, t, 2);
    }
  }

  /** Names that start with a three-digit prefix below 1000 sort by their number. */
  lemma ZFill3Order(a: nat, b: nat, x: string, y: string)
    requires a < b < 1000
    ensures Less(ZFill3(a) + x, ZFill3(b) + y)
  {
    var ha, ta, ua := DigitsOf(a);
    var hb, tb, ub := DigitsOf(b);
    DigitsLess(ha, ta, ua, hb, tb, ub);
    ZFill3Of(a, ha, ta, ua);
    ZFill3Of(b, hb, tb, ub);
    DigitPrefixLess(ZFill3(a), ZFill3(b), x, y, ha, ta, ua, hb, tb, ub);
  }

  // ---------------------------------------------------------------------
  // Sorting (Python's `sorted` on a list of strings)

  predicate Sorted(s: seq<string>)
  {
    forall i, j :: 0 <= i < j < |s| ==> !Less(s[j], s[i])
  }

  predicate StrictlySorted(s: seq<string>)
  {
    forall i, j :: 0 <= i < j < |s| ==> Less(s[i], s[j])
  }

  lemma NotLessTransitive(a: string, b: string, c: string)
    requires !Less(b, a) && !Less(c, b)
    ensures !Less(c, a)
  {
    LessTotal(a, b);
    LessTotal(b, c);
    if Less(a, b) && Less(b, c) {
      LessTransitive(a, b, c);
      LessAsymmetric(a, c);
    } else if Less(a, b) {
      LessAsymmetric(a, b);
    } else if Less(b, c) {
      LessAsymmetric(b, c);
    }
  }

  /** Inserts `x` before the first element that is not smaller than it. */
  function Insert(s: seq<string>, x: string): (r: seq<string>)
    requires Sorted(s)
    ensures multiset(r) == multiset(s) + multiset{x}
    ensures Sorted(r)
  {
    if s == [] then [x]
    else if !Less(s[0], x) then
      assert forall j :: 0 <= j < |s| ==> !Less(s[j], x) by {
        forall j | 0 <= j < |s| ensures !Less(s[j], x) {
          if j > 0 { NotLessTransitive(x, s[0], s[j]); }
        }
      }
      [x] + s
    else
      var t := Insert(s[1..], x);
      assert s == [s[0]] + s[1..];
      assert forall j :: 0 <= j < |t| ==> !Less(t[j], s[0]) by {
        forall j | 0 <= j < |t| ensures !Less(t[j], s[0]) {
          assert t[j] in multiset(t);
          if t[j] == x {
            LessAsymmetric(s[0], x);
          } else {
            assert t[j] in multiset(s[1..]);
            var k :| 0 <= k < |s[1..]| && s[1..][k] == t[j];
            assert s[k + 1] == t[j];
          }
        }
      }
      [s[0]] + t
  }

  /** `sorted(s)` */
  function SortSeq(s: seq<string>): (r: seq<string>)
    ensures multiset(r) == multiset(s)
    ensures Sorted(r)
  {
    if s == [] then []
    else
      assert s == s[..|s| - 1] + [s[|s| - 1]];
      Insert(SortSeq(s[..|s| - 1]), s[|s| - 1])
  }

  lemma StrictIsSorted(s: seq<string>)
    requires StrictlySorted(s)
    ensures Sorted(s)
  {
    forall i, j | 0 <= i < j < |s| ensures !Less(s[j], s[i]) {
      LessAsymmetric(s[i], s[j]);
    }
  }

  lemma InsertMembers(s: seq<string>, x: string)
    requires Sorted(s)
    ensures forall y :: y in Insert(s, x) <==> y in s || y == x
  {
    var r := Insert(s, x);
    forall y ensures y in r <==> y in s || y == x {
      assert y in r <==> y in multiset(r);
      assert y in s <==> y in multiset(s);
    }
  }

  /** Inserting a new name into a strictly sorted listing keeps it strictly sorted. */
  lemma {:induction false} InsertStrict(s: seq<string>, x: string)
    requires StrictlySorted(s) && x !in s
    ensures Sorted(s) && StrictlySorted(Insert(s, x))
    ensures forall y :: y in Insert(s, x) <==> y in s || y == x
  {
    StrictIsSorted(s);
    InsertMembers(s, x);
    if s != [] {
      var r := Insert(s, x);
      if !Less(s[0], x) {
        assert s[0] in s;
        LessTotal(s[0], x);
        assert r == [x] + s;
        forall i, j | 0 <= i < j < |r| ensures Less(r[i], r[j]) {
          if i == 0 && j > 1 {
            LessTransitive(x, s[0], s[j - 1]);
          }
        }
      } else {
        var t := Insert(s[1..], x);
        assert r == [s[0]] + t;
        InsertStrict(s[1..], x);
        forall j | 0 <= j < |t| ensures Less(s[0], t[j]) {
          if t[j] != x {
            assert t[j] in t;
            var k :| 0 <= k < |s[1..]| && s[1..][k] == t[j];
            assert s[k + 1] == t[j];
          }
        }
        forall i, j | 0 <= i < j < |r| ensures Less(r[i], r[j]) {
          if i == 0 {
            assert r[j] == t[j - 1];
          } else {
            assert r[i] == t[i - 1] && r[j] == t[j - 1];
          }
        }
      }
    }
  }

  /** Two strictly sorted sequences holding the same names are equal. */
  lemma {:induction false} StrictSortedUnique(s: seq<string>, t: seq<string>)
    requires StrictlySorted(s) && StrictlySorted(t)
    requires forall x :: x in s <==> x in t
    ensures s == t
  {
    assert s != [] ==> s[0] in s && s[0] in t;
    assert t != [] ==> t[0] in t && t[0] in s;
    if s != [] && t != [] {
      assert s[0] in s && t[0] in t;
      var i :| 0 <= i < |t| && t[i] == s[0];
      var j :| 0 <= j < |s| && s[j] == t[0];
      if i != 0 && j != 0 {
        LessAsymmetric(t[0], s[0]);
        assert false;
      }
      assert t[0] == s[0];
      forall x ensures x in s[1..] <==> x in t[1..] {
        if x in s[1..] {
          var k :| 0 <= k < |s[1..]| && s[1..][k] == x;
          assert Less(s[0], s[k + 1]);
          LessIrreflexive(x);
          assert x in t;
          var m :| 0 <= m < |t| && t[m] == x;
          assert m != 0;
          assert t[1..][m - 1] == x;
        }
        if x in t[1..] {
          var k :| 0 <= k < |t[1..]| && t[1..][k] == x;
          assert Less(t[0], t[k + 1]);
          LessIrreflexive(x);
          assert x in s;
          var m :| 0 <= m < |s| && s[m] == x;
          assert m != 0;
          assert s[1..][m - 1] == x;
        }
      }
      StrictSortedUnique(s[1..], t[1..]);
      assert s == [s[0]] + s[1..] && t == [t[0]] + t[1..];
    }
  }

  lemma SortedSetExists(names: set<string>)
    ensures exists r :: StrictlySorted(r) && (forall x :: x in r <==> x in names)
    decreases |names|
  {
    if names == {} {
      assert StrictlySorted([]) && (forall x :: x in [] <==> x in names);
    } else {
      var x :| x in names;
      SortedSetExists(names - {x});
      var r :| StrictlySorted(r) && (forall y :: y in r <==> y in names - {x});
      InsertStrict(r, x);
      var t := Insert(r, x);
      assert StrictlySorted(t) && (forall y :: y in t <==> y in names);
    }
  }

  /** The strictly sorted listing of a finite set of names: `sorted(os.listdir())`. */
  ghost function SortedSet(names: set<string>): (r: seq<string>)
    ensures StrictlySorted(r)
    ensures forall x :: x in r <==> x in names
  {
    SortedSetExists(names);
    var r :| StrictlySorted(r) && (forall x :: x in r <==> x in names);
    r
  }

  /** The sorted listing of a set is the one strictly sorted sequence holding it. */
  lemma SortedSetIs(names: set<string>, s: seq<string>)
    requires StrictlySorted(s) && forall x :: x in s <==> x in names
    ensures SortedSet(names) == s
  {
    StrictSortedUnique(SortedSet(names), s);
  }

  // ---------------------------------------------------------------------
  // Whitespace split (`line.split()`)

  /** `c.isspace()` */
  predicate IsSpace(c: char)
  {
    var k := c as int;
    (9 <= k <= 13) || (28 <= k <= 32) || k == 133 || k == 160 || k == 5760
    || (8192 <= k <= 8202) || k == 8232 || k == 8233 || k == 8239 || k == 8287 || k == 12288
  }

  predicate NoSpace(w: string)
  {
    forall k :: 0 <= k < |w| ==> !IsSpace(w[k])
  }

  function TakeWord(s: string): (w: string)
    ensures |w| <= |s| && w == s[..|w|] && NoSpace(w)
    ensures |w| == |s| || IsSpace(s[|w|])
  {
    if s == [] || IsSpace(s[0]) then [] else [s[0]] + TakeWord(s[1..])
  }

  /** `s.split()`: the maximal runs of non-whitespace characters, in order. */
  function Words(s: string): (r: seq<string>)
    ensures forall k :: 0 <= k < |r| ==> |r[k]| > 0 && NoSpace(r[k])
    decreases |s|
  {
    if s == [] then []
    else if IsSpace(s[0]) then Words(s[1..])
    else
      var w := TakeWord(s);
      [w] + Words(s[|w|..])
  }

  lemma {:induction false} TakeWordOf(w: string, t: string)
    requires NoSpace(w)
    requires t == [] || IsSpace(t[0])
    ensures TakeWord(w + t) == w
  {
    if w != [] {
      assert (w + t)[1..] == w[1..] + t;
      TakeWordOf(w[1..], t);
    }
  }

  /** Splitting words joined by single spaces gives the words back. */
  lemma {:induction false} WordsOfJoin(ws: seq<string>)
    requires forall k :: 0 <= k < |ws| ==> |ws[k]| > 0 && NoSpace(ws[k])
    ensures Words(Join(ws, " ")) == ws
  {
    if |ws| == 1 {
      assert ws[0] + [] == ws[0];
      TakeWordOf(ws[0], []);
      assert ws[0][|ws[0]|..] == [];
    } else if |ws| > 1 {
      var rest := Join(ws[1..], " ");
      var s := ws[0] + (" " + rest);
      assert s == Join(ws, " ");
      TakeWordOf(ws[0], " " + rest);
      assert s[|ws[0]|..] == " " + rest;
      assert (" " + rest)[1..] == rest;
      WordsOfJoin(ws[1..]);
    }
  }
}
