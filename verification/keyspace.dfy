/** The candidate passwords of a search: for every length from 1 up to the
    maximum, every tuple over the charset in `itertools.product` order, the
    first position varying slowest and the last fastest. */
module Keyspace {

  /** A password alphabet in enumeration order. Like the Python string it
      models, it may repeat characters, and repeats are enumerated again. */
  type Charset = seq<char>

  function Pow(base: nat, exp: nat): nat
  {
    if exp == 0 then 1 else base * Pow(base, exp - 1)
  }

  /** `s` uses only characters of `cs`. */
  predicate Over(s: string, cs: Charset)
  {
    forall i :: 0 <= i < |s| ==> s[i] in cs
  }

  /** Position of the first occurrence of `c` in `cs`. */
  function IndexOf(cs: Charset, c: char): (i: nat)
    requires c in cs
    ensures i < |cs| && cs[i] == c
    ensures forall k :: 0 <= k < i ==> cs[k] != c
  {
    if cs[0] == c then 0 else 1 + IndexOf(cs[1..], c)
  }

  /** Every tail, in order, with `c` put in front. */
  function Extend(c: char, tails: seq<string>): (r: seq<string>)
    ensures |r| == |tails|
    ensures forall j :: 0 <= j < |r| ==> r[j] == [c] + tails[j]
  {
    seq(|tails|, j requires 0 <= j < |tails| => [c] + tails[j])
  }

  /** One more leading position: for each character of `cs` in order, every
      tail in order. */
  function Prefix(cs: Charset, tails: seq<string>): (r: seq<string>)
    ensures |r| == |cs| * |tails|
  {
    if cs == [] then []
    else
      var rest := Prefix(cs[1..], tails);
      assert |cs| * |tails| == |tails| + (|cs| - 1) * |tails|;
      Extend(cs[0], tails) + rest
  }

  /** `itertools.product(cs, repeat=n)`, each tuple joined into a string. */
  function Product(cs: Charset, n: nat): seq<string>
  {
    if n == 0 then [""] else Prefix(cs, Product(cs, n - 1))
  }

  /** The whole keyspace in search order: lengths 1 to `maxLength`, each
      length in `Product` order. Empty when `maxLength <= 0`. */
  function Candidates(cs: Charset, maxLength: int): seq<string>
    decreases maxLength
  {
    if maxLength <= 0 then [] else Candidates(cs, maxLength - 1) + Product(cs, maxLength)
  }

  /** The sum of |cs|^k for k from 1 to `maxLength`. */
  function Count(cs: Charset, maxLength: int): nat
    decreases maxLength
  {
    if maxLength <= 0 then 0 else Count(cs, maxLength - 1) + Pow(|cs|, maxLength)
  }

  /** The position of `s` in `Product(cs, |s|)`: `s` read as a base-|cs|
      numeral whose digits are first-occurrence charset indices. */
  function Rank(cs: Charset, s: string): nat
    requires Over(s, cs)
    decreases |s|
  {
    if |s| == 0 then 0
    else
      assert Over(s[1..], cs) by {
        forall i | 0 <= i < |s| - 1 ensures s[1..][i] in cs {
          assert s[1..][i] == s[i + 1];
        }
      }
      IndexOf(cs, s[0]) * Pow(|cs|, |s| - 1) + Rank(cs, s[1..])
  }

  // ---------------------------------------------------------------------
  // Order and contents of one length

  /** Entry `i * |tails| + j` of `Prefix` is tail `j` behind character `i`:
      the leading position varies slowest. */
  lemma {:induction false} PrefixAt(cs: Charset, tails: seq<string>, i: nat, j: nat)
    requires i < |cs| && j < |tails|
    ensures i * |tails| + j < |Prefix(cs, tails)|
    ensures Prefix(cs, tails)[i * |tails| + j] == [cs[i]] + tails[j]
  {
    var r := Prefix(cs, tails);
    assert r == Extend(cs[0], tails) + Prefix(cs[1..], tails);
    MulBound(i, |cs|, |tails|, j);
    if i == 0 {
      assert r[j] == Extend(cs[0], tails)[j];
    } else {
      PrefixAt(cs[1..], tails, i - 1, j);
      MulStep(i, |tails|);
      assert cs[1..][i - 1] == cs[i];
    }
  }

  lemma MulBound(a: nat, b: nat, n: nat, r: nat)
    requires a < b && r <= n
    ensures a * n + r <= b * n
  {
    assert (a + 1) * n <= b * n;
  }

  lemma MulStep(a: nat, n: nat)
    requires a >= 1
    ensures a * n == n + (a - 1) * n
  {
  }

  lemma {:induction false} PrefixMember(cs: Charset, tails: seq<string>, s: string)
    ensures s in Prefix(cs, tails) <==> |s| >= 1 && s[0] in cs && s[1..] in tails
  {
    if cs == [] {
    } else {
      var head := Extend(cs[0], tails);
      assert Prefix(cs, tails) == head + Prefix(cs[1..], tails);
      PrefixMember(cs[1..], tails, s);
      if s in head {
        var j :| 0 <= j < |head| && head[j] == s;
        assert s[1..] == tails[j];
      }
      if |s| >= 1 && s[0] == cs[0] && s[1..] in tails {
        var j :| 0 <= j < |tails| && tails[j] == s[1..];
        assert head[j] == s;
      }
      if |s| >= 1 && s[0] in cs && s[0] != cs[0] {
        assert s[0] in cs[1..] by {
          var k :| 0 <= k < |cs| && cs[k] == s[0];
          assert cs[1..][k - 1] == s[0];
        }
      }
    }
  }

  /** No entry of `Prefix` before the one for `s` equals `s`, given that no
      tail before position `r` equals `s[1..]`. */
  lemma {:induction false} PrefixBefore(cs: Charset, tails: seq<string>, s: string, r: nat, m: nat)
    requires |s| >= 1 && s[0] in cs
    requires r <= |tails|
    requires forall k :: 0 <= k < r ==> tails[k] != s[1..]
    requires m < IndexOf(cs, s[0]) * |tails| + r
    ensures m < |Prefix(cs, tails)| && Prefix(cs, tails)[m] != s
  {
    var a := IndexOf(cs, s[0]);
    MulBound(a, |cs|, |tails|, r);
    var head := Extend(cs[0], tails);
    assert Prefix(cs, tails) == head + Prefix(cs[1..], tails);
    if cs[0] == s[0] {
      assert a == 0;
      assert Prefix(cs, tails)[m] == [cs[0]] + tails[m];
    } else if m < |tails| {
      assert Prefix(cs, tails)[m][0] == cs[0];
    } else {
      assert a == 1 + IndexOf(cs[1..], s[0]);
      MulStep(a, |tails|);
      PrefixBefore(cs[1..], tails, s, r, m - |tails|);
    }
  }

  lemma {:induction false} ProductLength(cs: Charset, n: nat)
    ensures |Product(cs, n)| == Pow(|cs|, n)
  {
    if n > 0 {
      ProductLength(cs, n - 1);
    }
  }

  /** The tuples of one length are exactly the strings of that length over
      the charset. */
  lemma {:induction false} ProductMember(cs: Charset, n: nat, s: string)
    ensures s in Product(cs, n) <==> |s| == n && Over(s, cs)
  {
    if n == 0 {
      assert Product(cs, 0) == [""];
    } else {
      PrefixMember(cs, Product(cs, n - 1), s);
      if |s| >= 1 {
        ProductMember(cs, n - 1, s[1..]);
        if Over(s, cs) {
          forall i | 0 <= i < |s| - 1 ensures s[1..][i] in cs {
            assert s[1..][i] == s[i + 1];
          }
        }
        if s[0] in cs && Over(s[1..], cs) {
          forall i | 0 <= i < |s| ensures s[i] in cs {
            if i > 0 {
              assert s[i] == s[1..][i - 1];
            }
          }
        }
      }
    }
  }

  /** `Rank` locates `s` in its length's enumeration, and nothing before it
      there equals `s`. */
  lemma {:induction false} ProductRank(cs: Charset, s: string)
    requires Over(s, cs)
    ensures Rank(cs, s) < |Product(cs, |s|)|
    ensures Product(cs, |s|)[Rank(cs, s)] == s
    ensures forall m :: 0 <= m < Rank(cs, s) ==> Product(cs, |s|)[m] != s
  {
    if |s| == 0 {
      assert Product(cs, 0) == [""];
    } else {
      var t := s[1..];
      assert Over(t, cs) by {
        forall i | 0 <= i < |t| ensures t[i] in cs {
          assert t[i] == s[i + 1];
        }
      }
      var tails := Product(cs, |t|);
      ProductRank(cs, t);
      ProductLength(cs, |t|);
      var a := IndexOf(cs, s[0]);
      assert Rank(cs, s) == a * |tails| + Rank(cs, t);
      PrefixAt(cs, tails, a, Rank(cs, t));
      assert [cs[a]] + t == s;
      forall m | 0 <= m < Rank(cs, s) ensures Product(cs, |s|)[m] != s {
        PrefixBefore(cs, tails, s, Rank(cs, t), m);
      }
    }
  }

  // ---------------------------------------------------------------------
  // The whole keyspace

  /** The search makes exactly sum_{k=1..L} |cs|^k candidates. */
  lemma {:induction false} CandidatesLength(cs: Charset, maxLength: int)
    ensures |Candidates(cs, maxLength)| == Count(cs, maxLength)
    decreases maxLength
  {
    if maxLength > 0 {
      CandidatesLength(cs, maxLength - 1);
      ProductLength(cs, maxLength);
    }
  }

  /** Every candidate is non-empty, at most `maxLength` long and over the
      charset, and every such string is a candidate. */
  lemma {:induction false} CandidateMember(cs: Charset, maxLength: int, s: string)
    ensures s in Candidates(cs, maxLength) <==> 1 <= |s| <= maxLength && Over(s, cs)
    decreases maxLength
  {
    if maxLength > 0 {
      CandidateMember(cs, maxLength - 1, s);
      ProductMember(cs, maxLength, s);
    }
  }

  /** The keyspace is the enumeration of each length in turn: length `n`
      begins right after the `Count(cs, n - 1)` shorter candidates. */
  lemma {:induction false} CandidatesAt(cs: Charset, maxLength: int, n: nat, j: nat)
    requires 1 <= n <= maxLength
    requires j < |Product(cs, n)|
    ensures Count(cs, n - 1) + j < |Candidates(cs, maxLength)|
    ensures Candidates(cs, maxLength)[Count(cs, n - 1) + j] == Product(cs, n)[j]
    decreases maxLength
  {
    var shorter := Candidates(cs, maxLength - 1);
    assert Candidates(cs, maxLength) == shorter + Product(cs, maxLength);
    CandidatesLength(cs, maxLength - 1);
    if n < maxLength {
      CandidatesAt(cs, maxLength - 1, n, j);
      assert shorter[Count(cs, n - 1) + j] == Product(cs, n)[j];
    } else {
      assert Count(cs, n - 1) == |shorter|;
    }
  }

  /** Shorter candidates come first. */
  lemma {:induction false} CandidatesByLength(cs: Charset, maxLength: int, i: nat, j: nat)
    requires i <= j < |Candidates(cs, maxLength)|
    ensures |Candidates(cs, maxLength)[i]| <= |Candidates(cs, maxLength)[j]|
    decreases maxLength
  {
    var c := Candidates(cs, maxLength);
    var shorter := Candidates(cs, maxLength - 1);
    var longest := Product(cs, maxLength);
    AppendAt(c, shorter, longest, i);
    AppendAt(c, shorter, longest, j);
    if j < |shorter| {
      CandidatesByLength(cs, maxLength - 1, i, j);
    } else {
      assert longest[j - |shorter|] in longest;
      ProductMember(cs, maxLength, c[j]);
      if i < |shorter| {
        assert shorter[i] in shorter;
        CandidateMember(cs, maxLength - 1, c[i]);
      } else {
        assert longest[i - |shorter|] in longest;
        ProductMember(cs, maxLength, c[i]);
      }
    }
  }

  /** An element of a concatenation comes from the part it falls in. */
  lemma AppendAt<T>(c: seq<T>, a: seq<T>, b: seq<T>, k: nat)
    requires c == a + b && k < |c|
    ensures k < |a| ==> c[k] == a[k]
    ensures k >= |a| ==> c[k] == b[k - |a|]
  {
  }

  /** The first position of a candidate `s` in the keyspace: all shorter
      candidates, then its rank among those of its length. */
  lemma {:induction false} CandidateFirstIndex(cs: Charset, maxLength: int, s: string)
    requires 1 <= |s| <= maxLength && Over(s, cs)
    ensures Count(cs, |s| - 1) + Rank(cs, s) < |Candidates(cs, maxLength)|
    ensures Candidates(cs, maxLength)[Count(cs, |s| - 1) + Rank(cs, s)] == s
    ensures forall m :: 0 <= m < Count(cs, |s| - 1) + Rank(cs, s) ==> Candidates(cs, maxLength)[m] != s
    decreases maxLength
  {
    var shorter := Candidates(cs, maxLength - 1);
    if |s| == maxLength {
      ProductRank(cs, s);
      CandidatesLength(cs, maxLength - 1);
      forall m | 0 <= m < |shorter| ensures shorter[m] != s {
        ShorterDiffers(cs, maxLength, s, m);
      }
      FirstAfter(Candidates(cs, maxLength), shorter, Product(cs, maxLength), s, Rank(cs, s));
    } else {
      CandidateFirstIndex(cs, maxLength - 1, s);
      FirstWithin(Candidates(cs, maxLength), shorter, Product(cs, maxLength), s, Count(cs, |s| - 1) + Rank(cs, s));
    }
  }

  /** The first occurrence of `x` in `b`, shifted past an `a` without `x`,
      is its first occurrence in `a + b`. */
  lemma FirstAfter<T>(c: seq<T>, a: seq<T>, b: seq<T>, x: T, r: nat)
    requires c == a + b
    requires r < |b| && b[r] == x
    requires forall m :: 0 <= m < r ==> b[m] != x
    requires forall m :: 0 <= m < |a| ==> a[m] != x
    ensures |a| + r < |c| && c[|a| + r] == x
    ensures forall m :: 0 <= m < |a| + r ==> c[m] != x
  {
    forall m | 0 <= m < |a| + r ensures c[m] != x {
      if m >= |a| {
        assert c[m] == b[m - |a|];
      }
    }
  }

  /** The first occurrence of `x` in `a` is also its first in `a + b`. */
  lemma FirstWithin<T>(c: seq<T>, a: seq<T>, b: seq<T>, x: T, i: nat)
    requires c == a + b
    requires i < |a| && a[i] == x
    requires forall m :: 0 <= m < i ==> a[m] != x
    ensures i < |c| && c[i] == x
    ensures forall m :: 0 <= m < i ==> c[m] != x
  {
  }

  /** A candidate of the shorter lengths is not a string of full length. */
  lemma ShorterDiffers(cs: Charset, maxLength: int, s: string, m: nat)
    requires 1 <= maxLength && |s| == maxLength
    requires m < |Candidates(cs, maxLength - 1)|
    ensures Candidates(cs, maxLength - 1)[m] != s
  {
    var shorter := Candidates(cs, maxLength - 1);
    assert shorter[m] in shorter;
    CandidateMember(cs, maxLength - 1, shorter[m]);
  }

  /** Closed form of the sum: (|cs| - 1) * Count == |cs|^(L+1) - |cs|. */
  lemma {:induction false} CountClosedForm(cs: Charset, maxLength: nat)
    ensures (|cs| - 1) * Count(cs, maxLength) == Pow(|cs|, maxLength + 1) - |cs|
  {
    if maxLength > 0 {
      CountClosedForm(cs, maxLength - 1);
      GeometricStep(|cs|, Count(cs, maxLength - 1), Pow(|cs|, maxLength));
    }
  }

  lemma GeometricStep(b: int, c: int, p: int)
    requires (b - 1) * c == p - b
    ensures (b - 1) * (c + p) == b * p - b
  {
    assert (b - 1) * (c + p) == (b - 1) * c + (b - 1) * p;
  }

  /** Charset "01" with maximum length 2 gives 0, 1, 00, 01, 10, 11. */
  lemma BinaryExample()
    ensures Candidates("01", 2) == ["0", "1", "00", "01", "10", "11"]
  {
    var cs: Charset := "01";
    BinaryOne();
    BinaryTwo();
    assert Candidates(cs, 1) == Candidates(cs, 0) + Product(cs, 1);
  }

  lemma BinaryOne()
    ensures Product("01", 1) == ["0", "1"]
  {
    var cs: Charset := "01";
    assert cs[1..] == "1" && cs[1..][1..] == "";
    assert Product(cs, 0) == [""];
    assert Extend('0', [""])[0] == "0";
    assert Extend('1', [""])[0] == "1";
    assert Prefix(cs, [""]) == Extend('0', [""]) + (Extend('1', [""]) + Prefix("", [""]));
  }

  lemma BinaryTwo()
    ensures Product("01", 2) == ["00", "01", "10", "11"]
  {
    var cs: Charset := "01";
    var one := ["0", "1"];
    BinaryOne();
    assert cs[1..] == "1" && cs[1..][1..] == "";
    assert Extend('0', one)[0] == "00" && Extend('0', one)[1] == "01";
    assert Extend('1', one)[0] == "10" && Extend('1', one)[1] == "11";
    assert Prefix(cs, one) == Extend('0', one) + (Extend('1', one) + Prefix("", one));
  }

  lemma DuplicateExample()
    ensures Candidates("aa", 1) == ["a", "a"]
    ensures Count("aa", 1) == 2
  {
    var cs: Charset := "aa";
    assert cs[1..] == "a" && cs[1..][1..] == "";
    assert Product(cs, 0) == [""];
    assert Extend('a', [""])[0] == "a";
    assert Prefix(cs, [""]) == Extend('a', [""]) + (Extend('a', [""]) + Prefix("", [""]));
    assert Candidates(cs, 1) == Candidates(cs, 0) + Product(cs, 1);
  }
}
