/** The iteration order of std::map< std::string, ... >: keys in ascending
    lexicographic order, each exactly once. */
module StdMap {

  /** operator< on std::string. */
  predicate Before(a: string, b: string) {
    b != "" && (a == "" || a[0] < b[0] || (a[0] == b[0] && Before(a[1..], b[1..])))
  }

  lemma {:induction false} BeforeTotal(a: string, b: string)
    ensures Before(a, b) || Before(b, a) || a == b
  {
    if a != "" && b != "" && a[0] == b[0] {
      BeforeTotal(a[1..], b[1..]);
      assert a == [a[0]] + a[1..] && b == [b[0]] + b[1..];
    }
  }

  lemma {:induction false} BeforeAsymmetric(a: string, b: string)
    requires Before(a, b)
    ensures !Before(b, a)
  {
    if a != "" && a[0] == b[0] {
      BeforeAsymmetric(a[1..], b[1..]);
    }
  }

  lemma {:induction false} BeforeTransitive(a: string, b: string, c: string)
    requires Before(a, b) && Before(b, c)
    ensures Before(a, c)
  {
    if a != "" && a[0] == b[0] == c[0] {
      BeforeTransitive(a[1..], b[1..], c[1..]);
    }
  }

  /** a and b agree before position n; there a has ended, or holds the smaller character. */
  predicate SmallerAt(a: string, b: string, n: nat) {
    n <= |a| && n < |b| && a[..n] == b[..n] && (n == |a| || a[n] < b[n])
  }

  /** The order of texts in plain words: the first differing character is smaller, or the
      text is a proper prefix. */
  predicate TextBefore(a: string, b: string) {
    exists n | 0 <= n < |b| :: SmallerAt(a, b, n)
  }

  lemma {:induction false} BeforeAt(a: string, b: string) returns (n: nat)
    requires Before(a, b)
    ensures SmallerAt(a, b, n)
  {
    if a == "" || a[0] < b[0] {
      n := 0;
    } else {
      var m := BeforeAt(a[1..], b[1..]);
      n := m + 1;
      assert a[..n] == [a[0]] + a[1..][..m] && b[..n] == [b[0]] + b[1..][..m];
    }
  }

  lemma {:induction false} AtBefore(a: string, b: string, n: nat)
    requires SmallerAt(a, b, n)
    ensures Before(a, b)
    decreases n
  {
    if n > 0 {
      assert a[0] == a[..n][0] && b[0] == b[..n][0];
      assert a[1..][..n - 1] == a[..n][1..] && b[1..][..n - 1] == b[..n][1..];
      AtBefore(a[1..], b[1..], n - 1);
    }
  }

  lemma BeforeExact(a: string, b: string)
    ensures Before(a, b) <==> TextBefore(a, b)
  {
    if Before(a, b) { var n := BeforeAt(a, b); }
    if TextBefore(a, b) {
      var n :| 0 <= n < |b| && SmallerAt(a, b, n);
      AtBefore(a, b, n);
    }
  }

  /** The keys of a set are visited in the order of their texts, each once. */
  lemma SortedKeysExact(s: set<string>)
    ensures forall k :: k in SortedKeys(s) <==> k in s
    ensures |SortedKeys(s)| == |s|
    ensures forall i, j | 0 <= i < j < |SortedKeys(s)| :: TextBefore(SortedKeys(s)[i], SortedKeys(s)[j])
  {
    var ks := SortedKeys(s);
    SortedKeysAscend(s);
    forall i, j | 0 <= i < j < |ks| ensures TextBefore(ks[i], ks[j]) { BeforeExact(ks[i], ks[j]); }
  }

  predicate IsLeast(m: string, s: set<string>) {
    m in s && forall x | x in s :: x == m || Before(m, x)
  }

  lemma {:induction false} LeastExists(s: set<string>)
    requires s != {}
    ensures exists m :: IsLeast(m, s)
    decreases |s|
  {
    var x :| x in s;
    if s == {x} {
      assert IsLeast(x, s);
    } else {
      LeastExists(s - {x});
      var m :| IsLeast(m, s - {x});
      BeforeTotal(x, m);
      if Before(m, x) {
        assert IsLeast(m, s);
      } else {
        forall y | y in s ensures y == x || Before(x, y) {
          if y != x && y != m {
            BeforeTransitive(x, m, y);
          }
        }
        assert IsLeast(x, s);
      }
    }
  }

  lemma LeastUnique(s: set<string>)
    ensures forall m, m' :: IsLeast(m, s) && IsLeast(m', s) ==> m == m'
  {
    forall m, m' | IsLeast(m, s) && IsLeast(m', s) ensures m == m' {
      if m != m' { BeforeAsymmetric(m, m'); }
    }
  }

  predicate Ascending(ks: seq<string>) {
    forall i, j | 0 <= i < j < |ks| :: Before(ks[i], ks[j])
  }

  function Least(s: set<string>): (m: string)
    requires s != {}
    ensures IsLeast(m, s)
  {
    LeastExists(s);
    LeastUnique(s);
    var m :| IsLeast(m, s);
    m
  }

  /** The keys in iteration order. */
  function SortedKeys(s: set<string>): (ks: seq<string>)
    ensures forall k :: k in ks <==> k in s
    ensures |ks| == |s|
    decreases |s|
  {
    if s == {} then [] else [Least(s)] + SortedKeys(s - {Least(s)})
  }

  lemma {:induction false} SortedKeysAscend(s: set<string>)
    ensures Ascending(SortedKeys(s))
    decreases |s|
  {
    if s != {} {
      var m := Least(s);
      var rest := SortedKeys(s - {m});
      SortedKeysAscend(s - {m});
      forall j | 0 <= j < |rest| ensures Before(m, rest[j]) {
        assert rest[j] in rest;
      }
    }
  }

  lemma AscendingDistinct(ks: seq<string>)
    requires Ascending(ks)
    ensures forall i, j | 0 <= i < j < |ks| :: ks[i] != ks[j]
  {
    forall i, j | 0 <= i < j < |ks| ensures ks[i] != ks[j] {
      BeforeAsymmetric(ks[i], ks[j]);
    }
  }
}
