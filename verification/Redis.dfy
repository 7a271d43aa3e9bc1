/** The part of Redis the store relies on, by its documented behaviour: hashes, sorted
    sets ordered by score and then member, lists, and inclusive ranges with negative
    indices counted from the end. A command on a key of another type fails. */
module Redis {
  import opened Text
  import opened StdMap

  datatype Entry = Entry(score: nat, member: string)

  datatype Value = Hash(fields: map<string, string>) | ZSet(entries: seq<Entry>) | List(items: seq<string>)

  type Db = map<string, Value>

  // ------------------------------------------------------------- sorted sets

  predicate EntryBefore(a: Entry, b: Entry) {
    a.score < b.score || (a.score == b.score && Before(a.member, b.member))
  }

  predicate Precedes(a: Entry, es: seq<Entry>) {
    forall e | e in es :: EntryBefore(a, e) && a.member != e.member
  }

  /** Strictly ascending, every member once. */
  predicate Sorted(es: seq<Entry>) {
    es == [] || (Precedes(es[0], es[1..]) && Sorted(es[1..]))
  }

  /** The set as a map from members to scores. */
  function Scores(es: seq<Entry>): map<string, nat> {
    if es == [] then map[] else Scores(es[1..])[es[0].member := es[0].score]
  }

  function Without(es: seq<Entry>, member: string): seq<Entry> {
    if es == [] then []
    else if es[0].member == member then Without(es[1..], member)
    else [es[0]] + Without(es[1..], member)
  }

  function Insert(es: seq<Entry>, e: Entry): seq<Entry> {
    if es == [] || EntryBefore(e, es[0]) then [e] + es
    else [es[0]] + Insert(es[1..], e)
  }

  function Members(es: seq<Entry>): seq<string> {
    seq(|es|, i requires 0 <= i < |es| => es[i].member)
  }

  lemma {:induction false} ScoresKeys(es: seq<Entry>)
    ensures forall m :: m in Scores(es) <==> exists e :: e in es && e.member == m
  {
    if es != [] {
      ScoresKeys(es[1..]);
      assert forall e :: e in es <==> e == es[0] || e in es[1..];
    }
  }

  lemma {:induction false} ScoresExact(es: seq<Entry>)
    requires Sorted(es)
    ensures forall e | e in es :: e.member in Scores(es) && Scores(es)[e.member] == e.score
    ensures |Scores(es)| == |es|
  {
    if es != [] {
      ScoresExact(es[1..]);
      ScoresKeys(es[1..]);
      assert forall e :: e in es <==> e == es[0] || e in es[1..];
      assert es[0].member !in Scores(es[1..]);
    }
  }

  lemma {:induction false} WithoutMembers(es: seq<Entry>, member: string)
    ensures forall e | e in Without(es, member) :: e in es && e.member != member
  {
    if es != [] {
      WithoutMembers(es[1..], member);
      assert forall e | e in es[1..] :: e in es;
    }
  }

  lemma {:induction false} WithoutSorted(es: seq<Entry>, member: string)
    requires Sorted(es)
    ensures Sorted(Without(es, member))
  {
    if es != [] {
      WithoutSorted(es[1..], member);
      WithoutMembers(es[1..], member);
      if es[0].member != member {
        assert Without(es, member)[1..] == Without(es[1..], member);
      }
    }
  }

  lemma {:induction false} WithoutScores(es: seq<Entry>, member: string)
    ensures Scores(Without(es, member)) == Scores(es) - {member}
  {
    if es != [] {
      WithoutScores(es[1..], member);
      if es[0].member != member {
        assert Without(es, member)[1..] == Without(es[1..], member);
      }
    }
  }

  lemma WithoutExact(es: seq<Entry>, member: string)
    requires Sorted(es)
    ensures Sorted(Without(es, member))
    ensures Scores(Without(es, member)) == Scores(es) - {member}
    ensures forall e | e in Without(es, member) :: e.member != member
  {
    WithoutMembers(es, member);
    WithoutSorted(es, member);
    WithoutScores(es, member);
  }

  lemma EntryOrder(a: Entry, b: Entry, c: Entry)
    ensures a.member != b.member ==> EntryBefore(a, b) || EntryBefore(b, a)
    ensures EntryBefore(a, b) && EntryBefore(b, c) ==> EntryBefore(a, c)
    ensures EntryBefore(a, b) ==> !EntryBefore(b, a)
  {
    BeforeTotal(a.member, b.member);
    if Before(a.member, b.member) { BeforeAsymmetric(a.member, b.member); }
    if Before(a.member, b.member) && Before(b.member, c.member) { BeforeTransitive(a.member, b.member, c.member); }
  }

  lemma {:induction false} InsertExact(es: seq<Entry>, e: Entry)
    requires Sorted(es) && forall x | x in es :: x.member != e.member
    ensures Sorted(Insert(es, e))
    ensures Scores(Insert(es, e)) == Scores(es)[e.member := e.score]
    ensures forall x | x in Insert(es, e) :: x == e || x in es
  {
    if es == [] || EntryBefore(e, es[0]) {
      assert ([e] + es)[1..] == es;
      forall x | x in es ensures EntryBefore(e, x) {
        if x != es[0] {
          assert x in es[1..];
          EntryOrder(e, es[0], x);
        }
      }
    } else {
      InsertExact(es[1..], e);
      assert es[0] in es;
      EntryOrder(e, es[0], e);
      assert Insert(es, e)[1..] == Insert(es[1..], e);
    }
  }

  /** Entries come by ascending score, and at equal scores by the order of their texts. */
  predicate Earlier(a: Entry, b: Entry) {
    a.score < b.score || (a.score == b.score && TextBefore(a.member, b.member))
  }

  predicate InOrder(es: seq<Entry>) {
    forall i, j | 0 <= i < j < |es| :: Earlier(es[i], es[j]) && es[i].member != es[j].member
  }

  /** Being sorted means exactly that. */
  lemma {:induction false} SortedExact(es: seq<Entry>)
    ensures Sorted(es) <==> InOrder(es)
  {
    forall a: Entry, b: Entry ensures EntryBefore(a, b) <==> Earlier(a, b) { BeforeExact(a.member, b.member); }
    if es != [] {
      var rest := es[1..];
      SortedExact(rest);
      if Sorted(es) {
        forall i, j | 0 <= i < j < |es| ensures Earlier(es[i], es[j]) && es[i].member != es[j].member {
          assert es[j] == rest[j - 1] && rest[j - 1] in rest;
          if i > 0 { assert es[i] == rest[i - 1]; }
        }
      }
      if InOrder(es) {
        forall e | e in rest ensures EntryBefore(es[0], e) && es[0].member != e.member {
          var j :| 0 <= j < |rest| && rest[j] == e;
          assert es[j + 1] == e;
        }
        assert forall i | 0 <= i < |rest| :: rest[i] == es[i + 1];
      }
    }
  }

  /** Order and contents leave no choice: equal scores mean equal listings. */
  lemma {:induction false} SortedUnique(a: seq<Entry>, b: seq<Entry>)
    requires Sorted(a) && Sorted(b) && Scores(a) == Scores(b)
    ensures a == b
  {
    ScoresExact(a);
    ScoresExact(b);
    if a != [] && b != [] {
      FirstAgrees(a, b);
      FirstDropped(a);
      FirstDropped(b);
      SortedUnique(a[1..], b[1..]);
      assert a == [a[0]] + a[1..] && b == [b[0]] + b[1..];
    }
  }

  lemma FirstDropped(a: seq<Entry>)
    requires a != [] && Sorted(a)
    ensures Scores(a[1..]) == Scores(a) - {a[0].member}
  {
    ScoresKeys(a[1..]);
    AddedThenDropped(Scores(a[1..]), a[0].member, a[0].score);
  }

  lemma AddedThenDropped<K, V>(m: map<K, V>, k: K, v: V)
    requires k !in m
    ensures m[k := v] - {k} == m
  {
  }

  lemma FirstAgrees(a: seq<Entry>, b: seq<Entry>)
    requires a != [] && b != [] && Sorted(a) && Sorted(b) && Scores(a) == Scores(b)
    ensures a[0] == b[0]
  {
    ScoresExact(a);
    ScoresExact(b);
    ScoresKeys(a);
    ScoresKeys(b);
    assert a[0] in a && b[0] in b;
    var x :| x in b && x.member == a[0].member;
    var y :| y in a && y.member == b[0].member;
    assert x == a[0] && y == b[0];
    if x != b[0] {
      assert x in b[1..] && y in a[1..];
      EntryOrder(a[0], b[0], a[0]);
    }
  }

  // ------------------------------------------------------------------ ranges

  /** ZRANGE and LRANGE bounds as a half-open slice of a sequence of length n. */
  function Slice(n: nat, start: int, stop: int): (r: (nat, nat))
    ensures r.0 <= r.1 <= n
  {
    var from := if start < 0 then start + n else start;
    var to := if stop < 0 then stop + n else stop;
    var lo := if from < 0 then 0 else from;
    var hi := if to >= n then n - 1 else to;
    if lo > hi || lo >= n then (0, 0) else (lo, hi + 1)
  }

  function Range<T>(s: seq<T>, start: int, stop: int): seq<T> {
    var r := Slice(|s|, start, stop);
    s[r.0..r.1]
  }

  /** The position a bound names: from the end when it is negative. */
  function Position(n: nat, bound: int): int {
    if bound < 0 then n + bound else bound
  }

  /** Position i lies between the two bounds, both included. */
  predicate InRange(n: nat, start: int, stop: int, i: nat) {
    Position(n, start) <= i <= Position(n, stop)
  }

  /** A range is the slice of the entries at these positions. */
  predicate Selects<T(==)>(s: seq<T>, start: int, stop: int, lo: nat, hi: nat) {
    && lo <= hi <= |s| && Range(s, start, stop) == s[lo..hi]
    && forall i: nat | i < |s| :: InRange(|s|, start, stop, i) <==> lo <= i < hi
  }

  lemma RangeExact<T>(s: seq<T>, start: int, stop: int)
    ensures exists lo, hi :: Selects(s, start, stop, lo, hi)
  {
    var r := Slice(|s|, start, stop);
    forall i: nat | i < |s| ensures InRange(|s|, start, stop, i) <==> r.0 <= i < r.1 {
    }
    assert Selects(s, start, stop, r.0, r.1);
  }

  // ---------------------------------------------------------------- commands

  /** The map a flat list of names and values stands for. */
  function PairsToMap(pairs: seq<string>): map<string, string>
    requires |pairs| % 2 == 0
  {
    if pairs == [] then map[]
    else PairsToMap(pairs[..|pairs| - 2])[pairs[|pairs| - 2] := pairs[|pairs| - 1]]
  }

  /** The i-th pair is one of name n. */
  predicate IsPairOf(pairs: seq<string>, n: string, i: int) {
    0 <= i && 2 * i + 1 < |pairs| && pairs[2 * i] == n
  }

  /** The value of a name is the one in the last pair of that name. */
  lemma {:induction false} LaterPairWins(pairs: seq<string>, n: string, i: int)
    requires |pairs| % 2 == 0
    requires IsPairOf(pairs, n, i) && forall j | i < j :: !IsPairOf(pairs, n, j)
    ensures n in PairsToMap(pairs) && PairsToMap(pairs)[n] == pairs[2 * i + 1]
  {
    var before, last := pairs[..|pairs| - 2], |pairs| / 2 - 1;
    if i < last {
      assert !IsPairOf(pairs, n, last);
      forall j | i < j ensures !IsPairOf(before, n, j) { assert !IsPairOf(pairs, n, j); }
      LaterPairWins(before, n, i);
    }
  }

  /** Only names of pairs have a value. */
  lemma {:induction false} NamesComeFromPairs(pairs: seq<string>, n: string)
    requires |pairs| % 2 == 0 && n in PairsToMap(pairs)
    ensures exists i :: IsPairOf(pairs, n, i)
  {
    var before, last := pairs[..|pairs| - 2], |pairs| / 2 - 1;
    if pairs[|pairs| - 2] == n {
      assert IsPairOf(pairs, n, last);
    } else {
      NamesComeFromPairs(before, n);
      var i :| IsPairOf(before, n, i);
      assert IsPairOf(pairs, n, i);
    }
  }

  /** HMSET without fields, or on a key of another type, is an error and changes nothing. */
  function HMSet(db: Db, key: string, pairs: seq<string>): Db {
    if pairs == [] || |pairs| % 2 != 0 then db
    else if key !in db then db[key := Hash(PairsToMap(pairs))]
    else if db[key].Hash? then db[key := Hash(db[key].fields + PairsToMap(pairs))]
    else db
  }

  function HGet(db: Db, key: string, field: string): Option<string> {
    if key in db && db[key].Hash? && field in db[key].fields then Some(db[key].fields[field]) else None
  }

  /** Names and values in turn, in the order of the names. */
  function Flatten(names: seq<string>, m: map<string, string>): (r: seq<string>)
    requires forall n | n in names :: n in m
    ensures |r| == 2 * |names|
  {
    if names == [] then [] else [names[0], m[names[0]]] + Flatten(names[1..], m)
  }

  /** Some(reply), in one order of the fields; None for an error. A missing key replies []. */
  function HGetAll(db: Db, key: string): (r: Option<seq<string>>)
    ensures r.Some? ==> |r.value| % 2 == 0
  {
    if key !in db then Some([])
    else if db[key].Hash? then Some(Flatten(SortedKeys(db[key].fields.Keys), db[key].fields))
    else None
  }

  function ZAdd(db: Db, key: string, score: nat, member: string): Db {
    if key !in db then db[key := ZSet([Entry(score, member)])]
    else if db[key].ZSet? then
      db[key := ZSet(Insert(Without(db[key].entries, member), Entry(score, member)))]
    else db
  }

  /** Removing the last member removes the key. */
  function ZRem(db: Db, key: string, member: string): Db {
    if key !in db || !db[key].ZSet? then db
    else
      var rest := Without(db[key].entries, member);
      if rest == [] then db - {key} else db[key := ZSet(rest)]
  }

  function ZCard(db: Db, key: string): nat {
    if key in db && db[key].ZSet? then |db[key].entries| else 0
  }

  function ZRange(db: Db, key: string, start: int, stop: int): seq<string> {
    if key in db && db[key].ZSet? then Range(Members(db[key].entries), start, stop) else []
  }

  function LRange(db: Db, key: string, start: int, stop: int): seq<string> {
    if key in db && db[key].List? then Range(db[key].items, start, stop) else []
  }
}
