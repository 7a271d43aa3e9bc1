/** Browsing what was stored: the store operations and the paging client end to end. An
    album is the container whose listing comes straight from a sorted set. */
module Albums {
  import opened StdMap
  import opened Keys
  import opened Redis
  import opened Datastore
  import opened Refinement = Catalogue
  import opened Didl
  import opened Browse
  import opened Paging

  predicate IsAlbumNode(node: Node) {
    "cls" in node && node["cls"] == "album"
  }

  /** Writing the node does not throw. */
  predicate WritableNode(node: Node) {
    "cls" in node ==> Complete(ParseType(node["cls"]), node)
  }

  /** The audio files of an album whose nodes have a class, with their scores. */
  function ShownFiles(cat: Catalogue, key: string): Scored {
    map k | k in cat.FilesOf(key, Audio) && "cls" in cat.NodeOf(k) :: cat.FilesOf(key, Audio)[k]
  }

  /** By ascending score, equal scores in the order of the texts. */
  predicate Ascends(list: seq<string>, scores: Scored) {
    && (forall i | 0 <= i < |list| :: list[i] in scores)
    && (forall i, j | 0 <= i < j < |list| ::
          Earlier(Entry(scores[list[i]], list[i]), Entry(scores[list[j]], list[j])))
  }

  /** Every key of the map once, in that order. */
  predicate Ranks(list: seq<string>, scores: Scored) {
    Ascends(list, scores) && forall k | k in scores :: k in list
  }

  lemma MembersRank(es: seq<Entry>)
    requires Sorted(es)
    ensures Ranks(Members(es), Scores(es)) && |Members(es)| == |Scores(es)|
  {
    var list, scores := Members(es), Scores(es);
    ScoresExact(es);
    ScoresKeys(es);
    SortedExact(es);
    forall i | 0 <= i < |list| ensures list[i] in scores && scores[list[i]] == es[i].score {
      assert es[i] in es;
    }
    forall i, j | 0 <= i < j < |list|
      ensures Earlier(Entry(scores[list[i]], list[i]), Entry(scores[list[j]], list[j]))
    {
      assert Entry(scores[list[i]], list[i]) == es[i] && Entry(scores[list[j]], list[j]) == es[j];
    }
    forall k | k in scores ensures k in list {
      var e :| e in es && e.member == k;
      var i :| 0 <= i < |es| && es[i] == e;
      assert list[i] == k;
    }
  }

  /** A list that ascends holds no key twice. */
  lemma {:induction false} AscendsDistinct(list: seq<string>, scores: Scored)
    requires Ascends(list, scores)
    ensures |list| == |set k | k in list|
  {
    var keys := set k | k in list;
    if list == [] {
      assert keys == {};
    } else {
      var before, last := list[..|list| - 1], list[|list| - 1];
      AscendsDistinct(before, scores);
      assert list == before + [last];
      assert keys == (set k | k in before) + {last};
      NotEarlier(Entry(scores[last], last));
      forall i | 0 <= i < |before| ensures before[i] != last { assert before[i] == list[i]; }
    }
  }

  lemma NotEarlier(e: Entry)
    ensures !Earlier(e, e)
  {
  }

  lemma RanksAll(list: seq<string>, scores: Scored)
    requires Ranks(list, scores)
    ensures |list| == |scores|
  {
    AscendsDistinct(list, scores);
    assert (set k | k in list) == scores.Keys;
  }

  lemma {:induction false} ClassedIn(read: Reader, keys: seq<string>, k: string)
    ensures k in Classed(read, keys) <==> k in keys && HasClass(read, k)
  {
    if keys != [] {
      var before := keys[..|keys| - 1];
      ClassedIn(read, before, k);
      assert keys == before + [keys[|keys| - 1]];
    }
  }

  /** Leaving entries out of a list keeps its order. */
  lemma {:induction false} ClassedAscends(read: Reader, keys: seq<string>, scores: Scored)
    requires Ascends(keys, scores)
    ensures Ascends(Classed(read, keys), scores)
  {
    if keys != [] {
      var before, last := keys[..|keys| - 1], keys[|keys| - 1];
      ClassedAscends(read, before, scores);
      var rest := Classed(read, before);
      forall i | 0 <= i < |rest| ensures Earlier(Entry(scores[rest[i]], rest[i]), Entry(scores[last], last)) {
        ClassedIn(read, before, rest[i]);
        var j :| 0 <= j < |before| && before[j] == rest[i];
        assert keys[j] == rest[i] && keys[|keys| - 1] == last;
      }
    }
  }

  lemma FewerScores(list: seq<string>, scores: Scored, fewer: Scored)
    requires Ascends(list, scores)
    requires forall i | 0 <= i < |list| :: list[i] in fewer && fewer[list[i]] == scores[list[i]]
    ensures Ascends(list, fewer)
  {
  }

  lemma AlbumListed(db: Db, cat: Catalogue, key: string)
    requires WellTyped(db) && Represents(db, cat) && IsAlbumNode(cat.NodeOf(key))
    ensures Ranks(Listed(db, key), cat.FilesOf(key, Audio)) && |Listed(db, key)| == |cat.FilesOf(key, Audio)|
  {
    GetAgreesWithNode(db, key, "cls");
    assert HashAt(db, NodeKey(key)) == cat.NodeOf(key);
    TypeNamed(Album);
    assert IsAlbum(db, key);
    var k := FilesKey(key, Audio);
    assert HoldsZSet(db, k) && ScoresAt(db, k) == cat.FilesOf(key, Audio);
    if k in db { MembersRank(db[k].entries); }
  }

  lemma NodeRead(db: Db, cat: Catalogue, k: string)
    requires WellTyped(db) && Represents(db, cat)
    ensures HasClass(Reads(db), k) <==> "cls" in cat.NodeOf(k)
    ensures Writable(Reads(db), k) <==> WritableNode(cat.NodeOf(k))
  {
    WholeExact(db, k);
    assert HashAt(db, NodeKey(k)) == cat.NodeOf(k);
  }

  /** The listed files that have a class are the shown ones, in order. */
  lemma ShownRanks(db: Db, cat: Catalogue, key: string)
    requires WellTyped(db) && Represents(db, cat) && IsAlbumNode(cat.NodeOf(key))
    ensures Ranks(Classed(Reads(db), Listed(db, key)), ShownFiles(cat, key))
  {
    AlbumListed(db, cat, key);
    var all := Listed(db, key);
    var list := Classed(Reads(db), all);
    ClassedAscends(Reads(db), all, cat.FilesOf(key, Audio));
    forall k ensures k in list <==> k in ShownFiles(cat, key) {
      ClassedIn(Reads(db), all, k);
      NodeRead(db, cat, k);
    }
    FewerScores(list, cat.FilesOf(key, Audio), ShownFiles(cat, key));
  }

  lemma FilesWritable(db: Db, cat: Catalogue, key: string)
    requires WellTyped(db) && Represents(db, cat) && IsAlbumNode(cat.NodeOf(key))
    ensures AllWritable(Reads(db), Listed(db, key)) <==>
            forall k | k in cat.FilesOf(key, Audio) :: WritableNode(cat.NodeOf(k))
  {
    AlbumListed(db, cat, key);
    var all := Listed(db, key);
    forall k | k in cat.FilesOf(key, Audio)
      ensures k in all && (Writable(Reads(db), k) <==> WritableNode(cat.NodeOf(k)))
    {
      NodeRead(db, cat, k);
    }
  }

  /** The pages of an album against what the catalogue holds: all are answered exactly when
      every file can be written; then they show exactly the files that have a class, each
      once, by ascending score, and every TotalMatches is the size of the child list, which
      is another list. */
  ghost predicate PagesShow(cat: Catalogue, key: string, pages: seq<Reply>) {
    && (Answered(pages) <==> forall k | k in cat.FilesOf(key, Audio) :: WritableNode(cat.NodeOf(k)))
    && (Answered(pages) ==>
          && Ranks(AllIds(pages), ShownFiles(cat, key))
          && |AllIds(pages)| == |ShownFiles(cat, key)| && Sum(pages) == |ShownFiles(cat, key)|
          && forall j | 0 <= j < |pages| ::
               pages[j].total == |cat.ListOf(key)|
               && (Sum(pages) == pages[j].total <==> |ShownFiles(cat, key)| == |cat.ListOf(key)|))
  }

  lemma HistoryAgrees(h: string -> nat, ops: seq<Op>, db: Db, cat: Catalogue)
    requires db == ExecAll(h, map[], ops) && cat == ApplyAll(h, EMPTY, ops)
    ensures WellTyped(db) && Represents(db, cat)
  {
    StoreRefinesCatalogue(h, map[], EMPTY, ops);
  }

  /** After any sequence of store operations on an empty store, a client that pages through
      an album finds in it what the operations left there. */
  lemma {:induction false} AlbumHistory(h: string -> nat, ops: seq<Op>, db: Db, cat: Catalogue, uri: string, id: string,
                                        key: string, count: nat, pages: seq<Reply>)
    requires db == ExecAll(h, map[], ops) && cat == ApplyAll(h, EMPTY, ops)
    requires key == NormalId(id) && IsAlbumNode(cat.NodeOf(key))
    requires 0 < count && |cat.FilesOf(key, Audio)| + count <= INT_MAX
    requires |pages| == |cat.FilesOf(key, Audio)| / count + 1
    requires ArePages(db, uri, Reads(db), id, count, pages)
    ensures PagesShow(cat, key, pages)
  {
    HistoryAgrees(h, ops, db, cat);
    AlbumPages(db, cat, uri, id, key, count, pages);
  }

  lemma AlbumPages(db: Db, cat: Catalogue, uri: string, id: string, key: string, count: nat, pages: seq<Reply>)
    requires WellTyped(db) && Represents(db, cat) && key == NormalId(id) && IsAlbumNode(cat.NodeOf(key))
    requires 0 < count && |cat.FilesOf(key, Audio)| + count <= INT_MAX
    requires |pages| == |cat.FilesOf(key, Audio)| / count + 1
    requires ArePages(db, uri, Reads(db), id, count, pages)
    ensures PagesShow(cat, key, pages)
  {
    AlbumListed(db, cat, key);
    ExactPaging(db, uri, Reads(db), id, count, pages);
    FilesWritable(db, cat, key);
    ShownRanks(db, cat, key);
    RanksAll(Classed(Reads(db), Listed(db, key)), ShownFiles(cat, key));
    assert ScoresAt(db, ListKey(key)) == cat.ListOf(key);
    CardIsScores(db, ListKey(key));
  }
}
