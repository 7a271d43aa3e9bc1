/** The media catalogue the string-keyed store stands for: nodes, child lists and file
    lists by type, each an entry of its own. Every operation on the store refines one
    operation on the catalogue. */
module Catalogue {
  import opened Text
  import opened StdMap
  import opened Keys
  import opened Redis
  import opened Datastore

  type Scored = map<string, nat>

  /** Entries that were never written, or emptied again, are empty. */
  datatype Catalogue = Catalogue(nodes: map<string, Node>, lists: map<string, Scored>,
                                 files: map<(string, NodeType), Scored>)
  {
    function NodeOf(key: string): Node {
      if key in nodes then nodes[key] else map[]
    }

    function ListOf(key: string): Scored {
      if key in lists then lists[key] else map[]
    }

    function FilesOf(key: string, t: NodeType): Scored {
      if (key, t) in files then files[(key, t)] else map[]
    }

    function PutNode(key: string, node: Node): Catalogue {
      this.(nodes := nodes[key := node])
    }

    function PutList(key: string, list: Scored): Catalogue {
      this.(lists := lists[key := list])
    }

    function PutFiles(key: string, t: NodeType, list: Scored): Catalogue {
      this.(files := files[(key, t) := list])
    }
  }

  /** What each operation means. A type's list is the list of the node named like the type. */
  function Apply(h: string -> nat, cat: Catalogue, op: Op): Catalogue {
    match op
    case Save(key, node) => cat.PutNode(key, cat.NodeOf(key) + node)
    case SetField(key, param, value) => cat.PutNode(key, cat.NodeOf(key)[param := value])
    case AddTypes(parent, key, score) => cat.PutList(parent, cat.ListOf(parent)[key := score])
    case RemTypes(parent, key) => cat.PutList(parent, cat.ListOf(parent) - {HashOf(h, key)})
    case AddNodes(t, key, score) => cat.PutList(Str(t), cat.ListOf(Str(t))[key := score])
    case RemNodes(t, key) => cat.PutList(Str(t), cat.ListOf(Str(t)) - {key})
    case AddFiles(parent, t, key, score) => cat.PutFiles(parent, t, cat.FilesOf(parent, t)[key := score])
    case RemFiles(parent, t, key) => cat.PutFiles(parent, t, cat.FilesOf(parent, t) - {key})
  }

  const EMPTY := Catalogue(map[], map[], map[])

  function ApplyAll(h: string -> nat, cat: Catalogue, ops: seq<Op>): Catalogue {
    if ops == [] then cat else Apply(h, ApplyAll(h, cat, ops[..|ops| - 1]), ops[|ops| - 1])
  }

  // -------------------------------------------------------------- refinement

  function ScoresAt(db: Db, key: string): Scored {
    if key in db && db[key].ZSet? then Scores(db[key].entries) else map[]
  }

  predicate HoldsHash(db: Db, key: string) {
    key in db ==> db[key].Hash?
  }

  predicate HoldsZSet(db: Db, key: string) {
    key in db ==> db[key].ZSet? && Sorted(db[key].entries)
  }

  /** Each key family holds values of its own type, sorted sets in order. */
  ghost predicate WellTyped(db: Db) {
    && (forall k :: HoldsHash(db, NodeKey(k)))
    && (forall k :: HoldsZSet(db, ListKey(k)))
    && (forall k, t :: HoldsZSet(db, FilesKey(k, t)))
  }

  /** The store and the catalogue agree on every entry. */
  ghost predicate Represents(db: Db, cat: Catalogue) {
    && (forall k :: HashAt(db, NodeKey(k)) == cat.NodeOf(k))
    && (forall k :: ScoresAt(db, ListKey(k)) == cat.ListOf(k))
    && (forall k, t :: ScoresAt(db, FilesKey(k, t)) == cat.FilesOf(k, t))
  }

  ghost predicate Same(db: Db, db': Db, key: string) {
    (key in db <==> key in db') && (key in db ==> db[key] == db'[key])
  }

  /** Only one key may have changed. */
  ghost predicate OnlyAt(db: Db, db': Db, key: string) {
    forall k | k != key :: Same(db, db', k)
  }

  lemma NodesKept(db: Db, db': Db, cat: Catalogue, cat': Catalogue, changed: string)
    requires WellTyped(db) && Represents(db, cat) && OnlyAt(db, db', changed)
    requires cat'.nodes == cat.nodes && forall k :: NodeKey(k) != changed
    ensures forall k :: HoldsHash(db', NodeKey(k)) && HashAt(db', NodeKey(k)) == cat'.NodeOf(k)
  {
    forall k ensures HoldsHash(db', NodeKey(k)) && HashAt(db', NodeKey(k)) == cat'.NodeOf(k) {
      assert Same(db, db', NodeKey(k));
    }
  }

  lemma ListsKept(db: Db, db': Db, cat: Catalogue, cat': Catalogue, changed: string)
    requires WellTyped(db) && Represents(db, cat) && OnlyAt(db, db', changed)
    requires cat'.lists == cat.lists && forall k :: ListKey(k) != changed
    ensures forall k :: HoldsZSet(db', ListKey(k)) && ScoresAt(db', ListKey(k)) == cat'.ListOf(k)
  {
    forall k ensures HoldsZSet(db', ListKey(k)) && ScoresAt(db', ListKey(k)) == cat'.ListOf(k) {
      assert Same(db, db', ListKey(k));
    }
  }

  lemma FilesKept(db: Db, db': Db, cat: Catalogue, cat': Catalogue, changed: string)
    requires WellTyped(db) && Represents(db, cat) && OnlyAt(db, db', changed)
    requires cat'.files == cat.files && forall k, t :: FilesKey(k, t) != changed
    ensures forall k, t :: HoldsZSet(db', FilesKey(k, t)) && ScoresAt(db', FilesKey(k, t)) == cat'.FilesOf(k, t)
  {
    forall k, t ensures HoldsZSet(db', FilesKey(k, t)) && ScoresAt(db', FilesKey(k, t)) == cat'.FilesOf(k, t) {
      assert Same(db, db', FilesKey(k, t));
    }
  }

  lemma NodeKeyApart(key: string)
    ensures forall k :: ListKey(k) != NodeKey(key)
    ensures forall k, t :: FilesKey(k, t) != NodeKey(key)
  {
    forall k ensures ListKey(k) != NodeKey(key) { FamiliesDisjoint(key, k, Folder, Folder); }
    forall k, t ensures FilesKey(k, t) != NodeKey(key) { FamiliesDisjoint(key, k, Folder, t); }
  }

  lemma ListKeyApart(key: string)
    ensures forall k :: NodeKey(k) != ListKey(key)
    ensures forall k, t :: FilesKey(k, t) != ListKey(key)
  {
    forall k ensures NodeKey(k) != ListKey(key) { FamiliesDisjoint(k, key, Folder, Folder); }
    forall k, t ensures FilesKey(k, t) != ListKey(key) { FamiliesDisjoint(key, k, Folder, t); }
  }

  lemma FilesKeyApart(key: string, t: NodeType)
    ensures forall k :: NodeKey(k) != FilesKey(key, t)
    ensures forall k :: ListKey(k) != FilesKey(key, t)
  {
    forall k ensures NodeKey(k) != FilesKey(key, t) { FamiliesDisjoint(k, key, Folder, t); }
    forall k ensures ListKey(k) != FilesKey(key, t) { FamiliesDisjoint(k, key, Folder, t); }
  }

  lemma NodeChanged(db: Db, db': Db, cat: Catalogue, key: string, node: Node)
    requires WellTyped(db) && Represents(db, cat) && OnlyAt(db, db', NodeKey(key))
    requires HoldsHash(db', NodeKey(key)) && HashAt(db', NodeKey(key)) == node
    ensures WellTyped(db') && Represents(db', cat.PutNode(key, node))
  {
    var cat' := cat.PutNode(key, node);
    forall k ensures HoldsHash(db', NodeKey(k)) && HashAt(db', NodeKey(k)) == cat'.NodeOf(k) {
      FamiliesDisjoint(k, key, Folder, Folder);
      assert k != key ==> Same(db, db', NodeKey(k));
    }
    NodeKeyApart(key);
    ListsKept(db, db', cat, cat', NodeKey(key));
    FilesKept(db, db', cat, cat', NodeKey(key));
  }

  lemma ListChanged(db: Db, db': Db, cat: Catalogue, key: string, list: Scored)
    requires WellTyped(db) && Represents(db, cat) && OnlyAt(db, db', ListKey(key))
    requires HoldsZSet(db', ListKey(key)) && ScoresAt(db', ListKey(key)) == list
    ensures WellTyped(db') && Represents(db', cat.PutList(key, list))
  {
    var cat' := cat.PutList(key, list);
    forall k ensures HoldsZSet(db', ListKey(k)) && ScoresAt(db', ListKey(k)) == cat'.ListOf(k) {
      FamiliesDisjoint(k, key, Folder, Folder);
      assert k != key ==> Same(db, db', ListKey(k));
    }
    ListKeyApart(key);
    NodesKept(db, db', cat, cat', ListKey(key));
    FilesKept(db, db', cat, cat', ListKey(key));
  }

  lemma FilesChanged(db: Db, db': Db, cat: Catalogue, key: string, t: NodeType, list: Scored)
    requires WellTyped(db) && Represents(db, cat) && OnlyAt(db, db', FilesKey(key, t))
    requires HoldsZSet(db', FilesKey(key, t)) && ScoresAt(db', FilesKey(key, t)) == list
    ensures WellTyped(db') && Represents(db', cat.PutFiles(key, t, list))
  {
    var cat' := cat.PutFiles(key, t, list);
    forall k, s ensures HoldsZSet(db', FilesKey(k, s)) && ScoresAt(db', FilesKey(k, s)) == cat'.FilesOf(k, s) {
      FamiliesDisjoint(k, key, s, t);
      assert (k, s) != (key, t) ==> Same(db, db', FilesKey(k, s));
    }
    FilesKeyApart(key, t);
    NodesKept(db, db', cat, cat', FilesKey(key, t));
    ListsKept(db, db', cat, cat', FilesKey(key, t));
  }

  lemma ListingIsMap(node: Node)
    ensures |Listing(node)| % 2 == 0 && PairsToMap(Listing(node)) == node
    ensures Listing(node) == [] <==> node == map[]
  {
    var names := SortedKeys(node.Keys);
    FlattenIsMap(names, node);
    assert Pick(names, node) == node;
    assert |names| == |node.Keys| == |node|;
  }

  lemma PairIsMap(param: string, value: string)
    ensures PairsToMap([param, value]) == map[param := value]
  {
    assert [param, value][..0] == [];
    assert PairsToMap([param, value][..0]) == map[];
  }

  lemma HMSetExact(db: Db, key: string, pairs: seq<string>)
    requires HoldsHash(db, key) && |pairs| % 2 == 0 && pairs != []
    ensures var db' := HMSet(db, key, pairs);
            HoldsHash(db', key) && OnlyAt(db, db', key) && HashAt(db', key) == HashAt(db, key) + PairsToMap(pairs)
  {
    if key !in db {
      var none: Node := map[];
      assert none + PairsToMap(pairs) == PairsToMap(pairs);
    }
  }

  lemma SaveExact(db: Db, key: string, node: Node)
    requires HoldsHash(db, NodeKey(key))
    ensures var db' := HMSet(db, NodeKey(key), Listing(node));
            && HoldsHash(db', NodeKey(key)) && OnlyAt(db, db', NodeKey(key))
            && HashAt(db', NodeKey(key)) == HashAt(db, NodeKey(key)) + node
  {
    var k, pairs := NodeKey(key), Listing(node);
    ListingIsMap(node);
    if pairs == [] {
      assert HashAt(db, k) + node == HashAt(db, k);
    } else {
      HMSetExact(db, k, pairs);
    }
  }

  lemma ZAddExact(db: Db, key: string, score: nat, member: string)
    requires HoldsZSet(db, key)
    ensures var db' := ZAdd(db, key, score, member);
            && HoldsZSet(db', key) && OnlyAt(db, db', key)
            && ScoresAt(db', key) == ScoresAt(db, key)[member := score]
  {
    if key in db {
      var es := db[key].entries;
      WithoutExact(es, member);
      InsertExact(Without(es, member), Entry(score, member));
      assert (Scores(es) - {member})[member := score] == Scores(es)[member := score];
    } else {
      var es := [Entry(score, member)];
      assert es[1..] == [];
      assert Scores(es) == Scores([])[member := score];
    }
  }

  lemma ZRemExact(db: Db, key: string, member: string)
    requires HoldsZSet(db, key)
    ensures var db' := ZRem(db, key, member);
            && HoldsZSet(db', key) && OnlyAt(db, db', key)
            && ScoresAt(db', key) == ScoresAt(db, key) - {member}
  {
    if key in db { WithoutExact(db[key].entries, member); }
  }

  /** In the sorted set at key, member got this score. */
  predicate GetsScore(db: Db, db': Db, key: string, member: string, score: nat) {
    ScoresAt(db', key) == ScoresAt(db, key)[member := score]
  }

  predicate Loses(db: Db, db': Db, key: string, member: string) {
    ScoresAt(db', key) == ScoresAt(db, key) - {member}
  }

  /** What each operation does, by the text of the key it works on: it changes nothing else
      in the database. */
  lemma OperationTexts(h: string -> nat, db: Db, op: Op)
    requires WellTyped(db)
    ensures var db' := Exec(h, db, op);
            match op
            case Save(key, node) =>
              var k := "fs:" + key + ":node";
              OnlyAt(db, db', k) && HashAt(db', k) == HashAt(db, k) + node
            case SetField(key, param, value) =>
              var k := "fs:" + key + ":node";
              OnlyAt(db, db', k) && HashAt(db', k) == HashAt(db, k)[param := value]
            case AddTypes(parent, key, score) =>
              var k := "fs:" + parent + ":list";
              OnlyAt(db, db', k) && GetsScore(db, db', k, key, score)
            case RemTypes(parent, key) =>
              var k := "fs:" + parent + ":list";
              OnlyAt(db, db', k) && Loses(db, db', k, if Kept(key) then key else Decimal(h(key)))
            case AddNodes(t, key, score) =>
              var k := "fs:" + Str(t) + ":list";
              OnlyAt(db, db', k) && GetsScore(db, db', k, key, score)
            case RemNodes(t, key) =>
              var k := "fs:" + Str(t) + ":list";
              OnlyAt(db, db', k) && Loses(db, db', k, key)
            case AddFiles(parent, t, key, score) =>
              var k := "fs:" + parent + ":types:" + Str(t);
              OnlyAt(db, db', k) && GetsScore(db, db', k, key, score)
            case RemFiles(parent, t, key) =>
              var k := "fs:" + parent + ":types:" + Str(t);
              OnlyAt(db, db', k) && Loses(db, db', k, key)
  {
    match op
    case Save(key, node) =>
      KeyTexts(key, Folder);
      SaveExact(db, key, node);
    case SetField(key, param, value) =>
      KeyTexts(key, Folder);
      PairIsMap(param, value);
      HMSetExact(db, NodeKey(key), [param, value]);
    case AddTypes(parent, key, score) =>
      KeyTexts(parent, Folder);
      ZAddExact(db, ListKey(parent), score, key);
    case RemTypes(parent, key) =>
      KeyTexts(parent, Folder);
      HashExact(h, key);
      ZRemExact(db, ListKey(parent), HashOf(h, key));
    case AddNodes(t, key, score) =>
      KeyTexts(Str(t), t);
      ZAddExact(db, ListKey(Str(t)), score, key);
    case RemNodes(t, key) =>
      KeyTexts(Str(t), t);
      ZRemExact(db, ListKey(Str(t)), key);
    case AddFiles(parent, t, key, score) =>
      KeyTexts(parent, t);
      ZAddExact(db, FilesKey(parent, t), score, key);
    case RemFiles(parent, t, key) =>
      KeyTexts(parent, t);
      ZRemExact(db, FilesKey(parent, t), key);
  }

  /** One operation: store and catalogue still agree, on this entry and on all others. */
  lemma OperationRefines(h: string -> nat, db: Db, cat: Catalogue, op: Op)
    requires WellTyped(db) && Represents(db, cat)
    ensures WellTyped(Exec(h, db, op)) && Represents(Exec(h, db, op), Apply(h, cat, op))
  {
    var db' := Exec(h, db, op);
    match op
    case Save(key, node) =>
      SaveExact(db, key, node);
      NodeChanged(db, db', cat, key, cat.NodeOf(key) + node);
    case SetField(key, param, value) =>
      PairIsMap(param, value);
      HMSetExact(db, NodeKey(key), [param, value]);
      NodeChanged(db, db', cat, key, cat.NodeOf(key)[param := value]);
    case AddTypes(parent, key, score) =>
      ZAddExact(db, ListKey(parent), score, key);
      ListChanged(db, db', cat, parent, cat.ListOf(parent)[key := score]);
    case RemTypes(parent, key) =>
      ZRemExact(db, ListKey(parent), HashOf(h, key));
      ListChanged(db, db', cat, parent, cat.ListOf(parent) - {HashOf(h, key)});
    case AddNodes(t, key, score) =>
      ZAddExact(db, ListKey(Str(t)), score, key);
      ListChanged(db, db', cat, Str(t), cat.ListOf(Str(t))[key := score]);
    case RemNodes(t, key) =>
      ZRemExact(db, ListKey(Str(t)), key);
      ListChanged(db, db', cat, Str(t), cat.ListOf(Str(t)) - {key});
    case AddFiles(parent, t, key, score) =>
      ZAddExact(db, FilesKey(parent, t), score, key);
      FilesChanged(db, db', cat, parent, t, cat.FilesOf(parent, t)[key := score]);
    case RemFiles(parent, t, key) =>
      ZRemExact(db, FilesKey(parent, t), key);
      FilesChanged(db, db', cat, parent, t, cat.FilesOf(parent, t) - {key});
  }

  /** Any sequence of operations, on keys of any text. */
  lemma {:induction false} StoreRefinesCatalogue(h: string -> nat, db: Db, cat: Catalogue, ops: seq<Op>)
    requires WellTyped(db) && Represents(db, cat)
    ensures WellTyped(ExecAll(h, db, ops)) && Represents(ExecAll(h, db, ops), ApplyAll(h, cat, ops))
  {
    if ops != [] {
      StoreRefinesCatalogue(h, db, cat, ops[..|ops| - 1]);
      OperationRefines(h, ExecAll(h, db, ops[..|ops| - 1]), ApplyAll(h, cat, ops[..|ops| - 1]), ops[|ops| - 1]);
    }
  }

  /** Starting from the empty store the whole history is accounted for: what is read back
      about any entry is what the catalogue says. */
  lemma HistoryReadsBack(h: string -> nat, ops: seq<Op>, key: string, t: NodeType)
    ensures var db := ExecAll(h, map[], ops);
            var cat := ApplyAll(h, EMPTY, ops);
            && StoredNode(db, key) == cat.NodeOf(key)
            && ChildrenCount(db, key) == |cat.ListOf(key)|
            && ZCard(db, FilesKey(key, t)) == |cat.FilesOf(key, t)|
            && (forall m :: m in ZRange(db, FilesKey(key, t), 0, -1) <==> m in cat.FilesOf(key, t))
  {
    StoreRefinesCatalogue(h, map[], EMPTY, ops);
    var db := ExecAll(h, map[], ops);
    StoredNodeExact(db, key);
    CardIsScores(db, ListKey(key));
    CardIsScores(db, FilesKey(key, t));
    RangeIsMembers(db, FilesKey(key, t));
  }

  lemma CardIsScores(db: Db, key: string)
    requires HoldsZSet(db, key)
    ensures ZCard(db, key) == |ScoresAt(db, key)|
  {
    if key in db { ScoresExact(db[key].entries); }
  }

  lemma RangeIsMembers(db: Db, key: string)
    requires HoldsZSet(db, key)
    ensures forall m :: m in ZRange(db, key, 0, -1) <==> m in ScoresAt(db, key)
  {
    if key in db {
      var es := db[key].entries;
      ScoresKeys(es);
      assert Range(Members(es), 0, -1) == Members(es);
      forall m ensures m in Members(es) <==> exists e :: e in es && e.member == m {
        if e :| e in es && e.member == m {
          var i :| 0 <= i < |es| && es[i] == e;
          assert Members(es)[i] == m;
        }
        if m in Members(es) {
          var i :| 0 <= i < |es| && Members(es)[i] == m;
          assert es[i] in es;
        }
      }
    }
  }

  /** Of two listed members the first has the smaller score, or the same score and the
      smaller text. */
  predicate InScoreOrder(db: Db, key: string, i: nat, j: nat)
    requires i < j < |ZRange(db, key, 0, -1)|
  {
    var z, scores := ZRange(db, key, 0, -1), ScoresAt(db, key);
    && z[i] in scores && z[j] in scores
    && (scores[z[i]] < scores[z[j]] || (scores[z[i]] == scores[z[j]] && TextBefore(z[i], z[j])))
  }

  lemma ListingAscends(db: Db, key: string, i: nat, j: nat)
    requires HoldsZSet(db, key) && i < j < |ZRange(db, key, 0, -1)|
    ensures InScoreOrder(db, key, i, j)
  {
    var es := db[key].entries;
    assert Range(Members(es), 0, -1) == Members(es);
    SortedExact(es);
    ScoresExact(es);
    assert es[i] in es && es[j] in es;
  }

  /** After any history, ZRANGE lists the members of every list and every files list by
      ascending score, equal scores in the order of their texts. */
  lemma HistoryAscends(h: string -> nat, ops: seq<Op>, db: Db, key: string, t: NodeType)
    requires db == ExecAll(h, map[], ops)
    ensures forall i: nat, j: nat | i < j < |ZRange(db, ListKey(key), 0, -1)| :: InScoreOrder(db, ListKey(key), i, j)
    ensures forall i: nat, j: nat | i < j < |ZRange(db, FilesKey(key, t), 0, -1)| ::
              InScoreOrder(db, FilesKey(key, t), i, j)
  {
    StoreRefinesCatalogue(h, map[], EMPTY, ops);
    AllAscend(db, ListKey(key));
    AllAscend(db, FilesKey(key, t));
  }

  lemma AllAscend(db: Db, key: string)
    requires HoldsZSet(db, key)
    ensures forall i: nat, j: nat | i < j < |ZRange(db, key, 0, -1)| :: InScoreOrder(db, key, i, j)
  {
    forall i: nat, j: nat | i < j < |ZRange(db, key, 0, -1)| ensures InScoreOrder(db, key, i, j) {
      ListingAscends(db, key, i, j);
    }
  }

  // ------------------------------------------------------- undoing add_types

  /** add_types stores the key as given while rem_types removes its hash: the removal
      undoes the addition of a key that was not listed exactly when hashing leaves the key
      alone. For a key that is not all digits that means "root" or a menu name. */
  lemma RemTypesUndoesAddTypes(h: string -> nat, cat: Catalogue, parent: string, key: string, score: nat)
    requires key !in cat.ListOf(parent)
    ensures var cat' := Apply(h, Apply(h, cat, AddTypes(parent, key, score)), RemTypes(parent, key));
            && (cat'.ListOf(parent) == cat.ListOf(parent) <==> HashOf(h, key) == key)
            && (!AllDigits(key) ==> (cat'.ListOf(parent) == cat.ListOf(parent) <==> Kept(key)))
  {
    HashFixed(h, key);
    var added := cat.ListOf(parent)[key := score];
    if HashOf(h, key) == key {
      assert added - {key} == cat.ListOf(parent);
    } else {
      assert key in added - {HashOf(h, key)};
    }
  }

  /** The pair for the global lists does undo itself, for every key and type. */
  lemma RemNodesUndoesAddNodes(h: string -> nat, cat: Catalogue, t: NodeType, key: string, score: nat)
    requires key !in cat.ListOf(Str(t))
    ensures Apply(h, Apply(h, cat, AddNodes(t, key, score)), RemNodes(t, key)).ListOf(Str(t)) == cat.ListOf(Str(t))
  {
    assert cat.ListOf(Str(t))[key := score] - {key} == cat.ListOf(Str(t));
  }
}
