/** struct data of src/datastore.h: what its operations do to Redis, and how a stored
    node is read back. */
module Datastore {
  import opened Text
  import opened StdMap
  import opened Keys
  import opened Redis

  type Node = map<string, string>

  // ---------------------------------------------------------- reading a node

  /** to_map: the map of a flat list of names and values; None where the assertion on the
      size of the list fails. The ++++i of its loop moves by two. */
  method ToMap(pairs: seq<string>) returns (r: Option<Node>)
    ensures r == if |pairs| % 2 == 0 then Some(PairsToMap(pairs)) else None
  {
    if |pairs| % 2 != 0 { return None; }
    var m: Node := map[];
    var i := 0;
    while i < |pairs|
      invariant 0 <= i <= |pairs| && i % 2 == 0 && m == PairsToMap(pairs[..i])
    {
      assert pairs[..i + 2][..i] == pairs[..i];
      m := m[pairs[i] := pairs[i + 1]];
      i := i + 2;
    }
    assert pairs[..i] == pairs;
    return Some(m);
  }

  /** The fields of m that are listed. */
  function Pick(names: seq<string>, m: Node): Node
    requires forall n | n in names :: n in m
  {
    map n | n in names :: m[n]
  }

  lemma PickSnoc(names: seq<string>, m: Node, i: nat)
    requires (forall n | n in names :: n in m) && i < |names|
    ensures Pick(names[..i], m)[names[i] := m[names[i]]] == Pick(names[..i + 1], m)
  {
    assert names[..i + 1] == names[..i] + [names[i]];
  }

  lemma {:induction false} FlattenSnoc(names: seq<string>, n: string, m: Node)
    requires n in m && forall x | x in names :: x in m
    ensures Flatten(names + [n], m) == Flatten(names, m) + [n, m[n]]
  {
    if names == [] {
      assert [n][1..] == [] && [] + [n] == [n];
      assert Flatten([n], m) == [n, m[n]] + Flatten([], m);
    } else {
      assert (names + [n])[1..] == names[1..] + [n];
      FlattenSnoc(names[1..], n, m);
    }
  }

  lemma {:induction false} FlattenIsMap(names: seq<string>, m: Node)
    requires forall n | n in names :: n in m
    ensures PairsToMap(Flatten(names, m)) == Pick(names, m)
    decreases |names|
  {
    if names != [] {
      var init, last := names[..|names| - 1], names[|names| - 1];
      assert names == init + [last];
      FlattenSnoc(init, last, m);
      FlattenIsMap(init, m);
      var f := Flatten(names, m);
      assert f[..|f| - 2] == Flatten(init, m);
      PickSnoc(names, m, |names| - 1);
      assert names[..|names|] == names;
    }
  }

  /** Whatever order the fields of a hash come back in, to_map returns the hash. */
  lemma DecodesEveryOrder(names: seq<string>, m: Node)
    requires forall n :: n in names <==> n in m
    ensures PairsToMap(Flatten(names, m)) == m
  {
    FlattenIsMap(names, m);
    assert Pick(names, m) == m;
  }

  /** data::node: HGETALL, an empty map when the command fails. */
  function StoredNode(db: Db, key: string): Node {
    match HGetAll(db, NodeKey(key))
    case Some(reply) => PairsToMap(reply)
    case None => map[]
  }

  /** The hash stored for a node, empty when there is none. */
  function HashAt(db: Db, key: string): Node {
    if key in db && db[key].Hash? then db[key].fields else map[]
  }

  lemma StoredNodeExact(db: Db, key: string)
    ensures StoredNode(db, key) == HashAt(db, NodeKey(key))
  {
    var k := NodeKey(key);
    if k in db && db[k].Hash? {
      var names := SortedKeys(db[k].fields.Keys);
      assert forall n :: n in names <==> n in db[k].fields;
      DecodesEveryOrder(names, db[k].fields);
    }
  }

  /** data::get: HGET, empty text when the command fails. */
  function Get(db: Db, key: string, param: string): string {
    match HGet(db, NodeKey(key), param)
    case Some(v) => v
    case None => ""
  }

  lemma GetAgreesWithNode(db: Db, key: string, param: string)
    ensures var m := HashAt(db, NodeKey(key));
            StoredNode(db, key) == m && Get(db, key, param) == if param in m then m[param] else ""
  {
    StoredNodeExact(db, key);
  }

  // -------------------------------------------------------------- operations

  datatype Op =
    | Save(key: string, node: Node)
    | SetField(key: string, param: string, value: string)
    | AddTypes(parent: string, key: string, score: nat)
    | RemTypes(parent: string, key: string)
    | AddNodes(nodeType: NodeType, key: string, score: nat)
    | RemNodes(nodeType: NodeType, key: string)
    | AddFiles(parent: string, nodeType: NodeType, key: string, score: nat)
    | RemFiles(parent: string, nodeType: NodeType, key: string)

  /** The fields of a node, flat, in the order of the map. */
  function Listing(node: Node): seq<string> {
    Flatten(SortedKeys(node.Keys), node)
  }

  /** The Redis command each operation issues. */
  function Exec(h: string -> nat, db: Db, op: Op): Db {
    match op
    case Save(key, node) => HMSet(db, NodeKey(key), Listing(node))
    case SetField(key, param, value) => HMSet(db, NodeKey(key), [param, value])
    case AddTypes(parent, key, score) => ZAdd(db, ListKey(parent), score, key)
    case RemTypes(parent, key) => ZRem(db, ListKey(parent), HashOf(h, key))
    case AddNodes(t, key, score) => ZAdd(db, TypeListKey(t), score, key)
    case RemNodes(t, key) => ZRem(db, TypeListKey(t), key)
    case AddFiles(parent, t, key, score) => ZAdd(db, FilesKey(parent, t), score, key)
    case RemFiles(parent, t, key) => ZRem(db, FilesKey(parent, t), key)
  }

  function ExecAll(h: string -> nat, db: Db, ops: seq<Op>): Db {
    if ops == [] then db else Exec(h, ExecAll(h, db, ops[..|ops| - 1]), ops[|ops| - 1])
  }

  /** The store object: each operation issues its command on the database it holds. */
  class Store {
    var db: Db
    const h: string -> nat

    constructor (db: Db, h: string -> nat)
      ensures this.db == db && this.h == h
    {
      this.db := db;
      this.h := h;
    }

    /** The command is collected field by field in the order of the map. */
    method SaveNode(key: string, node: Node)
      modifies this`db
      ensures db == Exec(h, old(db), Save(key, node))
    {
      var command: seq<string> := [];
      var names := SortedKeys(node.Keys);
      for i := 0 to |names|
        invariant command == Flatten(names[..i], node)
        invariant db == old(db)
      {
        FlattenSnoc(names[..i], names[i], node);
        assert names[..i + 1] == names[..i] + [names[i]];
        command := command + [names[i]];
        command := command + [node[names[i]]];
      }
      assert names[..|names|] == names;
      assert command == Listing(node);
      db := HMSet(db, NodeKey(key), command);
    }

    method SetNodeField(key: string, param: string, value: string)
      modifies this`db
      ensures db == Exec(h, old(db), SetField(key, param, value))
    {
      db := HMSet(db, NodeKey(key), [param, value]);
    }

    method AddToTypes(parent: string, key: string, score: nat)
      modifies this`db
      ensures db == Exec(h, old(db), AddTypes(parent, key, score))
    {
      db := ZAdd(db, ListKey(parent), score, key);
    }

    method RemoveFromTypes(parent: string, key: string)
      modifies this`db
      ensures db == Exec(h, old(db), RemTypes(parent, key))
    {
      db := ZRem(db, ListKey(parent), HashOf(h, key));
    }

    method AddToNodes(t: NodeType, key: string, score: nat)
      modifies this`db
      ensures db == Exec(h, old(db), AddNodes(t, key, score))
    {
      db := ZAdd(db, TypeListKey(t), score, key);
    }

    method RemoveFromNodes(t: NodeType, key: string)
      modifies this`db
      ensures db == Exec(h, old(db), RemNodes(t, key))
    {
      db := ZRem(db, TypeListKey(t), key);
    }

    method AddToFiles(parent: string, t: NodeType, key: string, score: nat)
      modifies this`db
      ensures db == Exec(h, old(db), AddFiles(parent, t, key, score))
    {
      db := ZAdd(db, FilesKey(parent, t), score, key);
    }

    method RemoveFromFiles(parent: string, t: NodeType, key: string)
      modifies this`db
      ensures db == Exec(h, old(db), RemFiles(parent, t, key))
    {
      db := ZRem(db, FilesKey(parent, t), key);
    }
  }

  // ----------------------------------------------------------------- windows

  const INT_MIN := -0x8000_0000
  const INT_MAX := 0x7FFF_FFFF

  predicate FitsInt(i: int) {
    INT_MIN <= i <= INT_MAX
  }

  /** index + count - 1 in an int; None where the signed addition overflows, which the
      language leaves undefined. */
  function Stop(index: int, count: int): Option<int> {
    if FitsInt(index + count) && FitsInt(index + count - 1) then Some(index + count - 1) else None
  }

  /** data::children with sort alpha, order asc and no filter, as Browse calls it. */
  function Children(db: Db, key: string, index: int, stop: int): seq<string> {
    LRange(db, SortKey(key, "alpha", "asc"), index, stop)
  }

  function Files(db: Db, key: string, t: NodeType, index: int, stop: int): seq<string> {
    ZRange(db, FilesKey(key, t), index, stop)
  }

  function ChildrenCount(db: Db, key: string): nat {
    ZCard(db, ListKey(key))
  }

  /** A positive count from a non-negative index selects index .. index + count. */
  lemma WindowExact<T>(s: seq<T>, index: nat, count: int)
    requires count > 0
    ensures var lo := if index < |s| then index else |s|;
            var hi := if index + count < |s| then index + count else |s|;
            Range(s, index, index + count - 1) == s[lo..hi]
  {
  }

  /** RequestedCount 0 becomes -1, hence the stop index - 2: this is the rest of the list
      exactly when the index is 1 or lies at or past the end. From index 0 the last entry
      is missing, from index 2 on nothing is selected. */
  lemma BrowseAllExact<T>(s: seq<T>, index: nat)
    ensures Range(s, index, index + -1 - 1) == (if index < |s| then s[index..] else []) <==>
            index == 1 || |s| <= index
    ensures index == 0 && s != [] ==> Range(s, 0, -2) == s[..|s| - 1]
    ensures index >= 2 ==> Range(s, index, index - 2) == []
  {
    if index == 0 && s != [] {
      assert |Range(s, 0, -2)| == |s| - 1;
      assert s[0..] == s;
    } else if index >= 2 && index < |s| {
      assert |s[index..]| > 0;
    }
  }
}
