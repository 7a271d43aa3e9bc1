/** A client of Browse that climbs from an object to the root by parentID. */
module Navigation {
  import opened Redis
  import opened Didl
  import opened Browse

  /** Looking up the parentID that write emitted finds the stored parent again, except for
      the parents "" and "0". */
  lemma ParentRoundTrip(parent: string)
    ensures NormalId(ParentId(parent)) == parent <==> parent != "" && parent != "0"
  {
  }

  function MetadataRequest(id: string): Values {
    map["BrowseFlag" := "BrowseMetadata", "ObjectID" := id]
  }

  /** The reply shows one object, with this id and parentID. */
  predicate ShowsObject(reply: Reply, id: string, parentId: string) {
    && reply.Envelope? && |reply.objects| == 1 && |reply.objects[0].attrs| >= 2
    && reply.objects[0].attrs[0] == ("id", id) && reply.objects[0].attrs[1] == ("parentID", parentId)
  }

  /** Asking BrowseMetadata for id shows parentId as its parent. */
  predicate LeadsTo(db: Db, uri: string, read: Reader, id: string, parentId: string) {
    ShowsObject(BrowseReply(db, uri, read, MetadataRequest(id)), id, parentId)
  }

  /** parent and depth describe a tree at "root" made of whole nodes: a node's stored parent
      is one link closer to the root, whose own parent is empty. */
  ghost predicate Tree(read: Reader, parent: map<string, string>, depth: map<string, nat>) {
    forall k | k in depth ::
      && k != "" && k != "0" && k != "-1" && k in parent
      && Whole(read, k) && read(k)["parent"] == parent[k]
      && (if k == "root" then depth[k] == 0 && parent[k] == ""
          else parent[k] in depth && depth[k] == depth[parent[k]] + 1)
  }

  /** The id under which a client knows a node. */
  function ClientId(key: string): string {
    if key == "root" then "0" else key
  }

  lemma MetadataRequestFields(id: string)
    ensures var values := MetadataRequest(id);
            && NumberOr0(values, "StartingIndex") == Value(0)
            && NumberOr0(values, "RequestedCount") == Value(0)
            && FieldOr(values, "ObjectID") == id
            && "BrowseFlag" in values && values["BrowseFlag"] == "BrowseMetadata"
  {
  }

  lemma ReplyIsMetadata(db: Db, uri: string, read: Reader, id: string)
    ensures BrowseReply(db, uri, read, MetadataRequest(id)) == MetadataReply(db, uri, read, id)
  {
    MetadataRequestFields(id);
  }

  lemma MetadataShows(db: Db, uri: string, read: Reader, id: string)
    requires Whole(read, NormalId(id))
    ensures ShowsObject(MetadataReply(db, uri, read, id), id, ParentId(read(NormalId(id))["parent"]))
  {
  }

  lemma NodeLeadsToParent(db: Db, uri: string, read: Reader, parent: map<string, string>, depth: map<string, nat>,
                          key: string)
    requires Tree(read, parent, depth) && key in depth
    ensures LeadsTo(db, uri, read, ClientId(key), if key == "root" then "-1" else ClientId(parent[key]))
  {
    var id := ClientId(key);
    assert NormalId(id) == key;
    ReplyIsMetadata(db, uri, read, id);
    MetadataShows(db, uri, read, id);
    ParentRoundTrip(parent[key]);
  }

  /** A step a client can take, from one id to another. */
  type Way = (string, string) -> bool

  /** Following one parentID. */
  function ParentWay(db: Db, uri: string, read: Reader): Way {
    (id: string, parentId: string) => LeadsTo(db, uri, read, id, parentId)
  }

  /** Every id leads to the next. */
  predicate Climbs(way: Way, path: seq<string>) {
    forall i | 0 <= i < |path| - 1 :: way(path[i], path[i + 1])
  }

  lemma ClimbsCons(way: Way, id: string, rest: seq<string>)
    requires rest != [] && way(id, rest[0]) && Climbs(way, rest)
    ensures Climbs(way, [id] + rest)
  {
    var path := [id] + rest;
    forall i | 0 <= i < |path| - 1 ensures way(path[i], path[i + 1]) {
      if i > 0 { assert path[i] == rest[i - 1] && path[i + 1] == rest[i]; }
    }
  }

  /** From key one step leads one link closer to the root, or out of it. */
  predicate Linked(way: Way, parent: map<string, string>, depth: map<string, nat>, key: string) {
    && key in depth && key in parent
    && if key == "root" then depth[key] == 0 && way("0", "-1")
       else parent[key] in depth && depth[key] == depth[parent[key]] + 1 && way(key, ClientId(parent[key]))
  }

  lemma TreeLink(db: Db, uri: string, read: Reader, parent: map<string, string>, depth: map<string, nat>, key: string)
    requires Tree(read, parent, depth) && key in depth
    ensures Linked(ParentWay(db, uri, read), parent, depth, key)
  {
    NodeLeadsToParent(db, uri, read, parent, depth, key);
  }

  lemma {:induction false} LinksClimb(way: Way, parent: map<string, string>, depth: map<string, nat>, key: string)
    returns (path: seq<string>)
    requires forall k | k in depth :: Linked(way, parent, depth, k)
    requires key in depth
    ensures |path| == depth[key] + 2 && path[0] == ClientId(key)
    ensures Climbs(way, path)
    ensures path[|path| - 2] == "0" && path[|path| - 1] == "-1"
    decreases depth[key]
  {
    assert Linked(way, parent, depth, key);
    if key == "root" {
      path := ["0", "-1"];
    } else {
      var rest := LinksClimb(way, parent, depth, parent[key]);
      ClimbsCons(way, ClientId(key), rest);
      path := [ClientId(key)] + rest;
    }
  }

  /** Parent navigation. From any object of the tree, following the parentID of one
      BrowseMetadata reply after the other takes depth + 1 steps, to "0" and then "-1". */
  lemma ClimbReachesRoot(db: Db, uri: string, read: Reader, parent: map<string, string>,
                         depth: map<string, nat>, key: string) returns (path: seq<string>)
    requires Tree(read, parent, depth) && key in depth
    ensures |path| == depth[key] + 2 && path[0] == ClientId(key)
    ensures Climbs(ParentWay(db, uri, read), path)
    ensures path[|path| - 2] == "0" && path[|path| - 1] == "-1"
  {
    var way := ParentWay(db, uri, read);
    forall k | k in depth ensures Linked(way, parent, depth, k) { TreeLink(db, uri, read, parent, depth, k); }
    path := LinksClimb(way, parent, depth, key);
  }

  lemma {:induction false} OneWay(way: Way, a: seq<string>, b: seq<string>)
    requires forall x, y, z :: way(x, y) && way(x, z) ==> y == z
    requires Climbs(way, a) && Climbs(way, b)
    requires a != [] && |a| == |b| && a[0] == b[0]
    ensures a == b
  {
    if |a| > 1 {
      OneWay(way, a[..|a| - 1], b[..|b| - 1]);
      var n := |a| - 2;
      assert a[..|a| - 1][n] == b[..|b| - 1][n];
      assert way(a[n], a[n + 1]) && way(b[n], b[n + 1]);
      assert a == a[..|a| - 1] + [a[n + 1]] && b == b[..|b| - 1] + [b[n + 1]];
    }
  }

  lemma ParentIsOne(db: Db, uri: string, read: Reader, x: string, y: string, z: string)
    requires LeadsTo(db, uri, read, x, y) && LeadsTo(db, uri, read, x, z)
    ensures y == z
  {
  }

  /** And there is no other way up: an id leads to one parentID only. */
  lemma ClimbUnique(db: Db, uri: string, read: Reader, a: seq<string>, b: seq<string>)
    requires Climbs(ParentWay(db, uri, read), a) && Climbs(ParentWay(db, uri, read), b)
    requires a != [] && |a| == |b| && a[0] == b[0]
    ensures a == b
  {
    var way := ParentWay(db, uri, read);
    forall x, y, z | way(x, y) && way(x, z) ensures y == z { ParentIsOne(db, uri, read, x, y, z); }
    OneWay(way, a, b);
  }
}
