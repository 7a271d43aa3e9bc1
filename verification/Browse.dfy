/** The Browse action of src/server.cpp: from the text of the request to the objects and
    the two counts of the response (ContentDirectory:1, section 2.7.4). */
module Browse {
  import opened Text
  import opened Keys
  import opened Redis
  import opened Datastore
  import opened Didl

  // ---------------------------------------------------------------- std::stoi

  datatype Number = Value(i: int) | InvalidArgument | TooLarge

  /** Spaces, a sign, at least one digit; whatever follows the digits is ignored. */
  function Stoi(s: string): Number {
    var t := SkipSpaces(s);
    var signed := t != "" && (t[0] == '-' || t[0] == '+');
    var d := LeadingDigits(if signed then t[1..] else t);
    if d == "" then InvalidArgument
    else
      var v := if signed && t[0] == '-' then -(DigitsValue(d) as int) else DigitsValue(d);
      if FitsInt(v) then Value(v) else TooLarge
  }

  lemma StoiOfDecimal(n: nat)
    requires n <= INT_MAX
    ensures Stoi(Decimal(n)) == Value(n)
  {
    DecimalReadsBack(n);
    var d := Decimal(n);
    assert IsDigit(d[0]);
    LeadingDigitsAll(d);
  }

  // ------------------------------------------------------------------ request

  type Values = map<string, string>

  function FieldOr(values: Values, name: string): string {
    if name in values then values[name] else ""
  }

  function NumberOr0(values: Values, name: string): Number {
    if name in values then Stoi(values[name]) else Value(0)
  }

  /** The id Browse looks up for a requested ObjectID. */
  function NormalId(id: string): string {
    if id == "" || id == "0" then "root" else id
  }

  /** NumberReturned and TotalMatches beside the objects; no body for an unknown flag; an
      exception out of the handler; undefined where the window arithmetic overflows. */
  datatype Reply = Envelope(objects: seq<Xml>, number: nat, total: nat) | NoBody | Exception | Undefined

  /** How the node of a key is read. */
  type Reader = string -> Node

  /** data::node on a store. */
  function Reads(db: Db): Reader {
    (key: string) => StoredNode(db, key)
  }

  /** What writing the node of a key does. */
  type Writer = string -> Outcome

  /** Reading a node and passing it to Didl::write. */
  function Writes(db: Db, uri: string, read: Reader): Writer {
    (key: string) => WriteOutcome(db, uri, key, read(key))
  }

  /** The objects written for a list of keys, None when a write throws. */
  function WriteAll(write: Writer, keys: seq<string>): Option<seq<Xml>> {
    if keys == [] then Some([])
    else
      match WriteAll(write, keys[..|keys| - 1])
      case None => None
      case Some(xs) =>
        match write(keys[|keys| - 1])
        case Skipped => Some(xs)
        case Written(x) => Some(xs + [x])
        case Missing => None
  }

  function MetadataReply(db: Db, uri: string, read: Reader, id: string): Reply {
    match WriteOutcome(db, uri, id, read(NormalId(id)))
    case Skipped => Envelope([], 1, 1)
    case Written(x) => Envelope([x], 1, 1)
    case Missing => Exception
  }

  predicate IsAlbum(db: Db, key: string) {
    ParseType(Get(db, key, "cls")) == Album
  }

  /** The keys a window selects: the audio files of an album, the sorted children else. */
  function WindowKeys(db: Db, key: string, index: int, stop: int): seq<string> {
    if IsAlbum(db, key) then Files(db, key, Audio, index, stop) else Children(db, key, index, stop)
  }

  function ChildrenOf(db: Db, uri: string, read: Reader, key: string, index: int, count: int): Reply {
    match Stop(index, count)
    case None => Undefined
    case Some(stop) =>
      match WriteAll(Writes(db, uri, read), WindowKeys(db, key, index, stop))
      case None => Exception
      case Some(xs) => Envelope(xs, |xs|, ChildrenCount(db, key))
  }

  function ChildrenReply(db: Db, uri: string, read: Reader, id: string, index: int, count: int): Reply {
    ChildrenOf(db, uri, read, NormalId(id), index, count)
  }

  /** RequestedCount 0 becomes -1. */
  function Count(requested: int): int {
    if requested == 0 then -1 else requested
  }

  function BrowseReply(db: Db, uri: string, read: Reader, values: Values): Reply {
    var index, count := NumberOr0(values, "StartingIndex"), NumberOr0(values, "RequestedCount");
    if !index.Value? || !count.Value? then Exception
    else
      var id := FieldOr(values, "ObjectID");
      if "BrowseFlag" in values && values["BrowseFlag"] == "BrowseMetadata" then MetadataReply(db, uri, read, id)
      else if "BrowseFlag" in values && values["BrowseFlag"] == "BrowseDirectChildren" then
        ChildrenReply(db, uri, read, id, index.i, Count(count.i))
      else NoBody
  }

  /** The handler on a store: it rewrites count and id, then drives the document key by
      key. */
  class Server {
    const db: Db
    const uri: string
    const read: Reader

    constructor (db: Db, uri: string)
      ensures this.db == db && this.uri == uri && read == Reads(db)
    {
      this.db, this.uri, read := db, uri, Reads(db);
    }

    method BrowseAction(values: Values) returns (reply: Reply)
      ensures reply == BrowseReply(db, uri, read, values)
    {
      var start, requested := NumberOr0(values, "StartingIndex"), NumberOr0(values, "RequestedCount");
      if !start.Value? || !requested.Value? { return Exception; }
      var index, count := start.i, requested.i;
      if count == 0 { count := -1; }
      var id := FieldOr(values, "ObjectID");
      if id == "" || id == "0" { id := "root"; }
      if "BrowseFlag" in values && values["BrowseFlag"] == "BrowseMetadata" {
        reply := ShowObject(id, FieldOr(values, "ObjectID"));
      } else if "BrowseFlag" in values && values["BrowseFlag"] == "BrowseDirectChildren" {
        reply := ShowChildren(id, index, count);
      } else {
        reply := NoBody;
      }
    }

    /** The branch for BrowseMetadata: id is looked up, but the object is written under the
        id as requested. */
    method ShowObject(id: string, requested: string) returns (reply: Reply)
      requires id == NormalId(requested)
      ensures reply == MetadataReply(db, uri, read, requested)
    {
      var didl := new Document(uri);
      var ok := didl.Write(db, requested, read(id));
      if !ok { return Exception; }
      return Envelope(didl.objects, 1, 1);
    }

    /** The branch for BrowseDirectChildren. */
    method ShowChildren(id: string, index: int, count: int) returns (reply: Reply)
      ensures reply == ChildrenOf(db, uri, read, id, index, count)
    {
      var didl := new Document(uri);
      var stop := Stop(index, count);
      if stop.None? { return Undefined; }
      var keys: seq<string>;
      if IsAlbum(db, id) {
        keys := Files(db, id, Audio, index, stop.value);
      } else {
        keys := Children(db, id, index, stop.value);
      }
      assert keys == WindowKeys(db, id, index, stop.value);
      var ok := WriteKeys(didl, keys);
      if !ok { return Exception; }
      return Envelope(didl.objects, didl.result, ChildrenCount(db, id));
    }

    /** The callback of data::children and data::files, called for one key after the other. */
    method WriteKeys(didl: Document, keys: seq<string>) returns (ok: bool)
      requires didl.uri == uri && didl.Valid() && didl.objects == []
      modifies didl
      ensures ok == WriteAll(Writes(db, uri, read), keys).Some?
      ensures ok ==> didl.Valid() && didl.objects == WriteAll(Writes(db, uri, read), keys).value
    {
      ghost var write := Writes(db, uri, read);
      for i := 0 to |keys|
        invariant didl.Valid() && WriteAll(write, keys[..i]) == Some(didl.objects)
      {
        WriteAllStep(write, keys, i, didl.objects);
        ok := WriteKey(didl, keys[i]);
        if !ok {
          WriteAllPrefix(write, keys, i + 1);
          return false;
        }
      }
      assert keys[..|keys|] == keys;
      return true;
    }

    method WriteKey(didl: Document, key: string) returns (ok: bool)
      requires didl.uri == uri && didl.Valid()
      modifies didl
      ensures var outcome := Writes(db, uri, read)(key);
              && ok == !outcome.Missing?
              && (ok ==> didl.Valid() && didl.objects == old(didl.objects) + Objects(outcome))
    {
      ok := didl.Write(db, key, read(key));
    }
  }

  /** The objects an outcome adds to the document. */
  function Objects(outcome: Outcome): seq<Xml> {
    match outcome
    case Written(x) => [x]
    case _ => []
  }

  lemma WriteAllStep(write: Writer, keys: seq<string>, i: nat, xs: seq<Xml>)
    requires i < |keys| && WriteAll(write, keys[..i]) == Some(xs)
    ensures WriteAll(write, keys[..i + 1]) ==
            if write(keys[i]).Missing? then None else Some(xs + Objects(write(keys[i])))
  {
    assert keys[..i + 1][..i] == keys[..i];
    assert xs + [] == xs;
  }

  lemma {:induction false} WriteAllPrefix(write: Writer, keys: seq<string>, i: nat)
    requires i <= |keys| && WriteAll(write, keys[..i]).None?
    ensures WriteAll(write, keys).None?
  {
    if i == |keys| {
      assert keys[..i] == keys;
    } else {
      assert keys[..|keys| - 1][..i] == keys[..i];
      WriteAllPrefix(write, keys[..|keys| - 1], i);
    }
  }

  // --------------------------------------------------------- requests by text

  /** What Browse looks up, and what a client is shown as parent. */
  lemma IdTexts(id: string)
    ensures NormalId("") == "root" && NormalId("0") == "root"
    ensures id != "" && id != "0" ==> NormalId(id) == id
    ensures ParentId("") == "-1" && ParentId("root") == "0"
    ensures id != "" && id != "root" ==> ParentId(id) == id
  {
  }

  lemma StoiParts(s: string, t: string, sign: string, digits: string, rest: string)
    requires SkipSpaces(s) == t && t == sign + digits + rest
    requires sign == "" || sign == "+" || sign == "-"
    requires digits != "" && AllDigits(digits) && LeadingDigits(digits + rest) == digits
    ensures var v: int := if sign == "-" then -(DigitsValue(digits) as int) else DigitsValue(digits);
            Stoi(s) == if FitsInt(v) then Value(v) else TooLarge
  {
    assert IsDigit(digits[0]);
    if sign == "" {
      assert t == digits + rest && t[0] == digits[0];
    } else {
      assert t[0] == sign[0] && t[1..] == digits + rest;
    }
  }

  /** The number of a text: white space, a sign, digits, and anything that does not begin
      with a digit; refused where an int is too small for it. */
  lemma StoiExact(s: string, spaces: string, sign: string, digits: string, rest: string)
    requires s == spaces + sign + digits + rest && forall c | c in spaces :: White(c)
    requires sign == "" || sign == "+" || sign == "-"
    requires digits != "" && AllDigits(digits)
    requires rest == "" || rest[0] !in "0123456789"
    ensures var v: int := if sign == "-" then -(DigitsValue(digits) as int) else DigitsValue(digits);
            Stoi(s) == if -2147483648 <= v <= 2147483647 then Value(v) else TooLarge
  {
    var tail := sign + digits + rest;
    assert s == spaces + tail;
    DigitsStop(spaces, tail, sign, digits, rest);
    StoiParts(s, tail, sign, digits, rest);
  }

  /** The last index of a window, by the bounds of an int. */
  lemma StopExact(index: int, count: int)
    ensures Stop(index, count) ==
            if -2147483648 <= index + count - 1 && index + count <= 2147483647 then Some(index + count - 1) else None
  {
  }

  /** The dispatch by the texts of the request: the two flags, the defaults of the numbers,
      the id, and RequestedCount 0. */
  lemma DispatchTexts(db: Db, uri: string, read: Reader, values: Values, id: string, index: Number, count: Number)
    requires id == if "ObjectID" in values then values["ObjectID"] else ""
    requires index == if "StartingIndex" in values then Stoi(values["StartingIndex"]) else Value(0)
    requires count == if "RequestedCount" in values then Stoi(values["RequestedCount"]) else Value(0)
    ensures !index.Value? || !count.Value? ==> BrowseReply(db, uri, read, values) == Exception
    ensures index.Value? && count.Value? ==>
              BrowseReply(db, uri, read, values) ==
              if "BrowseFlag" !in values then NoBody
              else if values["BrowseFlag"] == "BrowseMetadata" then MetadataReply(db, uri, read, id)
              else if values["BrowseFlag"] == "BrowseDirectChildren" then
                ChildrenReply(db, uri, read, id, index.i, if count.i == 0 then -1 else count.i)
              else NoBody
  {
  }

  // --------------------------------------------------------------- accounting

  function Id(x: Xml): string {
    if x.attrs == [] then "" else x.attrs[0].1
  }

  function Ids(xs: seq<Xml>): seq<string> {
    seq(|xs|, i requires 0 <= i < |xs| => Id(xs[i]))
  }

  predicate HasClass(read: Reader, key: string) {
    "cls" in read(key)
  }

  /** The keys whose node has a class, in order. */
  function Classed(read: Reader, keys: seq<string>): (r: seq<string>)
    ensures |r| <= |keys|
  {
    if keys == [] then []
    else
      var rest := Classed(read, keys[..|keys| - 1]);
      if HasClass(read, keys[|keys| - 1]) then rest + [keys[|keys| - 1]] else rest
  }

  /** Writing the node of key does not throw: without a class it is skipped, and with one no
      field that write needs is missing. */
  predicate Writable(read: Reader, key: string) {
    HasClass(read, key) ==> Complete(ParseType(read(key)["cls"]), read(key))
  }

  predicate AllWritable(read: Reader, keys: seq<string>) {
    forall i | 0 <= i < |keys| :: Writable(read, keys[i])
  }

  /** Writing follows the node: what is written for a key has it as its id. */
  predicate Faithful(write: Writer, read: Reader, key: string) {
    match write(key)
    case Skipped => !HasClass(read, key)
    case Written(x) => HasClass(read, key) && Writable(read, key) && Id(x) == key
    case Missing => !Writable(read, key)
  }

  lemma WritesFaithfully(db: Db, uri: string, read: Reader, key: string)
    ensures Faithful(Writes(db, uri, read), read, key)
  {
  }

  lemma WritableSnoc(read: Reader, keys: seq<string>)
    requires keys != []
    ensures AllWritable(read, keys) <==> AllWritable(read, keys[..|keys| - 1]) && Writable(read, keys[|keys| - 1])
  {
  }

  /** The objects are what is written for the keys, one for each and in their order. */
  predicate WrittenFor(write: Writer, keys: seq<string>, xs: seq<Xml>) {
    |xs| == |keys| && forall i | 0 <= i < |xs| :: write(keys[i]) == Written(xs[i])
  }

  lemma {:induction false} FaithfulAll(write: Writer, read: Reader, keys: seq<string>)
    requires forall key :: Faithful(write, read, key)
    ensures WriteAll(write, keys).Some? <==> AllWritable(read, keys)
    ensures WriteAll(write, keys).Some? ==> Ids(WriteAll(write, keys).value) == Classed(read, keys)
    ensures WriteAll(write, keys).Some? ==> WrittenFor(write, Classed(read, keys), WriteAll(write, keys).value)
  {
    if keys != [] {
      var key, before := keys[|keys| - 1], keys[..|keys| - 1];
      FaithfulAll(write, read, before);
      WritableSnoc(read, keys);
      assert Faithful(write, read, key);
      if WriteAll(write, before).Some? && write(key).Written? {
        var xs := WriteAll(write, before).value;
        assert Ids(xs + [write(key).element]) == Ids(xs) + [key];
      }
    }
  }

  /** Keys are written exactly when every one of them can be, and then the objects are those
      of the keys whose node has a class. */
  lemma WriteAllExact(db: Db, uri: string, read: Reader, keys: seq<string>)
    ensures var written := WriteAll(Writes(db, uri, read), keys);
            && (written.Some? <==> AllWritable(read, keys))
            && (written.Some? ==>
                  && Ids(written.value) == Classed(read, keys)
                  && WrittenFor(Writes(db, uri, read), Classed(read, keys), written.value))
  {
    var write := Writes(db, uri, read);
    forall key ensures Faithful(write, read, key) { WritesFaithfully(db, uri, read, key); }
    FaithfulAll(write, read, keys);
  }

  lemma RangeShorter<T>(s: seq<T>, start: int, stop: int)
    ensures |Range(s, start, stop)| <= |s|
  {
  }

  /** Browse accounting: a window is answered exactly when every node in it can be written.
      Then the objects are those of the window keys whose node has a class, in window order,
      NumberReturned counts them, and TotalMatches counts the child list. So NumberReturned
      cannot exceed TotalMatches for a container that is no album, whose sorted list permutes
      its children; an album is bounded by its audio files, which TotalMatches ignores. */
  lemma BrowseAccounting(db: Db, uri: string, read: Reader, id: string, index: int, count: int, stop: int)
    requires Stop(index, count) == Some(stop)
    ensures var key := NormalId(id);
            var keys := WindowKeys(db, key, index, stop);
            var reply := ChildrenReply(db, uri, read, id, index, count);
            && (if AllWritable(read, keys) then reply.Envelope? else reply == Exception)
            && (reply.Envelope? ==>
                  && Ids(reply.objects) == Classed(read, keys)
                  && WrittenFor(Writes(db, uri, read), Classed(read, keys), reply.objects)
                  && reply.number == |reply.objects|
                  && reply.total == ChildrenCount(db, key)
                  && (!IsAlbum(db, key) && Permutes(db, key) ==> reply.number <= reply.total)
                  && (IsAlbum(db, key) ==> reply.number <= ZCard(db, FilesKey(key, Audio))))
  {
    var key := NormalId(id);
    var keys := WindowKeys(db, key, index, stop);
    WriteAllExact(db, uri, read, keys);
    if AllWritable(read, keys) {
      var xs := WriteAll(Writes(db, uri, read), keys).value;
      assert |xs| == |Ids(xs)|;
      WindowBound(db, key, index, stop);
    }
  }

  lemma WindowBound(db: Db, key: string, index: int, stop: int)
    ensures !IsAlbum(db, key) && Permutes(db, key) ==> |WindowKeys(db, key, index, stop)| <= ChildrenCount(db, key)
    ensures IsAlbum(db, key) ==> |WindowKeys(db, key, index, stop)| <= ZCard(db, FilesKey(key, Audio))
  {
    if !IsAlbum(db, key) && Permutes(db, key) {
      var sortKey, listKey := SortKey(key, "alpha", "asc"), ListKey(key);
      RangeShorter(db[sortKey].items, index, stop);
      assert |multiset(db[sortKey].items)| == |db[sortKey].items|;
      assert |multiset(Members(db[listKey].entries))| == |db[listKey].entries|;
    }
    if IsAlbum(db, key) {
      var k := FilesKey(key, Audio);
      if k in db && db[k].ZSet? { RangeShorter(Members(db[k].entries), index, stop); }
    }
  }

  /** The sorted list is a permutation of the child set. */
  predicate Permutes(db: Db, key: string) {
    && SortKey(key, "alpha", "asc") in db && db[SortKey(key, "alpha", "asc")].List?
    && ListKey(key) in db && db[ListKey(key)].ZSet?
    && multiset(db[SortKey(key, "alpha", "asc")].items) == multiset(Members(db[ListKey(key)].entries))
  }

  /** BrowseMetadata reports 1 of 1 whatever it wrote: the count is right exactly when the
      node has a class. Its childCount is the one of the id as requested, so for the root
      asked for as "0" or "" it is right exactly when both lists are of one size. */
  lemma MetadataAccounting(db: Db, uri: string, read: Reader, id: string)
    requires MetadataReply(db, uri, read, id).Envelope?
    ensures var reply := MetadataReply(db, uri, read, id);
            && reply.number == 1 && reply.total == 1
            && (reply.number == |reply.objects| <==> HasClass(read, NormalId(id)))
            && (reply.objects != [] ==>
                  && WriteOutcome(db, uri, id, read(NormalId(id))) == Written(reply.objects[0])
                  && Id(reply.objects[0]) == id
                  && |reply.objects[0].attrs| == 4
                  && (reply.objects[0].attrs[3] == ("childCount", Decimal(ChildrenCount(db, NormalId(id)))) <==>
                      ChildrenCount(db, id) == ChildrenCount(db, NormalId(id))))
  {
    DecimalReadsBack(ChildrenCount(db, id));
    DecimalReadsBack(ChildrenCount(db, NormalId(id)));
  }

  // ------------------------------------------------------------- whole nodes

  /** The node of key has a class, and no field write needs is missing. */
  predicate Whole(read: Reader, key: string) {
    HasClass(read, key) && Complete(ParseType(read(key)["cls"]), read(key))
  }

  /** What a reader of the store finds is the stored hash, so a node has a class, is whole
      and can be written exactly when the hash says so. */
  lemma WholeExact(db: Db, key: string)
    ensures var m := HashAt(db, NodeKey(key));
            && Reads(db)(key) == m
            && (HasClass(Reads(db), key) <==> "cls" in m)
            && (Whole(Reads(db), key) <==> "cls" in m && Complete(ParseType(m["cls"]), m))
            && (Writable(Reads(db), key) <==> ("cls" in m ==> Complete(ParseType(m["cls"]), m)))
  {
    StoredNodeExact(db, key);
  }
}
