/** A client of Browse that pages through a container. */
module Paging {
  import opened Text
  import opened Keys
  import opened Redis
  import opened Datastore
  import opened Didl
  import opened Browse

  // ------------------------------------------------------------------ paging

  /** The request for count children from index on. */
  function PageRequest(id: string, index: nat, count: nat): Values {
    map["BrowseFlag" := "BrowseDirectChildren", "ObjectID" := id,
        "StartingIndex" := Decimal(index), "RequestedCount" := Decimal(count)]
  }

  /** The whole list Browse takes its windows from. */
  function Listed(db: Db, key: string): seq<string> {
    if IsAlbum(db, key) then
      var k := FilesKey(key, Audio);
      if k in db && db[k].ZSet? then Members(db[k].entries) else []
    else
      var k := SortKey(key, "alpha", "asc");
      if k in db && db[k].List? then db[k].items else []
  }

  lemma RangeOfNothing(start: int, stop: int)
    ensures Range<string>([], start, stop) == []
  {
  }

  lemma WindowOfListed(db: Db, key: string, index: int, stop: int)
    ensures WindowKeys(db, key, index, stop) == Range(Listed(db, key), index, stop)
  {
    RangeOfNothing(index, stop);
  }

  lemma RequestNumbers(id: string, index: nat, count: nat)
    requires index <= INT_MAX && count <= INT_MAX
    ensures var values := PageRequest(id, index, count);
            && NumberOr0(values, "StartingIndex") == Value(index)
            && NumberOr0(values, "RequestedCount") == Value(count)
            && FieldOr(values, "ObjectID") == id
            && "BrowseFlag" in values && values["BrowseFlag"] == "BrowseDirectChildren"
  {
    StoiOfDecimal(index);
    StoiOfDecimal(count);
  }

  /** The text of the request carries its two numbers. */
  lemma RequestIsWindow(db: Db, uri: string, read: Reader, id: string, index: nat, count: nat)
    requires index <= INT_MAX && 0 < count <= INT_MAX
    ensures BrowseReply(db, uri, read, PageRequest(id, index, count)) ==
            ChildrenReply(db, uri, read, id, index, count)
  {
    RequestNumbers(id, index, count);
  }

  /** The entries from index on, at most count of them. */
  function Cut(all: seq<string>, index: nat, count: nat): seq<string> {
    var lo := if index < |all| then index else |all|;
    var hi := if index + count < |all| then index + count else |all|;
    all[lo..hi]
  }

  lemma WindowIsCut(db: Db, key: string, index: nat, count: nat)
    requires 0 < count
    ensures WindowKeys(db, key, index, index + count - 1) == Cut(Listed(db, key), index, count)
  {
    WindowOfListed(db, key, index, index + count - 1);
    WindowExact(Listed(db, key), index, count);
  }

  /** The reply is made of what is written for these keys, those whose node has a class. */
  predicate MadeOf(db: Db, uri: string, read: Reader, reply: Reply, keys: seq<string>) {
    reply.Envelope? && WrittenFor(Writes(db, uri, read), Classed(read, keys), reply.objects)
  }

  /** The reply shows these keys: those whose node has a class. */
  predicate ShowsKeys(read: Reader, reply: Reply, keys: seq<string>) {
    reply.Envelope? && Ids(reply.objects) == Classed(read, keys) && reply.number == |Classed(read, keys)|
  }

  lemma WindowReply(db: Db, uri: string, read: Reader, id: string, index: int, count: int, stop: int, keys: seq<string>)
    requires Stop(index, count) == Some(stop)
    requires keys == WindowKeys(db, NormalId(id), index, stop)
    ensures var reply := ChildrenReply(db, uri, read, id, index, count);
            && (reply.Envelope? <==> AllWritable(read, keys))
            && (reply.Envelope? ==>
                  && ShowsKeys(read, reply, keys) && MadeOf(db, uri, read, reply, keys)
                  && reply.total == ChildrenCount(db, NormalId(id)))
  {
    BrowseAccounting(db, uri, read, id, index, count, stop);
    var reply := ChildrenReply(db, uri, read, id, index, count);
    if reply.Envelope? { assert |Ids(reply.objects)| == |reply.objects|; }
  }

  lemma CutReply(db: Db, uri: string, read: Reader, id: string, index: nat, count: nat)
    requires 0 < count && index + count <= INT_MAX
    ensures var reply := ChildrenReply(db, uri, read, id, index, count);
            var keys := Cut(Listed(db, NormalId(id)), index, count);
            && (reply.Envelope? <==> AllWritable(read, keys))
            && (reply.Envelope? ==>
                  && ShowsKeys(read, reply, keys) && MadeOf(db, uri, read, reply, keys)
                  && reply.total == ChildrenCount(db, NormalId(id)))
  {
    WindowIsCut(db, NormalId(id), index, count);
    WindowReply(db, uri, read, id, index, count, index + count - 1, Cut(Listed(db, NormalId(id)), index, count));
  }

  /** One page of any container: it is answered exactly when no node in its cut of the list
      makes write throw, and then shows the entries of the cut that have a class. */
  lemma PageExact(db: Db, uri: string, read: Reader, id: string, index: nat, count: nat)
    requires 0 < count && index + count <= INT_MAX
    ensures var reply := BrowseReply(db, uri, read, PageRequest(id, index, count));
            var keys := Cut(Listed(db, NormalId(id)), index, count);
            && (reply.Envelope? <==> AllWritable(read, keys))
            && (reply.Envelope? ==>
                  && ShowsKeys(read, reply, keys) && MadeOf(db, uri, read, reply, keys)
                  && reply.total == ChildrenCount(db, NormalId(id)))
  {
    RequestIsWindow(db, uri, read, id, index, count);
    CutReply(db, uri, read, id, index, count);
  }

  // ------------------------------------------------------- what is listed where

  /** The node stored for the key has the class album. */
  predicate StoredAlbum(db: Db, key: string) {
    var k := "fs:" + key + ":node";
    k in db && db[k].Hash? && "cls" in db[k].fields && db[k].fields["cls"] == "album"
  }

  /** The members of a sorted set in their order, and the items of a list; none where there
      is no such value. */
  function SetAt(db: Db, key: string): seq<string> {
    if key in db && db[key].ZSet? then
      var entries := db[key].entries;
      seq(|entries|, i requires 0 <= i < |entries| => entries[i].member)
    else []
  }

  function ListAt(db: Db, key: string): seq<string> {
    if key in db && db[key].List? then db[key].items else []
  }

  /** An album lists its audio files, every other container, with or without a class, its
      sorted list. */
  lemma ListedExact(db: Db, key: string)
    ensures Listed(db, key) ==
            if StoredAlbum(db, key) then SetAt(db, "fs:" + key + ":types:audio")
            else ListAt(db, "fs:" + key + ":list:sort:alpha:asc")
  {
    KeyTexts(key, Audio);
    assert Str(Audio) == "audio";
    assert FilesKey(key, Audio) == "fs:" + key + ":types:audio";
    AlbumExact(db, key);
    SetAtMembers(db, FilesKey(key, Audio));
  }

  lemma SetAtMembers(db: Db, k: string)
    ensures SetAt(db, k) == if k in db && db[k].ZSet? then Members(db[k].entries) else []
  {
  }

  lemma AlbumExact(db: Db, key: string)
    ensures IsAlbum(db, key) <==> StoredAlbum(db, key)
  {
    KeyTexts(key, Audio);
    TypeByName(Get(db, key, "cls"));
  }

  lemma TypeByName(cls: string)
    ensures ParseType(cls) == Album <==> cls == "album"
  {
  }

  /** Browse of the children, by the texts of the keys: the reply shows, of the entries from
      index up to index + count of the audio files of an album, or of the sorted list of
      every other container, those whose node has a class. */
  lemma BrowseListing(db: Db, uri: string, read: Reader, id: string, key: string, all: seq<string>, index: nat,
                      count: nat)
    requires 0 < count && index + count <= 2147483647
    requires key == if id == "" || id == "0" then "root" else id
    requires all == if StoredAlbum(db, key) then SetAt(db, "fs:" + key + ":types:audio")
                    else ListAt(db, "fs:" + key + ":list:sort:alpha:asc")
    ensures var lo := if index < |all| then index else |all|;
            var hi := if index + count < |all| then index + count else |all|;
            var reply := BrowseReply(db, uri, read, PageRequest(id, index, count));
            && (reply.Envelope? <==> AllWritable(read, all[lo..hi]))
            && (reply.Envelope? ==>
                  && Ids(reply.objects) == Classed(read, all[lo..hi])
                  && WrittenFor(Writes(db, uri, read), Classed(read, all[lo..hi]), reply.objects))
  {
    ListedExact(db, key);
    PageExact(db, uri, read, id, index, count);
  }

  /** The replies to the requests at 0, count, 2 * count, ... */
  ghost predicate ArePages(db: Db, uri: string, read: Reader, id: string, count: nat, pages: seq<Reply>) {
    forall j | 0 <= j < |pages| :: IsPage(db, uri, read, id, count, pages, j)
  }

  predicate IsPage(db: Db, uri: string, read: Reader, id: string, count: nat, pages: seq<Reply>, j: nat)
    requires j < |pages|
  {
    pages[j] == BrowseReply(db, uri, read, PageRequest(id, j * count, count))
  }

  /** The ids of the objects of all pages, in order. */
  function AllIds(pages: seq<Reply>): seq<string> {
    if pages == [] then []
    else
      AllIds(pages[..|pages| - 1]) +
      match pages[|pages| - 1]
      case Envelope(xs, _, _) => Ids(xs)
      case _ => []
  }

  function Sum(pages: seq<Reply>): nat {
    if pages == [] then 0
    else
      Sum(pages[..|pages| - 1]) +
      match pages[|pages| - 1]
      case Envelope(_, number, _) => number
      case _ => 0
  }

  lemma CutExtends(all: seq<string>, lo: nat, count: nat)
    ensures Cut(all, 0, lo) + Cut(all, lo, count) == Cut(all, 0, lo + count)
  {
  }

  lemma {:induction false} ClassedConcat(read: Reader, a: seq<string>, b: seq<string>)
    ensures Classed(read, a + b) == Classed(read, a) + Classed(read, b)
    decreases |b|
  {
    if b == [] {
      assert a + b == a;
    } else {
      assert (a + b)[..|a + b| - 1] == a + b[..|b| - 1];
      ClassedConcat(read, a, b[..|b| - 1]);
    }
  }

  predicate AllClassed(read: Reader, keys: seq<string>) {
    forall i | 0 <= i < |keys| :: HasClass(read, keys[i])
  }

  predicate NoneClassed(read: Reader, keys: seq<string>) {
    forall i | 0 <= i < |keys| :: !HasClass(read, keys[i])
  }

  lemma {:induction false} AllClassedExact(read: Reader, keys: seq<string>)
    ensures AllClassed(read, keys) ==> Classed(read, keys) == keys
    ensures |Classed(read, keys)| == |keys| ==> AllClassed(read, keys)
  {
    if keys != [] {
      AllClassedExact(read, keys[..|keys| - 1]);
      assert keys == keys[..|keys| - 1] + [keys[|keys| - 1]];
    }
  }

  lemma {:induction false} NoneClassedExact(read: Reader, keys: seq<string>)
    ensures NoneClassed(read, keys) <==> Classed(read, keys) == []
  {
    if keys != [] {
      NoneClassedExact(read, keys[..|keys| - 1]);
      assert NoneClassed(read, keys) <==> NoneClassed(read, keys[..|keys| - 1]) && !HasClass(read, keys[|keys| - 1]);
    }
  }

  lemma LastPage(pages: seq<Reply>, objects: seq<Xml>, number: nat)
    requires pages != []
    requires var page := pages[|pages| - 1];
             page.Envelope? && page.objects == objects && page.number == number
    ensures AllIds(pages) == AllIds(pages[..|pages| - 1]) + Ids(objects)
    ensures Sum(pages) == Sum(pages[..|pages| - 1]) + number
  {
  }

  /** Page j shows the j-th cut of the list. */
  predicate ShowsCut(read: Reader, all: seq<string>, count: nat, j: nat, page: Reply) {
    ShowsKeys(read, page, Cut(all, Multiple(j, count), count))
  }

  /** The pages show the cuts in turn. */
  predicate ShowCuts(read: Reader, all: seq<string>, count: nat, pages: seq<Reply>)
    decreases |pages|
  {
    pages == [] || (ShowCuts(read, all, count, pages[..|pages| - 1])
                    && ShowsCut(read, all, count, |pages| - 1, pages[|pages| - 1]))
  }

  lemma {:induction false} EachShowsCut(read: Reader, all: seq<string>, count: nat, pages: seq<Reply>)
    requires forall j | 0 <= j < |pages| :: ShowsCut(read, all, count, j, pages[j])
    ensures ShowCuts(read, all, count, pages)
  {
    if pages != [] { EachShowsCut(read, all, count, pages[..|pages| - 1]); }
  }

  lemma {:induction false} CutsConcatenate(read: Reader, all: seq<string>, count: nat, pages: seq<Reply>)
    requires ShowCuts(read, all, count, pages)
    ensures AllIds(pages) == Classed(read, Cut(all, 0, Multiple(|pages|, count)))
    ensures Sum(pages) == |AllIds(pages)|
  {
    if pages != [] {
      CutsConcatenate(read, all, count, pages[..|pages| - 1]);
      PageJoins(read, all, Multiple(|pages| - 1, count), count, pages);
    }
  }

  lemma PageJoins(read: Reader, all: seq<string>, lo: nat, count: nat, pages: seq<Reply>)
    requires pages != [] && ShowsKeys(read, pages[|pages| - 1], Cut(all, lo, count))
    requires AllIds(pages[..|pages| - 1]) == Classed(read, Cut(all, 0, lo))
    requires Sum(pages[..|pages| - 1]) == |AllIds(pages[..|pages| - 1])|
    ensures AllIds(pages) == Classed(read, Cut(all, 0, lo + count)) && Sum(pages) == |AllIds(pages)|
  {
    var page := pages[|pages| - 1];
    CutJoins(read, all, lo, count);
    LastPage(pages, page.objects, page.number);
  }

  lemma CutJoins(read: Reader, all: seq<string>, lo: nat, count: nat)
    ensures Classed(read, Cut(all, 0, lo)) + Classed(read, Cut(all, lo, count)) ==
            Classed(read, Cut(all, 0, lo + count))
  {
    CutExtends(all, lo, count);
    ClassedConcat(read, Cut(all, 0, lo), Cut(all, lo, count));
  }

  /** The j-th cut can be written. */
  predicate CutWritable(read: Reader, all: seq<string>, count: nat, j: nat) {
    AllWritable(read, Cut(all, Multiple(j, count), count))
  }

  lemma PageOf(db: Db, uri: string, read: Reader, id: string, count: nat, j: nat, page: Reply)
    requires var all := Listed(db, NormalId(id));
             0 < count && |all| + count <= INT_MAX && j <= |all| / count
    requires page == BrowseReply(db, uri, read, PageRequest(id, j * count, count))
    ensures var all := Listed(db, NormalId(id));
            && (page.Envelope? <==> CutWritable(read, all, count, j))
            && (page.Envelope? ==> ShowsCut(read, all, count, j, page) && page.total == ChildrenCount(db, NormalId(id)))
  {
    QuotientCounts(|Listed(db, NormalId(id))|, count, j);
    MultipleIsProduct(j, count);
    PageExact(db, uri, read, id, j * count, count);
  }

  lemma CutAt(all: seq<string>, lo: nat, count: nat, i: nat)
    requires lo <= i < lo + count && i < |all|
    ensures i - lo < |Cut(all, lo, count)| && Cut(all, lo, count)[i - lo] == all[i]
  {
  }

  lemma CutHolding(i: nat, n: nat, count: nat)
    requires 0 < count && i <= n
    ensures i / count <= n / count && Multiple(i / count, count) <= i < Multiple(i / count, count) + count
  {
    QuotientCounts(i, count, i / count);
    QuotientCounts(i, count, i / count + 1);
    QuotientCounts(n, count, i / count);
  }

  lemma WritableCut(read: Reader, all: seq<string>, lo: nat, count: nat)
    requires AllWritable(read, all)
    ensures AllWritable(read, Cut(all, lo, count))
  {
  }

  /** Every entry lies in one of the cuts. */
  lemma WritableCuts(read: Reader, all: seq<string>, count: nat)
    requires 0 < count
    ensures AllWritable(read, all) <==> forall j | 0 <= j <= |all| / count :: CutWritable(read, all, count, j)
  {
    if AllWritable(read, all) {
      forall j | 0 <= j <= |all| / count ensures CutWritable(read, all, count, j) {
        WritableCut(read, all, Multiple(j, count), count);
      }
    }
    if forall j | 0 <= j <= |all| / count :: CutWritable(read, all, count, j) {
      forall i | 0 <= i < |all| ensures Writable(read, all[i]) {
        CutHolding(i, |all|, count);
        assert CutWritable(read, all, count, i / count);
        CutAt(all, Multiple(i / count, count), count, i);
      }
    }
  }

  lemma CutPast(all: seq<string>, count: nat)
    requires count >= |all|
    ensures Cut(all, 0, count) == all
  {
  }

  /** All requests are answered. */
  predicate Answered(pages: seq<Reply>) {
    forall j | 0 <= j < |pages| :: pages[j].Envelope?
  }

  /** Exact paging. Ask a container of n entries for count > 0 of them at 0, count,
      2 * count, ..., n / count + 1 times. All requests are answered exactly when no node in
      the list makes write throw. Then the pages concatenate to the entries that have a
      class, in order, with nothing lost or repeated, and their NumberReturned values sum to
      how many these are. The bound on n keeps the indices in an int. */
  lemma ExactPaging(db: Db, uri: string, read: Reader, id: string, count: nat, pages: seq<Reply>)
    requires var all := Listed(db, NormalId(id));
             0 < count && |all| + count <= INT_MAX && |pages| == |all| / count + 1
    requires ArePages(db, uri, read, id, count, pages)
    ensures var all := Listed(db, NormalId(id));
            && (Answered(pages) <==> AllWritable(read, all))
            && (Answered(pages) ==> AllIds(pages) == Classed(read, all) && Sum(pages) == |Classed(read, all)|)
            && (Answered(pages) ==> forall j | 0 <= j < |pages| ::
                  ShowsCut(read, all, count, j, pages[j]) && pages[j].total == ChildrenCount(db, NormalId(id)))
  {
    var all := Listed(db, NormalId(id));
    forall j | 0 <= j < |pages|
      ensures pages[j].Envelope? <==> CutWritable(read, all, count, j)
      ensures pages[j].Envelope? ==>
                ShowsCut(read, all, count, j, pages[j]) && pages[j].total == ChildrenCount(db, NormalId(id))
    {
      assert IsPage(db, uri, read, id, count, pages, j);
      PageOf(db, uri, read, id, count, j, pages[j]);
    }
    AnsweredExact(read, all, count, pages);
    if Answered(pages) { PagesOfCuts(read, all, count, pages); }
  }

  lemma AnsweredExact(read: Reader, all: seq<string>, count: nat, pages: seq<Reply>)
    requires 0 < count && |pages| == |all| / count + 1
    requires forall j | 0 <= j < |pages| :: pages[j].Envelope? <==> CutWritable(read, all, count, j)
    ensures Answered(pages) <==> AllWritable(read, all)
  {
    WritableCuts(read, all, count);
    if AllWritable(read, all) {
      forall j | 0 <= j < |pages| ensures pages[j].Envelope? { assert CutWritable(read, all, count, j); }
    } else {
      var j :| 0 <= j <= |all| / count && !CutWritable(read, all, count, j);
      assert !pages[j].Envelope?;
    }
  }

  lemma PagesOfCuts(read: Reader, all: seq<string>, count: nat, pages: seq<Reply>)
    requires 0 < count && |pages| == |all| / count + 1
    requires forall j | 0 <= j < |pages| :: ShowsCut(read, all, count, j, pages[j])
    ensures AllIds(pages) == Classed(read, all) && Sum(pages) == |Classed(read, all)|
  {
    EachShowsCut(read, all, count, pages);
    CutsConcatenate(read, all, count, pages);
    QuotientCounts(|all|, count, |pages|);
    CutPast(all, Multiple(|pages|, count));
  }

  lemma CutSize(all: seq<string>, lo: nat, count: nat)
    ensures lo + count <= |all| ==> |Cut(all, lo, count)| == count
    ensures lo <= |all| < lo + count ==> |Cut(all, lo, count)| == |all| - lo
  {
  }

  lemma ClassedCut(read: Reader, all: seq<string>, lo: nat, count: nat)
    requires AllClassed(read, all)
    ensures Classed(read, Cut(all, lo, count)) == Cut(all, lo, count)
  {
    AllClassedExact(read, Cut(all, lo, count));
  }

  lemma FullPage(read: Reader, all: seq<string>, lo: nat, count: nat, page: Reply)
    requires ShowsKeys(read, page, Cut(all, lo, count)) && AllClassed(read, all)
    ensures lo + count <= |all| ==> page.number == count
    ensures lo <= |all| < lo + count ==> page.number < count
  {
    ClassedCut(read, all, lo, count);
    CutSize(all, lo, count);
  }

  lemma CutEnds(n: nat, count: nat, j: nat)
    requires 0 < count && j <= n / count
    ensures Multiple(j, count) <= n
    ensures j < n / count <==> Multiple(j, count) + count <= n
  {
    QuotientCounts(n, count, j);
    QuotientCounts(n, count, j + 1);
  }

  /** Where every entry has a class the pages show all of the list, and all are full but the
      last. */
  lemma FullPages(read: Reader, all: seq<string>, count: nat, page: Reply, j: nat, last: nat)
    requires 0 < count && j <= last == |all| / count
    requires ShowsCut(read, all, count, j, page)
    requires AllClassed(read, all)
    ensures Classed(read, all) == all
    ensures if j < last then page.number == count else page.number < count
  {
    CutEnds(|all|, count, j);
    AllClassedExact(read, all);
    FullPage(read, all, Multiple(j, count), count, page);
  }

  /** The client stops at the first page that is not full. */
  predicate StopsAtShort(pages: seq<Reply>, count: nat) {
    && pages != []
    && (forall j | 0 <= j < |pages| - 1 :: pages[j].Envelope? && pages[j].number >= count)
    && pages[|pages| - 1].Envelope? && pages[|pages| - 1].number < count
  }

  /** Page j, if it is among the pages, is short exactly when it is the last one due. */
  predicate ShortAt(pages: seq<Reply>, count: nat, last: nat, j: nat) {
    j < |pages| && j <= last ==> pages[j].Envelope? && (pages[j].number < count <==> j == last)
  }

  lemma PageLength(db: Db, uri: string, read: Reader, id: string, all: seq<string>, count: nat, pages: seq<Reply>,
                   last: nat, j: nat)
    requires all == Listed(db, NormalId(id)) && AllWritable(read, all) && AllClassed(read, all)
    requires 0 < count && |all| + count <= INT_MAX && last == |all| / count
    requires ArePages(db, uri, read, id, count, pages)
    ensures ShortAt(pages, count, last, j)
  {
    if j < |pages| && j <= last {
      assert IsPage(db, uri, read, id, count, pages, j);
      PageOf(db, uri, read, id, count, j, pages[j]);
      WritableCut(read, all, Multiple(j, count), count);
      FullPages(read, all, count, pages[j], j, last);
    }
  }

  /** A paging client. Where every entry has a class and can be written, the client that asks
      for count entries at a time and stops at the first short page stops exactly after page
      number n / count, and its pages are the list. */
  lemma {:induction false} ClientReadsAll(db: Db, uri: string, read: Reader, id: string, all: seq<string>, count: nat,
                                          pages: seq<Reply>)
    requires all == Listed(db, NormalId(id)) && AllWritable(read, all) && AllClassed(read, all)
    requires 0 < count && |all| + count <= INT_MAX
    requires ArePages(db, uri, read, id, count, pages)
    ensures StopsAtShort(pages, count) <==> |pages| == |all| / count + 1
    ensures StopsAtShort(pages, count) ==> AllIds(pages) == all && Sum(pages) == |all|
  {
    var last := |all| / count;
    forall j: nat ensures ShortAt(pages, count, last, j) {
      PageLength(db, uri, read, id, all, count, pages, last, j);
    }
    ShortIsLast(pages, count, last);
    if |pages| == last + 1 { AllPages(db, uri, read, id, all, count, pages); }
  }

  lemma AllPages(db: Db, uri: string, read: Reader, id: string, all: seq<string>, count: nat, pages: seq<Reply>)
    requires all == Listed(db, NormalId(id)) && AllWritable(read, all) && AllClassed(read, all)
    requires 0 < count && |all| + count <= INT_MAX && |pages| == |all| / count + 1
    requires ArePages(db, uri, read, id, count, pages)
    ensures AllIds(pages) == all && Sum(pages) == |all|
  {
    ExactPaging(db, uri, read, id, count, pages);
    AllClassedExact(read, all);
  }

  lemma ShortIsLast(pages: seq<Reply>, count: nat, last: nat)
    requires forall j: nat :: ShortAt(pages, count, last, j)
    ensures StopsAtShort(pages, count) <==> |pages| == last + 1
  {
    assert ShortAt(pages, count, last, last);
    forall j: nat | j < |pages| && j < last ensures pages[j].Envelope? && pages[j].number >= count {
      assert ShortAt(pages, count, last, j);
    }
  }

  lemma ClassedPrefix(read: Reader, before: seq<string>, rest: seq<string>)
    ensures Classed(read, before) == Classed(read, before + rest) <==> NoneClassed(read, rest)
  {
    ClassedConcat(read, before, rest);
    NoneClassedExact(read, rest);
  }

  /** The entries from n on. */
  function Rest(all: seq<string>, n: nat): seq<string> {
    if n < |all| then all[n..] else []
  }

  lemma ClassedRest(read: Reader, all: seq<string>, n: nat)
    ensures Classed(read, Cut(all, 0, n)) == Classed(read, all) <==> NoneClassed(read, Rest(all, n))
  {
    assert all == Cut(all, 0, n) + Rest(all, n);
    ClassedPrefix(read, Cut(all, 0, n), Rest(all, n));
  }

  /** A client that stops after page j, for a short page or any other reason, has everything
      exactly when no entry behind that page has a class. */
  lemma StoppingExact(read: Reader, all: seq<string>, count: nat, pages: seq<Reply>, j: nat)
    requires 0 < count && j < |pages|
    requires forall i | 0 <= i < |pages| :: ShowsCut(read, all, count, i, pages[i])
    ensures AllIds(pages[..j + 1]) == Classed(read, all) <==> NoneClassed(read, Rest(all, (j + 1) * count))
  {
    EachShowsCut(read, all, count, pages[..j + 1]);
    CutsConcatenate(read, all, count, pages[..j + 1]);
    MultipleIsProduct(j + 1, count);
    ClassedRest(read, all, (j + 1) * count);
  }

  // -------------------------------------------------------------- browse all

  lemma AllRequestNumbers(id: string, index: nat)
    requires index <= INT_MAX
    ensures var values := PageRequest(id, index, 0);
            && NumberOr0(values, "StartingIndex") == Value(index)
            && NumberOr0(values, "RequestedCount") == Value(0)
            && FieldOr(values, "ObjectID") == id
            && "BrowseFlag" in values && values["BrowseFlag"] == "BrowseDirectChildren"
  {
    StoiOfDecimal(index);
    StoiOfDecimal(0);
  }

  lemma AllRequestIsWindow(db: Db, uri: string, read: Reader, id: string, index: nat)
    requires index <= INT_MAX
    ensures BrowseReply(db, uri, read, PageRequest(id, index, 0)) == ChildrenReply(db, uri, read, id, index, -1)
  {
    AllRequestNumbers(id, index);
  }

  /** The entries a request for everything from index on leaves out, with its stop index
      of index - 2: the last one from index 0, none from index 1, all from index 2. */
  function Omitted(all: seq<string>, index: nat): seq<string> {
    if index >= |all| || index == 1 then []
    else if index == 0 then all[|all| - 1..]
    else all[index..]
  }

  lemma RangeAndOmitted(all: seq<string>, index: nat)
    ensures Range(all, index, index - 2) + Omitted(all, index) == Rest(all, index)
  {
  }

  /** RequestedCount 0 asks for everything from index on (section 2.7.4 of
      ContentDirectory:1). The reply, where there is one, shows that exactly when no omitted
      entry has a class; where all entries have one, when the index is 1 or at or past the
      end. */
  lemma BrowseAllReply(db: Db, uri: string, read: Reader, id: string, index: nat)
    requires index <= INT_MAX
    ensures var all := Listed(db, NormalId(id));
            var rest := Rest(all, index);
            var reply := BrowseReply(db, uri, read, PageRequest(id, index, 0));
            && (reply.Envelope? <==> AllWritable(read, Range(all, index, index - 2)))
            && (reply.Envelope? ==>
                  && ShowsKeys(read, reply, Range(all, index, index - 2))
                  && (ShowsKeys(read, reply, rest) <==> Classed(read, Omitted(all, index)) == [])
                  && (AllClassed(read, all) ==> (ShowsKeys(read, reply, rest) <==> index == 1 || |all| <= index)))
  {
    var all := Listed(db, NormalId(id));
    AllRequestIsWindow(db, uri, read, id, index);
    WindowOfListed(db, NormalId(id), index, index - 2);
    WindowReply(db, uri, read, id, index, -1, index - 2, Range(all, index, index - 2));
    RangeAndOmitted(all, index);
    var reply := BrowseReply(db, uri, read, PageRequest(id, index, 0));
    if AllClassed(read, all) { OmittedClassed(read, all, index); }
    if reply.Envelope? { OmittedShows(read, reply, Range(all, index, index - 2), Omitted(all, index)); }
  }

  lemma OmittedShows(read: Reader, reply: Reply, shown: seq<string>, omitted: seq<string>)
    requires ShowsKeys(read, reply, shown)
    ensures ShowsKeys(read, reply, shown + omitted) <==> Classed(read, omitted) == []
  {
    ClassedConcat(read, shown, omitted);
  }

  lemma OmittedClassed(read: Reader, all: seq<string>, index: nat)
    requires AllClassed(read, all)
    ensures Classed(read, Omitted(all, index)) == [] <==> index == 1 || |all| <= index
  {
    NoneClassedExact(read, Omitted(all, index));
    if index != 1 && index < |all| { assert HasClass(read, Omitted(all, index)[0]); }
  }
}
