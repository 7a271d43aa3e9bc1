/** Node types, hashes and the colon-joined keys of src/datastore.h. */
module Keys {
  import opened Text

  // -------------------------------------------------------------- node types

  datatype NodeType =
    | Folder | Audio | Movie | Serie | Image | Ebook | File | Album | Cover | Episode | Artist

  function Str(t: NodeType): string {
    match t
    case Folder => "folder"
    case Audio => "audio"
    case Movie => "movie"
    case Serie => "serie"
    case Image => "image"
    case Ebook => "ebook"
    case File => "file"
    case Album => "album"
    case Cover => "cover"
    case Episode => "episode"
    case Artist => "artist"
  }

  function ParseType(s: string): NodeType {
    if s == "folder" then Folder
    else if s == "audio" then Audio
    else if s == "movie" then Movie
    else if s == "serie" then Serie
    else if s == "image" then Image
    else if s == "ebook" then Ebook
    else if s == "album" then Album
    else if s == "cover" then Cover
    else if s == "artist" then Artist
    else if s == "episode" then Episode
    else File
  }

  predicate ValidType(s: string) {
    s in ["folder", "audio", "movie", "serie", "image", "ebook", "file", "album", "cover", "episode", "artist"]
  }

  /** Parsing inverts naming, and no name is mistaken for the other last components. */
  lemma TypeNamed(t: NodeType)
    ensures ParseType(Str(t)) == t
    ensures ':' !in Str(t) && Str(t) != "node" && Str(t) != "list" && Str(t) != "asc"
  {
    match t
    case Folder => case Audio => case Movie => case Serie => case Image => case Ebook =>
    case File => case Album => case Cover => case Episode => case Artist =>
  }

  /** The valid names are exactly the names of types; every other text parses as file. */
  lemma ValidTypeExact(s: string)
    ensures ValidType(s) <==> Str(ParseType(s)) == s
    ensures !ValidType(s) ==> ParseType(s) == File
  {
    var names := ["folder", "audio", "movie", "serie", "image", "ebook", "file", "album", "cover", "episode", "artist"];
    assert names[0] == "folder" && names[1] == "audio" && names[2] == "movie" && names[3] == "serie";
    assert names[4] == "image" && names[5] == "ebook" && names[6] == "file" && names[7] == "album";
    assert names[8] == "cover" && names[9] == "episode" && names[10] == "artist";
  }

  /** The types by their texts. */
  lemma TypeTexts()
    ensures Str(Folder) == "folder" && Str(Audio) == "audio" && Str(Movie) == "movie" && Str(Serie) == "serie"
    ensures Str(Image) == "image" && Str(Ebook) == "ebook" && Str(File) == "file" && Str(Album) == "album"
    ensures Str(Cover) == "cover" && Str(Episode) == "episode" && Str(Artist) == "artist"
    ensures ParseType("folder") == Folder && ParseType("audio") == Audio && ParseType("movie") == Movie
    ensures ParseType("serie") == Serie && ParseType("image") == Image && ParseType("ebook") == Ebook
    ensures ParseType("file") == File && ParseType("album") == Album && ParseType("cover") == Cover
    ensures ParseType("episode") == Episode && ParseType("artist") == Artist
  {
  }

  const MENU := ["album", "artist", "image", "movie", "serie", "ebook", "file"]

  predicate IsMod(path: string) {
    path in MENU
  }

  /** h stands for boost::hash< std::string >, of which nothing is assumed. */
  function HashOf(h: string -> nat, s: string): string {
    if s == "root" || IsMod(s) then s else Decimal(h(s))
  }

  /** The seven names of the menu, and root. */
  predicate Kept(s: string) {
    || s == "root" || s == "album" || s == "artist" || s == "image"
    || s == "movie" || s == "serie" || s == "ebook" || s == "file"
  }

  /** Root and the names of the menu keep their text, every other text becomes the numeral of
      its hash value. */
  lemma HashExact(h: string -> nat, s: string)
    ensures HashOf(h, s) == if Kept(s) then s else Decimal(h(s))
  {
    assert MENU[0] == "album" && MENU[1] == "artist" && MENU[2] == "image" && MENU[3] == "movie";
    assert MENU[4] == "serie" && MENU[5] == "ebook" && MENU[6] == "file";
  }

  /** The value is a fixed point exactly at root, at a menu name, and at a number that happens
      to be its own hash. */
  lemma HashFixed(h: string -> nat, s: string)
    ensures HashOf(h, s) == s <==> Kept(s) || s == Decimal(h(s))
    ensures !AllDigits(s) ==> (HashOf(h, s) == s <==> Kept(s))
  {
    HashExact(h, s);
    DecimalReadsBack(h(s));
  }

  // --------------------------------------------------------------------- keys

  function Joined(parts: seq<string>): string {
    if parts == [] then "" else ":" + parts[0] + Joined(parts[1..])
  }

  function MakeKey(prefix: string, parts: seq<string>): string {
    prefix + Joined(parts)
  }

  lemma {:induction false} JoinedSnoc(parts: seq<string>, last: string)
    ensures Joined(parts + [last]) == Joined(parts) + ":" + last
  {
    if parts == [] {
      assert [last][1..] == [];
      assert [] + [last] == [last];
    } else {
      assert (parts + [last])[1..] == parts[1..] + [last];
      JoinedSnoc(parts[1..], last);
    }
  }

  /** make_key with __iterate_key: the key is extended in place, one component at a time. */
  method BuildKey(prefix: string, parts: seq<string>) returns (key: string)
    ensures key == MakeKey(prefix, parts)
  {
    key := prefix;
    for i := 0 to |parts|
      invariant key == prefix + Joined(parts[..i])
    {
      JoinedSnoc(parts[..i], parts[i]);
      assert parts[..i + 1] == parts[..i] + [parts[i]];
      key := key + ":";
      key := key + parts[i];
    }
    assert parts[..|parts|] == parts;
  }

  /** Reads a key back into its components. */
  function Split(s: string): (parts: seq<string>)
    ensures parts != []
  {
    if s == "" then [""]
    else if s[0] == ':' then [""] + Split(s[1..])
    else
      var rest := Split(s[1..]);
      [[s[0]] + rest[0]] + rest[1..]
  }

  predicate ColonFree(parts: seq<string>) {
    forall i | 0 <= i < |parts| :: ':' !in parts[i]
  }

  lemma {:induction false} SplitColonFree(s: string)
    ensures ColonFree(Split(s))
  {
    if s != "" { SplitColonFree(s[1..]); }
  }

  lemma {:induction false} SplitJoined(prefix: string, parts: seq<string>)
    requires ':' !in prefix && ColonFree(parts)
    ensures Split(MakeKey(prefix, parts)) == [prefix] + parts
    decreases |parts|, |prefix|
  {
    var key := MakeKey(prefix, parts);
    if prefix != "" {
      assert prefix[0] in prefix;
      assert key[1..] == MakeKey(prefix[1..], parts);
      SplitJoined(prefix[1..], parts);
      assert [prefix[0]] + prefix[1..] == prefix;
    } else if parts != [] {
      assert key[1..] == MakeKey(parts[0], parts[1..]);
      SplitJoined(parts[0], parts[1..]);
      assert [parts[0]] + parts[1..] == parts;
    }
  }

  /** A key determines its components exactly when none of them holds a colon. */
  lemma KeyReadsBackExactly(prefix: string, parts: seq<string>)
    ensures Split(MakeKey(prefix, parts)) == [prefix] + parts <==> ColonFree([prefix] + parts)
  {
    var all := [prefix] + parts;
    if ColonFree(all) {
      assert all[0] == prefix;
      assert forall i | 0 <= i < |parts| :: parts[i] == all[i + 1];
      SplitJoined(prefix, parts);
    }
    SplitColonFree(MakeKey(prefix, parts));
  }

  // ----------------------------------------------------------- key families

  function NodeKey(key: string): string {
    MakeKey("fs", [key, "node"])
  }

  function ListKey(key: string): string {
    MakeKey("fs", [key, "list"])
  }

  /** make_key_list on a type: the list of the type's name. */
  function TypeListKey(t: NodeType): string {
    ListKey(Str(t))
  }

  function FilesKey(key: string, t: NodeType): string {
    MakeKey("fs", [key, "types", Str(t)])
  }

  function SortKey(key: string, sort: string, order: string): string {
    MakeKey(ListKey(key), ["sort", sort, order])
  }

  /** What stands before and after the last colon. */
  function LastColon(s: string): (string, string) {
    if s == "" then ("", "")
    else if s[|s| - 1] == ':' then (s[..|s| - 1], "")
    else
      var p := LastColon(s[..|s| - 1]);
      (p.0, p.1 + [s[|s| - 1]])
  }

  lemma {:induction false} LastColonFinds(a: string, b: string)
    requires ':' !in b
    ensures LastColon(a + ":" + b) == (a, b)
  {
    var s := a + ":" + b;
    if b == "" {
      assert s[..|s| - 1] == a;
    } else {
      assert s[|s| - 1] == b[|b| - 1] && b[|b| - 1] in b;
      assert s[..|s| - 1] == a + ":" + b[..|b| - 1];
      LastColonFinds(a, b[..|b| - 1]);
      assert b[..|b| - 1] + [b[|b| - 1]] == b;
    }
  }

  lemma JoinedTwo(a: string, b: string)
    ensures Joined([a, b]) == ":" + a + ":" + b
  {
    assert [a, b][1..] == [b] && [b][1..] == [];
    assert Joined([b]) == ":" + b + Joined([]);
    assert Joined([a, b]) == ":" + a + Joined([b]);
  }

  lemma KeyShapes(k: string, t: NodeType)
    ensures NodeKey(k) == ("fs:" + k) + ":" + "node"
    ensures ListKey(k) == ("fs:" + k) + ":" + "list"
    ensures FilesKey(k, t) == ("fs:" + k + ":types") + ":" + Str(t)
  {
    JoinedTwo(k, "node");
    JoinedTwo(k, "list");
    JoinedTwo("types", Str(t));
    assert [k, "types", Str(t)][1..] == ["types", Str(t)];
    assert Joined([k, "types", Str(t)]) == ":" + k + Joined(["types", Str(t)]);
  }

  lemma KeyTails(k: string, t: NodeType)
    ensures LastColon(NodeKey(k)) == ("fs:" + k, "node")
    ensures LastColon(ListKey(k)) == ("fs:" + k, "list")
    ensures LastColon(FilesKey(k, t)) == ("fs:" + k + ":types", Str(t))
  {
    KeyShapes(k, t);
    TypeNamed(t);
    LastColonFinds("fs:" + k, "node");
    LastColonFinds("fs:" + k, "list");
    LastColonFinds("fs:" + k + ":types", Str(t));
  }

  /** The keys by their texts. */
  lemma KeyTexts(k: string, t: NodeType)
    ensures NodeKey(k) == "fs:" + k + ":node"
    ensures ListKey(k) == "fs:" + k + ":list"
    ensures FilesKey(k, t) == "fs:" + k + ":types:" + Str(t)
    ensures SortKey(k, "alpha", "asc") == "fs:" + k + ":list:sort:alpha:asc"
  {
    KeyShapes(k, t);
    SortShape(k);
  }

  lemma SortShape(k: string)
    ensures SortKey(k, "alpha", "asc") == (ListKey(k) + ":sort:alpha") + ":" + "asc"
  {
    var parts := ["sort", "alpha", "asc"];
    JoinedTwo("alpha", "asc");
    assert parts[1..] == ["alpha", "asc"];
    assert Joined(parts) == ":" + "sort" + Joined(["alpha", "asc"]);
  }

  /** For every text, colons included: each family is injective and no two families meet. */
  lemma FamiliesDisjoint(a: string, b: string, s: NodeType, t: NodeType)
    ensures NodeKey(a) == NodeKey(b) ==> a == b
    ensures ListKey(a) == ListKey(b) ==> a == b
    ensures FilesKey(a, s) == FilesKey(b, t) ==> a == b && s == t
    ensures NodeKey(a) != ListKey(b) && NodeKey(a) != FilesKey(b, t) && ListKey(a) != FilesKey(b, t)
  {
    KeyTails(a, s);
    KeyTails(b, t);
    TypeNamed(s);
    TypeNamed(t);
    assert ("fs:" + a)[3..] == a && ("fs:" + b)[3..] == b;
    assert ("fs:" + a + ":types")[3..3 + |a|] == a && ("fs:" + b + ":types")[3..3 + |b|] == b;
  }

  /** The one intended meeting: a type's list is the list of the node with its name. */
  lemma TypeListShared(key: string, t: NodeType)
    ensures TypeListKey(t) == ListKey(key) <==> key == Str(t)
  {
    FamiliesDisjoint(key, Str(t), t, t);
  }

  /** The sorted list Browse reads is no node, child list or files list. */
  lemma SortKeyApart(key: string, other: string, t: NodeType)
    ensures SortKey(key, "alpha", "asc") != NodeKey(other)
    ensures SortKey(key, "alpha", "asc") != ListKey(other)
    ensures SortKey(key, "alpha", "asc") != FilesKey(other, t)
  {
    SortShape(key);
    LastColonFinds(ListKey(key) + ":sort:alpha", "asc");
    KeyTails(other, t);
    TypeNamed(t);
  }
}
