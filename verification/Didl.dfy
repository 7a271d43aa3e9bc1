/** The DIDL-Lite document of src/didl.cpp: one element per written object, appended
    piece by piece, and a counter of the objects written. */
module Didl {
  import opened Text
  import opened Keys
  import opened Redis
  import opened Datastore

  type Attribute = (string, string)

  datatype Xml = Xml(name: string, attrs: seq<Attribute>, text: string, children: seq<Xml>)

  function Element(name: string, text: string): Xml {
    Xml(name, [], text, [])
  }

  // ------------------------------------------------------------------ tables

  function ClassName(t: NodeType): string {
    match t
    case Folder => "object.container.storageFolder"
    case Audio => "object.item.audioItem.musicTrack"
    case Movie => "object.item.movie"
    case Serie => "object.container.series"
    case Image => "object.item.photo"
    case Ebook => "object.item"
    case File => "object.item"
    case Album => "object.container.album.musicAlbum"
    case Cover => "object.item.photo"
    case Episode => "object.item.movie"
    case Artist => "object.container"
  }

  predicate IsContainer(t: NodeType) {
    t in [Album, Artist, Folder, Serie]
  }

  function ElementName(t: NodeType): string {
    if IsContainer(t) then "container" else "item"
  }

  /** Types whose objects carry a res element. */
  predicate HasResource(t: NodeType) {
    t == File || t == Audio || t == Image || t == Cover || t == Movie
  }

  // ------------------------------------------------------ what write produces

  /** The parentID shown for a stored parent. */
  function ParentId(parent: string): string {
    if parent == "" then "-1" else if parent == "root" then "0" else parent
  }

  /** Fields that write reads with at(), so that a missing one throws. */
  predicate Complete(t: NodeType, values: Node) {
    && "parent" in values
    && "name" in values
    && (t == Episode ==> "season" in values && "episode" in values)
    && (HasResource(t) ==> "ext" in values && "mimeType" in values)
  }

  function Title(t: NodeType, values: Node): string
    requires Complete(t, values)
  {
    if t == Episode then "S" + values["season"] + values["episode"] + " " + values["name"] else values["name"]
  }

  /** Appends an element for a field that may be absent. */
  function AddOpt(xs: seq<Xml>, name: string, values: Node, field: string): seq<Xml> {
    if field in values then xs + [Element(name, values[field])] else xs
  }

  function AddAttr(attrs: seq<Attribute>, name: string, values: Node, field: string): seq<Attribute> {
    if field in values then attrs + [(name, values[field])] else attrs
  }

  /** A name in the document and the field it shows. */
  type Shown = (string, string)

  function AddFields(xs: seq<Xml>, shown: seq<Shown>, values: Node): seq<Xml>
    decreases |shown|
  {
    if shown == [] then xs else AddFields(AddOpt(xs, shown[0].0, values, shown[0].1), shown[1..], values)
  }

  function AddAttrs(attrs: seq<Attribute>, shown: seq<Shown>, values: Node): seq<Attribute>
    decreases |shown|
  {
    if shown == [] then attrs else AddAttrs(AddAttr(attrs, shown[0].0, values, shown[0].1), shown[1..], values)
  }

  const DETAILS: seq<Shown> :=
    [("dc:data", "year"), ("upnp:artist", "artist"), ("upnp:originalTrackNumber", "track"), ("upnp:album", "album"),
     ("upnp:description", "comment"), ("dc:date", "year"), ("upnp:genre", "genre")]

  const COMMON: seq<Shown> := [("size", "size"), ("mime-type", "mimeType")]

  const SOUND: seq<Shown> :=
    [("duration", "playlength"), ("bitrate", "bitrate"), ("bitsPerSample", "bps"),
     ("sampleFrequency", "samplerate"), ("nrAudioChannels", "channels")]

  const FILM: seq<Shown> := [("duration", "playlength"), ("bitrate", "bitrate")]

  const DEPTH: seq<Shown> := [("colorDepth", "BitsPerSample")]

  function ArtElement(profile: string, text: string): Xml {
    Xml("albumArtURI", [("dlna:profileID", profile)], text, [])
  }

  function AddArt(xs: seq<Xml>, db: Db, uri: string, t: NodeType, values: Node): seq<Xml>
    requires "parent" in values
  {
    if t == Audio then xs + [ArtElement("JPEG_MED", uri + Get(db, values["parent"], "med"))]
    else if "thumb" in values then xs + [ArtElement("JPEG_TN", uri + values["thumb"])]
    else xs
  }

  function ProtocolInfo(mime: string): string {
    "http-get:*:" + mime + ":DLNA.ORG_OP=11;DLNA.ORG_FLAGS=01700000000000000000000000000000"
  }

  function AddResolution(attrs: seq<Attribute>, values: Node): seq<Attribute> {
    if "width" in values && "height" in values
    then attrs + [("resolution", values["width"] + "x" + values["height"])]
    else attrs
  }

  function AddPictureAttrs(attrs: seq<Attribute>, values: Node): seq<Attribute> {
    AddAttrs(AddResolution(attrs, values), DEPTH, values)
  }

  /** The attributes after protocolInfo, size and mime-type. */
  function AddMediaAttrs(attrs: seq<Attribute>, t: NodeType, values: Node): seq<Attribute> {
    match t
    case Audio => AddAttrs(attrs, SOUND, values)
    case Movie => AddPictureAttrs(AddAttrs(attrs, FILM, values), values)
    case Image => AddPictureAttrs(attrs, values)
    case Cover => AddPictureAttrs(attrs, values)
    case _ => attrs
  }

  function ResourceAttrs(t: NodeType, values: Node): seq<Attribute>
    requires "mimeType" in values
  {
    AddMediaAttrs(AddAttrs([("protocolInfo", ProtocolInfo(values["mimeType"]))], COMMON, values), t, values)
  }

  function AddResource(xs: seq<Xml>, uri: string, key: string, t: NodeType, values: Node): seq<Xml>
    requires HasResource(t) ==> "ext" in values && "mimeType" in values
  {
    if HasResource(t) then xs + [Xml("res", ResourceAttrs(t, values), uri + "/res/" + key + values["ext"], [])] else xs
  }

  function Frame(db: Db, key: string, t: NodeType, parent: string): Xml {
    Xml(ElementName(t),
        [("id", key), ("parentID", ParentId(parent)), ("restricted", "1"),
         ("childCount", Decimal(ChildrenCount(db, key)))],
        "", [])
  }

  /** The children before the res element. */
  function Media(db: Db, uri: string, t: NodeType, values: Node, title: string): seq<Xml>
    requires "parent" in values
  {
    var head := [Element("dc:title", title), Element("upnp:class", ClassName(t))];
    AddArt(AddFields(head, DETAILS, values), db, uri, t, values)
  }

  /** The element of one object. */
  function Object(db: Db, uri: string, key: string, t: NodeType, values: Node): Xml
    requires Complete(t, values)
  {
    Frame(db, key, t, values["parent"]).(children :=
      AddResource(Media(db, uri, t, values, Title(t, values)), uri, key, t, values))
  }

  /** Nothing without a class, the object, or std::out_of_range. */
  datatype Outcome = Skipped | Written(element: Xml) | Missing

  function WriteOutcome(db: Db, uri: string, key: string, values: Node): Outcome {
    if "cls" !in values then Skipped
    else
      var t := ParseType(values["cls"]);
      if Complete(t, values) then Written(Object(db, uri, key, t, values)) else Missing
  }

  // ------------------------------------------------------------ the document

  lemma AddFieldsCons(xs: seq<Xml>, name: string, field: string, rest: seq<Shown>, values: Node)
    ensures AddFields(xs, [(name, field)] + rest, values) == AddFields(AddOpt(xs, name, values, field), rest, values)
  {
    assert ([(name, field)] + rest)[1..] == rest;
  }

  lemma AddAttrsCons(attrs: seq<Attribute>, name: string, field: string, rest: seq<Shown>, values: Node)
    ensures AddAttrs(attrs, [(name, field)] + rest, values) ==
            AddAttrs(AddAttr(attrs, name, values, field), rest, values)
  {
    assert ([(name, field)] + rest)[1..] == rest;
  }

  /** One conditional element; the table still to come is an argument of the proof only. */
  method DetailOpt(n: Xml, name: string, values: Node, field: string, ghost shown: seq<Shown>) returns (r: Xml)
    requires shown != [] && shown[0] == (name, field)
    ensures r == n.(children := r.children)
    ensures AddFields(r.children, shown[1..], values) == AddFields(n.children, shown, values)
  {
    r := n;
    if field in values { r := n.(children := n.children + [Element(name, values[field])]); }
    AddFieldsCons(n.children, name, field, shown[1..], values);
    assert [(name, field)] + shown[1..] == shown;
  }

  /** One conditional attribute, likewise. */
  method AttrOpt(attrs: seq<Attribute>, name: string, values: Node, field: string, ghost shown: seq<Shown>)
    returns (r: seq<Attribute>)
    requires shown != [] && shown[0] == (name, field)
    ensures AddAttrs(r, shown[1..], values) == AddAttrs(attrs, shown, values)
  {
    r := attrs;
    if field in values { r := attrs + [(name, values[field])]; }
    AddAttrsCons(attrs, name, field, shown[1..], values);
    assert [(name, field)] + shown[1..] == shown;
  }

  method AppendDetails(n: Xml, values: Node) returns (r: Xml)
    ensures r == n.(children := AddFields(n.children, DETAILS, values))
  {
    r := DetailOpt(n, "dc:data", values, "year", DETAILS);
    r := DetailOpt(r, "upnp:artist", values, "artist", DETAILS[1..]);
    r := DetailOpt(r, "upnp:originalTrackNumber", values, "track", DETAILS[1..][1..]);
    r := DetailOpt(r, "upnp:album", values, "album", DETAILS[1..][1..][1..]);
    r := DetailOpt(r, "upnp:description", values, "comment", DETAILS[1..][1..][1..][1..]);
    r := DetailOpt(r, "dc:date", values, "year", DETAILS[1..][1..][1..][1..][1..]);
    r := DetailOpt(r, "upnp:genre", values, "genre", DETAILS[1..][1..][1..][1..][1..][1..]);
  }

  /** The res attributes of each media branch of write. */
  method BuildResourceAttrs(t: NodeType, values: Node) returns (attrs: seq<Attribute>)
    requires "mimeType" in values && HasResource(t)
    ensures attrs == ResourceAttrs(t, values)
  {
    attrs := [("protocolInfo", ProtocolInfo(values["mimeType"]))];
    attrs := AttrOpt(attrs, "size", values, "size", COMMON);
    attrs := AttrOpt(attrs, "mime-type", values, "mimeType", COMMON[1..]);
    attrs := BuildMediaAttrs(attrs, t, values);
  }

  method BuildMediaAttrs(start: seq<Attribute>, t: NodeType, values: Node) returns (attrs: seq<Attribute>)
    requires HasResource(t)
    ensures attrs == AddMediaAttrs(start, t, values)
  {
    attrs := start;
    if t == Audio {
      attrs := AttrOpt(attrs, "duration", values, "playlength", SOUND);
      attrs := AttrOpt(attrs, "bitrate", values, "bitrate", SOUND[1..]);
      attrs := AttrOpt(attrs, "bitsPerSample", values, "bps", SOUND[1..][1..]);
      attrs := AttrOpt(attrs, "sampleFrequency", values, "samplerate", SOUND[1..][1..][1..]);
      attrs := AttrOpt(attrs, "nrAudioChannels", values, "channels", SOUND[1..][1..][1..][1..]);
    } else if t != File {
      if t == Movie {
        attrs := AttrOpt(attrs, "duration", values, "playlength", FILM);
        attrs := AttrOpt(attrs, "bitrate", values, "bitrate", FILM[1..]);
      }
      if "width" in values && "height" in values {
        attrs := attrs + [("resolution", values["width"] + "x" + values["height"])];
      }
      attrs := AttrOpt(attrs, "colorDepth", values, "BitsPerSample", DEPTH);
    }
  }

  method AppendArt(n: Xml, db: Db, uri: string, t: NodeType, values: Node) returns (r: Xml)
    requires "parent" in values
    ensures r == n.(children := AddArt(n.children, db, uri, t, values))
  {
    r := n;
    if t == Audio {
      r := n.(children := n.children + [ArtElement("JPEG_MED", uri + Get(db, values["parent"], "med"))]);
    } else if "thumb" in values {
      r := n.(children := n.children + [ArtElement("JPEG_TN", uri + values["thumb"])]);
    }
  }

  /** ok is false when at() throws; the res element may have been appended already. */
  method AppendResource(n: Xml, uri: string, key: string, t: NodeType, values: Node) returns (r: Xml, ok: bool)
    ensures ok == (HasResource(t) ==> "ext" in values && "mimeType" in values)
    ensures ok ==> r == n.(children := AddResource(n.children, uri, key, t, values))
    ensures r.name == n.name && r.attrs == n.attrs
  {
    r, ok := n, true;
    if HasResource(t) {
      if "ext" !in values { return r, false; }
      var res := Element("res", uri + "/res/" + key + values["ext"]);
      if "mimeType" !in values {
        r := n.(children := n.children + [res]);
        return r, false;
      }
      var attrs := BuildResourceAttrs(t, values);
      r := n.(children := n.children + [res.(attrs := attrs)]);
    }
  }

  method BuildFrame(db: Db, key: string, t: NodeType, parent: string) returns (n: Xml)
    ensures n == Frame(db, key, t, parent)
  {
    n := Xml(ElementName(t), [("id", key)], "", []);
    var parentId := parent;
    if parent == "" { parentId := "-1"; }
    if parent == "root" { parentId := "0"; }
    n := n.(attrs := n.attrs + [("parentID", parentId)]);
    n := n.(attrs := n.attrs + [("restricted", "1")]);
    n := n.(attrs := n.attrs + [("childCount", Decimal(ChildrenCount(db, key)))]);
  }

  method BuildTitle(t: NodeType, values: Node) returns (title: Option<string>)
    ensures title.Some? <==> "name" in values && (t == Episode ==> "season" in values && "episode" in values)
    ensures title.Some? && Complete(t, values) ==> title.value == Title(t, values)
  {
    if "name" !in values || (t == Episode && ("season" !in values || "episode" !in values)) { return None; }
    if t == Episode { return Some("S" + values["season"] + values["episode"] + " " + values["name"]); }
    return Some(values["name"]);
  }

  method BuildMedia(frame: Xml, db: Db, uri: string, t: NodeType, values: Node, title: string) returns (n: Xml)
    requires frame.children == [] && "parent" in values
    ensures n == frame.(children := Media(db, uri, t, values, title))
  {
    n := frame.(children := frame.children + [Element("dc:title", title)]);
    n := n.(children := n.children + [Element("upnp:class", ClassName(t))]);
    assert n.children == [Element("dc:title", title), Element("upnp:class", ClassName(t))];
    n := AppendDetails(n, values);
    n := AppendArt(n, db, uri, t, values);
  }

  /** The element as far as write gets with it. */
  method Build(db: Db, uri: string, key: string, t: NodeType, values: Node) returns (n: Xml, ok: bool)
    ensures ok == Complete(t, values)
    ensures ok ==> n == Object(db, uri, key, t, values)
    ensures n.name == ElementName(t) && n.attrs != [] && n.attrs[0] == ("id", key)
  {
    if "parent" !in values { return Xml(ElementName(t), [("id", key)], "", []), false; }
    n := BuildFrame(db, key, t, values["parent"]);
    var title := BuildTitle(t, values);
    if title.None? { return n, false; }
    n := BuildMedia(n, db, uri, t, values, title.value);
    n, ok := AppendResource(n, uri, key, t, values);
  }

  /** The root element the constructor makes, with the objects appended to it. */
  function Root(objects: seq<Xml>): Xml {
    Xml("DIDL-Lite",
        [("xmlns", "urn:schemas-upnp-org:metadata-1-0/DIDL-Lite/"), ("xmlns:dc", "http://purl.org/dc/elements/1.1/"),
         ("xmlns:dlna", "urn:schemas-dlna-org:metadata-1-0/"),
         ("xmlns:upnp", "urn:schemas-upnp-org:metadata-1-0/upnp/"), ("xmlns:pv", "http://www.pv.com/pvns/")],
        "", objects)
  }

  /** Its children are the objects, and it repeats no attribute name either. */
  lemma RootFormed(objects: seq<Xml>)
    ensures Root(objects).name == "DIDL-Lite" && Root(objects).children == objects && |Root(objects).attrs| == 5
    ensures DistinctNames(Root(objects).attrs)
  {
  }

  /** struct Didl: the children of the root element, and the count of objects written. */
  class Document {
    const uri: string
    var objects: seq<Xml>
    var result: nat

    /** Every object is well formed and each is counted. */
    ghost predicate Valid()
      reads this
    {
      result == |objects| && forall i | 0 <= i < |objects| :: WellFormed(objects[i])
    }

    constructor (uri: string)
      ensures this.uri == uri && objects == [] && result == 0
      ensures Valid()
    {
      this.uri := uri;
      objects, result := [], 0;
    }

    /** The document as printed: the count is the number of children of its root. */
    function Printed(): (root: Xml)
      reads this
      ensures Valid() ==> |root.children| == result
    {
      Root(objects)
    }

    /** Whatever was appended before an exception stays in the document, uncounted. */
    method Write(db: Db, key: string, values: Node) returns (ok: bool)
      modifies this`objects, this`result
      ensures ok == !WriteOutcome(db, uri, key, values).Missing?
      ensures match WriteOutcome(db, uri, key, values)
              case Skipped => objects == old(objects) && result == old(result)
              case Written(x) => objects == old(objects) + [x] && result == old(result) + 1
              case Missing =>
                && result == old(result)
                && |objects| == |old(objects)| + 1 && objects[..|old(objects)|] == old(objects)
                && objects[|old(objects)|].name == ElementName(ParseType(values["cls"]))
                && objects[|old(objects)|].attrs != [] && objects[|old(objects)|].attrs[0] == ("id", key)
      ensures old(Valid()) && ok ==> Valid()
      ensures old(Valid()) && !ok ==> result != |objects|
    {
      if "cls" !in values { return true; }
      var t := ParseType(values["cls"]);
      var n;
      n, ok := Build(db, uri, key, t, values);
      objects := objects + [n];
      if ok {
        ObjectWellFormed(db, uri, key, t, values);
        result := result + 1;
      }
    }
  }

  // ------------------------------------------------------- document invariant

  function CountNamed(xs: seq<Xml>, name: string): nat {
    if xs == [] then 0 else (if xs[0].name == name then 1 else 0) + CountNamed(xs[1..], name)
  }

  predicate DistinctNames(attrs: seq<Attribute>) {
    forall i, j | 0 <= i < j < |attrs| :: attrs[i].0 != attrs[j].0
  }

  /** A container exactly when its class says so, one title, one class, at most one res and
      that only on items, and no element repeats an attribute name. */
  predicate WellFormed(x: Xml) {
    && (x.name == "container" || x.name == "item")
    && |x.children| >= 2
    && x.children[0].name == "dc:title" && x.children[1].name == "upnp:class"
    && (x.name == "container" <==> StartsWith(x.children[1].text, "object.container"))
    && CountNamed(x.children, "dc:title") == 1
    && CountNamed(x.children, "upnp:class") == 1
    && CountNamed(x.children, "res") <= 1
    && (CountNamed(x.children, "res") == 1 ==> x.name == "item")
    && DistinctNames(x.attrs)
    && forall i | 0 <= i < |x.children| :: DistinctNames(x.children[i].attrs) && x.children[i].children == []
  }

  /** A title, a class, and then leaves that are neither, nor res. */
  predicate Body(xs: seq<Xml>) {
    && |xs| >= 2
    && xs[0].name == "dc:title" && xs[1].name == "upnp:class"
    && (forall i | 0 <= i < |xs| :: xs[i].children == [] && |xs[i].attrs| <= 1 && xs[i].name != "res")
    && (forall i | 2 <= i < |xs| :: xs[i].name != "dc:title" && xs[i].name != "upnp:class")
  }

  lemma {:induction false} CountNone(xs: seq<Xml>, name: string)
    requires forall i | 0 <= i < |xs| :: xs[i].name != name
    ensures CountNamed(xs, name) == 0
  {
    if xs != [] { CountNone(xs[1..], name); }
  }

  lemma {:induction false} CountSnoc(xs: seq<Xml>, x: Xml, name: string)
    ensures CountNamed(xs + [x], name) == CountNamed(xs, name) + if x.name == name then 1 else 0
  {
    if xs == [] {
      assert [x][1..] == [] && [] + [x] == [x];
    } else {
      assert (xs + [x])[1..] == xs[1..] + [x];
      CountSnoc(xs[1..], x, name);
    }
  }

  lemma BodyCounts(xs: seq<Xml>)
    requires Body(xs)
    ensures CountNamed(xs, "dc:title") == 1 && CountNamed(xs, "upnp:class") == 1 && CountNamed(xs, "res") == 0
  {
    var rest := xs[1..];
    assert forall i | 0 <= i < |rest| - 1 :: rest[1..][i] == xs[i + 2];
    CountNone(rest[1..], "dc:title");
    CountNone(rest[1..], "upnp:class");
    CountNone(xs, "res");
  }

  /** Names that are no title, class or res. */
  predicate Ordinary(shown: seq<Shown>) {
    forall i | 0 <= i < |shown| :: shown[i].0 != "dc:title" && shown[i].0 != "upnp:class" && shown[i].0 != "res"
  }

  lemma {:induction false} AddFieldsBody(xs: seq<Xml>, shown: seq<Shown>, values: Node)
    requires Body(xs) && Ordinary(shown)
    ensures Body(AddFields(xs, shown, values)) && AddFields(xs, shown, values)[1] == xs[1]
    decreases |shown|
  {
    if shown != [] {
      AddFieldsBody(AddOpt(xs, shown[0].0, values, shown[0].1), shown[1..], values);
    }
  }

  lemma AddArtBody(xs: seq<Xml>, db: Db, uri: string, t: NodeType, values: Node)
    requires Body(xs) && "parent" in values
    ensures Body(AddArt(xs, db, uri, t, values)) && AddArt(xs, db, uri, t, values)[1] == xs[1]
  {
  }

  predicate Avoids(attrs: seq<Attribute>, name: string) {
    forall i | 0 <= i < |attrs| :: attrs[i].0 != name
  }

  /** The names to come are pairwise distinct and none of them is used yet. */
  predicate Spares(attrs: seq<Attribute>, shown: seq<Shown>) {
    && DistinctNames(attrs)
    && (forall k | 0 <= k < |shown| :: Avoids(attrs, shown[k].0))
    && (forall j, k | 0 <= j < k < |shown| :: shown[j].0 != shown[k].0)
  }

  lemma {:induction false} AddAttrsDistinct(attrs: seq<Attribute>, shown: seq<Shown>, values: Node, other: string)
    requires Spares(attrs, shown)
    ensures DistinctNames(AddAttrs(attrs, shown, values))
    ensures Avoids(attrs, other) && (forall k | 0 <= k < |shown| :: shown[k].0 != other) ==>
              Avoids(AddAttrs(attrs, shown, values), other)
    decreases |shown|
  {
    if shown != [] {
      AddAttrsDistinct(AddAttr(attrs, shown[0].0, values, shown[0].1), shown[1..], values, other);
    }
  }

  lemma PictureAttrsDistinct(attrs: seq<Attribute>, values: Node)
    requires DistinctNames(attrs) && Avoids(attrs, "resolution") && Avoids(attrs, "colorDepth")
    ensures DistinctNames(AddPictureAttrs(attrs, values))
  {
    AddAttrsDistinct(AddResolution(attrs, values), DEPTH, values, "");
  }

  lemma FilmAttrs(attrs: seq<Attribute>, values: Node)
    requires DistinctNames(attrs) && Avoids(attrs, "resolution") && Avoids(attrs, "colorDepth")
    requires Avoids(attrs, "duration") && Avoids(attrs, "bitrate")
    ensures DistinctNames(AddPictureAttrs(AddAttrs(attrs, FILM, values), values))
  {
    AddAttrsDistinct(attrs, FILM, values, "resolution");
    AddAttrsDistinct(attrs, FILM, values, "colorDepth");
    PictureAttrsDistinct(AddAttrs(attrs, FILM, values), values);
  }

  lemma SoundAttrs(attrs: seq<Attribute>, values: Node)
    requires DistinctNames(attrs) && forall k | 0 <= k < |SOUND| :: Avoids(attrs, SOUND[k].0)
    ensures DistinctNames(AddAttrs(attrs, SOUND, values))
  {
    AddAttrsDistinct(attrs, SOUND, values, "");
  }

  lemma CommonAvoids(start: seq<Attribute>, values: Node, name: string)
    requires |start| == 1 && start[0].0 == "protocolInfo"
    requires name != "protocolInfo" && name != "size" && name != "mime-type"
    ensures DistinctNames(AddAttrs(start, COMMON, values)) && Avoids(AddAttrs(start, COMMON, values), name)
  {
    AddAttrsDistinct(start, COMMON, values, name);
  }

  lemma ResourceAttrsDistinct(t: NodeType, values: Node)
    requires "mimeType" in values
    ensures DistinctNames(ResourceAttrs(t, values))
  {
    var start: seq<Attribute> := [("protocolInfo", ProtocolInfo(values["mimeType"]))];
    var attrs := AddAttrs(start, COMMON, values);
    CommonAvoids(start, values, "duration");
    CommonAvoids(start, values, "bitrate");
    CommonAvoids(start, values, "resolution");
    CommonAvoids(start, values, "colorDepth");
    match t
    case Audio =>
      CommonAvoids(start, values, "bitsPerSample");
      CommonAvoids(start, values, "sampleFrequency");
      CommonAvoids(start, values, "nrAudioChannels");
      SoundAttrs(attrs, values);
    case Movie => FilmAttrs(attrs, values);
    case Image => PictureAttrsDistinct(attrs, values);
    case Cover => PictureAttrsDistinct(attrs, values);
    case _ =>
  }

  lemma ClassMatchesElement(t: NodeType)
    ensures ElementName(t) == "container" <==> StartsWith(ClassName(t), "object.container")
  {
    var s := ClassName(t);
    match t
    case Folder => assert s[..16] == "object.container";
    case Serie => assert s[..16] == "object.container";
    case Album => assert s[..16] == "object.container";
    case Artist => assert s[..16] == "object.container";
    case _ => assert s[7] == 'i';
  }

  lemma {:induction false} FrameFormed(db: Db, key: string, t: NodeType, parent: string, xs: seq<Xml>)
    requires |xs| >= 2 && xs[0].name == "dc:title" && xs[1].name == "upnp:class" && xs[1].text == ClassName(t)
    requires CountNamed(xs, "dc:title") == 1 && CountNamed(xs, "upnp:class") == 1
    requires CountNamed(xs, "res") == if HasResource(t) then 1 else 0
    requires forall i | 0 <= i < |xs| :: DistinctNames(xs[i].attrs) && xs[i].children == []
    ensures WellFormed(Frame(db, key, t, parent).(children := xs))
  {
    ClassMatchesElement(t);
  }

  lemma BodyFormed(db: Db, key: string, t: NodeType, parent: string, xs: seq<Xml>)
    requires Body(xs) && xs[1].text == ClassName(t) && !HasResource(t)
    ensures WellFormed(Frame(db, key, t, parent).(children := xs))
  {
    BodyCounts(xs);
    FrameFormed(db, key, t, parent, xs);
  }

  lemma BodyFormedWithResource(db: Db, key: string, t: NodeType, parent: string, xs: seq<Xml>, res: Xml)
    requires Body(xs) && xs[1].text == ClassName(t) && HasResource(t)
    requires res.name == "res" && res.children == [] && DistinctNames(res.attrs)
    ensures WellFormed(Frame(db, key, t, parent).(children := xs + [res]))
  {
    BodyCounts(xs);
    CountSnoc(xs, res, "dc:title");
    CountSnoc(xs, res, "upnp:class");
    CountSnoc(xs, res, "res");
    FrameFormed(db, key, t, parent, xs + [res]);
  }

  lemma ResourceFormed(db: Db, uri: string, key: string, t: NodeType, parent: string, values: Node, xs: seq<Xml>)
    requires Body(xs) && xs[1].text == ClassName(t)
    requires HasResource(t) ==> "ext" in values && "mimeType" in values
    ensures WellFormed(Frame(db, key, t, parent).(children := AddResource(xs, uri, key, t, values)))
  {
    if HasResource(t) {
      ResourceAttrsDistinct(t, values);
      var res := Xml("res", ResourceAttrs(t, values), uri + "/res/" + key + values["ext"], []);
      BodyFormedWithResource(db, key, t, parent, xs, res);
    } else {
      BodyFormed(db, key, t, parent, xs);
    }
  }

  lemma HeadBody(title: string, cls: string)
    ensures Body([Element("dc:title", title), Element("upnp:class", cls)])
  {
  }

  lemma MediaBody(db: Db, uri: string, t: NodeType, values: Node, title: string)
    requires "parent" in values
    ensures Body(Media(db, uri, t, values, title)) && Media(db, uri, t, values, title)[1].text == ClassName(t)
  {
    var xs := [Element("dc:title", title), Element("upnp:class", ClassName(t))];
    HeadBody(title, ClassName(t));
    AddFieldsBody(xs, DETAILS, values);
    AddArtBody(AddFields(xs, DETAILS, values), db, uri, t, values);
  }

  /** Every object write completes is well formed. */
  lemma ObjectWellFormed(db: Db, uri: string, key: string, t: NodeType, values: Node)
    requires Complete(t, values)
    ensures WellFormed(Object(db, uri, key, t, values))
  {
    var title := Title(t, values);
    MediaBody(db, uri, t, values, title);
    ResourceFormed(db, uri, key, t, values["parent"], values, Media(db, uri, t, values, title));
  }

  // ----------------------------------------------------------- fields shown

  lemma {:induction false} AddFieldsKeeps(xs: seq<Xml>, shown: seq<Shown>, values: Node, x: Xml)
    ensures x in xs ==> x in AddFields(xs, shown, values)
    decreases |shown|
  {
    if shown != [] { AddFieldsKeeps(AddOpt(xs, shown[0].0, values, shown[0].1), shown[1..], values, x); }
  }

  lemma {:induction false} FieldIsShown(xs: seq<Xml>, shown: seq<Shown>, values: Node, k: nat)
    requires k < |shown| && shown[k].1 in values
    ensures Element(shown[k].0, values[shown[k].1]) in AddFields(xs, shown, values)
    decreases |shown|
  {
    var next := AddOpt(xs, shown[0].0, values, shown[0].1);
    if k == 0 {
      AddFieldsKeeps(next, shown[1..], values, Element(shown[0].0, values[shown[0].1]));
    } else {
      FieldIsShown(next, shown[1..], values, k - 1);
    }
  }

  lemma {:induction false} OnlyFieldsShown(xs: seq<Xml>, shown: seq<Shown>, values: Node, x: Xml)
    requires x in AddFields(xs, shown, values) && x !in xs
    ensures exists k | 0 <= k < |shown| :: shown[k].1 in values && x == Element(shown[k].0, values[shown[k].1])
    decreases |shown|
  {
    if shown != [] {
      var next := AddOpt(xs, shown[0].0, values, shown[0].1);
      if x !in next {
        OnlyFieldsShown(next, shown[1..], values, x);
        var rest := shown[1..];
        var k :| 0 <= k < |rest| && rest[k].1 in values && x == Element(rest[k].0, values[rest[k].1]);
        assert shown[k + 1] == shown[1..][k];
      } else {
        assert shown[0].1 in values;
      }
    }
  }

  /** x shows one of the details the node has, under its name. */
  predicate IsDetail(x: Xml, values: Node) {
    exists k | 0 <= k < |DETAILS| :: DETAILS[k].1 in values && x == Element(DETAILS[k].0, values[DETAILS[k].1])
  }

  lemma FieldsExact(xs: seq<Xml>, values: Node, x: Xml)
    ensures x in AddFields(xs, DETAILS, values) <==> x in xs || IsDetail(x, values)
  {
    AddFieldsKeeps(xs, DETAILS, values, x);
    if x in AddFields(xs, DETAILS, values) && x !in xs { OnlyFieldsShown(xs, DETAILS, values, x); }
    if IsDetail(x, values) {
      var k :| 0 <= k < |DETAILS| && DETAILS[k].1 in values && x == Element(DETAILS[k].0, values[DETAILS[k].1]);
      FieldIsShown(xs, DETAILS, values, k);
    }
  }

  lemma ArtExact(xs: seq<Xml>, db: Db, uri: string, t: NodeType, values: Node, x: Xml)
    requires "parent" in values
    ensures x in AddArt(xs, db, uri, t, values) <==> x in xs || x in AddArt([], db, uri, t, values)
  {
  }

  lemma ResourceExact(xs: seq<Xml>, uri: string, key: string, t: NodeType, values: Node, x: Xml)
    requires HasResource(t) ==> "ext" in values && "mimeType" in values
    ensures x in AddResource(xs, uri, key, t, values) <==> x in xs || x in AddResource([], uri, key, t, values)
  {
  }

  /** What an object shows, and nothing else: its title, its class, each detail the node
      has, and what AddArt and AddResource append for its type. */
  lemma ChildrenExact(db: Db, uri: string, key: string, t: NodeType, values: Node, xs: seq<Xml>, x: Xml)
    requires Complete(t, values) && xs == Object(db, uri, key, t, values).children
    ensures x in xs <==>
            || x == Element("dc:title", Title(t, values)) || x == Element("upnp:class", ClassName(t))
            || IsDetail(x, values)
            || x in AddArt([], db, uri, t, values) || x in AddResource([], uri, key, t, values)
  {
    var head := [Element("dc:title", Title(t, values)), Element("upnp:class", ClassName(t))];
    var details := AddFields(head, DETAILS, values);
    FieldsExact(head, values, x);
    ArtExact(details, db, uri, t, values, x);
    ResourceExact(AddArt(details, db, uri, t, values), uri, key, t, values, x);
    HeadExact(head[0], head[1], x);
  }

  lemma HeadExact(a: Xml, b: Xml, x: Xml)
    ensures x in [a, b] <==> x == a || x == b
  {
  }

  /** The children of an object show this field under this name, if the node has it. */
  predicate Shows(xs: seq<Xml>, name: string, values: Node, field: string) {
    field in values ==> Element(name, values[field]) in xs
  }

  lemma DetailShown(db: Db, uri: string, key: string, t: NodeType, values: Node, xs: seq<Xml>, k: nat)
    requires Complete(t, values) && k < |DETAILS| && xs == Object(db, uri, key, t, values).children
    ensures Shows(xs, DETAILS[k].0, values, DETAILS[k].1)
  {
    if DETAILS[k].1 in values {
      var x := Element(DETAILS[k].0, values[DETAILS[k].1]);
      assert IsDetail(x, values);
      ChildrenExact(db, uri, key, t, values, xs, x);
    }
  }

  /** By name: the year is shown twice, under dc:data as well as dc:date. */
  lemma DetailsShown(db: Db, uri: string, key: string, t: NodeType, values: Node, xs: seq<Xml>)
    requires Complete(t, values) && xs == Object(db, uri, key, t, values).children
    ensures Element("dc:title", Title(t, values)) in xs && Element("upnp:class", ClassName(t)) in xs
    ensures Shows(xs, "dc:data", values, "year") && Shows(xs, "dc:date", values, "year")
    ensures Shows(xs, "upnp:artist", values, "artist") && Shows(xs, "upnp:originalTrackNumber", values, "track")
    ensures Shows(xs, "upnp:album", values, "album") && Shows(xs, "upnp:description", values, "comment")
    ensures Shows(xs, "upnp:genre", values, "genre")
  {
    ChildrenExact(db, uri, key, t, values, xs, Element("dc:title", Title(t, values)));
    ChildrenExact(db, uri, key, t, values, xs, Element("upnp:class", ClassName(t)));
    forall k | 0 <= k < |DETAILS| ensures Shows(xs, DETAILS[k].0, values, DETAILS[k].1) {
      DetailShown(db, uri, key, t, values, xs, k);
    }
    AllSeven(xs, values);
  }

  lemma AllSeven(xs: seq<Xml>, values: Node)
    requires forall k | 0 <= k < |DETAILS| :: Shows(xs, DETAILS[k].0, values, DETAILS[k].1)
    ensures Shows(xs, "dc:data", values, "year") && Shows(xs, "dc:date", values, "year")
    ensures Shows(xs, "upnp:artist", values, "artist") && Shows(xs, "upnp:originalTrackNumber", values, "track")
    ensures Shows(xs, "upnp:album", values, "album") && Shows(xs, "upnp:description", values, "comment")
    ensures Shows(xs, "upnp:genre", values, "genre")
  {
    assert Shows(xs, DETAILS[0].0, values, DETAILS[0].1) && Shows(xs, DETAILS[1].0, values, DETAILS[1].1);
    assert Shows(xs, DETAILS[2].0, values, DETAILS[2].1) && Shows(xs, DETAILS[3].0, values, DETAILS[3].1);
    assert Shows(xs, DETAILS[4].0, values, DETAILS[4].1) && Shows(xs, DETAILS[5].0, values, DETAILS[5].1);
    assert Shows(xs, DETAILS[6].0, values, DETAILS[6].1);
  }
}
