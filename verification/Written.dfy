/** The objects of a DIDL document written out: each part of an element by its text, in
    document order, for every class text a node can have. */
module Written {
  import opened Text
  import opened Keys
  import opened Redis
  import opened Datastore
  import opened Didl

  // --------------------------------------------------------- what is expected

  function ClassText(cls: string): string {
    if cls == "folder" then "object.container.storageFolder"
    else if cls == "audio" then "object.item.audioItem.musicTrack"
    else if cls == "movie" || cls == "episode" then "object.item.movie"
    else if cls == "serie" then "object.container.series"
    else if cls == "image" || cls == "cover" then "object.item.photo"
    else if cls == "album" then "object.container.album.musicAlbum"
    else if cls == "artist" then "object.container"
    else "object.item"
  }

  function ElementText(cls: string): string {
    if cls == "album" || cls == "artist" || cls == "folder" || cls == "serie" then "container" else "item"
  }

  /** Audio, images, covers, movies, files, and every class that is no type, which counts as
      a file. */
  predicate HasRes(cls: string) {
    && cls != "folder" && cls != "serie" && cls != "ebook"
    && cls != "album" && cls != "episode" && cls != "artist"
  }

  /** A node with a class has every field write reads with at(). */
  predicate NothingMissing(values: Node)
    requires "cls" in values
  {
    && "parent" in values && "name" in values
    && (values["cls"] == "episode" ==> "season" in values && "episode" in values)
    && (HasRes(values["cls"]) ==> "ext" in values && "mimeType" in values)
  }

  function TitleText(values: Node): string
    requires "cls" in values && NothingMissing(values)
  {
    if values["cls"] == "episode" then "S" + values["season"] + values["episode"] + " " + values["name"]
    else values["name"]
  }

  function ParentText(parent: string): string {
    if parent == "" then "-1" else if parent == "root" then "0" else parent
  }

  /** An element for a field, if the node has it. */
  function Opt(name: string, values: Node, field: string): seq<Xml> {
    if field in values then [Xml(name, [], values[field], [])] else []
  }

  /** An attribute for a field, if the node has it. */
  function OptAttr(name: string, values: Node, field: string): seq<Attribute> {
    if field in values then [(name, values[field])] else []
  }

  /** The head of an element with its details behind it. */
  function WithDetails(head: seq<Xml>, values: Node): seq<Xml> {
    head + Opt("dc:data", values, "year") + Opt("upnp:artist", values, "artist") +
    Opt("upnp:originalTrackNumber", values, "track") + Opt("upnp:album", values, "album") +
    Opt("upnp:description", values, "comment") + Opt("dc:date", values, "year") + Opt("upnp:genre", values, "genre")
  }

  function FieldAt(db: Db, key: string, field: string): string {
    if key in db && db[key].Hash? && field in db[key].fields then db[key].fields[field] else ""
  }

  function CountAt(db: Db, key: string): nat {
    if key in db && db[key].ZSet? then |db[key].entries| else 0
  }

  function ArtText(db: Db, uri: string, values: Node): seq<Xml>
    requires "cls" in values && NothingMissing(values)
  {
    if values["cls"] == "audio" then
      var picture := FieldAt(db, "fs:" + values["parent"] + ":node", "med");
      [Xml("albumArtURI", [("dlna:profileID", "JPEG_MED")], uri + picture, [])]
    else if "thumb" in values then [Xml("albumArtURI", [("dlna:profileID", "JPEG_TN")], uri + values["thumb"], [])]
    else []
  }

  function ResolutionText(values: Node): seq<Attribute> {
    if "width" in values && "height" in values then [("resolution", values["width"] + "x" + values["height"])] else []
  }

  function WithPicture(attrs: seq<Attribute>, values: Node): seq<Attribute> {
    attrs + ResolutionText(values) + OptAttr("colorDepth", values, "BitsPerSample")
  }

  function WithMedia(attrs: seq<Attribute>, cls: string, values: Node): seq<Attribute> {
    if cls == "audio" then
      attrs + OptAttr("duration", values, "playlength") + OptAttr("bitrate", values, "bitrate") +
      OptAttr("bitsPerSample", values, "bps") + OptAttr("sampleFrequency", values, "samplerate") +
      OptAttr("nrAudioChannels", values, "channels")
    else if cls == "movie" then
      WithPicture(attrs + OptAttr("duration", values, "playlength") + OptAttr("bitrate", values, "bitrate"), values)
    else if cls == "image" || cls == "cover" then WithPicture(attrs, values)
    else attrs
  }

  function ResTexts(uri: string, key: string, values: Node): seq<Xml>
    requires "cls" in values && NothingMissing(values)
  {
    if !HasRes(values["cls"]) then []
    else
      var protocol :=
        "http-get:*:" + values["mimeType"] + ":DLNA.ORG_OP=11;DLNA.ORG_FLAGS=01700000000000000000000000000000";
      var common := [("protocolInfo", protocol)] + OptAttr("size", values, "size") +
                    OptAttr("mime-type", values, "mimeType");
      [Xml("res", WithMedia(common, values["cls"], values), uri + "/res/" + key + values["ext"], [])]
  }

  function AttrTexts(db: Db, key: string, parent: string): seq<Attribute> {
    [("id", key), ("parentID", ParentText(parent)), ("restricted", "1"),
     ("childCount", Decimal(CountAt(db, "fs:" + key + ":list")))]
  }

  function ChildTexts(db: Db, uri: string, key: string, values: Node): seq<Xml>
    requires "cls" in values && NothingMissing(values)
  {
    var head := [Xml("dc:title", [], TitleText(values), []), Xml("upnp:class", [], ClassText(values["cls"]), [])];
    WithDetails(head, values) + ArtText(db, uri, values) + ResTexts(uri, key, values)
  }

  // ------------------------------------------------------------------ proofs

  /** One step through a table of fields. */
  lemma FieldStep(xs: seq<Xml>, shown: seq<Shown>, values: Node)
    requires shown != []
    ensures AddFields(xs, shown, values) == AddFields(xs + Opt(shown[0].0, values, shown[0].1), shown[1..], values)
  {
    assert AddOpt(xs, shown[0].0, values, shown[0].1) == xs + Opt(shown[0].0, values, shown[0].1);
  }

  lemma AttrStep(attrs: seq<Attribute>, shown: seq<Shown>, values: Node)
    requires shown != []
    ensures AddAttrs(attrs, shown, values) ==
            AddAttrs(attrs + OptAttr(shown[0].0, values, shown[0].1), shown[1..], values)
  {
    assert AddAttr(attrs, shown[0].0, values, shown[0].1) == attrs + OptAttr(shown[0].0, values, shown[0].1);
  }

  lemma DetailsAreTexts(xs: seq<Xml>, values: Node)
    ensures AddFields(xs, DETAILS, values) == WithDetails(xs, values)
  {
    var x1 := xs + Opt("dc:data", values, "year");
    var x2 := x1 + Opt("upnp:artist", values, "artist");
    var x3 := x2 + Opt("upnp:originalTrackNumber", values, "track");
    var x4 := x3 + Opt("upnp:album", values, "album");
    var x5 := x4 + Opt("upnp:description", values, "comment");
    var x6 := x5 + Opt("dc:date", values, "year");
    FieldStep(xs, DETAILS, values);
    FieldStep(x1, DETAILS[1..], values);
    FieldStep(x2, DETAILS[1..][1..], values);
    FieldStep(x3, DETAILS[1..][1..][1..], values);
    FieldStep(x4, DETAILS[1..][1..][1..][1..], values);
    FieldStep(x5, DETAILS[1..][1..][1..][1..][1..], values);
    FieldStep(x6, DETAILS[1..][1..][1..][1..][1..][1..], values);
  }

  lemma CommonAreTexts(attrs: seq<Attribute>, values: Node)
    ensures AddAttrs(attrs, COMMON, values) ==
            attrs + OptAttr("size", values, "size") + OptAttr("mime-type", values, "mimeType")
  {
    AttrStep(attrs, COMMON, values);
    AttrStep(attrs + OptAttr("size", values, "size"), COMMON[1..], values);
  }

  lemma SoundIsTexts(attrs: seq<Attribute>, values: Node)
    ensures AddAttrs(attrs, SOUND, values) == WithMedia(attrs, "audio", values)
  {
    var a1 := attrs + OptAttr("duration", values, "playlength");
    var a2 := a1 + OptAttr("bitrate", values, "bitrate");
    var a3 := a2 + OptAttr("bitsPerSample", values, "bps");
    var a4 := a3 + OptAttr("sampleFrequency", values, "samplerate");
    AttrStep(attrs, SOUND, values);
    AttrStep(a1, SOUND[1..], values);
    AttrStep(a2, SOUND[1..][1..], values);
    AttrStep(a3, SOUND[1..][1..][1..], values);
    AttrStep(a4, SOUND[1..][1..][1..][1..], values);
  }

  lemma PictureIsTexts(attrs: seq<Attribute>, values: Node)
    ensures AddPictureAttrs(attrs, values) == WithPicture(attrs, values)
  {
    assert AddResolution(attrs, values) == attrs + ResolutionText(values);
    AttrStep(attrs + ResolutionText(values), DEPTH, values);
  }

  lemma FilmIsTexts(attrs: seq<Attribute>, values: Node)
    ensures AddPictureAttrs(AddAttrs(attrs, FILM, values), values) == WithMedia(attrs, "movie", values)
  {
    var a1 := attrs + OptAttr("duration", values, "playlength");
    AttrStep(attrs, FILM, values);
    AttrStep(a1, FILM[1..], values);
    PictureIsTexts(a1 + OptAttr("bitrate", values, "bitrate"), values);
  }

  lemma MediaIsTexts(attrs: seq<Attribute>, cls: string, values: Node)
    ensures AddMediaAttrs(attrs, ParseType(cls), values) == WithMedia(attrs, cls, values)
  {
    if cls == "audio" {
      SoundIsTexts(attrs, values);
    } else if cls == "movie" {
      FilmIsTexts(attrs, values);
    } else {
      PictureIsTexts(attrs, values);
    }
  }

  /** The type of a class text decides as the text does. */
  lemma TypeByText(cls: string)
    ensures ClassName(ParseType(cls)) == ClassText(cls)
    ensures ElementName(ParseType(cls)) == ElementText(cls)
    ensures HasResource(ParseType(cls)) <==> HasRes(cls)
    ensures ParseType(cls) == Episode <==> cls == "episode"
    ensures ParseType(cls) == Audio <==> cls == "audio"
  {
  }

  lemma ResourceIsTexts(xs: seq<Xml>, uri: string, key: string, values: Node)
    requires "cls" in values && NothingMissing(values)
    requires HasResource(ParseType(values["cls"])) <==> HasRes(values["cls"])
    ensures AddResource(xs, uri, key, ParseType(values["cls"]), values) == xs + ResTexts(uri, key, values)
  {
    if HasRes(values["cls"]) {
      var start := [("protocolInfo", ProtocolInfo(values["mimeType"]))];
      CommonAreTexts(start, values);
      MediaIsTexts(AddAttrs(start, COMMON, values), values["cls"], values);
    }
  }

  lemma ArtIsTexts(xs: seq<Xml>, db: Db, uri: string, values: Node)
    requires "cls" in values && NothingMissing(values)
    requires ParseType(values["cls"]) == Audio <==> values["cls"] == "audio"
    ensures AddArt(xs, db, uri, ParseType(values["cls"]), values) == xs + ArtText(db, uri, values)
  {
    KeyTexts(values["parent"], Folder);
  }

  lemma FrameIsTexts(db: Db, key: string, t: NodeType, parent: string)
    ensures Frame(db, key, t, parent) == Xml(ElementName(t), AttrTexts(db, key, parent), "", [])
  {
    KeyTexts(key, Folder);
  }

  lemma CompleteIsNothingMissing(values: Node)
    requires "cls" in values
    ensures Complete(ParseType(values["cls"]), values) <==> NothingMissing(values)
  {
    TypeByText(values["cls"]);
  }

  lemma ChildrenAreTexts(db: Db, uri: string, key: string, values: Node)
    requires "cls" in values && NothingMissing(values) && Complete(ParseType(values["cls"]), values)
    ensures Object(db, uri, key, ParseType(values["cls"]), values).children == ChildTexts(db, uri, key, values)
  {
    var t := ParseType(values["cls"]);
    TypeByText(values["cls"]);
    var head := [Element("dc:title", Title(t, values)), Element("upnp:class", ClassName(t))];
    DetailsAreTexts(head, values);
    ArtIsTexts(WithDetails(head, values), db, uri, values);
    ResourceIsTexts(WithDetails(head, values) + ArtText(db, uri, values), uri, key, values);
  }

  /** When write appends nothing, an object, or runs into a missing field. */
  lemma OutcomeTexts(db: Db, uri: string, key: string, values: Node)
    ensures WriteOutcome(db, uri, key, values).Skipped? <==> "cls" !in values
    ensures WriteOutcome(db, uri, key, values).Missing? <==> "cls" in values && !NothingMissing(values)
  {
    if "cls" in values { CompleteIsNothingMissing(values); }
  }

  /** The object written for a node: element, attributes, title, class, details, art and
      resource, each text by text and in this order. */
  lemma ObjectTexts(db: Db, uri: string, key: string, values: Node, x: Xml)
    requires WriteOutcome(db, uri, key, values) == Outcome.Written(x)
    ensures "cls" in values && NothingMissing(values)
    ensures x == Xml(ElementText(values["cls"]), AttrTexts(db, key, values["parent"]), "",
                     ChildTexts(db, uri, key, values))
  {
    OutcomeTexts(db, uri, key, values);
    TypeByText(values["cls"]);
    FrameIsTexts(db, key, ParseType(values["cls"]), values["parent"]);
    ChildrenAreTexts(db, uri, key, values);
  }
}
