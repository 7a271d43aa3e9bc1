/** The device description: the tree Server::description builds (src/server.cpp) and the
    Device a control point reads from such a tree (src/device.h). */
module Description {
  import opened Text
  import opened Lease
  import opened Didl

  // ----------------------------------------------------------------- reading

  datatype Icon = Icon(mimeType: string, width: int, height: int, depth: int, url: string)

  datatype Service = Service(serviceType: string, serviceId: string, scpdUrl: string, controlUrl: string,
                             eventSubUrl: string)

  datatype Info = Info(versionMajor: int, versionMinor: int, deviceType: string, presentationUrl: string,
                       friendlyName: string, manufacturer: string, manufacturerUrl: string, modelNumber: string,
                       modelDescription: string, modelName: string, udn: string, urlBase: string,
                       serialNumber: string, icons: seq<Icon>, services: seq<Service>)

  /** xml_node::local_name: the name after its prefix. */
  function LocalName(name: string): string {
    if ':' !in name then name
    else if name[0] == ':' then name[1..]
    else LocalName(name[1..])
  }

  function Local(x: Xml): string {
    LocalName(x.name)
  }

  /** std::atoi, for texts whose number fits. */
  function Atoi(s: string): int {
    var t := SkipSpaces(s);
    var signed := t != "" && (t[0] == '-' || t[0] == '+');
    var v: int := DigitsValue(LeadingDigits(if signed then t[1..] else t));
    if signed && t[0] == '-' then -v else v
  }

  /** Folds f over the nodes in order. */
  function Fold<A>(f: (A, Xml) -> A, start: A, xs: seq<Xml>): A {
    if xs == [] then start else f(Fold(f, start, xs[..|xs| - 1]), xs[|xs| - 1])
  }

  function ReadIconField(icon: Icon, x: Xml): Icon {
    if Local(x) == "mimetype" then icon.(mimeType := x.text)
    else if Local(x) == "width" then icon.(width := Atoi(x.text))
    else if Local(x) == "height" then icon.(height := Atoi(x.text))
    else if Local(x) == "depth" then icon.(depth := Atoi(x.text))
    else if Local(x) == "url" then icon.(url := x.text)
    else icon
  }

  function ReadIcon(x: Xml): Icon {
    Fold(ReadIconField, Icon("", 0, 0, 0, ""), x.children)
  }

  function ReadIconList(icons: seq<Icon>, x: Xml): seq<Icon> {
    if Local(x) == "icon" then icons + [ReadIcon(x)] else icons
  }

  function ReadServiceField(s: Service, x: Xml): Service {
    if Local(x) == "serviceType" then s.(serviceType := x.text)
    else if Local(x) == "serviceId" then s.(serviceId := x.text)
    else if Local(x) == "SCPDURL" then s.(scpdUrl := x.text)
    else if Local(x) == "controlURL" then s.(controlUrl := x.text)
    else if Local(x) == "eventSubURL" then s.(eventSubUrl := x.text)
    else s
  }

  function ReadService(x: Xml): Service {
    Fold(ReadServiceField, Service("", "", "", "", ""), x.children)
  }

  function ReadServiceList(services: seq<Service>, x: Xml): seq<Service> {
    if Local(x) == "service" then services + [ReadService(x)] else services
  }

  function ReadVersionField(info: Info, x: Xml): Info {
    if Local(x) == "major" then info.(versionMajor := Atoi(x.text))
    else if Local(x) == "minor" then info.(versionMinor := Atoi(x.text))
    else info
  }

  function ReadDeviceField(info: Info, x: Xml): Info {
    if Local(x) == "deviceType" then info.(deviceType := x.text)
    else if Local(x) == "presentationURL" then info.(presentationUrl := x.text)
    else if Local(x) == "friendlyName" then info.(friendlyName := x.text)
    else if Local(x) == "manufacturer" then info.(manufacturer := x.text)
    else if Local(x) == "manufacturerURL" then info.(manufacturerUrl := x.text)
    else if Local(x) == "modelNumber" then info.(modelNumber := x.text)
    else if Local(x) == "modelDescription" then info.(modelDescription := x.text)
    else if Local(x) == "modelName" then info.(modelName := x.text)
    else if Local(x) == "UDN" then info.(udn := x.text)
    else if Local(x) == "urlBase" then info.(urlBase := x.text)
    else if Local(x) == "serialNumber" then info.(serialNumber := x.text)
    else if Local(x) == "iconList" then info.(icons := Fold(ReadIconList, info.icons, x.children))
    else if Local(x) == "serviceList" then info.(services := Fold(ReadServiceList, info.services, x.children))
    else info
  }

  function ReadRootField(info: Info, x: Xml): Info {
    if Local(x) == "specVersion" then Fold(ReadVersionField, info, x.children)
    else if Local(x) == "device" then Fold(ReadDeviceField, info, x.children)
    else if Local(x) == "URLBase" then info.(urlBase := x.text)
    else info
  }

  /** What parse leaves in a device that held info. */
  function Read(info: Info, root: Xml): Info {
    Fold(ReadRootField, info, root.children)
  }

  // ------------------------------------------------------------ the visits

  predicate Visited(localName: string, x: Xml) {
    localName == "*" || Local(x) == localName
  }

  /** The nodes FOR passes to its callback: those with the name, in order, or all of them. */
  function Named(localName: string, xs: seq<Xml>): seq<Xml> {
    if xs == [] then []
    else
      var before := Named(localName, xs[..|xs| - 1]);
      if Visited(localName, xs[|xs| - 1]) then before + [xs[|xs| - 1]] else before
  }

  /** FOR: the sibling loop, with its test on the name. */
  method For(localName: string, root: Xml) returns (visited: seq<Xml>)
    ensures visited == Named(localName, root.children)
  {
    var xs := root.children;
    visited := [];
    for i := 0 to |xs|
      invariant visited == Named(localName, xs[..i])
    {
      assert xs[..i + 1][..i] == xs[..i];
      if localName == "*" || Local(xs[i]) == localName { visited := visited + [xs[i]]; }
    }
    assert xs[..|xs|] == xs;
  }

  lemma {:induction false} NamedAll(xs: seq<Xml>)
    ensures Named("*", xs) == xs
  {
    if xs != [] { NamedAll(xs[..|xs| - 1]); }
  }

  lemma FoldStep<A>(f: (A, Xml) -> A, start: A, xs: seq<Xml>, i: nat)
    requires i < |xs|
    ensures Fold(f, start, xs[..i + 1]) == f(Fold(f, start, xs[..i]), xs[i])
  {
    assert xs[..i + 1][..i] == xs[..i];
  }

  /** Visiting the named nodes is visiting all of them with a test inside. */
  lemma {:induction false} FoldNamed<A(!new)>(f: (A, Xml) -> A, g: (A, Xml) -> A, localName: string, start: A,
                                              xs: seq<Xml>)
    requires forall a, x :: g(a, x) == if Visited(localName, x) then f(a, x) else a
    ensures Fold(f, start, Named(localName, xs)) == Fold(g, start, xs)
  {
    if xs != [] {
      var before, x := xs[..|xs| - 1], xs[|xs| - 1];
      FoldNamed(f, g, localName, start, before);
      var named := Named(localName, before);
      if Visited(localName, x) { assert (named + [x])[..|named|] == named; }
    }
  }

  function AddIcon(icons: seq<Icon>, x: Xml): seq<Icon> {
    icons + [ReadIcon(x)]
  }

  function AddService(services: seq<Service>, x: Xml): seq<Service> {
    services + [ReadService(x)]
  }

  method ParseIcon(node: Xml) returns (icon: Icon)
    ensures icon == ReadIcon(node)
  {
    icon := Icon("", 0, 0, 0, "");
    var nodes := For("*", node);
    NamedAll(node.children);
    ghost var start := icon;
    for i := 0 to |nodes|
      invariant icon == Fold(ReadIconField, start, nodes[..i])
    {
      FoldStep(ReadIconField, start, nodes, i);
      icon := ParseIconField(icon, nodes[i]);
    }
    assert nodes[..|nodes|] == nodes;
  }

  method ParseIconField(start: Icon, x: Xml) returns (icon: Icon)
    ensures icon == ReadIconField(start, x)
  {
    icon := start;
    if Local(x) == "mimetype" { icon := icon.(mimeType := x.text); }
    else if Local(x) == "width" { icon := icon.(width := Atoi(x.text)); }
    else if Local(x) == "height" { icon := icon.(height := Atoi(x.text)); }
    else if Local(x) == "depth" { icon := icon.(depth := Atoi(x.text)); }
    else if Local(x) == "url" { icon := icon.(url := x.text); }
  }

  method ParseService(node: Xml) returns (service: Service)
    ensures service == ReadService(node)
  {
    service := Service("", "", "", "", "");
    var nodes := For("*", node);
    NamedAll(node.children);
    ghost var start := service;
    for i := 0 to |nodes|
      invariant service == Fold(ReadServiceField, start, nodes[..i])
    {
      FoldStep(ReadServiceField, start, nodes, i);
      service := ParseServiceField(service, nodes[i]);
    }
    assert nodes[..|nodes|] == nodes;
  }

  method ParseServiceField(start: Service, x: Xml) returns (service: Service)
    ensures service == ReadServiceField(start, x)
  {
    service := start;
    if Local(x) == "serviceType" { service := service.(serviceType := x.text); }
    else if Local(x) == "serviceId" { service := service.(serviceId := x.text); }
    else if Local(x) == "SCPDURL" { service := service.(scpdUrl := x.text); }
    else if Local(x) == "controlURL" { service := service.(controlUrl := x.text); }
    else if Local(x) == "eventSubURL" { service := service.(eventSubUrl := x.text); }
  }

  /** struct Device: its description, when it was last touched, and its lease. */
  class Device {
    var info: Info
    var timestamp: nat
    var timeoutAfter: int

    constructor (info: Info, now: nat)
      ensures this.info == info && timestamp == now && timeoutAfter == ANNOUNCE_INTERVAL
    {
      this.info, timestamp, timeoutAfter := info, now, 1800;
    }

    method Touch(now: nat)
      modifies this`timestamp
      ensures timestamp == now
    {
      timestamp := now;
    }

    method SetTimeout(timeout: int)
      modifies this`timeoutAfter
      ensures timeoutAfter == timeout
    {
      timeoutAfter := timeout;
    }

    method Timeout(now: nat) returns (r: bool)
      requires timestamp <= now
      ensures r <==> (now - timestamp) % 4_294_967_296_000 >= timeoutAfter * 1000
    {
      r := ElapsedSeconds(now - timestamp) >= timeoutAfter;
      TimedOutExact(now, timestamp, timeoutAfter);
    }

    /** parse: one loop for each level of the tree. */
    method Parse(root: Xml)
      modifies this`info
      ensures info == Read(old(info), root)
    {
      var nodes := For("*", root);
      NamedAll(root.children);
      ghost var start := info;
      for i := 0 to |nodes|
        invariant info == Fold(ReadRootField, start, nodes[..i])
      {
        FoldStep(ReadRootField, start, nodes, i);
        var x := nodes[i];
        if Local(x) == "specVersion" { ParseVersion(x); }
        else if Local(x) == "device" { ParseDevice(x); }
        else if Local(x) == "URLBase" { info := info.(urlBase := x.text); }
      }
      assert nodes[..|nodes|] == nodes;
    }

    method ParseVersion(node: Xml)
      modifies this`info
      ensures info == Fold(ReadVersionField, old(info), node.children)
    {
      var nodes := For("*", node);
      NamedAll(node.children);
      ghost var start := info;
      for i := 0 to |nodes|
        invariant info == Fold(ReadVersionField, start, nodes[..i])
      {
        FoldStep(ReadVersionField, start, nodes, i);
        var x := nodes[i];
        if Local(x) == "major" { info := info.(versionMajor := Atoi(x.text)); }
        else if Local(x) == "minor" { info := info.(versionMinor := Atoi(x.text)); }
      }
      assert nodes[..|nodes|] == nodes;
    }

    method ParseDevice(node: Xml)
      modifies this`info
      ensures info == Fold(ReadDeviceField, old(info), node.children)
    {
      var nodes := For("*", node);
      NamedAll(node.children);
      ghost var start := info;
      for i := 0 to |nodes|
        invariant info == Fold(ReadDeviceField, start, nodes[..i])
      {
        FoldStep(ReadDeviceField, start, nodes, i);
        ParseDeviceField(nodes[i]);
      }
      assert nodes[..|nodes|] == nodes;
    }

    method ParseDeviceField(x: Xml)
      modifies this`info
      ensures info == ReadDeviceField(old(info), x)
    {
      if Local(x) == "deviceType" { info := info.(deviceType := x.text); }
      else if Local(x) == "presentationURL" { info := info.(presentationUrl := x.text); }
      else if Local(x) == "friendlyName" { info := info.(friendlyName := x.text); }
      else if Local(x) == "manufacturer" { info := info.(manufacturer := x.text); }
      else if Local(x) == "manufacturerURL" { info := info.(manufacturerUrl := x.text); }
      else if Local(x) == "modelNumber" { info := info.(modelNumber := x.text); }
      else if Local(x) == "modelDescription" { info := info.(modelDescription := x.text); }
      else if Local(x) == "modelName" { info := info.(modelName := x.text); }
      else if Local(x) == "UDN" { info := info.(udn := x.text); }
      else if Local(x) == "urlBase" { info := info.(urlBase := x.text); }
      else if Local(x) == "serialNumber" { info := info.(serialNumber := x.text); }
      else if Local(x) == "iconList" { ParseIconList(x); }
      else if Local(x) == "serviceList" { ParseServiceList(x); }
    }

    method ParseIconList(node: Xml)
      modifies this`info
      ensures info == old(info).(icons := Fold(ReadIconList, old(info).icons, node.children))
    {
      var nodes := For("icon", node);
      ghost var start := info;
      for i := 0 to |nodes|
        invariant info == start.(icons := Fold(AddIcon, start.icons, nodes[..i]))
      {
        FoldStep(AddIcon, start.icons, nodes, i);
        var icon := ParseIcon(nodes[i]);
        info := info.(icons := info.icons + [icon]);
      }
      assert nodes[..|nodes|] == nodes;
      FoldNamed(AddIcon, ReadIconList, "icon", start.icons, node.children);
    }

    method ParseServiceList(node: Xml)
      modifies this`info
      ensures info == old(info).(services := Fold(ReadServiceList, old(info).services, node.children))
    {
      var nodes := For("service", node);
      ghost var start := info;
      for i := 0 to |nodes|
        invariant info == start.(services := Fold(AddService, start.services, nodes[..i]))
      {
        FoldStep(AddService, start.services, nodes, i);
        var service := ParseService(nodes[i]);
        info := info.(services := info.services + [service]);
      }
      assert nodes[..|nodes|] == nodes;
      FoldNamed(AddService, ReadServiceList, "service", start.services, node.children);
    }
  }

  // ------------------------------------------------------- unrecognised names

  /** The recognised children, each cleaned in turn. */
  function Clean(known: Xml -> bool, inner: Xml -> Xml, xs: seq<Xml>): seq<Xml> {
    if xs == [] then []
    else
      var rest := Clean(known, inner, xs[..|xs| - 1]);
      if known(xs[|xs| - 1]) then rest + [inner(xs[|xs| - 1])] else rest
  }

  function Leaf(x: Xml): Xml {
    x
  }

  predicate KnownIconField(x: Xml) {
    Local(x) in ["mimetype", "width", "height", "depth", "url"]
  }

  predicate KnownServiceField(x: Xml) {
    Local(x) in ["serviceType", "serviceId", "SCPDURL", "controlURL", "eventSubURL"]
  }

  predicate KnownVersionField(x: Xml) {
    Local(x) in ["major", "minor"]
  }

  predicate KnownDeviceField(x: Xml) {
    Local(x) in ["deviceType", "presentationURL", "friendlyName", "manufacturer", "manufacturerURL", "modelNumber",
                 "modelDescription", "modelName", "UDN", "urlBase", "serialNumber", "iconList", "serviceList"]
  }

  predicate KnownRootField(x: Xml) {
    Local(x) in ["specVersion", "device", "URLBase"]
  }

  function CleanIcon(x: Xml): Xml {
    x.(children := Clean(KnownIconField, Leaf, x.children))
  }

  function CleanService(x: Xml): Xml {
    x.(children := Clean(KnownServiceField, Leaf, x.children))
  }

  predicate IsIcon(x: Xml) {
    Local(x) == "icon"
  }

  predicate IsService(x: Xml) {
    Local(x) == "service"
  }

  function CleanDeviceField(x: Xml): Xml {
    if Local(x) == "iconList" then x.(children := Clean(IsIcon, CleanIcon, x.children))
    else if Local(x) == "serviceList" then x.(children := Clean(IsService, CleanService, x.children))
    else x
  }

  function CleanRootField(x: Xml): Xml {
    if Local(x) == "specVersion" then x.(children := Clean(KnownVersionField, Leaf, x.children))
    else if Local(x) == "device" then x.(children := Clean(KnownDeviceField, CleanDeviceField, x.children))
    else x
  }

  /** The tree without any element whose name its place does not recognise. */
  function CleanTree(root: Xml): Xml {
    root.(children := Clean(KnownRootField, CleanRootField, root.children))
  }

  lemma {:induction false} FoldClean<A(!new)>(f: (A, Xml) -> A, known: Xml -> bool, inner: Xml -> Xml, start: A,
                                              xs: seq<Xml>)
    requires forall a, x :: !known(x) ==> f(a, x) == a
    requires forall a, x :: known(x) ==> f(a, inner(x)) == f(a, x)
    ensures Fold(f, start, Clean(known, inner, xs)) == Fold(f, start, xs)
  {
    if xs != [] {
      var before, x := xs[..|xs| - 1], xs[|xs| - 1];
      FoldClean(f, known, inner, start, before);
      var rest := Clean(known, inner, before);
      if known(x) { assert (rest + [inner(x)])[..|rest|] == rest; }
    }
  }

  lemma CleanIconReads(x: Xml)
    ensures ReadIcon(CleanIcon(x)) == ReadIcon(x)
  {
    FoldClean(ReadIconField, KnownIconField, Leaf, Icon("", 0, 0, 0, ""), x.children);
  }

  lemma CleanServiceReads(x: Xml)
    ensures ReadService(CleanService(x)) == ReadService(x)
  {
    FoldClean(ReadServiceField, KnownServiceField, Leaf, Service("", "", "", "", ""), x.children);
  }

  lemma CleanIconListReads(icons: seq<Icon>, xs: seq<Xml>)
    ensures Fold(ReadIconList, icons, Clean(IsIcon, CleanIcon, xs)) == Fold(ReadIconList, icons, xs)
  {
    forall a, x | IsIcon(x) ensures ReadIconList(a, CleanIcon(x)) == ReadIconList(a, x) { CleanIconReads(x); }
    FoldClean(ReadIconList, IsIcon, CleanIcon, icons, xs);
  }

  lemma CleanServiceListReads(services: seq<Service>, xs: seq<Xml>)
    ensures Fold(ReadServiceList, services, Clean(IsService, CleanService, xs)) == Fold(ReadServiceList, services, xs)
  {
    forall a, x | IsService(x) ensures ReadServiceList(a, CleanService(x)) == ReadServiceList(a, x) {
      CleanServiceReads(x);
    }
    FoldClean(ReadServiceList, IsService, CleanService, services, xs);
  }

  lemma CleanDeviceFieldReads(info: Info, x: Xml)
    ensures ReadDeviceField(info, CleanDeviceField(x)) == ReadDeviceField(info, x)
  {
    CleanIconListReads(info.icons, x.children);
    CleanServiceListReads(info.services, x.children);
  }

  lemma CleanVersionReads(info: Info, xs: seq<Xml>)
    ensures Fold(ReadVersionField, info, Clean(KnownVersionField, Leaf, xs)) == Fold(ReadVersionField, info, xs)
  {
    FoldClean(ReadVersionField, KnownVersionField, Leaf, info, xs);
  }

  lemma CleanDeviceReads(info: Info, xs: seq<Xml>)
    ensures Fold(ReadDeviceField, info, Clean(KnownDeviceField, CleanDeviceField, xs)) ==
            Fold(ReadDeviceField, info, xs)
  {
    forall a, y ensures ReadDeviceField(a, CleanDeviceField(y)) == ReadDeviceField(a, y) {
      CleanDeviceFieldReads(a, y);
    }
    forall a, y | !KnownDeviceField(y) ensures ReadDeviceField(a, y) == a { DeviceFieldIgnored(a, y); }
    FoldClean(ReadDeviceField, KnownDeviceField, CleanDeviceField, info, xs);
  }

  lemma DeviceFieldIgnored(info: Info, x: Xml)
    requires !KnownDeviceField(x)
    ensures ReadDeviceField(info, x) == info
  {
  }

  lemma CleanRootFieldReads(info: Info, x: Xml)
    ensures ReadRootField(info, CleanRootField(x)) == ReadRootField(info, x)
  {
    CleanVersionReads(info, x.children);
    CleanDeviceReads(info, x.children);
  }

  lemma CleanTreeReads(info: Info, root: Xml)
    ensures Read(info, CleanTree(root)) == Read(info, root)
  {
    forall a, x ensures ReadRootField(a, CleanRootField(x)) == ReadRootField(a, x) { CleanRootFieldReads(a, x); }
    FoldClean(ReadRootField, KnownRootField, CleanRootField, info, root.children);
  }

  /** Trees that differ only in elements with unrecognised names, at any of the places
      parse visits, give the same device. */
  lemma UnknownElementsIgnored(info: Info, a: Xml, b: Xml)
    requires CleanTree(a) == CleanTree(b)
    ensures Read(info, a) == Read(info, b)
  {
    CleanTreeReads(info, a);
    CleanTreeReads(info, b);
  }

  lemma {:induction false} CleanConcat(known: Xml -> bool, inner: Xml -> Xml, xs: seq<Xml>, ys: seq<Xml>)
    ensures Clean(known, inner, xs + ys) == Clean(known, inner, xs) + Clean(known, inner, ys)
    decreases |ys|
  {
    if ys == [] {
      assert xs + ys == xs;
    } else {
      assert (xs + ys)[..|xs + ys| - 1] == xs + ys[..|ys| - 1];
      CleanConcat(known, inner, xs, ys[..|ys| - 1]);
    }
  }

  /** An unrecognised element inserted at any position leaves the cleaned children alone. */
  lemma InsertedIsCleaned(known: Xml -> bool, inner: Xml -> Xml, xs: seq<Xml>, noise: Xml, ys: seq<Xml>)
    requires !known(noise)
    ensures Clean(known, inner, xs + [noise] + ys) == Clean(known, inner, xs + ys)
  {
    CleanConcat(known, inner, xs + [noise], ys);
    CleanConcat(known, inner, xs, [noise]);
    CleanConcat(known, inner, xs, ys);
    assert [noise][..0] == [];
    assert Clean(known, inner, [noise]) == Clean(known, inner, [noise][..0]);
  }

  lemma ReplacedIsCleaned(known: Xml -> bool, inner: Xml -> Xml, xs: seq<Xml>, k: nat, y: Xml)
    requires k < |xs| && known(y) == known(xs[k]) && (known(y) ==> inner(y) == inner(xs[k]))
    ensures Clean(known, inner, xs[k := y]) == Clean(known, inner, xs)
  {
    assert xs[k := y] == xs[..k] + ([y] + xs[k + 1..]) && xs == xs[..k] + ([xs[k]] + xs[k + 1..]);
    CleanConcat(known, inner, xs[..k], [y] + xs[k + 1..]);
    CleanConcat(known, inner, xs[..k], [xs[k]] + xs[k + 1..]);
    CleanConcat(known, inner, [y], xs[k + 1..]);
    CleanConcat(known, inner, [xs[k]], xs[k + 1..]);
    CleanOne(known, inner, y);
    CleanOne(known, inner, xs[k]);
  }

  lemma CleanOne(known: Xml -> bool, inner: Xml -> Xml, x: Xml)
    ensures Clean(known, inner, [x]) == if known(x) then [inner(x)] else []
  {
    assert [x][..0] == [];
    var before := Clean(known, inner, [x][..0]);
    assert Clean(known, inner, [x]) == if known(x) then before + [inner(x)] else before;
  }

  /** The elements whose children parse visits. */
  datatype Place = AtRoot | AtVersion | AtDevice | AtIconList | AtIcon | AtServiceList | AtService

  /** The children a place recognises. */
  function Known(p: Place): Xml -> bool {
    match p
    case AtRoot => KnownRootField
    case AtVersion => KnownVersionField
    case AtDevice => KnownDeviceField
    case AtIconList => IsIcon
    case AtIcon => KnownIconField
    case AtServiceList => IsService
    case AtService => KnownServiceField
  }

  function Inner(p: Place): Xml -> Xml {
    match p
    case AtRoot => CleanRootField
    case AtDevice => CleanDeviceField
    case AtIconList => CleanIcon
    case AtServiceList => CleanService
    case _ => Leaf
  }

  function Tidy(p: Place, x: Xml): Xml {
    x.(children := Clean(Known(p), Inner(p), x.children))
  }

  /** The place a child of a place is, if it is one. */
  function Below(p: Place, child: Xml): Option<Place> {
    var name := Local(child);
    match p
    case AtRoot =>
      if name == "specVersion" then Some(AtVersion) else if name == "device" then Some(AtDevice) else None
    case AtDevice =>
      if name == "iconList" then Some(AtIconList) else if name == "serviceList" then Some(AtServiceList) else None
    case AtIconList => if name == "icon" then Some(AtIcon) else None
    case AtServiceList => if name == "service" then Some(AtService) else None
    case _ => None
  }

  lemma BelowIsTidied(p: Place, child: Xml)
    requires Below(p, child).Some?
    ensures Known(p)(child) && Inner(p)(child) == Tidy(Below(p, child).value, child)
  {
  }

  lemma NameDecides(p: Place, x: Xml, y: Xml)
    requires x.name == y.name
    ensures Below(p, x) == Below(p, y) && Known(p)(x) == Known(p)(y)
  {
  }

  /** The element at the end of a path of child positions, if parse comes there. */
  function PlaceAt(p: Place, x: Xml, path: seq<nat>): Option<Place>
    decreases |path|
  {
    if path == [] then Some(p)
    else if path[0] >= |x.children| then None
    else
      match Below(p, x.children[path[0]])
      case None => None
      case Some(q) => PlaceAt(q, x.children[path[0]], path[1..])
  }

  /** The tree with one more child at position i of the element at the end of the path. */
  function InsertAt(x: Xml, path: seq<nat>, i: nat, noise: Xml): Xml
    decreases |path|
  {
    if path == [] then
      if i <= |x.children| then x.(children := x.children[..i] + [noise] + x.children[i..]) else x
    else if path[0] >= |x.children| then x
    else x.(children := x.children[path[0] := InsertAt(x.children[path[0]], path[1..], i, noise)])
  }

  lemma {:induction false} InsertedAnywhere(p: Place, x: Xml, path: seq<nat>, i: nat, noise: Xml)
    requires PlaceAt(p, x, path).Some? && !Known(PlaceAt(p, x, path).value)(noise)
    ensures Tidy(p, InsertAt(x, path, i, noise)) == Tidy(p, x)
    decreases |path|
  {
    if path == [] {
      if i <= |x.children| {
        InsertedIsCleaned(Known(p), Inner(p), x.children[..i], noise, x.children[i..]);
        assert x.children[..i] + x.children[i..] == x.children;
      }
    } else {
      var child := x.children[path[0]];
      var grown := InsertAt(child, path[1..], i, noise);
      InsertedAnywhere(Below(p, child).value, child, path[1..], i, noise);
      NameDecides(p, child, grown);
      BelowIsTidied(p, child);
      BelowIsTidied(p, grown);
      ReplacedIsCleaned(Known(p), Inner(p), x.children, path[0], grown);
    }
  }

  /** An element with a name its place does not recognise, inserted at any position under
      any element whose children parse visits, changes nothing in the device. */
  lemma InsertionIgnored(info: Info, root: Xml, path: seq<nat>, i: nat, noise: Xml)
    requires PlaceAt(AtRoot, root, path).Some? && !Known(PlaceAt(AtRoot, root, path).value)(noise)
    ensures Read(info, InsertAt(root, path, i, noise)) == Read(info, root)
  {
    InsertedAnywhere(AtRoot, root, path, i, noise);
    UnknownElementsIgnored(info, InsertAt(root, path, i, noise), root);
  }

  // ---------------------------------------------------------------- building

  function IconElement(icon: Icon): Xml
    requires icon.width >= 0 && icon.height >= 0 && icon.depth >= 0
  {
    Xml("icon", [], "", [Element("mimetype", icon.mimeType), Element("width", Decimal(icon.width)),
                         Element("height", Decimal(icon.height)), Element("depth", Decimal(icon.depth)),
                         Element("url", icon.url)])
  }

  function ServiceElement(s: Service): Xml {
    Xml("service", [], "", [Element("serviceType", s.serviceType), Element("serviceId", s.serviceId),
                            Element("controlURL", s.controlUrl), Element("eventSubURL", s.eventSubUrl),
                            Element("SCPDURL", s.scpdUrl)])
  }

  const ICON48 := Icon("image/png", 48, 48, 24, "/squawk48.png")
  const ICON64 := Icon("image/png", 64, 64, 24, "/squawk64.png")
  const ICON128 := Icon("image/png", 128, 128, 24, "/squawk128.png")

  const CDS := Service("urn:schemas-upnp-org:service:ContentDirectory:1", "urn:upnp-org:serviceId:ContentDirectory",
                       "/cds.xml", "/ctl/cds", "/ctl/cds")
  const CMS := Service("urn:schemas-upnp-org:service:ConnectionManager:1", "urn:upnp-org:serviceId:ConnectionManager",
                       "/cms.xml", "/ctl/cms", "/ctl/cms")

  const ICON_LIST := Xml("iconList", [], "", [IconElement(ICON48), IconElement(ICON64), IconElement(ICON128)])
  const SERVICE_LIST := Xml("serviceList", [], "", [ServiceElement(CDS), ServiceElement(CMS)])
  const SPEC_VERSION := Xml("specVersion", [], "", [Element("major", "1"), Element("minor", "0")])

  /** The texts of the device element before the two lists. */
  function Maker(name: string): seq<Xml> {
    [Element("deviceType", "urn:schemas-upnp-org:device:MediaServer:1"),
     Element("friendlyName", name),
     Element("manufacturer", "loudlabs"),
     Element("manufacturerURL", "https://github.com/squawkcpp")]
  }

  const MODEL: seq<Xml> :=
    [Element("modelDescription", "Squawk Content Directory Server."),
     Element("modelName", "Squawk Media Server"),
     Element("modelNumber", "0"),
     Element("modelURL", "https://github.com/squawkcpp")]

  const DLNA_DOC := Xml("dlna:X_DLNADOC", [("xmlns:dlna", "urn:schemas-dlna-org:device-1-0")], "DMS-1.50", [])

  function Identity(uuid: string): seq<Xml> {
    [Element("serialNumber", "0"),
     Element("UDN", "uuid:" + uuid),
     DLNA_DOC,
     Element("presentationURL", "/")]
  }

  /** The tree Server::description prints. */
  function DescriptionTree(name: string, uuid: string): Xml {
    Xml("root", [("xmlns", "urn:schemas-upnp-org:device-1-0")], "",
        [SPEC_VERSION, Xml("device", [], "", Maker(name) + MODEL + Identity(uuid) + [ICON_LIST, SERVICE_LIST])])
  }

  lemma FoldSnoc<A>(f: (A, Xml) -> A, start: A, xs: seq<Xml>, x: Xml)
    ensures Fold(f, start, xs + [x]) == f(Fold(f, start, xs), x)
  {
    assert (xs + [x])[..|xs|] == xs;
  }

  lemma FoldTwo<A>(f: (A, Xml) -> A, start: A, x: Xml, y: Xml)
    ensures Fold(f, start, [x, y]) == f(f(start, x), y)
  {
    FoldSnoc(f, start, [x], y);
    FoldSnoc(f, start, [], x);
    assert [] + [x] == [x] && [x] + [y] == [x, y];
  }

  lemma {:induction false} FoldConcat<A>(f: (A, Xml) -> A, start: A, xs: seq<Xml>, ys: seq<Xml>)
    ensures Fold(f, start, xs + ys) == Fold(f, Fold(f, start, xs), ys)
    decreases |ys|
  {
    if ys == [] {
      assert xs + ys == xs;
    } else {
      assert (xs + ys)[..|xs + ys| - 1] == xs + ys[..|ys| - 1];
      FoldConcat(f, start, xs, ys[..|ys| - 1]);
    }
  }

  /** The parts of a list one after the other; what each leads to is given. */
  lemma FoldThreeParts<A>(f: (A, Xml) -> A, start: A, a: seq<Xml>, b: seq<Xml>, c: seq<Xml>, s1: A, s2: A, s3: A)
    requires Fold(f, start, a) == s1 && Fold(f, s1, b) == s2 && Fold(f, s2, c) == s3
    ensures Fold(f, start, a + b + c) == s3
  {
    FoldConcat(f, start, a + b, c);
    FoldConcat(f, start, a, b);
  }

  lemma FoldFour<A>(f: (A, Xml) -> A, start: A, a: Xml, b: Xml, c: Xml, d: Xml)
    ensures Fold(f, start, [a, b, c, d]) == f(f(f(f(start, a), b), c), d)
  {
    FoldTwo(f, start, a, b);
    FoldSnoc(f, start, [a, b], c);
    assert [a, b] + [c] == [a, b, c];
    FoldSnoc(f, start, [a, b, c], d);
    assert [a, b, c] + [d] == [a, b, c, d];
  }

  lemma FoldFive<A>(f: (A, Xml) -> A, start: A, a: Xml, b: Xml, c: Xml, d: Xml, e: Xml)
    ensures Fold(f, start, [a, b, c, d, e]) == f(f(f(f(f(start, a), b), c), d), e)
  {
    FoldFour(f, start, a, b, c, d);
    FoldSnoc(f, start, [a, b, c, d], e);
    assert [a, b, c, d] + [e] == [a, b, c, d, e];
  }

  lemma AtoiOfDecimal(n: nat)
    ensures Atoi(Decimal(n)) == n
  {
    DecimalReadsBack(n);
    assert IsDigit(Decimal(n)[0]);
    LeadingDigitsAll(Decimal(n));
  }

  lemma PlainName(name: string)
    requires ':' !in name
    ensures LocalName(name) == name
  {
  }

  /** The branch a name selects, for names without a prefix. */
  lemma IconField(icon: Icon, name: string, text: string)
    requires ':' !in name
    ensures var r := ReadIconField(icon, Element(name, text));
            && (name == "mimetype" ==> r == icon.(mimeType := text))
            && (name == "width" ==> r == icon.(width := Atoi(text)))
            && (name == "height" ==> r == icon.(height := Atoi(text)))
            && (name == "depth" ==> r == icon.(depth := Atoi(text)))
            && (name == "url" ==> r == icon.(url := text))
  {
    PlainName(name);
  }

  lemma ServiceField(s: Service, name: string, text: string)
    requires ':' !in name
    ensures var r := ReadServiceField(s, Element(name, text));
            && (name == "serviceType" ==> r == s.(serviceType := text))
            && (name == "serviceId" ==> r == s.(serviceId := text))
            && (name == "SCPDURL" ==> r == s.(scpdUrl := text))
            && (name == "controlURL" ==> r == s.(controlUrl := text))
            && (name == "eventSubURL" ==> r == s.(eventSubUrl := text))
  {
    PlainName(name);
  }

  lemma IconTextsReadBack(mimeType: string, width: string, height: string, depth: string, url: string)
    ensures Fold(ReadIconField, Icon("", 0, 0, 0, ""),
                 [Element("mimetype", mimeType), Element("width", width), Element("height", height),
                  Element("depth", depth), Element("url", url)]) ==
            Icon(mimeType, Atoi(width), Atoi(height), Atoi(depth), url)
  {
    var i0 := Icon("", 0, 0, 0, "");
    IconField(i0, "mimetype", mimeType);
    var i1 := i0.(mimeType := mimeType);
    IconField(i1, "width", width);
    var i2 := i1.(width := Atoi(width));
    IconField(i2, "height", height);
    var i3 := i2.(height := Atoi(height));
    IconField(i3, "depth", depth);
    var i4 := i3.(depth := Atoi(depth));
    IconField(i4, "url", url);
    FoldFive(ReadIconField, i0, Element("mimetype", mimeType), Element("width", width), Element("height", height),
             Element("depth", depth), Element("url", url));
  }

  lemma IconReadsBack(icon: Icon)
    requires icon.width >= 0 && icon.height >= 0 && icon.depth >= 0
    ensures ReadIcon(IconElement(icon)) == icon
  {
    AtoiOfDecimal(icon.width);
    AtoiOfDecimal(icon.height);
    AtoiOfDecimal(icon.depth);
    IconTextsReadBack(icon.mimeType, Decimal(icon.width), Decimal(icon.height), Decimal(icon.depth), icon.url);
  }

  lemma ServiceReadsBack(s: Service)
    ensures ReadService(ServiceElement(s)) == s
  {
    var s0 := Service("", "", "", "", "");
    ServiceField(s0, "serviceType", s.serviceType);
    var s1 := s0.(serviceType := s.serviceType);
    ServiceField(s1, "serviceId", s.serviceId);
    var s2 := s1.(serviceId := s.serviceId);
    ServiceField(s2, "controlURL", s.controlUrl);
    var s3 := s2.(controlUrl := s.controlUrl);
    ServiceField(s3, "eventSubURL", s.eventSubUrl);
    var s4 := s3.(eventSubUrl := s.eventSubUrl);
    ServiceField(s4, "SCPDURL", s.scpdUrl);
    FoldFive(ReadServiceField, s0, Element("serviceType", s.serviceType), Element("serviceId", s.serviceId),
             Element("controlURL", s.controlUrl), Element("eventSubURL", s.eventSubUrl), Element("SCPDURL", s.scpdUrl));
  }

  lemma ThreeIcons(a: Icon, b: Icon, c: Icon)
    requires a.width >= 0 && a.height >= 0 && a.depth >= 0 && b.width >= 0 && b.height >= 0 && b.depth >= 0
    requires c.width >= 0 && c.height >= 0 && c.depth >= 0
    ensures Fold(ReadIconList, [], [IconElement(a), IconElement(b), IconElement(c)]) == [a, b, c]
  {
    IconReadsBack(a);
    IconReadsBack(b);
    IconReadsBack(c);
    PlainName("icon");
    var x, y, z := IconElement(a), IconElement(b), IconElement(c);
    FoldTwo(ReadIconList, [], x, y);
    FoldSnoc(ReadIconList, [], [x, y], z);
    assert [x, y] + [z] == [x, y, z];
  }

  lemma ServiceAppended(services: seq<Service>, s: Service)
    ensures ReadServiceList(services, ServiceElement(s)) == services + [s]
  {
    ServiceReadsBack(s);
    ServiceName(s);
    ServiceIsAdded(services, ServiceElement(s), s);
  }

  lemma ServiceName(s: Service)
    ensures Local(ServiceElement(s)) == "service"
  {
    PlainName("service");
  }

  lemma ServiceIsAdded(services: seq<Service>, x: Xml, s: Service)
    requires Local(x) == "service" && ReadService(x) == s
    ensures ReadServiceList(services, x) == services + [s]
  {
  }

  lemma TwoServices(a: Service, b: Service)
    ensures Fold(ReadServiceList, [], [ServiceElement(a), ServiceElement(b)]) == [a, b]
  {
    ServiceAppended([], a);
    ServiceAppended([a], b);
    FoldTwo(ReadServiceList, [], ServiceElement(a), ServiceElement(b));
    assert [] + [a] == [a] && [a] + [b] == [a, b];
  }

  function AfterMaker(info: Info, name: string): Info {
    info.(deviceType := "urn:schemas-upnp-org:device:MediaServer:1", friendlyName := name,
          manufacturer := "loudlabs", manufacturerUrl := "https://github.com/squawkcpp")
  }

  function AfterModel(info: Info): Info {
    info.(modelDescription := "Squawk Content Directory Server.", modelName := "Squawk Media Server",
          modelNumber := "0")
  }

  function AfterIdentity(info: Info, uuid: string): Info {
    info.(serialNumber := "0", udn := "uuid:" + uuid, presentationUrl := "/")
  }

  lemma DeviceField(info: Info, name: string, text: string)
    requires ':' !in name
    ensures var r := ReadDeviceField(info, Element(name, text));
            && (name == "deviceType" ==> r == info.(deviceType := text))
            && (name == "presentationURL" ==> r == info.(presentationUrl := text))
            && (name == "friendlyName" ==> r == info.(friendlyName := text))
            && (name == "manufacturer" ==> r == info.(manufacturer := text))
            && (name == "manufacturerURL" ==> r == info.(manufacturerUrl := text))
            && (name == "modelURL" ==> r == info)
            && (name == "urlBase" ==> r == info.(urlBase := text))
  {
    PlainName(name);
  }

  lemma ModelField(info: Info, name: string, text: string)
    requires ':' !in name
    ensures var r := ReadDeviceField(info, Element(name, text));
            && (name == "modelDescription" ==> r == info.(modelDescription := text))
            && (name == "modelName" ==> r == info.(modelName := text))
            && (name == "modelNumber" ==> r == info.(modelNumber := text))
            && (name == "serialNumber" ==> r == info.(serialNumber := text))
            && (name == "UDN" ==> r == info.(udn := text))
  {
    PlainName(name);
  }

  lemma MakerTextsReadBack(info: Info, deviceType: string, name: string, maker: string, url: string)
    ensures Fold(ReadDeviceField, info,
                 [Element("deviceType", deviceType), Element("friendlyName", name), Element("manufacturer", maker),
                  Element("manufacturerURL", url)]) ==
            info.(deviceType := deviceType, friendlyName := name, manufacturer := maker, manufacturerUrl := url)
  {
    DeviceField(info, "deviceType", deviceType);
    var i1 := info.(deviceType := deviceType);
    DeviceField(i1, "friendlyName", name);
    var i2 := i1.(friendlyName := name);
    DeviceField(i2, "manufacturer", maker);
    var i3 := i2.(manufacturer := maker);
    DeviceField(i3, "manufacturerURL", url);
    FoldFour(ReadDeviceField, info, Element("deviceType", deviceType), Element("friendlyName", name),
             Element("manufacturer", maker), Element("manufacturerURL", url));
  }

  lemma MakerReadsBack(info: Info, name: string)
    ensures Fold(ReadDeviceField, info, Maker(name)) == AfterMaker(info, name)
  {
    MakerTextsReadBack(info, "urn:schemas-upnp-org:device:MediaServer:1", name, "loudlabs",
                       "https://github.com/squawkcpp");
  }

  lemma ModelTextsReadBack(info: Info, description: string, name: string, number: string, url: string)
    ensures Fold(ReadDeviceField, info,
                 [Element("modelDescription", description), Element("modelName", name), Element("modelNumber", number),
                  Element("modelURL", url)]) ==
            info.(modelDescription := description, modelName := name, modelNumber := number)
  {
    ModelField(info, "modelDescription", description);
    var i1 := info.(modelDescription := description);
    ModelField(i1, "modelName", name);
    var i2 := i1.(modelName := name);
    ModelField(i2, "modelNumber", number);
    var i3 := i2.(modelNumber := number);
    DeviceField(i3, "modelURL", url);
    FoldFour(ReadDeviceField, info, Element("modelDescription", description), Element("modelName", name),
             Element("modelNumber", number), Element("modelURL", url));
  }

  lemma ModelReadsBack(info: Info)
    ensures Fold(ReadDeviceField, info, MODEL) == AfterModel(info)
  {
    ModelTextsReadBack(info, "Squawk Content Directory Server.", "Squawk Media Server", "0",
                       "https://github.com/squawkcpp");
  }

  lemma {:induction false} PrefixedName(prefix: string, local: string)
    requires ':' !in prefix
    ensures LocalName(prefix + ":" + local) == local
  {
    var name := prefix + ":" + local;
    if prefix == "" {
      assert name[0] == ':' && name[1..] == local;
    } else {
      assert name[0] == prefix[0] && prefix[0] in prefix;
      assert name[1..] == prefix[1..] + ":" + local;
      assert name[|prefix|] == ':';
      PrefixedName(prefix[1..], local);
    }
  }

  lemma DlnaDocUnknown(x: Xml)
    requires Local(x) == "X_DLNADOC"
    ensures !KnownDeviceField(x)
  {
  }

  lemma DlnaDocName()
    ensures Local(DLNA_DOC) == "X_DLNADOC"
  {
    assert DLNA_DOC.name == "dlna" + ":" + "X_DLNADOC";
    PrefixedName("dlna", "X_DLNADOC");
  }

  lemma IdentityTextsReadBack(info: Info, number: string, udn: string, doc: Xml, url: string)
    requires Local(doc) == "X_DLNADOC"
    ensures Fold(ReadDeviceField, info,
                 [Element("serialNumber", number), Element("UDN", udn), doc, Element("presentationURL", url)]) ==
            info.(serialNumber := number, udn := udn, presentationUrl := url)
  {
    ModelField(info, "serialNumber", number);
    var i1 := info.(serialNumber := number);
    ModelField(i1, "UDN", udn);
    var i2 := i1.(udn := udn);
    DlnaDocUnknown(doc);
    DeviceFieldIgnored(i2, doc);
    DeviceField(i2, "presentationURL", url);
    FoldFour(ReadDeviceField, info, Element("serialNumber", number), Element("UDN", udn), doc,
             Element("presentationURL", url));
  }

  lemma IdentityReadsBack(info: Info, uuid: string)
    ensures Fold(ReadDeviceField, info, Identity(uuid)) == AfterIdentity(info, uuid)
  {
    DlnaDocName();
    IdentityTextsReadBack(info, "0", "uuid:" + uuid, DLNA_DOC, "/");
  }

  lemma ListField(info: Info, x: Xml)
    requires ':' !in x.name
    ensures x.name == "iconList" ==>
              ReadDeviceField(info, x) == info.(icons := Fold(ReadIconList, info.icons, x.children))
    ensures x.name == "serviceList" ==>
              ReadDeviceField(info, x) == info.(services := Fold(ReadServiceList, info.services, x.children))
  {
    PlainName(x.name);
  }

  lemma VersionReadsBack(info: Info)
    ensures Fold(ReadVersionField, info, SPEC_VERSION.children) == info.(versionMajor := 1, versionMinor := 0)
  {
    AtoiOfDecimal(1);
    AtoiOfDecimal(0);
    assert Decimal(1) == "1" && Decimal(0) == "0";
    PlainName("major");
    PlainName("minor");
    FoldTwo(ReadVersionField, info, Element("major", "1"), Element("minor", "0"));
  }

  lemma RootFields(info: Info, spec: Xml, device: Xml)
    requires spec.name == "specVersion" && device.name == "device"
    ensures Fold(ReadRootField, info, [spec, device]) ==
            Fold(ReadDeviceField, Fold(ReadVersionField, info, spec.children), device.children)
  {
    PlainName(spec.name);
    PlainName(device.name);
    FoldTwo(ReadRootField, info, spec, device);
  }

  lemma ListsAppended(f: (Info, Xml) -> Info, start: Info, a: seq<Xml>, b: seq<Xml>, c: seq<Xml>,
                      s1: Info, s2: Info, s3: Info)
    requires Fold(f, start, a) == s1 && Fold(f, s1, b) == s2 && Fold(f, s2, c) == s3
    ensures Fold(f, start, a + b + c + [ICON_LIST, SERVICE_LIST]) == f(f(s3, ICON_LIST), SERVICE_LIST)
  {
    FoldThreeParts(f, start, a, b, c, s1, s2, s3);
    FoldConcat(f, start, a + b + c, [ICON_LIST, SERVICE_LIST]);
    FoldTwo(f, s3, ICON_LIST, SERVICE_LIST);
  }

  lemma IconListRead(info: Info)
    requires info.icons == []
    ensures ReadDeviceField(info, ICON_LIST) == info.(icons := [ICON48, ICON64, ICON128])
  {
    ThreeIcons(ICON48, ICON64, ICON128);
    ListField(info, ICON_LIST);
  }

  lemma ServiceListRead(info: Info)
    requires info.services == []
    ensures ReadDeviceField(info, SERVICE_LIST) == info.(services := [CDS, CMS])
  {
    TwoServices(CDS, CMS);
    ListField(info, SERVICE_LIST);
  }

  lemma DeviceReadsBack(info: Info, name: string, uuid: string)
    requires info.icons == [] && info.services == []
    ensures Fold(ReadDeviceField, info, Maker(name) + MODEL + Identity(uuid) + [ICON_LIST, SERVICE_LIST]) ==
            AfterIdentity(AfterModel(AfterMaker(info, name)), uuid)
              .(icons := [ICON48, ICON64, ICON128], services := [CDS, CMS])
  {
    var i1, i2 := AfterMaker(info, name), AfterModel(AfterMaker(info, name));
    MakerReadsBack(info, name);
    ModelReadsBack(i1);
    IdentityReadsBack(i2, uuid);
    ListsAppended(ReadDeviceField, info, Maker(name), MODEL, Identity(uuid), i1, i2, AfterIdentity(i2, uuid));
    var last := AfterIdentity(i2, uuid);
    IconListRead(last);
    ServiceListRead(last.(icons := [ICON48, ICON64, ICON128]));
  }

  lemma UrlBaseTexts(info: Info, text: string)
    ensures ReadDeviceField(info, Element("urlBase", text)) == info.(urlBase := text)
    ensures ReadRootField(info, Element("URLBase", text)) == info.(urlBase := text)
  {
    PlainName("urlBase");
    PlainName("URLBase");
  }

  /** The number of a text, as std::atoi reads it. */
  lemma AtoiExact(spaces: string, sign: string, digits: string, rest: string)
    requires forall c | c in spaces :: White(c)
    requires sign == "" || sign == "+" || sign == "-"
    requires digits != "" && AllDigits(digits)
    requires rest == "" || rest[0] !in "0123456789"
    ensures Atoi(spaces + sign + digits + rest) ==
            if sign == "-" then -(DigitsValue(digits) as int) else DigitsValue(digits)
  {
    var tail := sign + digits + rest;
    assert spaces + sign + digits + rest == spaces + tail;
    DigitsStop(spaces, tail, sign, digits, rest);
    AtoiParts(spaces + tail, tail, sign, digits, rest);
  }

  lemma AtoiParts(s: string, t: string, sign: string, digits: string, rest: string)
    requires SkipSpaces(s) == t && t == sign + digits + rest
    requires sign == "" || sign == "+" || sign == "-"
    requires digits != "" && AllDigits(digits) && LeadingDigits(digits + rest) == digits
    ensures Atoi(s) == if sign == "-" then -(DigitsValue(digits) as int) else DigitsValue(digits)
  {
    assert IsDigit(digits[0]);
    if sign == "" {
      assert t == digits + rest && t[0] == digits[0];
    } else {
      assert t[0] == sign[0] && t[1..] == digits + rest;
    }
  }

  /** Read-back: a fresh device that parses the description of this server gets its name,
      its UDN, the three icons and the two services, in order and with their URLs, and every
      other text of the description; the base URL, which it does not have, stays. */
  lemma DescriptionReadsBack(info: Info, name: string, uuid: string)
    requires info.icons == [] && info.services == []
    ensures Read(info, DescriptionTree(name, uuid)) ==
            Info(1, 0, "urn:schemas-upnp-org:device:MediaServer:1", "/", name, "loudlabs",
                 "https://github.com/squawkcpp", "0", "Squawk Content Directory Server.", "Squawk Media Server",
                 "uuid:" + uuid, info.urlBase, "0",
                 [Icon("image/png", 48, 48, 24, "/squawk48.png"), Icon("image/png", 64, 64, 24, "/squawk64.png"),
                  Icon("image/png", 128, 128, 24, "/squawk128.png")],
                 [Service("urn:schemas-upnp-org:service:ContentDirectory:1",
                          "urn:upnp-org:serviceId:ContentDirectory", "/cds.xml", "/ctl/cds", "/ctl/cds"),
                  Service("urn:schemas-upnp-org:service:ConnectionManager:1",
                          "urn:upnp-org:serviceId:ConnectionManager", "/cms.xml", "/ctl/cms", "/ctl/cms")])
  {
    var device := Xml("device", [], "", Maker(name) + MODEL + Identity(uuid) + [ICON_LIST, SERVICE_LIST]);
    RootFields(info, SPEC_VERSION, device);
    VersionReadsBack(info);
    DeviceReadsBack(info.(versionMajor := 1, versionMinor := 0), name, uuid);
  }
}
