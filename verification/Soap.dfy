/** The SOAP envelopes around an action: reading a request (src/server.cpp, Server::parse)
    and writing the Browse response (src/_utils.h, soap_envelope), at tree level. */
module Soap {
  import opened Text
  import opened Redis
  import opened Datastore
  import opened Didl
  import opened Description
  import opened Browse
  import opened Paging

  datatype CommandType =
    | NoCommand | BrowseCommand | GetProtocolInfo | SortCapabilities | SearchCapabilities | SystemUpdateId
    | CurrentConnectionIds | CurrentConnectionInfo

  datatype Command = Command(kind: CommandType, values: Values)

  function CommandOf(name: string): CommandType {
    if name == "Browse" then BrowseCommand
    else if name == "GetSearchCapabilities" then SearchCapabilities
    else if name == "GetSortCapabilities" then SortCapabilities
    else if name == "GetSystemUpdateID" then SystemUpdateId
    else if name == "GetCurrentConnectionIDs" then CurrentConnectionIds
    else if name == "GetCurrentConnectionInfo" then CurrentConnectionInfo
    else if name == "GetProtocolInfo" then GetProtocolInfo
    else NoCommand
  }

  /** The commands by their texts; every other text is none. */
  lemma CommandTexts(name: string)
    ensures CommandOf("Browse") == BrowseCommand
    ensures CommandOf("GetSearchCapabilities") == SearchCapabilities
    ensures CommandOf("GetSortCapabilities") == SortCapabilities
    ensures CommandOf("GetSystemUpdateID") == SystemUpdateId
    ensures CommandOf("GetCurrentConnectionIDs") == CurrentConnectionIds
    ensures CommandOf("GetCurrentConnectionInfo") == CurrentConnectionInfo
    ensures CommandOf("GetProtocolInfo") == GetProtocolInfo
    ensures name !in ["Browse", "GetSearchCapabilities", "GetSortCapabilities", "GetSystemUpdateID",
                      "GetCurrentConnectionIDs", "GetCurrentConnectionInfo", "GetProtocolInfo"] ==>
              CommandOf(name) == NoCommand
  {
  }

  function VisitArgument(c: Command, x: Xml): Command {
    c.(values := c.values[Local(x) := x.text])
  }

  function VisitAction(c: Command, x: Xml): Command {
    Fold(VisitArgument, c.(kind := CommandOf(Local(x))), x.children)
  }

  function VisitBody(c: Command, x: Xml): Command {
    Fold(VisitAction, c, x.children)
  }

  function VisitEnvelope(c: Command, x: Xml): Command {
    if Local(x) == "Body" then VisitBody(c, x) else c
  }

  const EMPTY_COMMAND := Command(NoCommand, map[])

  function ReadCommand(root: Xml): Command {
    Fold(VisitEnvelope, EMPTY_COMMAND, root.children)
  }

  /** Server::parse: one loop for each level of the tree. */
  method Parse(root: Xml) returns (command: Command)
    ensures command == ReadCommand(root)
  {
    command := EMPTY_COMMAND;
    var bodies := For("Body", root);
    for i := 0 to |bodies|
      invariant command == Fold(VisitBody, EMPTY_COMMAND, bodies[..i])
    {
      FoldStep(VisitBody, EMPTY_COMMAND, bodies, i);
      command := ParseBody(command, bodies[i]);
    }
    assert bodies[..|bodies|] == bodies;
    FoldNamed(VisitBody, VisitEnvelope, "Body", EMPTY_COMMAND, root.children);
  }

  method ParseBody(start: Command, body: Xml) returns (command: Command)
    ensures command == VisitBody(start, body)
  {
    command := start;
    var actions := For("*", body);
    NamedAll(body.children);
    for i := 0 to |actions|
      invariant command == Fold(VisitAction, start, actions[..i])
    {
      FoldStep(VisitAction, start, actions, i);
      command := command.(kind := CommandOf(Local(actions[i])));
      command := ParseArguments(command, actions[i]);
    }
    assert actions[..|actions|] == actions;
  }

  method ParseArguments(start: Command, action: Xml) returns (command: Command)
    ensures command == Fold(VisitArgument, start, action.children)
  {
    command := start;
    var nodes := For("*", action);
    NamedAll(action.children);
    for i := 0 to |nodes|
      invariant command == Fold(VisitArgument, start, nodes[..i])
    {
      FoldStep(VisitArgument, start, nodes, i);
      command := command.(values := command.values[Local(nodes[i]) := nodes[i].text]);
    }
    assert nodes[..|nodes|] == nodes;
  }

  // ------------------------------------------------------------- round trips

  type Argument = (string, string)

  function ArgumentElements(arguments: seq<Argument>): seq<Xml> {
    seq(|arguments|, i requires 0 <= i < |arguments| => Element(arguments[i].0, arguments[i].1))
  }

  function Action(prefix: string, name: string, attrs: seq<Attribute>, arguments: seq<Xml>): Xml {
    Xml(prefix + ":" + name, attrs, "", arguments)
  }

  function Body(prefix: string, action: Xml): Xml {
    Xml(prefix + ":" + "Body", [], "", [action])
  }

  /** An argument given twice keeps its last value. */
  function ArgumentMap(arguments: seq<Argument>): Values {
    if arguments == [] then map[]
    else ArgumentMap(arguments[..|arguments| - 1])[arguments[|arguments| - 1].0 := arguments[|arguments| - 1].1]
  }

  lemma {:induction false} ArgumentsRead(kind: CommandType, arguments: seq<Argument>)
    requires forall i | 0 <= i < |arguments| :: ':' !in arguments[i].0
    ensures Fold(VisitArgument, Command(kind, map[]), ArgumentElements(arguments)) ==
            Command(kind, ArgumentMap(arguments))
  {
    if arguments != [] {
      var before, last := arguments[..|arguments| - 1], arguments[|arguments| - 1];
      ArgumentsRead(kind, before);
      PlainName(last.0);
      assert ArgumentElements(arguments)[..|arguments| - 1] == ArgumentElements(before);
    }
  }

  lemma FoldOne<A>(f: (A, Xml) -> A, start: A, x: Xml)
    ensures Fold(f, start, [x]) == f(start, x)
  {
    FoldSnoc(f, start, [], x);
    assert [] + [x] == [x];
  }

  /** What stands around an action: the prefixes of the body and of the action, the
      attributes of the action, and the other children of the envelope, which are no bodies. */
  datatype Around = Around(before: seq<Xml>, after: seq<Xml>, bodyPrefix: string, actionPrefix: string,
                           attrs: seq<Attribute>)
  {
    predicate Valid() {
      && ':' !in bodyPrefix && ':' !in actionPrefix
      && (forall i | 0 <= i < |before| :: Local(before[i]) != "Body")
      && (forall i | 0 <= i < |after| :: Local(after[i]) != "Body")
    }
  }

  /** The children of an envelope with one action in its body. */
  function Enveloped(around: Around, name: string, arguments: seq<Argument>): seq<Xml> {
    around.before +
    [Body(around.bodyPrefix, Action(around.actionPrefix, name, around.attrs, ArgumentElements(arguments)))] +
    around.after
  }

  /** A request with one action in its body, whatever namespace prefixes it uses and
      whatever other elements stand beside the body, is read as that action with exactly
      its arguments. */
  lemma {:induction false} RequestReadsBack(root: Xml, around: Around, name: string, arguments: seq<Argument>)
    requires around.Valid() && root.children == Enveloped(around, name, arguments)
    requires forall i | 0 <= i < |arguments| :: ':' !in arguments[i].0
    ensures ReadCommand(root) == Command(CommandOf(name), ArgumentMap(arguments))
  {
    var action := Action(around.actionPrefix, name, around.attrs, ArgumentElements(arguments));
    var body, before, after := Body(around.bodyPrefix, action), around.before, around.after;
    PrefixedName(around.bodyPrefix, "Body");
    PrefixedName(around.actionPrefix, name);
    FoldConcat(VisitEnvelope, EMPTY_COMMAND, before + [body], after);
    FoldConcat(VisitEnvelope, EMPTY_COMMAND, before, [body]);
    NoBody(EMPTY_COMMAND, before);
    FoldOne(VisitEnvelope, EMPTY_COMMAND, body);
    FoldOne(VisitAction, EMPTY_COMMAND, action);
    ArgumentsRead(CommandOf(name), arguments);
    NoBody(Command(CommandOf(name), ArgumentMap(arguments)), after);
  }

  lemma {:induction false} NoBody(c: Command, xs: seq<Xml>)
    requires forall i | 0 <= i < |xs| :: Local(xs[i]) != "Body"
    ensures Fold(VisitEnvelope, c, xs) == c
  {
    if xs != [] { NoBody(c, xs[..|xs| - 1]); }
  }

  // ----------------------------------------------------------------- response

  const XSI_STRING: seq<Attribute> := [("xsi:type", "xsd:string")]
  const XSI_INT: seq<Attribute> := [("xsi:type", "xsd:int")]

  function ResponseFields(body: string, results: nat, total: nat): seq<Xml> {
    [Xml("Result", XSI_STRING, body, []), Xml("NumberReturned", XSI_INT, Decimal(results), []),
     Xml("TotalMatches", XSI_INT, Decimal(total), []), Xml("UpdateID", XSI_INT, "1", [])]
  }

  function SoapEnvelope(body: string, results: nat, total: nat): Xml {
    Xml("s:Envelope",
        [("xmlns:s", "http://schemas.xmlsoap.org/soap/envelope/"),
         ("xmlns:xsi", "http://www.w3.org/2001/XMLSchema-instance"),
         ("s:encodingStyle", "http://schemas.xmlsoap.org/soap/encoding/")], "",
        [Body("s", Action("u", "BrowseResponse", [("xmlns:u", "urn:schemas-upnp-org:service:ContentDirectory:1")],
                          ResponseFields(body, results, total)))])
  }

  /** The four elements of a response, written out. */
  lemma EnvelopeTexts(body: string, results: nat, total: nat)
    ensures ResponseFields(body, results, total) ==
            [Xml("Result", [("xsi:type", "xsd:string")], body, []),
             Xml("NumberReturned", [("xsi:type", "xsd:int")], Decimal(results), []),
             Xml("TotalMatches", [("xsi:type", "xsd:int")], Decimal(total), []),
             Xml("UpdateID", [("xsi:type", "xsd:int")], "1", [])]
  {
  }

  /** A client that reads the response the way the server reads requests finds the Result
      text and the two counts the server passed, and the constant UpdateID. */
  lemma EnvelopeReadsBack(body: string, results: nat, total: nat)
    ensures ReadCommand(SoapEnvelope(body, results, total)).values == ResponseValues(body, results, total)
    ensures results <= INT_MAX && total <= INT_MAX ==>
              Stoi(Decimal(results)) == Value(results) && Stoi(Decimal(total)) == Value(total)
  {
    var action := Action("u", "BrowseResponse", [("xmlns:u", "urn:schemas-upnp-org:service:ContentDirectory:1")],
                         ResponseFields(body, results, total));
    PrefixedName("s", "Body");
    FoldOne(VisitEnvelope, EMPTY_COMMAND, Body("s", action));
    FoldOne(VisitAction, EMPTY_COMMAND, action);
    FieldsRead(EMPTY_COMMAND.(kind := CommandOf(Local(action))), body, results, total);
    if results <= INT_MAX && total <= INT_MAX {
      StoiOfDecimal(results);
      StoiOfDecimal(total);
    }
  }

  function ResponseValues(body: string, results: nat, total: nat): Values {
    map["Result" := body, "NumberReturned" := Decimal(results), "TotalMatches" := Decimal(total), "UpdateID" := "1"]
  }

  lemma FieldsRead(c: Command, body: string, results: nat, total: nat)
    requires c.values == map[]
    ensures Fold(VisitArgument, c, ResponseFields(body, results, total)).values ==
            ResponseValues(body, results, total)
  {
    var x := ResponseFields(body, results, total);
    PlainName("Result");
    PlainName("NumberReturned");
    PlainName("TotalMatches");
    PlainName("UpdateID");
    FoldFour(VisitArgument, c, x[0], x[1], x[2], x[3]);
  }

  /** The tree a paging client sends. */
  function PageArguments(id: string, index: nat, count: nat): seq<Argument> {
    [("BrowseFlag", "BrowseDirectChildren"), ("ObjectID", id),
     ("StartingIndex", Decimal(index)), ("RequestedCount", Decimal(count))]
  }

  lemma PageArgumentsAreRequest(id: string, index: nat, count: nat)
    ensures ArgumentMap(PageArguments(id, index, count)) == PageRequest(id, index, count)
  {
    var a := PageArguments(id, index, count);
    assert a[..3][..2] == a[..2] && a[..2][..1] == a[..1] && a[..1][..0] == [];
    assert ArgumentMap(a[..1]) == map[a[0].0 := a[0].1];
    assert ArgumentMap(a[..2]) == map[a[0].0 := a[0].1][a[1].0 := a[1].1];
    assert ArgumentMap(a[..3]) == ArgumentMap(a[..2])[a[2].0 := a[2].1];
    assert ArgumentMap(a) == ArgumentMap(a[..3])[a[3].0 := a[3].1];
  }

  lemma PageRequestRead(root: Xml, around: Around, id: string, index: nat, count: nat)
    requires around.Valid() && root.children == Enveloped(around, "Browse", PageArguments(id, index, count))
    ensures ReadCommand(root) == Command(BrowseCommand, PageRequest(id, index, count))
  {
    PageArgumentNames(id, index, count);
    RequestReadsBack(root, around, "Browse", PageArguments(id, index, count));
    PageArgumentsAreRequest(id, index, count);
  }

  lemma PageArgumentNames(id: string, index: nat, count: nat)
    ensures forall i | 0 <= i < |PageArguments(id, index, count)| :: ':' !in PageArguments(id, index, count)[i].0
  {
  }

  /** The response to an answered request, with the printed document as its Result. */
  function Response(reply: Reply, printed: seq<Xml> -> string): Xml
    requires reply.Envelope?
  {
    SoapEnvelope(printed(reply.objects), reply.number, reply.total)
  }

  /** What a client reads in a response. */
  predicate Tells(values: Values, body: string, number: nat, total: nat) {
    && FieldOr(values, "Result") == body
    && NumberOr0(values, "NumberReturned") == Value(number)
    && NumberOr0(values, "TotalMatches") == Value(total)
  }

  lemma ResponseTells(reply: Reply, printed: seq<Xml> -> string)
    requires reply.Envelope? && reply.number <= INT_MAX && reply.total <= INT_MAX
    ensures Tells(ReadCommand(Response(reply, printed)).values, printed(reply.objects), reply.number, reply.total)
  {
    EnvelopeReadsBack(printed(reply.objects), reply.number, reply.total);
  }

  /** The response tells of these keys: their document, and how many of them have a class. */
  ghost predicate ResponseShows(read: Reader, keys: seq<string>, reply: Reply, total: nat,
                                printed: seq<Xml> -> string)
  {
    && reply.Envelope?
    && Ids(reply.objects) == Classed(read, keys)
    && Tells(ReadCommand(Response(reply, printed)).values, printed(reply.objects), |Classed(read, keys)|, total)
  }

  lemma PageTells(read: Reader, keys: seq<string>, reply: Reply, total: nat, printed: seq<Xml> -> string)
    requires ShowsKeys(read, reply, keys) && reply.total == total && |keys| <= INT_MAX && total <= INT_MAX
    ensures ResponseShows(read, keys, reply, total, printed)
  {
    ResponseTells(reply, printed);
  }

  /** One page from envelope to envelope. The tree of the request is read as a Browse
      command; the command is answered exactly when no node in the page makes write throw;
      and then a client finds in the response the document of the entries that have a class,
      how many these are, and the size of the child list. */
  lemma PageOverSoap(db: Db, uri: string, read: Reader, root: Xml, around: Around, id: string, index: nat, count: nat,
                     printed: seq<Xml> -> string)
    requires around.Valid() && root.children == Enveloped(around, "Browse", PageArguments(id, index, count))
    requires 0 < count && index + count <= INT_MAX && ChildrenCount(db, NormalId(id)) <= INT_MAX
    ensures var command := ReadCommand(root);
            var reply := BrowseReply(db, uri, read, command.values);
            var keys := Cut(Listed(db, NormalId(id)), index, count);
            && command.kind == BrowseCommand
            && (reply.Envelope? <==> AllWritable(read, keys))
            && (reply.Envelope? ==> ResponseShows(read, keys, reply, ChildrenCount(db, NormalId(id)), printed))
  {
    PageRequestRead(root, around, id, index, count);
    PageAnswered(db, uri, read, id, index, count, printed);
  }

  lemma PageAnswered(db: Db, uri: string, read: Reader, id: string, index: nat, count: nat, printed: seq<Xml> -> string)
    requires 0 < count && index + count <= INT_MAX && ChildrenCount(db, NormalId(id)) <= INT_MAX
    ensures var reply := BrowseReply(db, uri, read, PageRequest(id, index, count));
            var keys := Cut(Listed(db, NormalId(id)), index, count);
            && (reply.Envelope? <==> AllWritable(read, keys))
            && (reply.Envelope? ==> ResponseShows(read, keys, reply, ChildrenCount(db, NormalId(id)), printed))
  {
    PageExact(db, uri, read, id, index, count);
    var reply := BrowseReply(db, uri, read, PageRequest(id, index, count));
    var keys := Cut(Listed(db, NormalId(id)), index, count);
    CutShorter(Listed(db, NormalId(id)), index, count);
    if reply.Envelope? { PageTells(read, keys, reply, ChildrenCount(db, NormalId(id)), printed); }
  }

  lemma CutShorter(all: seq<string>, index: nat, count: nat)
    ensures |Cut(all, index, count)| <= count
  {
  }
}
