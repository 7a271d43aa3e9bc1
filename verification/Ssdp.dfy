/** The messages of src/ssdpserver.cpp, the order in which bursts send them, and the
    server object that answers searches. */
module Ssdp {
  import opened Text
  import opened StdMap
  import opened Headers
  import opened Lease

  const NETWORK_COUNT := 3
  const REQUEST_LINE_OK := "HTTP/1.1 200 OK"
  const HEADER_REQUEST_LINE := "NOTIFY * HTTP/1.1"
  const STATUS_ALIVE := "ssdp:alive"
  const STATUS_BYE := "ssdp:byebye"
  const NS_ALL := "ssdp:all"
  const MSEARCH := "M-SEARCH"
  const NOTIFY := "NOTIFY"

  /** What the builders read: the configuration, uname() and the date texts. */
  datatype Config = Config(uuid: string, multicastAddress: string, multicastPort: string,
                           system: string, date: string)

  type Namespaces = map<string, string>

  datatype Notice = Notice(line: string, headers: HeaderMap)

  // ---------------------------------------------------------------- builders

  function Usn(c: Config, nt: string): string {
    "uuid:" + c.uuid + "::" + nt
  }

  function Host(c: Config): string {
    c.multicastAddress + ":" + c.multicastPort
  }

  function ServerName(c: Config): string {
    c.system + " DLNADOC/1.50 UPnP/1.0 SSDP/1.0.0"
  }

  const FIXED_DATE := "Mon, 16 Oct 2017 09:59:53 GMT"

  function ResponseHeaders(c: Config, nt: string, location: string): HeaderMap {
    map["CACHE-CONTROL" := MaxAge(ANNOUNCE_INTERVAL), "LOCATION" := location, "SERVER" := ServerName(c),
        "ST" := nt, "USN" := Usn(c, nt), "EXT" := "", "DATE" := FIXED_DATE, "Content-Length" := "0"]
  }

  function AliveHeaders(c: Config, nt: string, location: string): HeaderMap {
    map["HOST" := Host(c), "CACHE-CONTROL" := MaxAge(ANNOUNCE_INTERVAL), "LOCATION" := location,
        "SERVER" := ServerName(c), "NT" := nt, "USN" := Usn(c, nt), "NTS" := STATUS_ALIVE, "EXT" := "",
        "DATE" := FIXED_DATE, "Content-Length" := "0"]
  }

  function ByeHeaders(c: Config, nt: string): HeaderMap {
    map["HOST" := Host(c), "NT" := nt, "USN" := Usn(c, nt), "NTS" := STATUS_BYE, "SERVER" := ServerName(c),
        "EXT" := "", "DATE" := c.date, "CONTENT-LENGTH" := "0"]
  }

  function Response(c: Config, nt: string, location: string): Notice {
    Notice(REQUEST_LINE_OK, ResponseHeaders(c, nt, location))
  }

  function Alive(c: Config, nt: string, location: string): Notice {
    Notice(HEADER_REQUEST_LINE, AliveHeaders(c, nt, location))
  }

  function Bye(c: Config, nt: string): Notice {
    Notice(HEADER_REQUEST_LINE, ByeHeaders(c, nt))
  }

  /** The fields a listener reads, for each of the three builders. */
  lemma BuilderFields(c: Config, nt: string, location: string)
    ensures var h := AliveHeaders(c, nt, location);
            "USN" in h && h["USN"] == Usn(c, nt) && "NTS" in h && h["NTS"] == STATUS_ALIVE
            && "NT" in h && h["NT"] == nt && "LOCATION" in h && h["LOCATION"] == location
    ensures var h := ByeHeaders(c, nt);
            "USN" in h && h["USN"] == Usn(c, nt) && "NTS" in h && h["NTS"] == STATUS_BYE
            && "NT" in h && h["NT"] == nt
    ensures var h := ResponseHeaders(c, nt, location);
            "USN" in h && h["USN"] == Usn(c, nt) && "ST" in h && h["ST"] == nt
            && "LOCATION" in h && h["LOCATION"] == location
  {
  }

  /** Every alive and every search reply grants a lease of 1800 seconds, however its text is
      spaced on the way; a byebye grants none. */
  lemma AdvertisedLease(c: Config, nt: string, location: string)
    ensures var h := AliveHeaders(c, nt, location);
            && "CACHE-CONTROL" in h
            && forall text | Spaced(text, h["CACHE-CONTROL"]) :: ParseKeepAlive(text) == Seconds(1800)
    ensures var h := ResponseHeaders(c, nt, location);
            && "CACHE-CONTROL" in h
            && forall text | Spaced(text, h["CACHE-CONTROL"]) :: ParseKeepAlive(text) == Seconds(1800)
    ensures "CACHE-CONTROL" !in ByeHeaders(c, nt)
  {
    forall text | Spaced(text, MaxAge(1800)) ensures ParseKeepAlive(text) == Seconds(1800) {
      LeaseTextRoundTrip(1800, text);
    }
  }

  lemma UsnInjective(c: Config, a: string, b: string)
    requires Usn(c, a) == Usn(c, b)
    ensures a == b
  {
    var p := "uuid:" + c.uuid + "::";
    assert a == Usn(c, a)[|p|..];
    assert b == Usn(c, b)[|p|..];
  }

  // ------------------------------------------------------------------ bursts

  /** The registered namespaces in the order std::map visits them. */
  function Keys(ns: Namespaces): (ks: seq<string>)
    ensures forall i | 0 <= i < |ks| :: ks[i] in ns
  {
    var ks := SortedKeys(ns.Keys);
    assert forall i | 0 <= i < |ks| :: ks[i] in ks;
    ks
  }

  function AliveRound(c: Config, ns: Namespaces): seq<Notice> {
    var ks := Keys(ns);
    seq(|ks|, i requires 0 <= i < |ks| => Alive(c, ks[i], ns[ks[i]]))
  }

  function ByeRound(c: Config, ns: Namespaces): seq<Notice> {
    var ks := Keys(ns);
    seq(|ks|, i requires 0 <= i < |ks| => Bye(c, ks[i]))
  }

  function Repeat<T>(s: seq<T>, n: nat): seq<T> {
    if n == 0 then [] else Repeat(s, n - 1) + s
  }

  function AliveBurst(c: Config, ns: Namespaces): seq<Notice> {
    Repeat(AliveRound(c, ns), NETWORK_COUNT)
  }

  function ByeBurst(c: Config, ns: Namespaces): seq<Notice> {
    Repeat(ByeRound(c, ns), NETWORK_COUNT)
  }

  /** The part of a map under the listed keys. */
  function Chosen(ns: Namespaces, ks: seq<string>): Namespaces
    requires forall k | k in ks :: k in ns
  {
    map k | k in ks :: ns[k]
  }

  lemma ChosenSnoc(ns: Namespaces, ks: seq<string>, k: string)
    requires k in ns && forall x | x in ks :: x in ns
    ensures Chosen(ns, ks + [k]) == Chosen(ns, ks)[k := ns[k]]
  {
  }

  lemma ChosenAll(ns: Namespaces)
    ensures Chosen(ns, Keys(ns)) == ns
  {
    assert forall k | k in ns :: k in Keys(ns);
  }

  lemma RepeatStep<T>(before: seq<T>, s: seq<T>, i: nat)
    ensures before + Repeat(s, i) + s == before + Repeat(s, i + 1)
  {
  }

  lemma {:induction false} RepeatLength<T>(s: seq<T>, n: nat)
    ensures |Repeat(s, n)| == n * |s|
  {
    if n > 0 { RepeatLength(s, n - 1); }
  }

  /** Every entry of a repetition is an entry of the round; the first round is the round. */
  lemma {:induction false} RepeatEntries<T>(s: seq<T>, n: nat, i: nat)
    requires i < |Repeat(s, n)|
    ensures exists j | 0 <= j < |s| :: Repeat(s, n)[i] == s[j] && (i < |s| ==> j == i)
  {
    var r := Repeat(s, n - 1);
    RepeatLength(s, n - 1);
    if i < |r| {
      RepeatEntries(s, n - 1, i);
    } else {
      assert Repeat(s, n)[i] == s[i - |r|];
      assert n - 1 == 0 || |r| >= |s| by { if n > 1 { assert (n - 1) * |s| >= |s|; } }
    }
  }

  // --------------------------------------------------------------- receiving

  /** A received request; parameter names are case insensitive, so they are in capitals. */
  datatype Request = Request(verb: string, params: HeaderMap)

  /** http::Request::parameter, which is empty for a missing name. */
  function Param(r: Request, name: string): string {
    if name in r.params then r.params[name] else ""
  }

  datatype Reaction = Handled(replies: seq<Notice>) | AssertFailed

  function AllResponses(c: Config, ns: Namespaces): seq<Notice> {
    var ks := Keys(ns);
    seq(|ks|, i requires 0 <= i < |ks| => Response(c, ks[i], ns[ks[i]]))
  }

  /** What handle_receive does with one request. */
  function React(c: Config, ns: Namespaces, r: Request): Reaction {
    if Contains(Param(r, "USN"), c.uuid) then Handled([])
    else if r.verb == MSEARCH then
      var st := Param(r, "ST");
      if st == NS_ALL then Handled(AllResponses(c, ns))
      else if st in ns then Handled([Response(c, st, ns[st])])
      else Handled([])
    else if r.verb == NOTIFY then Handled([])
    else AssertFailed
  }

  /** The replies sent, none where the assertion fails. */
  function RepliesOf(reaction: Reaction): seq<Notice> {
    match reaction
    case Handled(replies) => replies
    case AssertFailed => []
  }

  /** The SSDP server object: its registry, announce time, and everything it has sent. */
  class SsdpServer {
    const config: Config
    var namespaces: Namespaces
    var announceTime: nat
    var multicast: seq<Notice>
    var answers: seq<Notice>

    constructor (config: Config, initial: Namespaces)
      ensures this.config == config && namespaces == initial
      ensures multicast == [] && answers == []
    {
      this.config := config;
      namespaces := map[];
      announceTime := 0;
      multicast, answers := [], [];
      new;
      var ks := Keys(initial);
      for i := 0 to |ks|
        invariant namespaces == Chosen(initial, ks[..i])
        invariant multicast == [] && answers == []
      {
        RegisterNamespace(ks[i], initial[ks[i]]);
        ChosenSnoc(initial, ks[..i], ks[i]);
        assert ks[..i + 1] == ks[..i] + [ks[i]];
      }
      assert ks[..|ks|] == ks;
      ChosenAll(initial);
    }

    method RegisterNamespace(ns: string, location: string)
      modifies this`namespaces
      ensures namespaces == old(namespaces)[ns := location]
    {
      namespaces := namespaces[ns := location];
    }

    method SendAnnounce(nt: string, location: string)
      modifies this`multicast
      ensures multicast == old(multicast) + [Alive(config, nt, location)]
    {
      var h: HeaderMap := map[];
      h := h["HOST" := Host(config)];
      h := h["CACHE-CONTROL" := MaxAge(ANNOUNCE_INTERVAL)];
      h := h["LOCATION" := location];
      h := h["SERVER" := ServerName(config)];
      h := h["NT" := nt];
      h := h["USN" := Usn(config, nt)];
      h := h["NTS" := STATUS_ALIVE];
      h := h["EXT" := ""];
      h := h["DATE" := FIXED_DATE];
      h := h["Content-Length" := "0"];
      multicast := multicast + [Notice(HEADER_REQUEST_LINE, h)];
    }

    method SendSuppress(nt: string)
      modifies this`multicast
      ensures multicast == old(multicast) + [Bye(config, nt)]
    {
      var h: HeaderMap := map[];
      h := h["HOST" := Host(config)];
      h := h["NT" := nt];
      h := h["USN" := Usn(config, nt)];
      h := h["NTS" := STATUS_BYE];
      h := h["SERVER" := ServerName(config)];
      h := h["EXT" := ""];
      h := h["DATE" := config.date];
      h := h["CONTENT-LENGTH" := "0"];
      multicast := multicast + [Notice(HEADER_REQUEST_LINE, h)];
    }

    method SendByeRound()
      modifies this`multicast
      ensures multicast == old(multicast) + ByeRound(config, namespaces)
    {
      var ks, round := Keys(namespaces), ByeRound(config, namespaces);
      for j := 0 to |ks|
        invariant multicast == old(multicast) + round[..j]
      {
        SendSuppress(ks[j]);
        assert round[..j + 1] == round[..j] + [round[j]];
      }
      assert round[..|ks|] == round;
    }

    method SendAliveRound()
      modifies this`multicast
      ensures multicast == old(multicast) + AliveRound(config, namespaces)
    {
      var ns := namespaces;
      var ks, round := Keys(ns), AliveRound(config, ns);
      for j := 0 to |ks|
        invariant multicast == old(multicast) + round[..j]
      {
        SendAnnounce(ks[j], ns[ks[j]]);
        assert round[..j + 1] == round[..j] + [round[j]];
      }
      assert round[..|ks|] == round;
    }

    method Suppress()
      modifies this`multicast
      ensures multicast == old(multicast) + ByeBurst(config, namespaces)
    {
      ghost var before, round := multicast, ByeRound(config, namespaces);
      for i := 0 to NETWORK_COUNT
        invariant multicast == before + Repeat(round, i)
      {
        SendByeRound();
        RepeatStep(before, round, i);
      }
    }

    /** The alive loops shared by announce and by annouceThread. */
    method SendAliveBurst()
      modifies this`multicast
      ensures multicast == old(multicast) + AliveBurst(config, namespaces)
    {
      ghost var before, round := multicast, AliveRound(config, namespaces);
      for i := 0 to NETWORK_COUNT
        invariant multicast == before + Repeat(round, i)
      {
        SendAliveRound();
        RepeatStep(before, round, i);
      }
    }

    method Announce()
      modifies this`multicast
      ensures multicast == old(multicast) + ByeBurst(config, namespaces) + AliveBurst(config, namespaces)
    {
      Suppress();
      SendAliveBurst();
    }

    /** One pass of the loop of annouceThread: the clock is read before and after the burst. */
    method ReannounceIfDue(checkedAt: nat, doneAt: nat)
      requires announceTime <= checkedAt <= doneAt
      modifies this`multicast, this`announceTime
      ensures if ElapsedSeconds(checkedAt - old(announceTime)) >= 60
              then multicast == old(multicast) + AliveBurst(config, namespaces) && announceTime == doneAt
              else multicast == old(multicast) && announceTime == old(announceTime)
    {
      if ElapsedSeconds(checkedAt - announceTime) >= 60 {
        SendAliveBurst();
        announceTime := doneAt;
      }
    }

    method CreateResponse(nt: string, location: string) returns (h: HeaderMap)
      ensures h == ResponseHeaders(config, nt, location)
    {
      h := map[];
      h := h["CACHE-CONTROL" := MaxAge(ANNOUNCE_INTERVAL)];
      h := h["LOCATION" := location];
      h := h["SERVER" := ServerName(config)];
      h := h["ST" := nt];
      h := h["USN" := Usn(config, nt)];
      h := h["EXT" := ""];
      h := h["DATE" := FIXED_DATE];
      h := h["Content-Length" := "0"];
    }

    method AnswerTarget(nt: string)
      requires nt in namespaces
      modifies this`answers
      ensures answers == old(answers) + [Response(config, nt, namespaces[nt])]
    {
      var h := CreateResponse(nt, namespaces[nt]);
      answers := answers + [Notice(REQUEST_LINE_OK, h)];
    }

    method AnswerAll()
      modifies this`answers
      ensures answers == old(answers) + AllResponses(config, namespaces)
    {
      var ks, all := Keys(namespaces), AllResponses(config, namespaces);
      for i := 0 to |ks|
        invariant answers == old(answers) + all[..i]
      {
        AnswerTarget(ks[i]);
        assert all[..i + 1] == all[..i] + [all[i]];
      }
      assert all[..|ks|] == all;
    }

    /** ok is false where the source reaches assert( false ). */
    method HandleReceive(request: Request) returns (ok: bool)
      modifies this`answers
      ensures ok == React(config, namespaces, request).Handled?
      ensures answers == old(answers) + if ok then React(config, namespaces, request).replies else []
    {
      ok := true;
      if !Contains(Param(request, "USN"), config.uuid) {
        var st := Param(request, "ST");
        if request.verb == MSEARCH {
          if st == NS_ALL {
            AnswerAll();
          } else if st in namespaces {
            AnswerTarget(st);
          }
        } else if request.verb != NOTIFY {
          ok := false;
        }
      }
    }
  }

  // ------------------------------------------------------------ search replies

  /** A search by somebody else for target st. */
  predicate ForeignSearch(c: Config, r: Request, st: string) {
    r.verb == MSEARCH && Param(r, "ST") == st && !Contains(Param(r, "USN"), c.uuid)
  }

  lemma {:induction false} ConcatAll<T>(parts: seq<seq<T>>, whole: seq<T>)
    requires |parts| == |whole| && forall i | 0 <= i < |parts| :: parts[i] == [whole[i]]
    ensures Concat(parts) == whole
  {
    if parts != [] {
      ConcatAll(parts[1..], whole[1..]);
      assert [whole[0]] + whole[1..] == whole;
    }
  }

  function Concat<T>(parts: seq<seq<T>>): seq<T> {
    if parts == [] then [] else parts[0] + Concat(parts[1..])
  }

  lemma ResponsesDistinct(c: Config, ns: Namespaces, a: string, b: string)
    requires a in ns && b in ns && a != b
    ensures var ra, rb := Response(c, a, ns[a]), Response(c, b, ns[b]);
            "USN" in ra.headers && "USN" in rb.headers && ra.headers["USN"] != rb.headers["USN"]
  {
    BuilderFields(c, a, ns[a]);
    BuilderFields(c, b, ns[b]);
    if Usn(c, a) == Usn(c, b) { UsnInjective(c, a, b); }
  }

  lemma KeysExact(ns: Namespaces)
    ensures |Keys(ns)| == |ns|
    ensures forall i, j | 0 <= i < j < |Keys(ns)| :: Keys(ns)[i] != Keys(ns)[j]
    ensures forall nt | nt in ns :: nt in Keys(ns)
  {
    assert |ns.Keys| == |ns|;
    SortedKeysAscend(ns.Keys);
    AscendingDistinct(Keys(ns));
  }

  lemma ResponsesApart(c: Config, ns: Namespaces)
    ensures var replies := AllResponses(c, ns);
            forall i, j | 0 <= i < j < |replies| ::
              "USN" in replies[i].headers && "USN" in replies[j].headers
              && replies[i].headers["USN"] != replies[j].headers["USN"]
  {
    var ks, replies := Keys(ns), AllResponses(c, ns);
    KeysExact(ns);
    forall i, j | 0 <= i < j < |replies|
      ensures "USN" in replies[i].headers && "USN" in replies[j].headers
      ensures replies[i].headers["USN"] != replies[j].headers["USN"]
    {
      ResponsesDistinct(c, ns, ks[i], ks[j]);
    }
  }

  /** One answer per registered namespace, with its location and a USN of its own. */
  lemma AllResponsesExact(c: Config, ns: Namespaces)
    ensures var replies := AllResponses(c, ns);
            && |replies| == |ns|
            && (forall i | 0 <= i < |replies| :: exists nt | nt in ns :: replies[i] == Response(c, nt, ns[nt]))
            && (forall nt | nt in ns :: Response(c, nt, ns[nt]) in replies)
            && (forall i, j | 0 <= i < j < |replies| ::
                  "USN" in replies[i].headers && "USN" in replies[j].headers
                  && replies[i].headers["USN"] != replies[j].headers["USN"])
  {
    var ks, replies := Keys(ns), AllResponses(c, ns);
    KeysExact(ns);
    ResponsesApart(c, ns);
    forall nt | nt in ns ensures Response(c, nt, ns[nt]) in replies {
      var i :| 0 <= i < |ks| && ks[i] == nt;
      assert replies[i] == Response(c, nt, ns[nt]);
    }
  }

  /** The replies to the searches, one search after the other. */
  function RepliesToAll(c: Config, ns: Namespaces, searches: seq<Request>): seq<Notice> {
    Concat(seq(|searches|, i requires 0 <= i < |searches| => RepliesOf(React(c, ns, searches[i]))))
  }

  lemma {:induction false} ConcatLength<T>(parts: seq<seq<T>>, k: nat)
    requires k < |parts| && forall i | 0 <= i < |parts| :: |parts[i]| > 0
    ensures |Concat(parts)| >= |parts[k]| + |parts| - 1
  {
    if k > 0 {
      ConcatLength(parts[1..], k - 1);
    } else if |parts| > 1 {
      ConcatLength(parts[1..], 0);
    }
  }

  lemma SearchesApart(c: Config, ns: Namespaces, targeted: seq<Request>)
    requires NS_ALL !in ns && |targeted| == |Keys(ns)|
    requires forall i | 0 <= i < |targeted| :: ForeignSearch(c, targeted[i], Keys(ns)[i])
    ensures RepliesToAll(c, ns, targeted) == AllResponses(c, ns)
  {
    var ks, replies := Keys(ns), AllResponses(c, ns);
    forall i | 0 <= i < |targeted| ensures RepliesOf(React(c, ns, targeted[i])) == [replies[i]] {
      assert ks[i] in ns && ks[i] != NS_ALL;
    }
    ConcatAll(seq(|targeted|, i requires 0 <= i < |targeted| => RepliesOf(React(c, ns, targeted[i]))), replies);
  }

  /** Where ssdp:all is registered, searching for it answers for every namespace. */
  lemma SearchesOverlap(c: Config, ns: Namespaces, targeted: seq<Request>)
    requires NS_ALL in ns && |targeted| == |Keys(ns)|
    requires forall i | 0 <= i < |targeted| :: ForeignSearch(c, targeted[i], Keys(ns)[i])
    ensures |ns| == 1 ==> RepliesToAll(c, ns, targeted) == AllResponses(c, ns)
    ensures |RepliesToAll(c, ns, targeted)| >= 2 * |ns| - 1
  {
    KeysExact(ns);
    var ks := Keys(ns);
    var parts := seq(|targeted|, i requires 0 <= i < |targeted| => RepliesOf(React(c, ns, targeted[i])));
    var k :| 0 <= k < |ks| && ks[k] == NS_ALL;
    assert parts[k] == AllResponses(c, ns);
    forall i | 0 <= i < |parts| ensures |parts[i]| > 0 { assert ks[i] in ns; }
    ConcatLength(parts, k);
    if |ns| == 1 {
      assert Concat(parts[1..]) == [];
      assert Concat(parts) == parts[0];
    }
  }

  /** The answer to ssdp:all is the answers to one targeted search per registered namespace,
      one after the other, exactly where ssdp:all is not itself registered beside others. */
  lemma SearchComplete(c: Config, ns: Namespaces, all: Request, targeted: seq<Request>)
    requires ForeignSearch(c, all, NS_ALL)
    requires |targeted| == |Keys(ns)|
    requires forall i | 0 <= i < |targeted| :: ForeignSearch(c, targeted[i], Keys(ns)[i])
    ensures React(c, ns, all) == Handled(RepliesToAll(c, ns, targeted)) <==> NS_ALL !in ns || |ns| == 1
    ensures forall i | 0 <= i < |targeted| :: React(c, ns, targeted[i]).Handled?
  {
    KeysExact(ns);
    if NS_ALL in ns { SearchesOverlap(c, ns, targeted); } else { SearchesApart(c, ns, targeted); }
  }

  // ------------------------------------------------- messages written out

  /** The answer for one namespace, text by text. */
  function AnswerText(c: Config, nt: string, location: string): Notice {
    Notice("HTTP/1.1 200 OK",
           map["CACHE-CONTROL" := "max-age=1800",
               "LOCATION" := location,
               "SERVER" := c.system + " DLNADOC/1.50 UPnP/1.0 SSDP/1.0.0",
               "ST" := nt,
               "USN" := "uuid:" + c.uuid + "::" + nt,
               "EXT" := "",
               "DATE" := "Mon, 16 Oct 2017 09:59:53 GMT",
               "Content-Length" := "0"])
  }

  function AliveText(c: Config, nt: string, location: string): Notice {
    Notice("NOTIFY * HTTP/1.1",
           map["HOST" := c.multicastAddress + ":" + c.multicastPort,
               "CACHE-CONTROL" := "max-age=1800",
               "LOCATION" := location,
               "SERVER" := c.system + " DLNADOC/1.50 UPnP/1.0 SSDP/1.0.0",
               "NT" := nt,
               "USN" := "uuid:" + c.uuid + "::" + nt,
               "NTS" := "ssdp:alive",
               "EXT" := "",
               "DATE" := "Mon, 16 Oct 2017 09:59:53 GMT",
               "Content-Length" := "0"])
  }

  function ByeText(c: Config, nt: string): Notice {
    Notice("NOTIFY * HTTP/1.1",
           map["HOST" := c.multicastAddress + ":" + c.multicastPort,
               "NT" := nt,
               "USN" := "uuid:" + c.uuid + "::" + nt,
               "NTS" := "ssdp:byebye",
               "SERVER" := c.system + " DLNADOC/1.50 UPnP/1.0 SSDP/1.0.0",
               "EXT" := "",
               "DATE" := c.date,
               "CONTENT-LENGTH" := "0"])
  }

  lemma LeaseIsText()
    ensures MaxAge(ANNOUNCE_INTERVAL) == "max-age=1800"
  {
    assert Decimal(1) == "1" && Decimal(18) == "18" && Decimal(180) == "180" && Decimal(1800) == "1800";
  }

  lemma MessagesAreTexts(c: Config, nt: string, location: string)
    ensures Response(c, nt, location) == AnswerText(c, nt, location)
    ensures Alive(c, nt, location) == AliveText(c, nt, location)
    ensures Bye(c, nt) == ByeText(c, nt)
  {
    LeaseIsText();
  }

  /** A request that names this server's uuid in its USN is its own. */
  ghost predicate IsOwn(c: Config, r: Request) {
    exists a, b :: Param(r, "USN") == a + c.uuid + b
  }

  /** What handle_receive sends, by the texts of the request and of the answers: a foreign
      M-SEARCH for ssdp:all gets the answers for all namespaces in the order of their texts,
      one for a registered target gets one answer, everything else nothing; a verb other than
      M-SEARCH and NOTIFY meets the assertion. */
  lemma SearchTexts(c: Config, ns: Namespaces, r: Request)
    ensures IsOwn(c, r) ==> React(c, ns, r) == Handled([])
    ensures !IsOwn(c, r) && r.verb == "M-SEARCH" && Param(r, "ST") == "ssdp:all" ==>
              React(c, ns, r) ==
              Handled(seq(|Keys(ns)|, i requires 0 <= i < |Keys(ns)| => AnswerText(c, Keys(ns)[i], ns[Keys(ns)[i]])))
    ensures !IsOwn(c, r) && r.verb == "M-SEARCH" && Param(r, "ST") != "ssdp:all" ==>
              React(c, ns, r) ==
              Handled(if Param(r, "ST") in ns then [AnswerText(c, Param(r, "ST"), ns[Param(r, "ST")])] else [])
    ensures !IsOwn(c, r) && r.verb == "NOTIFY" ==> React(c, ns, r) == Handled([])
    ensures !IsOwn(c, r) && r.verb != "M-SEARCH" && r.verb != "NOTIFY" ==> React(c, ns, r) == AssertFailed
  {
    ContainsExact(Param(r, "USN"), c.uuid);
    AllAnswersText(c, ns);
    var st := Param(r, "ST");
    if st in ns { MessagesAreTexts(c, st, ns[st]); }
  }

  lemma AllAnswersText(c: Config, ns: Namespaces)
    ensures AllResponses(c, ns) ==
            seq(|Keys(ns)|, i requires 0 <= i < |Keys(ns)| => AnswerText(c, Keys(ns)[i], ns[Keys(ns)[i]]))
  {
    var ks := Keys(ns);
    forall i | 0 <= i < |ks| ensures Response(c, ks[i], ns[ks[i]]) == AnswerText(c, ks[i], ns[ks[i]]) {
      MessagesAreTexts(c, ks[i], ns[ks[i]]);
    }
  }

  /** The registered namespaces are visited in the order of their texts, each once. */
  lemma KeysInOrder(ns: Namespaces)
    ensures |Keys(ns)| == |ns| && forall nt :: nt in Keys(ns) <==> nt in ns
    ensures forall i, j | 0 <= i < j < |Keys(ns)| :: TextBefore(Keys(ns)[i], Keys(ns)[j])
  {
    SortedKeysExact(ns.Keys);
    assert |ns.Keys| == |ns|;
  }

  /** A burst is one round sent three times, and a round is one message for each namespace. */
  lemma BurstTexts(c: Config, ns: Namespaces, alive: seq<Notice>, bye: seq<Notice>)
    requires |alive| == |bye| == |Keys(ns)|
    requires forall i | 0 <= i < |Keys(ns)| :: alive[i] == AliveText(c, Keys(ns)[i], ns[Keys(ns)[i]])
    requires forall i | 0 <= i < |Keys(ns)| :: bye[i] == ByeText(c, Keys(ns)[i])
    ensures AliveBurst(c, ns) == alive + alive + alive
    ensures ByeBurst(c, ns) == bye + bye + bye
  {
    var ks := Keys(ns);
    forall i | 0 <= i < |ks| ensures AliveRound(c, ns)[i] == alive[i] && ByeRound(c, ns)[i] == bye[i] {
      MessagesAreTexts(c, ks[i], ns[ks[i]]);
    }
    assert AliveRound(c, ns) == alive && ByeRound(c, ns) == bye;
    ThreeTimes(alive);
    ThreeTimes(bye);
  }

  lemma ThreeTimes<T>(s: seq<T>)
    ensures Repeat(s, NETWORK_COUNT) == s + s + s
  {
    assert Repeat(s, 1) == Repeat(s, 0) + s;
    assert Repeat(s, 2) == Repeat(s, 1) + s;
    assert Repeat(s, 3) == Repeat(s, 2) + s;
    assert [] + s == s;
  }

  // ------------------------------------------------------------- own messages

  function Capital(ch: char): char {
    if 'a' <= ch <= 'z' then 'A' + (ch - 'a') else ch
  }

  function Capitals(s: string): (r: string)
    ensures |r| == |s| && forall i | 0 <= i < |s| :: r[i] == Capital(s[i])
  {
    seq(|s|, i requires 0 <= i < |s| => Capital(s[i]))
  }

  /** The parameters a receiver sees: the same headers under names in capitals. */
  ghost function Canonical(h: HeaderMap): HeaderMap {
    var names := set n | n in h :: Capitals(n);
    map m | m in names :: var n :| n in h && Capitals(n) == m; h[n]
  }

  function FirstWord(line: string): string {
    if line == "" || line[0] == ' ' then "" else [line[0]] + FirstWord(line[1..])
  }

  /** A request as read from the text of a datagram. */
  ghost function Received(text: string): Option<Request> {
    match ReadMessage(text)
    case None => None
    case Some((line, h)) => Some(Request(FirstWord(line), Canonical(h)))
  }

  /** Some header is a USN, in capitals or not, and every such header holds the uuid. */
  predicate NamesServer(c: Config, h: HeaderMap) {
    && (exists n | n in h :: Capitals(n) == "USN")
    && (forall n | n in h && Capitals(n) == "USN" :: Contains(h[n], c.uuid))
  }

  lemma CanonicalUsn(c: Config, h: HeaderMap)
    requires NamesServer(c, h)
    ensures "USN" in Canonical(h) && Contains(Canonical(h)["USN"], c.uuid)
  {
    var n :| n in h && Capitals(n) == "USN";
  }

  predicate BuiltFor(c: Config, m: Notice, nt: string, location: string) {
    m == Alive(c, nt, location) || m == Bye(c, nt) || m == Response(c, nt, location)
  }

  ghost predicate BuiltHere(c: Config, m: Notice) {
    exists nt, location :: BuiltFor(c, m, nt, location)
  }

  /** A text that names this server under a USN header, spelled in any case, is answered
      with nothing, whatever else it says. */
  lemma OwnTextIgnored(c: Config, ns: Namespaces, text: string, line: string, h: HeaderMap)
    requires ReadMessage(text) == Some((line, h)) && NamesServer(c, h)
    ensures Received(text).Some? && React(c, ns, Received(text).value) == Handled([])
  {
    CanonicalUsn(c, h);
  }

  lemma OnlyUsnReadsUsn(h: HeaderMap)
    requires forall n | n in h :: ShortName(n)
    ensures forall n | n in h && Capitals(n) == "USN" :: n == "USN"
  {
    forall n | n in h && Capitals(n) == "USN" ensures n == "USN" {
      assert |n| == 3;
      assert Capitals(n)[0] == 'U';
    }
  }

  /** Blanks around a USN are lost on the way, the uuid in it is not. */
  lemma TrimmedUsn(c: Config, nt: string)
    ensures Contains(Trim(Usn(c, nt)), c.uuid)
  {
    var a := "uuid:" + c.uuid + "::";
    assert Usn(c, nt) == a + nt;
    assert TrimLeft(a + nt) == a + nt;
    TrimRightKeeps(a, nt);
    assert Trim(Usn(c, nt)) == "uuid:" + c.uuid + ("::" + TrimRight(nt));
    ContainsMiddle("uuid:", c.uuid, "::" + TrimRight(nt));
  }

  /** Whatever one of the three builders made, sent as text and read back by the same
      server, is answered with nothing. A NOTIFY whatever its values are, and a search reply
      if none of them breaks its line, is handled as the server's own or as no search; only a
      search reply that lost its USN to a broken line can run into the assertion. */
  lemma NoSelfFeeding(c: Config, ns: Namespaces, m: Notice, text: string)
    requires BuiltHere(c, m)
    requires text == Message(m.line, m.headers)
    ensures Received(text).Some? ==> RepliesOf(React(c, ns, Received(text).value)) == []
    ensures m.line == HEADER_REQUEST_LINE && Received(text).Some? ==> React(c, ns, Received(text).value) == Handled([])
    ensures PlainHeaders(m.headers) ==> Received(text).Some? && React(c, ns, Received(text).value) == Handled([])
  {
    var nt, location :| BuiltFor(c, m, nt, location);
    LinesAreNoSearch(c, ns, m);
    if PlainHeaders(m.headers) { PlainIsOwn(c, ns, m, nt, location, text); }
  }

  /** A text is read with the first word of the line it begins with as its verb. */
  lemma VerbIsRead(line: string, h: HeaderMap)
    requires NoLineBreak(line)
    ensures Received(Message(line, h)).Some? ==> Received(Message(line, h)).value.verb == FirstWord(line)
  {
    var rest := HeaderLines(SortedKeys(h.Keys), h) + CRLF;
    assert Message(line, h) == line + CRLF + rest;
    TakeLineFinds(line, rest);
  }

  /** Neither of the two lines the builders use is that of a search. */
  lemma LinesAreNoSearch(c: Config, ns: Namespaces, m: Notice)
    requires m.line == HEADER_REQUEST_LINE || m.line == REQUEST_LINE_OK
    ensures var r := Received(Message(m.line, m.headers));
            && (r.Some? ==> RepliesOf(React(c, ns, r.value)) == [])
            && (r.Some? && m.line == HEADER_REQUEST_LINE ==> React(c, ns, r.value) == Handled([]))
  {
    RequestLinesClean();
    VerbIsRead(m.line, m.headers);
    if m.line == HEADER_REQUEST_LINE { NotifyWord(m.line); } else { StatusWord(m.line); }
  }

  lemma StatusWord(line: string)
    requires line == REQUEST_LINE_OK
    ensures FirstWord(line) != MSEARCH && FirstWord(line) != NOTIFY
  {
    var word, rest := line[..8], line[9..];
    assert line == word + " " + rest && word == "HTTP/1.1";
    FirstWordFinds(word, rest);
  }

  lemma PlainIsOwn(c: Config, ns: Namespaces, m: Notice, nt: string, location: string, text: string)
    requires BuiltFor(c, m, nt, location) && PlainHeaders(m.headers) && text == Message(m.line, m.headers)
    ensures Received(text).Some? && React(c, ns, Received(text).value) == Handled([])
  {
    BuiltHeaders(c, m, nt, location);
    PlainUsnIsOwn(c, ns, m.line, m.headers, nt);
  }

  lemma PlainUsnIsOwn(c: Config, ns: Namespaces, line: string, h: HeaderMap, nt: string)
    requires NoLineBreak(line) && PlainHeaders(h) && forall n | n in h :: ShortName(n)
    requires "USN" in h && h["USN"] == Usn(c, nt)
    ensures var r := Received(Message(line, h)); r.Some? && React(c, ns, r.value) == Handled([])
  {
    MessageReads(line, h);
    var read := TrimAll(h);
    OnlyUsnReadsUsn(read);
    TrimmedUsn(c, nt);
    assert "USN" in read && read["USN"] == Trim(Usn(c, nt)) && Capitals("USN") == "USN";
    OwnTextIgnored(c, ns, Message(line, h), line, read);
  }

  lemma NotifyWord(line: string)
    requires line == HEADER_REQUEST_LINE
    ensures FirstWord(line) == NOTIFY
  {
    var word, rest := line[..6], line[7..];
    assert line == word + " " + rest && word == NOTIFY;
    FirstWordFinds(word, rest);
  }

  lemma {:induction false} FirstWordFinds(word: string, rest: string)
    requires ' ' !in word
    ensures FirstWord(word + " " + rest) == word
  {
    var line := word + " " + rest;
    if word != "" {
      assert line[0] == word[0] && word[0] in word;
      assert line[1..] == word[1..] + " " + rest;
      FirstWordFinds(word[1..], rest);
      assert [word[0]] + word[1..] == word;
    }
  }

  lemma RequestLinesClean()
    ensures NoLineBreak(HEADER_REQUEST_LINE) && NoLineBreak(REQUEST_LINE_OK)
  {
  }

  lemma BuiltHeaders(c: Config, m: Notice, nt: string, location: string)
    requires BuiltFor(c, m, nt, location)
    ensures NoLineBreak(m.line)
    ensures "USN" in m.headers && m.headers["USN"] == Usn(c, nt)
    ensures forall n | n in m.headers :: ShortName(n)
  {
    RequestLinesClean();
    BuilderFields(c, nt, location);
    ShortNames(c, nt, location);
  }

  predicate ShortName(n: string) {
    |n| == 3 ==> n == "USN" || n == "NTS" || n == "EXT"
  }

  lemma ShortNames(c: Config, nt: string, location: string)
    ensures forall n | n in AliveHeaders(c, nt, location) :: ShortName(n)
    ensures forall n | n in ByeHeaders(c, nt) :: ShortName(n)
    ensures forall n | n in ResponseHeaders(c, nt, location) :: ShortName(n)
  {
  }

  /** An empty uuid is found in every USN, so such a server answers nobody. */
  lemma EmptyUuidAnswersNobody(c: Config, ns: Namespaces, r: Request)
    requires c.uuid == ""
    ensures React(c, ns, r) == Handled([])
  {
    var usn := Param(r, "USN");
    assert OccursAt(usn, "", 0);
  }
}
