/** The message text of src/_utils.h (create_header) and a reference reader for it
    that follows sections 3 and 3.2 of RFC 7230. */
module Headers {
  import opened Text
  import opened StdMap

  type HeaderMap = map<string, string>

  const CRLF := "\r\n"

  // ------------------------------------------------------------------ writer

  function HeaderLine(name: string, value: string): string {
    name + ": " + value + CRLF
  }

  function HeaderLines(names: seq<string>, h: HeaderMap): string
    requires forall n | n in names :: n in h
  {
    if names == [] then "" else HeaderLine(names[0], h[names[0]]) + HeaderLines(names[1..], h)
  }

  function Message(requestLine: string, h: HeaderMap): string {
    requestLine + CRLF + HeaderLines(SortedKeys(h.Keys), h) + CRLF
  }

  lemma {:induction false} HeaderLinesSnoc(names: seq<string>, n: string, h: HeaderMap)
    requires n in h && forall m | m in names :: m in h
    ensures HeaderLines(names + [n], h) == HeaderLines(names, h) + HeaderLine(n, h[n])
  {
    if names == [] {
      assert [n][1..] == [];
      assert [] + [n] == [n];
    } else {
      assert (names + [n])[1..] == names[1..] + [n];
      HeaderLinesSnoc(names[1..], n, h);
    }
  }

  /** The stream loop of create_header. */
  method CreateHeader(requestLine: string, headers: HeaderMap) returns (os: string)
    ensures os == Message(requestLine, headers)
  {
    os := requestLine + CRLF;
    var names := SortedKeys(headers.Keys);
    for i := 0 to |names|
      invariant os == requestLine + CRLF + HeaderLines(names[..i], headers)
    {
      HeaderLinesSnoc(names[..i], names[i], headers);
      assert names[..i] + [names[i]] == names[..i + 1];
      os := os + HeaderLine(names[i], headers[names[i]]);
    }
    assert names[..|names|] == names;
    os := os + CRLF;
  }

  lemma {:induction false} LinesWithout(names: seq<string>, h: HeaderMap, n: string)
    requires forall m | m in names :: m in h && m != n
    ensures HeaderLines(names, h) == HeaderLines(names, h - {n})
  {
    if names != [] { LinesWithout(names[1..], h, n); }
  }

  /** The smallest name comes first. */
  lemma SmallestFirst(keys: set<string>, n: string)
    requires n in keys && forall m | m in keys && m != n :: TextBefore(n, m)
    ensures SortedKeys(keys) == [n] + SortedKeys(keys - {n})
  {
    forall m | m in keys ensures m == n || Before(n, m) { if m != n { BeforeExact(n, m); } }
    assert IsLeast(n, keys);
    LeastUnique(keys);
    assert Least(keys) == n;
  }

  lemma LinesSplit(h: HeaderMap, n: string)
    requires n in h && forall m | m in h && m != n :: TextBefore(n, m)
    ensures HeaderLines(SortedKeys(h.Keys), h) ==
            HeaderLine(n, h[n]) + HeaderLines(SortedKeys((h - {n}).Keys), h - {n})
  {
    SmallestFirst(h.Keys, n);
    var names := SortedKeys(h.Keys - {n});
    assert (h - {n}).Keys == h.Keys - {n};
    assert ([n] + names)[1..] == names;
    forall m | m in names ensures m in h && m != n { assert m in h.Keys - {n}; }
    LinesWithout(names, h, n);
  }

  /** The text of a message: its line, CR LF, one line for each header, the smallest name
      first, with a colon and a space before the value and CR LF behind it, and CR LF. */
  lemma MessageTexts(line: string, h: HeaderMap, n: string) returns (rest: string)
    requires n in h && forall m | m in h && m != n :: TextBefore(n, m)
    ensures Message(line, map[]) == line + "\r\n\r\n"
    ensures Message(line, h) == line + "\r\n" + n + ": " + h[n] + "\r\n" + rest
    ensures Message(line, h - {n}) == line + "\r\n" + rest
  {
    LinesSplit(h, n);
    var lines := HeaderLines(SortedKeys((h - {n}).Keys), h - {n});
    rest := lines + CRLF;
    FirstLine(line, n, h[n], lines);
    assert Message(line, map[]) == line + CRLF + "" + CRLF;
  }

  lemma FirstLine(line: string, n: string, v: string, lines: string)
    ensures line + CRLF + (HeaderLine(n, v) + lines) + CRLF == line + "\r\n" + n + ": " + v + "\r\n" + (lines + CRLF)
    ensures line + CRLF + lines + CRLF == line + "\r\n" + (lines + CRLF)
  {
  }

  // ------------------------------------------------------------------ reader

  /** Text up to the first CRLF, and what follows it; None when there is no CRLF. */
  function TakeLine(s: string): Option<(string, string)> {
    if |s| < 2 then None
    else if s[..2] == CRLF then Some(("", s[2..]))
    else
      match TakeLine(s[1..])
      case None => None
      case Some(p) => Some(([s[0]] + p.0, p.1))
  }

  /** Splits a header line at its first colon. */
  function SplitColon(line: string): Option<(string, string)> {
    if line == "" then None
    else if line[0] == ':' then Some(("", line[1..]))
    else
      match SplitColon(line[1..])
      case None => None
      case Some(p) => Some(([line[0]] + p.0, p.1))
  }

  lemma {:induction false} TakeLineShortens(s: string)
    ensures TakeLine(s).Some? ==> |TakeLine(s).value.1| < |s|
  {
    if |s| >= 2 && s[..2] != CRLF { TakeLineShortens(s[1..]); }
  }

  /** field-name ":" OWS field-value OWS, up to the empty line. */
  function ReadFields(s: string): Option<HeaderMap>
    decreases |s|
  {
    TakeLineShortens(s);
    match TakeLine(s)
    case None => None
    case Some((line, rest)) =>
      if line == "" then Some(map[])
      else
        match SplitColon(line)
        case None => None
        case Some((name, value)) =>
          match ReadFields(rest)
          case None => None
          case Some(h) => Some(h[name := Trim(value)])
  }

  function ReadMessage(s: string): Option<(string, HeaderMap)> {
    match TakeLine(s)
    case None => None
    case Some((line, rest)) =>
      match ReadFields(rest)
      case None => None
      case Some(h) => Some((line, h))
  }

  // -------------------------------------------------------------- round trip

  predicate NoLineBreak(s: string) {
    '\r' !in s && '\n' !in s
  }

  /** Names without colon, and no line breaks. */
  predicate PlainHeaders(h: HeaderMap) {
    forall n | n in h :: NoLineBreak(n) && ':' !in n && NoLineBreak(h[n])
  }

  /** And values without surrounding blanks. */
  predicate CleanHeaders(h: HeaderMap) {
    PlainHeaders(h) && forall n | n in h :: Trimmed(h[n])
  }

  function TrimAll(h: HeaderMap): HeaderMap {
    map n | n in h :: Trim(h[n])
  }

  lemma {:induction false} TakeLineFinds(a: string, b: string)
    requires NoLineBreak(a)
    ensures TakeLine(a + CRLF + b) == Some((a, b))
  {
    var s := a + CRLF + b;
    if a == "" {
      assert s[..2] == CRLF && s[2..] == b;
    } else {
      assert s[0] == a[0] && a[0] in a;
      assert s[..2][0] != '\r';
      assert s[1..] == a[1..] + CRLF + b;
      TakeLineFinds(a[1..], b);
      assert [a[0]] + a[1..] == a;
    }
  }

  lemma {:induction false} SplitColonFinds(name: string, value: string)
    requires ':' !in name
    ensures SplitColon(name + ":" + value) == Some((name, value))
  {
    var line := name + ":" + value;
    if name == "" {
      assert line[1..] == value;
    } else {
      assert line[0] == name[0] && name[0] in name;
      assert line[1..] == name[1..] + ":" + value;
      SplitColonFinds(name[1..], value);
      assert [name[0]] + name[1..] == name;
    }
  }

  /** One header line is read as one field of what follows. */
  lemma ReadFieldsStep(name: string, value: string, rest: string)
    requires NoLineBreak(name) && ':' !in name && NoLineBreak(value)
    requires ReadFields(rest).Some?
    ensures ReadFields(HeaderLine(name, value) + rest) == Some(ReadFields(rest).value[name := Trim(value)])
  {
    var line := name + ":" + (" " + value);
    assert HeaderLine(name, value) + rest == line + CRLF + rest;
    TakeLineFinds(line, rest);
    SplitColonFinds(name, " " + value);
    assert (" " + value)[1..] == value;
    assert Trim(" " + value) == Trim(value);
  }

  lemma {:induction false} ReadFieldsOfLines(names: seq<string>, h: HeaderMap)
    requires forall n | n in names :: n in h
    requires PlainHeaders(h)
    ensures ReadFields(HeaderLines(names, h) + CRLF) == Some(map n | n in names :: Trim(h[n]))
  {
    if names == [] {
      TakeLineFinds("", "");
      assert HeaderLines(names, h) + CRLF == "" + CRLF + "";
    } else {
      var n, rest := names[0], HeaderLines(names[1..], h) + CRLF;
      assert HeaderLines(names, h) + CRLF == HeaderLine(n, h[n]) + rest;
      ReadFieldsOfLines(names[1..], h);
      ReadFieldsStep(n, h[n], rest);
      assert (map m | m in names[1..] :: Trim(h[m]))[n := Trim(h[n])] == map m | m in names :: Trim(h[m]);
    }
  }

  /** The written text is read as the line and the header map, but for the blanks around
      its values. */
  lemma MessageReads(requestLine: string, h: HeaderMap)
    requires NoLineBreak(requestLine) && PlainHeaders(h)
    ensures ReadMessage(Message(requestLine, h)) == Some((requestLine, TrimAll(h)))
  {
    var names := SortedKeys(h.Keys);
    var rest := HeaderLines(names, h) + CRLF;
    assert Message(requestLine, h) == requestLine + CRLF + rest;
    TakeLineFinds(requestLine, rest);
    ReadFieldsOfLines(names, h);
    assert (map n | n in names :: Trim(h[n])) == TrimAll(h);
  }

  lemma TrimAllExact(h: HeaderMap)
    ensures TrimAll(h) == h <==> forall n | n in h :: Trimmed(h[n])
  {
    forall n | n in h ensures Trim(h[n]) == h[n] <==> Trimmed(h[n]) { TrimExact(h[n]); }
    if TrimAll(h) == h {
      forall n | n in h ensures Trimmed(h[n]) { assert TrimAll(h)[n] == h[n]; }
    } else {
      assert TrimAll(h).Keys == h.Keys;
    }
  }

  /** Reading gives back exactly the line and the map, if and only if no value has a blank
      around it. */
  lemma MessageRoundTrip(requestLine: string, h: HeaderMap)
    requires NoLineBreak(requestLine) && PlainHeaders(h)
    ensures ReadMessage(Message(requestLine, h)) == Some((requestLine, h)) <==> CleanHeaders(h)
  {
    MessageReads(requestLine, h);
    TrimAllExact(h);
  }

  /** Two different clean messages never share a text. */
  lemma MessageInjective(l1: string, h1: HeaderMap, l2: string, h2: HeaderMap)
    requires NoLineBreak(l1) && CleanHeaders(h1) && NoLineBreak(l2) && CleanHeaders(h2)
    requires Message(l1, h1) == Message(l2, h2)
    ensures l1 == l2 && h1 == h2
  {
    MessageRoundTrip(l1, h1);
    MessageRoundTrip(l2, h2);
  }
}
