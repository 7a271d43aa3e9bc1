/** The lease a control point keeps on an announced device: the text that grants it
    (src/ssdpserver.h, parse_keep_alive) and the clock that ends it (src/device.h). */
module Lease {
  import opened Text

  // -------------------------------------------------------------- lease text

  const SSDP_OPTION_MAX_AGE := "max-age="
  const ANNOUNCE_INTERVAL := 1800
  const TIME_T_MAX := 0x7FFF_FFFF_FFFF_FFFF

  /** Seconds, boost::bad_lexical_cast, or the failed assertion on the format. */
  datatype KeepAlive = Seconds(t: int) | BadCast | WrongFormat

  /** boost::lexical_cast< time_t >: an optional sign and at least one digit. */
  function LexicalCast(s: string): KeepAlive {
    var signed := s != "" && (s[0] == '-' || s[0] == '+');
    var digits := if signed then s[1..] else s;
    if digits == "" || !AllDigits(digits) then BadCast
    else
      var v := if signed && s[0] == '-' then -(DigitsValue(digits) as int) else DigitsValue(digits);
      if -TIME_T_MAX - 1 <= v <= TIME_T_MAX then Seconds(v) else BadCast
  }

  function ParseKeepAlive(cacheControl: string): KeepAlive {
    var clean := EraseSpaces(cacheControl);
    if StartsWith(clean, SSDP_OPTION_MAX_AGE) then LexicalCast(clean[|SSDP_OPTION_MAX_AGE|..])
    else WrongFormat
  }

  /** fmt::format( "max-age={}", n ). */
  function MaxAge(n: nat): string {
    SSDP_OPTION_MAX_AGE + Decimal(n)
  }

  /** A space anywhere in the text does not matter. */
  lemma SpaceIgnored(a: string, b: string)
    ensures ParseKeepAlive(a + " " + b) == ParseKeepAlive(a + b)
  {
    SpaceErased(a, b);
  }

  lemma NoSpaces(digits: string)
    requires AllDigits(digits)
    ensures ' ' !in digits && ' ' !in "max-age=" + digits
  {
  }

  /** Every spacing of max-age=n reads as n when n fits a time_t, and is refused otherwise. */
  lemma LeaseTextRoundTrip(n: nat, text: string)
    requires Spaced(text, "max-age=" + Decimal(n))
    ensures ParseKeepAlive(text) == if n <= 0x7FFF_FFFF_FFFF_FFFF then Seconds(n) else BadCast
  {
    DecimalReadsBack(n);
    NoSpaces(Decimal(n));
    EraseSpacesExact(text, "max-age=" + Decimal(n));
    var clean := EraseSpaces(text);
    assert clean[..|SSDP_OPTION_MAX_AGE|] == SSDP_OPTION_MAX_AGE;
    assert clean[|SSDP_OPTION_MAX_AGE|..] == Decimal(n);
    assert IsDigit(Decimal(n)[0]);
  }

  lemma {:induction false} EraseNothing(s: string)
    requires ' ' !in s
    ensures EraseSpaces(s) == s
  {
    if s != "" {
      assert s[0] in s;
      EraseNothing(s[1..]);
      assert [s[0]] + s[1..] == s;
    }
  }

  /** The text both header builders send decodes to ANNOUNCE_INTERVAL. */
  lemma SentLeaseDecodes()
    ensures ParseKeepAlive(MaxAge(ANNOUNCE_INTERVAL)) == Seconds(ANNOUNCE_INTERVAL)
    ensures EraseSpaces(MaxAge(ANNOUNCE_INTERVAL)) == MaxAge(ANNOUNCE_INTERVAL)
  {
    DecimalReadsBack(ANNOUNCE_INTERVAL);
    var d := Decimal(ANNOUNCE_INTERVAL);
    forall i | 0 <= i < |d| ensures d[i] != ' ' { assert IsDigit(d[i]); }
    EraseNothing(MaxAge(ANNOUNCE_INTERVAL));
    EraseSpacesExact(MaxAge(ANNOUNCE_INTERVAL), MaxAge(ANNOUNCE_INTERVAL));
    LeaseTextRoundTrip(ANNOUNCE_INTERVAL, MaxAge(ANNOUNCE_INTERVAL));
  }

  /** What the text of a lease of n seconds is, without its spaces: max-age=, an optional
      sign, and digits. */
  predicate LeaseText(clean: string, sign: string, digits: string, n: int) {
    && clean == "max-age=" + sign + digits
    && (sign == "" || sign == "+" || sign == "-")
    && digits != "" && AllDigits(digits)
    && n == (if sign == "-" then -(DigitsValue(digits) as int) else DigitsValue(digits))
    && -0x8000_0000_0000_0000 <= n <= 0x7FFF_FFFF_FFFF_FFFF
  }

  lemma InThree(s: string, a: string, b: string, c: string)
    requires StartsWith(s, a) && s[|a|..] == b + c
    ensures s == a + b + c
  {
  }

  lemma LeaseTextRead(clean: string, n: int)
    requires StartsWith(clean, SSDP_OPTION_MAX_AGE) && LexicalCast(clean[|SSDP_OPTION_MAX_AGE|..]) == Seconds(n)
    ensures exists sign, digits :: LeaseText(clean, sign, digits, n)
  {
    var s := clean[|SSDP_OPTION_MAX_AGE|..];
    var signed := s != "" && (s[0] == '-' || s[0] == '+');
    var sign, digits := if signed then [s[0]] else "", if signed then s[1..] else s;
    InThree(clean, SSDP_OPTION_MAX_AGE, sign, digits);
    assert LeaseText(clean, sign, digits, n);
  }

  lemma LeaseTextIsRead(clean: string, sign: string, digits: string, n: int)
    requires LeaseText(clean, sign, digits, n)
    ensures StartsWith(clean, SSDP_OPTION_MAX_AGE) && LexicalCast(clean[|SSDP_OPTION_MAX_AGE|..]) == Seconds(n)
  {
    var s := sign + digits;
    assert clean == SSDP_OPTION_MAX_AGE + s;
    assert clean[|SSDP_OPTION_MAX_AGE|..] == s;
    assert IsDigit(digits[0]);
    if sign == "" {
      assert s == digits;
    } else {
      assert s[0] == sign[0] && s[1..] == digits;
    }
  }

  /** text is a spacing of the text of a lease of n seconds. */
  predicate Says(text: string, sign: string, digits: string, n: int) {
    Spaced(text, "max-age=" + sign + digits) && LeaseText("max-age=" + sign + digits, sign, digits, n)
  }

  lemma CleanText(sign: string, digits: string, n: int)
    requires LeaseText("max-age=" + sign + digits, sign, digits, n)
    ensures ' ' !in "max-age=" + sign + digits
  {
  }

  /** A text is read as n, negative n included, exactly when it says so, spaces aside. */
  lemma LeaseTextExact(text: string, n: int)
    ensures ParseKeepAlive(text) == Seconds(n) <==> exists sign, digits :: Says(text, sign, digits, n)
  {
    var clean := EraseSpaces(text);
    if ParseKeepAlive(text) == Seconds(n) {
      LeaseTextRead(clean, n);
      var sign, digits :| LeaseText(clean, sign, digits, n);
      EraseSpacesExact(text, clean);
      assert Says(text, sign, digits, n);
    }
    if exists sign, digits :: Says(text, sign, digits, n) {
      var sign, digits :| Says(text, sign, digits, n);
      LeaseIsRead(text, sign, digits, n);
    }
  }

  lemma LeaseIsRead(text: string, sign: string, digits: string, n: int)
    requires Says(text, sign, digits, n)
    ensures ParseKeepAlive(text) == Seconds(n)
  {
    CleanText(sign, digits, n);
    EraseSpacesExact(text, "max-age=" + sign + digits);
    LeaseTextIsRead(EraseSpaces(text), sign, digits, n);
  }

  /** The format assertion fails exactly for the texts that do not begin with max-age=,
      spaces aside. */
  lemma LeaseFormatExact(text: string)
    ensures ParseKeepAlive(text) != WrongFormat <==> exists rest :: ' ' !in rest && Spaced(text, "max-age=" + rest)
  {
    var clean := EraseSpaces(text);
    if StartsWith(clean, SSDP_OPTION_MAX_AGE) {
      var rest := clean[8..];
      assert clean == "max-age=" + rest && ' ' !in rest;
      EraseSpacesExact(text, clean);
    }
    if exists rest :: ' ' !in rest && Spaced(text, "max-age=" + rest) {
      var rest :| ' ' !in rest && Spaced(text, "max-age=" + rest);
      EraseSpacesExact(text, "max-age=" + rest);
      assert clean[..8] == "max-age=";
    }
  }

  // ------------------------------------------------------------- lease clock

  /** Milliseconds after which duration< unsigned int > in seconds wraps to 0. */
  const SECONDS_WRAP := 0x1_0000_0000

  /** duration_cast to seconds in an unsigned int: truncates, then wraps. */
  function ElapsedSeconds(ms: nat): nat {
    ms / 1000 % SECONDS_WRAP
  }

  predicate TimedOut(now: nat, timestamp: nat, timeout: int)
    requires timestamp <= now
  {
    ElapsedSeconds(now - timestamp) >= timeout
  }

  /** The count is the age modulo 2^32 s, in whole seconds. */
  lemma ElapsedIsRemainder(ms: nat, t: int)
    ensures ElapsedSeconds(ms) >= t <==> ms % (SECONDS_WRAP * 1000) >= t * 1000
  {
    var q, r := ms / (SECONDS_WRAP * 1000), ms % (SECONDS_WRAP * 1000);
    assert ms == q * (SECONDS_WRAP * 1000) + r;
    assert ms == (q * SECONDS_WRAP) * 1000 + r;
    assert ms / 1000 == q * SECONDS_WRAP + r / 1000;
    assert ms / 1000 % SECONDS_WRAP == r / 1000;
  }

  /** The lease clock at every age and for every lease: a record is timed out exactly when
      its age modulo 2^32 seconds reaches the lease. */
  lemma TimedOutExact(now: nat, timestamp: nat, timeout: int)
    requires timestamp <= now
    ensures TimedOut(now, timestamp, timeout) <==> (now - timestamp) % 4_294_967_296_000 >= timeout * 1000
  {
    ElapsedIsRemainder(now - timestamp, timeout);
  }

  /** Hence a device that has been silent for its lease passes for alive exactly when the
      remainder of the silence modulo 2^32 seconds lies below the lease. */
  lemma PassesForAliveExactly(now: nat, timestamp: nat, timeout: nat)
    requires timestamp <= now
    ensures now - timestamp >= timeout * 1000 ==>
              (!TimedOut(now, timestamp, timeout) <==> (now - timestamp) % (SECONDS_WRAP * 1000) < timeout * 1000)
    ensures now - timestamp < timeout * 1000 ==> !TimedOut(now, timestamp, timeout)
    ensures now - timestamp < SECONDS_WRAP * 1000 ==>
              (TimedOut(now, timestamp, timeout) <==> now - timestamp >= timeout * 1000)
  {
    TimedOutExact(now, timestamp, timeout);
    RemainderBelow(now - timestamp, SECONDS_WRAP * 1000);
  }

  lemma RemainderBelow(n: nat, m: nat)
    requires m > 0
    ensures n % m <= n && (n < m ==> n % m == n)
  {
    assert n == n / m * m + n % m;
  }

  /** The first such age. */
  lemma SilentForeverIsAliveAgain(timestamp: nat)
    ensures !TimedOut(timestamp + SECONDS_WRAP * 1000, timestamp, ANNOUNCE_INTERVAL)
  {
    TimedOutExact(timestamp + SECONDS_WRAP * 1000, timestamp, ANNOUNCE_INTERVAL);
  }
}
