/** String operations of the C++ and Boost libraries the server calls, and the
    decimal text of a number together with its reading. */
module Text {

  datatype Option<+T> = None | Some(value: T)

  /** std::string::find( sub ) != npos; an empty sub is found in every string. */
  predicate Contains(s: string, sub: string) {
    exists i | 0 <= i <= |s| - |sub| :: OccursAt(s, sub, i)
  }

  predicate OccursAt(s: string, sub: string, i: nat)
    requires i + |sub| <= |s|
  {
    s[i..i + |sub|] == sub
  }

  lemma ContainsMiddle(a: string, sub: string, b: string)
    ensures Contains(a + sub + b, sub)
  {
    var s := a + sub + b;
    assert OccursAt(s, sub, |a|);
  }

  /** m times g, by addition. */
  function Multiple(m: nat, g: nat): nat {
    if m == 0 then 0 else Multiple(m - 1, g) + g
  }

  lemma {:induction false} MultipleIsProduct(m: nat, g: nat)
    ensures Multiple(m, g) == m * g
  {
    if m > 0 { MultipleIsProduct(m - 1, g); }
  }

  lemma {:induction false} MultipleMonotone(m: nat, n: nat, g: nat)
    requires m <= n
    ensures Multiple(m, g) <= Multiple(n, g)
  {
    if m < n { MultipleMonotone(m, n - 1, g); }
  }

  /** n / g is the number of whole gs in n. */
  lemma {:induction false} QuotientCounts(n: nat, g: nat, m: nat)
    requires g > 0
    ensures m <= n / g <==> Multiple(m, g) <= n
  {
    MultipleIsProduct(m, g);
    assert n == n / g * g + n % g;
    if m <= n / g {
      MultipleMonotone(m, n / g, g);
      MultipleIsProduct(n / g, g);
    } else {
      MultipleMonotone(n / g + 1, m, g);
      MultipleIsProduct(n / g + 1, g);
      assert (n / g + 1) * g == n / g * g + g;
    }
  }

  /** Contains says what it should: the text is something, sub, something. */
  lemma ContainsExact(s: string, sub: string)
    ensures Contains(s, sub) <==> exists a, b :: s == a + sub + b
  {
    if Contains(s, sub) {
      var i :| 0 <= i <= |s| - |sub| && OccursAt(s, sub, i);
      assert s == s[..i] + sub + s[i + |sub|..];
    }
    if a, b :| s == a + sub + b { ContainsMiddle(a, sub, b); }
  }

  predicate IsDigit(c: char) {
    '0' <= c <= '9'
  }

  predicate AllDigits(s: string) {
    forall i | 0 <= i < |s| :: IsDigit(s[i])
  }

  /** std::to_string and fmt's {} on a non-negative integer. */
  function Decimal(n: nat): string {
    if n < 10 then ['0' + n as char] else Decimal(n / 10) + ['0' + (n % 10) as char]
  }

  function DigitsValue(s: string): nat
    requires AllDigits(s)
  {
    if s == [] then 0
    else 10 * DigitsValue(s[..|s| - 1]) + (s[|s| - 1] - '0') as int
  }

  lemma {:induction false} DecimalReadsBack(n: nat)
    ensures Decimal(n) != [] && AllDigits(Decimal(n))
    ensures DigitsValue(Decimal(n)) == n
  {
    if n >= 10 {
      DecimalReadsBack(n / 10);
      var d := Decimal(n);
      assert d[..|d| - 1] == Decimal(n / 10);
    } else {
      var d := Decimal(n);
      assert d[..0] == [];
      assert DigitsValue(d[..0]) == 0;
    }
  }

  const DIGITS := "0123456789"

  lemma DigitsAreDigits(c: char)
    ensures IsDigit(c) <==> c in DIGITS
  {
    if IsDigit(c) {
      assert DIGITS[c as int - '0' as int] == c;
    }
  }

  /** The numeral of 10 n + d is the numeral of n, none for 0, and the digit d. */
  lemma DecimalExact(n: nat, d: nat)
    requires d < 10
    ensures Decimal(10 * n + d) == (if n == 0 then "" else Decimal(n)) + [DIGITS[d]]
  {
    assert (10 * n + d) / 10 == n && (10 * n + d) % 10 == d;
    assert '0' + d as char == DIGITS[d];
  }

  /** And reading goes the same way: one more digit d makes 10 times the value and d. */
  lemma DigitsValueExact(s: string, d: nat)
    requires AllDigits(s) && d < 10
    ensures AllDigits(s + [DIGITS[d]]) && DigitsValue(s + [DIGITS[d]]) == 10 * DigitsValue(s) + d
    ensures DigitsValue("") == 0
  {
    var t := s + [DIGITS[d]];
    assert DIGITS[d] == '0' + d as char;
    assert t[..|t| - 1] == s;
  }

  predicate IsSpace(c: char) {
    c == ' ' || '\t' <= c <= '\r'
  }

  function SkipSpaces(s: string): string {
    if s != "" && IsSpace(s[0]) then SkipSpaces(s[1..]) else s
  }

  function LeadingDigits(s: string): (d: string)
    ensures AllDigits(d)
  {
    if s != "" && IsDigit(s[0]) then [s[0]] + LeadingDigits(s[1..]) else ""
  }

  lemma {:induction false} LeadingDigitsAll(s: string)
    requires AllDigits(s)
    ensures LeadingDigits(s) == s
  {
    if s != "" {
      LeadingDigitsAll(s[1..]);
      assert [s[0]] + s[1..] == s;
    }
  }

  /** A space, a tab, a line break, a vertical tab, a form feed or a carriage return. */
  predicate White(c: char) {
    c == ' ' || c == '\t' || c == '\n' || c as int == 11 || c as int == 12 || c == '\r'
  }

  lemma {:induction false} SkipsSpaces(spaces: string, tail: string)
    requires forall c | c in spaces :: White(c)
    requires tail != "" && !IsSpace(tail[0])
    ensures SkipSpaces(spaces + tail) == tail
  {
    if spaces == "" {
      assert spaces + tail == tail;
    } else {
      assert spaces[0] in spaces && IsSpace(spaces[0]);
      assert (spaces + tail)[1..] == spaces[1..] + tail;
      SkipsSpaces(spaces[1..], tail);
    }
  }

  lemma {:induction false} DigitsLead(digits: string, rest: string)
    requires AllDigits(digits) && (rest == "" || !IsDigit(rest[0]))
    ensures LeadingDigits(digits + rest) == digits
  {
    if digits == "" {
      assert digits + rest == rest;
    } else {
      assert (digits + rest)[1..] == digits[1..] + rest;
      DigitsLead(digits[1..], rest);
      assert [digits[0]] + digits[1..] == digits;
    }
  }

  lemma TailBegins(tail: string, sign: string, digits: string, rest: string)
    requires tail == sign + digits + rest && digits != "" && AllDigits(digits)
    requires sign == "" || sign == "+" || sign == "-"
    ensures tail != "" && !IsSpace(tail[0])
  {
    assert IsDigit(digits[0]);
    assert tail[0] == if sign == "" then digits[0] else sign[0];
  }

  /** What is left behind the white space, and the digits behind the sign. */
  lemma DigitsStop(spaces: string, tail: string, sign: string, digits: string, rest: string)
    requires forall c | c in spaces :: White(c)
    requires sign == "" || sign == "+" || sign == "-"
    requires digits != "" && AllDigits(digits)
    requires rest == "" || rest[0] !in "0123456789"
    requires tail == sign + digits + rest
    ensures SkipSpaces(spaces + tail) == tail && LeadingDigits(digits + rest) == digits
  {
    TailBegins(tail, sign, digits, rest);
    SkipsSpaces(spaces, tail);
    if rest != "" { DigitsAreDigits(rest[0]); }
    DigitsLead(digits, rest);
  }

  /** boost::erase_all_copy( s, " " ). */
  function EraseSpaces(s: string): (r: string)
    ensures ' ' !in r
  {
    if s == [] then []
    else if s[0] == ' ' then EraseSpaces(s[1..])
    else [s[0]] + EraseSpaces(s[1..])
  }

  /** text is base with spaces put in, at any places. */
  predicate Spaced(text: string, base: string) {
    if text == "" then base == ""
    else
      || (text[0] == ' ' && Spaced(text[1..], base))
      || (base != "" && text[0] == base[0] && Spaced(text[1..], base[1..]))
  }

  /** Erasing the spaces gives back what they were put into. */
  lemma {:induction false} EraseSpacesExact(text: string, base: string)
    requires ' ' !in base
    ensures EraseSpaces(text) == base <==> Spaced(text, base)
  {
    if text != "" {
      if text[0] == ' ' {
        EraseSpacesExact(text[1..], base);
      } else if base != "" {
        assert base == [base[0]] + base[1..];
        assert forall c | c in base[1..] :: c in base;
        EraseSpacesExact(text[1..], base[1..]);
        assert EraseSpaces(text) == [text[0]] + EraseSpaces(text[1..]);
        assert EraseSpaces(text)[1..] == EraseSpaces(text[1..]);
      }
    }
  }

  lemma {:induction false} SpaceErased(a: string, b: string)
    ensures EraseSpaces(a + " " + b) == EraseSpaces(a + b)
  {
    if a == "" {
      assert ("" + " " + b)[1..] == b && "" + b == b;
    } else {
      assert (a + " " + b)[1..] == a[1..] + " " + b && (a + b)[1..] == a[1..] + b;
      SpaceErased(a[1..], b);
    }
  }

  predicate StartsWith(s: string, prefix: string) {
    |prefix| <= |s| && s[..|prefix|] == prefix
  }

  predicate IsBlank(c: char) {
    c == ' ' || c == '\t'
  }

  function TrimLeft(s: string): string {
    if s != [] && IsBlank(s[0]) then TrimLeft(s[1..]) else s
  }

  function TrimRight(s: string): string {
    if s != [] && IsBlank(s[|s| - 1]) then TrimRight(s[..|s| - 1]) else s
  }

  function Trim(s: string): string {
    TrimRight(TrimLeft(s))
  }

  /** No blank at either end, so trimming changes nothing. */
  predicate Trimmed(s: string) {
    s == [] || (!IsBlank(s[0]) && !IsBlank(s[|s| - 1]))
  }

  lemma {:induction false} TrimLeftEnds(s: string)
    ensures TrimLeft(s) == "" || !IsBlank(TrimLeft(s)[0])
    ensures |TrimLeft(s)| <= |s| && (TrimLeft(s) == s ==> s == "" || !IsBlank(s[0]))
  {
    if s != "" && IsBlank(s[0]) { TrimLeftEnds(s[1..]); }
  }

  lemma {:induction false} TrimRightEnds(s: string)
    ensures TrimRight(s) == "" || !IsBlank(TrimRight(s)[|TrimRight(s)| - 1])
    ensures TrimRight(s) <= s
  {
    if s != "" && IsBlank(s[|s| - 1]) { TrimRightEnds(s[..|s| - 1]); }
  }

  lemma TrimExact(s: string)
    ensures Trim(s) == s <==> Trimmed(s)
  {
    TrimLeftEnds(s);
    TrimRightEnds(TrimLeft(s));
    if Trim(s) == s { assert |TrimLeft(s)| == |s|; }
  }

  /** Trimming takes nothing from a text that neither begins nor ends with a blank, nor
      from what stands before it. */
  lemma {:induction false} TrimRightKeeps(a: string, b: string)
    requires a != "" && !IsBlank(a[|a| - 1])
    ensures TrimRight(a + b) == a + TrimRight(b)
  {
    if b == "" {
      assert a + b == a;
    } else if IsBlank(b[|b| - 1]) {
      assert (a + b)[..|a + b| - 1] == a + b[..|b| - 1];
      TrimRightKeeps(a, b[..|b| - 1]);
    }
  }

  lemma {:induction false} TrimRightDrops(s: string, blanks: string)
    requires s == "" || !IsBlank(s[|s| - 1])
    requires forall c | c in blanks :: c in " \t"
    ensures TrimRight(s + blanks) == s
  {
    if blanks == "" {
      assert s + blanks == s;
    } else {
      var last := blanks[|blanks| - 1];
      assert last in blanks && IsBlank(last);
      assert (s + blanks)[..|s + blanks| - 1] == s + blanks[..|blanks| - 1];
      TrimRightDrops(s, blanks[..|blanks| - 1]);
    }
  }

  lemma {:induction false} TrimLeftDrops(blanks: string, s: string)
    requires s == "" || !IsBlank(s[0])
    requires forall c | c in blanks :: c in " \t"
    ensures TrimLeft(blanks + s) == s
  {
    if blanks == "" {
      assert blanks + s == s;
    } else {
      assert blanks[0] in blanks && IsBlank(blanks[0]);
      assert (blanks + s)[1..] == blanks[1..] + s;
      TrimLeftDrops(blanks[1..], s);
    }
  }

  /** Trimming takes the spaces and tabs around a text, and nothing else. */
  lemma TrimTexts(before: string, s: string, after: string)
    requires forall c | c in before + after :: c in " \t"
    requires s != "" && s[0] !in " \t" && s[|s| - 1] !in " \t"
    ensures Trim(before + s + after) == s
  {
    assert forall c | c in before :: c in before + after;
    assert forall c | c in after :: c in before + after;
    assert before + s + after == before + (s + after);
    TrimLeftDrops(before, s + after);
    TrimRightDrops(s, after);
  }
}
