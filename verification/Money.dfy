/** Amounts of money for a reader: half-up cents, thousands separators and the currency. */
module Money {
  import opened Decimals

  /** Round half a cent away from zero. */
  function HalfUpCents(value: real): int {
    if value >= 0.0 then (value * 100.0 + 0.5).Floor else -((-value * 100.0 + 0.5).Floor)
  }

  function Abs(n: int): nat {
    if n < 0 then -n else n
  }

  /** The groups of three digits behind the first group, each behind a separator. */
  function Triples(digits: string, sep: char): string
    requires |digits| % 3 == 0
  {
    if digits == "" then "" else [sep] + digits[..3] + Triples(digits[3..], sep)
  }

  function Head(n: nat): (h: nat)
    requires n > 0
    ensures 1 <= h <= 3 && h <= n && (n - h) % 3 == 0
  {
    if n % 3 == 0 then 3 else n % 3
  }

  function Group(digits: string, sep: char): string
    requires digits != ""
  {
    digits[..Head(|digits|)] + Triples(digits[Head(|digits|)..], sep)
  }

  function TwoDigits(n: nat): string
    requires n < 100
  {
    [Digit(n / 10), Digit(n % 10)]
  }

  function Symbol(currency: string): string {
    if currency == "EUR" then "€" else currency
  }

  function Number(cents: nat, thousands: char, point: char): string {
    DigitsRoundTrip(cents / 100);
    Group(Digits(cents / 100), thousands) + [point] + TwoDigits(cents % 100)
  }

  function FormatMoney(value: real, currency: string, lang: string): string {
    var cents := HalfUpCents(value);
    var sign := if cents < 0 then "-" else "";
    var symbol := Symbol(currency);
    if lang != "de" then sign + symbol + (if symbol == "€" then "" else " ") + Number(Abs(cents), ',', '.')
    else sign + Number(Abs(cents), '.', ',') + " " + symbol
  }

  // -- reading it back --------------------------------------------------------------------------------

  function Without(s: string, sep: char): string {
    if s == "" then "" else (if s[0] == sep then "" else [s[0]]) + Without(s[1..], sep)
  }

  /** A number with two decimals; the characters that are no separator must be digits. */
  function ReadNumber(s: string, thousands: char): int {
    if |s| < 4 then 0
    else
      var whole, cents := Without(s[..|s| - 3], thousands), s[|s| - 2..];
      if AllDigits(whole) && AllDigits(cents) then Value(whole) * 100 + Value(cents) else 0
  }

  function ReadMoney(text: string, currency: string, lang: string): int {
    var negative := text != "" && text[0] == '-';
    var body := if negative then text[1..] else text;
    var symbol := Symbol(currency);
    var joiner := if symbol == "€" then 0 else 1;
    var amount :=
      if lang != "de" then (if |body| >= |symbol| + joiner then ReadNumber(body[|symbol| + joiner..], ',') else 0)
      else (if |body| >= |symbol| + 1 then ReadNumber(body[..|body| - |symbol| - 1], '.') else 0);
    if negative then -amount else amount
  }

  lemma {:induction false} WithoutJoins(s: string, t: string, sep: char)
    ensures Without(s + t, sep) == Without(s, sep) + Without(t, sep)
  {
    if s == "" {
      assert s + t == t;
    } else {
      assert (s + t)[0] == s[0] && (s + t)[1..] == s[1..] + t;
      WithoutJoins(s[1..], t, sep);
    }
  }

  lemma {:induction false} WithoutKeepsDigits(s: string, sep: char)
    requires AllDigits(s) && !IsDigit(sep)
    ensures Without(s, sep) == s
  {
    if s != "" {
      WithoutKeepsDigits(s[1..], sep);
    }
  }

  lemma {:induction false} TriplesUngroup(digits: string, sep: char)
    requires |digits| % 3 == 0 && AllDigits(digits) && !IsDigit(sep)
    ensures Without(Triples(digits, sep), sep) == digits
  {
    if digits != "" {
      var first, rest := digits[..3], digits[3..];
      TriplesUngroup(rest, sep);
      WithoutKeepsDigits(first, sep);
      WithoutJoins([sep] + first, Triples(rest, sep), sep);
      assert ([sep] + first)[1..] == first;
      assert digits == first + rest;
    }
  }

  /** Taking the separators out of a grouped number gives its digits. */
  lemma GroupUngroups(digits: string, sep: char)
    requires digits != "" && AllDigits(digits) && !IsDigit(sep)
    ensures Without(Group(digits, sep), sep) == digits
  {
    var first, rest := digits[..Head(|digits|)], digits[Head(|digits|)..];
    TriplesUngroup(rest, sep);
    WithoutKeepsDigits(first, sep);
    WithoutJoins(first, Triples(rest, sep), sep);
    assert digits == first + rest;
  }

  /** The separators stand at every fourth place from the right and nowhere else. */
  lemma {:induction false} TriplesPlaces(digits: string, sep: char)
    requires |digits| % 3 == 0 && AllDigits(digits) && !IsDigit(sep)
    ensures |Triples(digits, sep)| % 4 == 0
    ensures forall i :: 0 <= i < |Triples(digits, sep)| ==> (Triples(digits, sep)[i] == sep <==> i % 4 == 0)
  {
    if digits != "" {
      var first, rest := digits[..3], Triples(digits[3..], sep);
      TriplesPlaces(digits[3..], sep);
      HeadHasNoSeparator(first, sep);
      var r := [sep] + first + rest;
      assert r[0] == sep && r[1] == first[0] && r[2] == first[1] && r[3] == first[2];
      forall i | 4 <= i < |r| ensures r[i] == sep <==> i % 4 == 0 {
        assert r[i] == rest[i - 4];
      }
    }
  }

  /** Counting from the other end of a stretch of whole groups of four. */
  lemma PlaceFromRight(n: nat, k: nat)
    requires n % 4 == 0 && k < n
    ensures (n - 1 - k) % 4 == 0 <==> k % 4 == 3
  {
    assert n - 1 - k == 4 * (n / 4 - 1 - k / 4) + (3 - k % 4);
  }

  lemma HeadHasNoSeparator(digits: string, sep: char)
    requires AllDigits(digits) && !IsDigit(sep)
    ensures forall i :: 0 <= i < |digits| ==> digits[i] != sep
  {
  }

  lemma GroupPlaces(digits: string, sep: char)
    requires digits != "" && AllDigits(digits) && !IsDigit(sep)
    ensures var r := Group(digits, sep);
            forall k :: 0 <= k < |r| ==> (r[|r| - 1 - k] == sep <==> k % 4 == 3)
  {
    var first, rest := digits[..Head(|digits|)], digits[Head(|digits|)..];
    var tail := Triples(rest, sep);
    TriplesPlaces(rest, sep);
    HeadHasNoSeparator(digits, sep);
    JoinPlaces(first, tail, sep);
  }

  /** At most three characters in front of groups of four that each start with the separator. */
  lemma JoinPlaces(first: string, tail: string, sep: char)
    requires |first| <= 3 && sep !in first && |tail| % 4 == 0
    requires forall i :: 0 <= i < |tail| ==> (tail[i] == sep <==> i % 4 == 0)
    ensures var r := first + tail;
            forall k :: 0 <= k < |r| ==> (r[|r| - 1 - k] == sep <==> k % 4 == 3)
  {
    var r := first + tail;
    forall k | 0 <= k < |r| ensures r[|r| - 1 - k] == sep <==> k % 4 == 3 {
      if k < |tail| {
        PlaceFromRight(|tail|, k);
        assert r[|r| - 1 - k] == tail[|tail| - 1 - k];
      } else {
        FrontPlace(|tail|, k);
        assert r[|r| - 1 - k] == first[|r| - 1 - k];
      }
    }
  }

  lemma FrontPlace(n: nat, k: nat)
    requires n % 4 == 0 && n <= k < n + 3
    ensures k % 4 != 3
  {
  }

  lemma TwoDigitsRoundTrip(n: nat)
    requires n < 100
    ensures AllDigits(TwoDigits(n)) && Value(TwoDigits(n)) == n
  {
    var s := TwoDigits(n);
    DigitRoundTrip(n / 10);
    DigitRoundTrip(n % 10);
    assert s[..1] == [Digit(n / 10)] && s[..1][..0] == "";
    assert Value(s[..1]) == n / 10;
  }

  /** Cutting a number in front of its decimals. */
  lemma CutNumber(whole: string, point: char, cents: string)
    requires |cents| == 2
    ensures var s := whole + [point] + cents;
            s[..|s| - 3] == whole && s[|s| - 2..] == cents
  {
  }

  lemma NumberRoundTrip(cents: nat, thousands: char, point: char)
    requires !IsDigit(thousands)
    ensures ReadNumber(Number(cents, thousands, point), thousands) == cents
    ensures Number(cents, thousands, point)[0] != '-'
  {
    var digits, two := Digits(cents / 100), TwoDigits(cents % 100);
    DigitsRoundTrip(cents / 100);
    GroupUngroups(digits, thousands);
    TwoDigitsRoundTrip(cents % 100);
    var group := Group(digits, thousands);
    CutNumber(group, point, two);
    assert group[0] == digits[0] && IsDigit(digits[0]);
  }

  /** The sign in front of a body that does not start with one is read back. */
  lemma SignRoundTrip(negative: bool, body: string)
    requires body != "" && body[0] != '-'
    ensures var text := (if negative then "-" else "") + body;
            (text[0] == '-' <==> negative) && (if negative then text[1..] else text) == body
  {
  }

  lemma CutPrefix(prefix: string, number: string)
    ensures (prefix + number)[|prefix|..] == number
  {
  }

  lemma CutSuffix(number: string, joiner: string, symbol: string)
    requires number != ""
    ensures var body := number + joiner + symbol;
            body[..|body| - |symbol| - |joiner|] == number && body[0] == number[0]
  {
    assert number + joiner + symbol == number + (joiner + symbol);
  }

  lemma EnglishRoundTrip(cents: int, currency: string, lang: string)
    requires (currency != "" ==> currency[0] != '-') && lang != "de"
    ensures var symbol := Symbol(currency);
            var body := symbol + (if symbol == "€" then "" else " ") + Number(Abs(cents), ',', '.');
            ReadMoney((if cents < 0 then "-" else "") + body, currency, lang) == cents
  {
    var symbol := Symbol(currency);
    var prefix := symbol + (if symbol == "€" then "" else " ");
    var number := Number(Abs(cents), ',', '.');
    NumberRoundTrip(Abs(cents), ',', '.');
    SignRoundTrip(cents < 0, prefix + number);
    CutPrefix(prefix, number);
  }

  /** Reading in the German format, for any text that reads as a number. */
  lemma GermanReads(number: string, currency: string, negative: bool)
    requires number != "" && number[0] != '-'
    ensures var amount := ReadNumber(number, '.');
            ReadMoney((if negative then "-" else "") + (number + " " + Symbol(currency)), currency, "de")
            == if negative then -amount else amount
  {
    var body := number + " " + Symbol(currency);
    CutSuffix(number, " ", Symbol(currency));
    SignRoundTrip(negative, body);
  }

  lemma GermanRoundTrip(cents: int, currency: string)
    ensures var body := Number(Abs(cents), '.', ',') + " " + Symbol(currency);
            ReadMoney((if cents < 0 then "-" else "") + body, currency, "de") == cents
  {
    NumberRoundTrip(Abs(cents), '.', ',');
    GermanReads(Number(Abs(cents), '.', ','), currency, cents < 0);
  }

  lemma Regroup(a: string, b: string, c: string, d: string)
    ensures a + b + c + d == a + (b + c + d)
  {
  }

  /** What a reader sees is the half-up rounded amount, in both formats and for every currency. */
  lemma MoneyRoundTrip(value: real, currency: string, lang: string)
    requires lang != "de" && currency != "" ==> currency[0] != '-'
    ensures ReadMoney(FormatMoney(value, currency, lang), currency, lang) == HalfUpCents(value)
  {
    var cents := HalfUpCents(value);
    var sign, symbol := if cents < 0 then "-" else "", Symbol(currency);
    if lang != "de" {
      EnglishRoundTrip(cents, currency, lang);
      Regroup(sign, symbol, if symbol == "€" then "" else " ", Number(Abs(cents), ',', '.'));
    } else {
      GermanRoundTrip(cents, currency);
      Regroup(sign, Number(Abs(cents), '.', ','), " ", symbol);
    }
  }

  /** Rounding moves the amount by half a cent at most, and exactly half a cent only away from zero. */
  lemma RoundingIsHalfUp(value: real)
    ensures var rounded := HalfUpCents(value) as real / 100.0;
            && -0.005 <= rounded - value <= 0.005
            && (rounded - value == 0.005 ==> value >= 0.0)
            && (rounded - value == -0.005 ==> value < 0.0)
    ensures HalfUpCents(-value) == -HalfUpCents(value)
  {
  }

  /** A German amount ends with the currency behind a space: the sign for euros, else the code. */
  lemma GermanShowsCurrency(value: real, currency: string)
    ensures var shown, text := if currency == "EUR" then "€" else currency, FormatMoney(value, currency, "de");
            |text| > |shown| && text[|text| - |shown| - 1..] == " " + shown
  {
    var cents := HalfUpCents(value);
    var front := (if cents < 0 then "-" else "") + Number(Abs(cents), '.', ',');
    assert FormatMoney(value, currency, "de") == front + (" " + Symbol(currency));
  }

  lemma FrontOf(a: string, b: string, c: string, d: string)
    ensures a + (b + c) <= a + b + c + d
    ensures d != "" ==> (a + b + c + d)[|a| + |b| + |c|] == d[0]
  {
    assert a + b + c + d == a + (b + c) + d;
  }

  /** An English amount starts with it, euros without a space in front of the first digit and others with one. */
  lemma EnglishShowsCurrency(value: real, currency: string, lang: string)
    requires lang != "de"
    ensures var minus, text := if HalfUpCents(value) < 0 then "-" else "", FormatMoney(value, currency, lang);
            && (currency in ["EUR", "€"] ==> minus + ("€" + "") <= text && |text| > |minus| + 1 && IsDigit(text[|minus| + 1]))
            && (currency !in ["EUR", "€"] ==> minus + (currency + " ") <= text)
  {
    var cents := HalfUpCents(value);
    var number := Number(Abs(cents), ',', '.');
    NumberStartsWithDigit(Abs(cents));
    FrontOf(if cents < 0 then "-" else "", Symbol(currency), if Symbol(currency) == "€" then "" else " ", number);
  }

  lemma NumberStartsWithDigit(cents: nat)
    ensures Number(cents, ',', '.') != "" && IsDigit(Number(cents, ',', '.')[0])
  {
    DigitsRoundTrip(cents / 100);
  }
}
