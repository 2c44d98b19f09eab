/** SQL text with literal parameters, `sql_literal` and `render`, read back by a lexer for string literals. */
module SqlRender {
  import opened Wrappers
  import opened Decimals

  datatype Value = Null | Bool(b: bool) | Int(n: int) | Text(s: string)

  datatype RenderError = Mismatch(placeholders: nat, params: nat)

  // -- literals ---------------------------------------------------------------------------------------

  function IntText(n: int): string {
    if n < 0 then "-" + Digits(-n) else Digits(n)
  }

  function Doubled(s: string): string {
    if s == "" then "" else (if s[0] == '\'' then "''" else [s[0]]) + Doubled(s[1..])
  }

  function SqlLiteral(v: Value): string {
    match v
    case Null => "NULL"
    case Bool(b) => if b then "TRUE" else "FALSE"
    case Int(n) => IntText(n)
    case Text(s) => "'" + Doubled(s) + "'"
  }

  // -- the template --------------------------------------------------------------------------------------

  /** `sql.split("%s")`. */
  function Parts(sql: string): (parts: seq<string>)
    ensures |parts| > 0
  {
    if sql == "" then [""]
    else if "%s" <= sql then [""] + Parts(sql[2..])
    else
      var rest := Parts(sql[1..]);
      [[sql[0]] + rest[0]] + rest[1..]
  }

  /** The parts with a placeholder between each two. */
  function WithPlaceholders(parts: seq<string>): string
    requires parts != []
  {
    if |parts| == 1 then parts[0] else parts[0] + "%s" + WithPlaceholders(parts[1..])
  }

  /** No placeholder in the text. */
  predicate IsFree(s: string) {
    forall k :: 0 <= k < |s| - 1 ==> !(s[k] == '%' && s[k + 1] == 's')
  }

  lemma StartsWithPlaceholder(s: string)
    ensures "%s" <= s <==> |s| >= 2 && s[0] == '%' && s[1] == 's'
  {
    assert |s| >= 2 ==> s[..2] == [s[0], s[1]];
  }

  /** The parts are the template cut at its placeholders: put between them, these give it back. */
  lemma {:induction false} PartsGiveTemplate(sql: string)
    ensures WithPlaceholders(Parts(sql)) == sql
    decreases |sql|
  {
    if sql != "" {
      if "%s" <= sql {
        PartsGiveTemplate(sql[2..]);
        assert sql == "" + "%s" + sql[2..];
      } else {
        PartsGiveTemplate(sql[1..]);
        var rest := Parts(sql[1..]);
        assert sql == [sql[0]] + sql[1..];
        if |rest| > 1 {
          assert [sql[0]] + (rest[0] + "%s" + WithPlaceholders(rest[1..])) == [sql[0]] + rest[0] + "%s" + WithPlaceholders(rest[1..]);
        }
      }
    }
  }

  lemma FreeInFront(c: char, s: string)
    requires IsFree(s) && !(c == '%' && s != "" && s[0] == 's')
    ensures IsFree([c] + s)
  {
  }

  /** No placeholder is left in a part. */
  lemma {:induction false} PartsAreFree(sql: string)
    ensures forall i :: 0 <= i < |Parts(sql)| ==> IsFree(Parts(sql)[i])
    ensures Parts(sql)[0] != "" ==> sql != "" && sql[0] == Parts(sql)[0][0]
    decreases |sql|
  {
    if sql != "" {
      StartsWithPlaceholder(sql);
      if "%s" <= sql {
        PartsAreFree(sql[2..]);
      } else {
        PartsAreFree(sql[1..]);
        FreeInFront(sql[0], Parts(sql[1..])[0]);
      }
    }
  }

  /** The number that the literal of a whole number spells. */
  function ReadInt(s: string): int {
    if s != "" && s[0] == '-' then (if AllDigits(s[1..]) then 0 - Decimals.Value(s[1..]) else 0)
    else if AllDigits(s) then Decimals.Value(s) else 0
  }

  /** Whole numbers read back from their literals, and null and the truth values are their SQL words. */
  lemma PlainLiteralsReadBack(n: int)
    ensures ReadInt(SqlLiteral(Int(n))) == n
    ensures SqlLiteral(Null) == "NULL" && SqlLiteral(Bool(true)) == "TRUE" && SqlLiteral(Bool(false)) == "FALSE"
  {
    var size := if n < 0 then -n else n;
    DigitsRoundTrip(size);
    assert ("-" + Digits(size))[1..] == Digits(size);
    assert IsDigit(Digits(size)[0]);
  }

  function Literals(params: seq<Value>): (r: seq<string>)
    ensures |r| == |params|
  {
    seq(|params|, i requires 0 <= i < |params| => SqlLiteral(params[i]))
  }

  /** Each literal with the text behind it. */
  function Weave(literals: seq<string>, tails: seq<string>): string
    requires |tails| == |literals|
  {
    if literals == [] then "" else literals[0] + tails[0] + Weave(literals[1..], tails[1..])
  }

  function Filled(parts: seq<string>, params: seq<Value>): string
    requires |parts| == |params| + 1
  {
    parts[0] + Weave(Literals(params), parts[1..])
  }

  function Concat(pieces: seq<string>): string {
    if pieces == [] then "" else pieces[0] + Concat(pieces[1..])
  }

  lemma {:induction false} ConcatJoins(p: seq<string>, q: seq<string>)
    ensures Concat(p + q) == Concat(p) + Concat(q)
  {
    if p == [] {
      assert p + q == q;
    } else {
      assert (p + q)[0] == p[0] && (p + q)[1..] == p[1..] + q;
      ConcatJoins(p[1..], q);
    }
  }

  /** Moving one literal and its text from the rest to the output leaves the whole text. */
  lemma WeaveStep(out: seq<string>, literals: seq<string>, tails: seq<string>, i: nat)
    requires |tails| == |literals| && i < |tails|
    ensures Concat(out) + Weave(literals[i..], tails[i..])
            == Concat(out + [literals[i], tails[i]]) + Weave(literals[i + 1..], tails[i + 1..])
  {
    var a, b := literals[i], tails[i];
    ConcatJoins(out, [a, b]);
    assert [a, b][1..] == [b] && [b][1..] == [];
    assert Concat([b]) == b + Concat([]) == b;
    assert Concat([a, b]) == a + b;
    assert literals[i..][1..] == literals[i + 1..] && tails[i..][1..] == tails[i + 1..];
    var rest := Weave(literals[i + 1..], tails[i + 1..]);
    assert Concat(out) + (a + b + rest) == Concat(out) + (a + b) + rest;
  }

  lemma WeaveEnds(out: seq<string>, literals: seq<string>, tails: seq<string>)
    requires |tails| == |literals|
    ensures Concat(out) + Weave(literals[|literals|..], tails[|literals|..]) == Concat(out)
    ensures literals[0..] == literals && tails[0..] == tails
  {
    assert literals[|literals|..] == [];
    assert Concat(out) + "" == Concat(out);
  }

  lemma ConcatOne(s: string)
    ensures Concat([s]) == s
  {
    assert [s][1..] == [];
  }

  /** Substitute the placeholders by position. */
  method Render(sql: string, params: seq<Value>) returns (r: Result<string, RenderError>)
    ensures var parts := Parts(sql);
            if |parts| - 1 == |params| then r == Ok(Filled(parts, params))
            else r == Err(Mismatch(|parts| - 1, |params|))
  {
    var parts := Parts(sql);
    if |parts| - 1 != |params| {
      return Err(Mismatch(|parts| - 1, |params|));
    }
    var out := [parts[0]];
    ghost var literals, tails := Literals(params), parts[1..];
    ConcatOne(parts[0]);
    WeaveEnds(out, literals, tails);
    for i := 0 to |params|
      invariant Concat(out) + Weave(literals[i..], tails[i..]) == parts[0] + Weave(literals, tails)
    {
      WeaveStep(out, literals, tails, i);
      ghost var joined := out + [literals[i], tails[i]];
      out := out + [SqlLiteral(params[i])];
      out := out + [parts[i + 1]];
      assert out == joined;
    }
    WeaveEnds(out, literals, tails);
    return Ok(Concat(out));
  }

  // -- reading it back ---------------------------------------------------------------------------------------

  /** A character outside string literals, a string literal, or one that never ends. */
  datatype Token = Ch(c: char) | Lit(content: string) | Open

  datatype Quoted = Quoted(content: string, rest: string)

  /** The rest of a literal behind its opening quote: a doubled quote stands for one quote. */
  function ScanQuoted(s: string): (r: Option<Quoted>)
    ensures r.Some? ==> |r.value.rest| < |s|
  {
    if s == "" then None
    else if s[0] != '\'' then
      match ScanQuoted(s[1..])
      case Some(q) => Some(Quoted([s[0]] + q.content, q.rest))
      case None => None
    else if |s| > 1 && s[1] == '\'' then
      match ScanQuoted(s[2..])
      case Some(q) => Some(Quoted("'" + q.content, q.rest))
      case None => None
    else Some(Quoted("", s[1..]))
  }

  function Lex(s: string): seq<Token>
    decreases |s|
  {
    if s == "" then []
    else if s[0] != '\'' then [Ch(s[0])] + Lex(s[1..])
    else
      match ScanQuoted(s[1..])
      case Some(q) => [Lit(q.content)] + Lex(q.rest)
      case None => [Open]
  }

  function Chars(s: string): seq<Token> {
    seq(|s|, i requires 0 <= i < |s| => Ch(s[i]))
  }

  /** What a parameter should read as: a text is one literal with that text, the others plain words. */
  function ParamTokens(v: Value): seq<Token> {
    if v.Text? then [Lit(v.s)] else Chars(SqlLiteral(v))
  }

  function Expected(parts: seq<string>, params: seq<Value>): seq<Token>
    requires |parts| == |params| + 1
  {
    if params == [] then Lex(parts[0]) else Lex(parts[0]) + ParamTokens(params[0]) + Expected(parts[1..], params[1..])
  }

  predicate StartsWithQuote(s: string) {
    s != "" && s[0] == '\''
  }

  predicate EndsWithQuote(s: string) {
    s != "" && s[|s| - 1] == '\''
  }

  /** Every literal of the text ends in it. */
  predicate Closed(s: string) {
    Open !in Lex(s)
  }

  /** Each placeholder stands outside quotes, touches no quote and no other placeholder. */
  predicate WellPlaced(parts: seq<string>) {
    && (forall i :: 0 <= i < |parts| - 1 ==> Closed(parts[i]) && !EndsWithQuote(parts[i]))
    && (forall i :: 0 < i < |parts| ==> !StartsWithQuote(parts[i]))
    && (forall i :: 0 < i < |parts| - 1 ==> parts[i] != "")
  }

  /** The same for one given parameter: only the literal of a text has quotes that others could touch. */
  predicate SeparatedAt(parts: seq<string>, params: seq<Value>, i: nat)
    requires |parts| == |params| + 1 && i < |params|
  {
    && Closed(parts[i])
    && (params[i].Text? ==>
          && !EndsWithQuote(parts[i]) && !StartsWithQuote(parts[i + 1])
          && (parts[i + 1] == "" && i + 1 < |params| ==> !params[i + 1].Text?))
  }

  predicate Separated(parts: seq<string>, params: seq<Value>)
    requires |parts| == |params| + 1
  {
    forall i :: 0 <= i < |params| ==> SeparatedAt(parts, params, i)
  }

  lemma {:induction false} ScanQuotedJoins(s: string, rest: string)
    requires ScanQuoted(s).Some?
    requires ScanQuoted(s).value.rest == "" ==> !StartsWithQuote(rest)
    ensures ScanQuoted(s + rest) == Some(Quoted(ScanQuoted(s).value.content, ScanQuoted(s).value.rest + rest))
    decreases |s|
  {
    if s[0] != '\'' {
      ScanQuotedJoins(s[1..], rest);
      assert (s + rest)[1..] == s[1..] + rest;
    } else if |s| > 1 && s[1] == '\'' {
      ScanQuotedJoins(s[2..], rest);
      assert (s + rest)[2..] == s[2..] + rest;
    } else {
      assert (s + rest)[1..] == s[1..] + rest;
    }
  }

  /** A literal that ends the text ends it with its closing quote. */
  lemma {:induction false} ScanQuotedEnds(s: string)
    requires ScanQuoted(s).Some?
    ensures if ScanQuoted(s).value.rest == "" then s[|s| - 1] == '\''
            else s[|s| - 1] == ScanQuoted(s).value.rest[|ScanQuoted(s).value.rest| - 1]
    decreases |s|
  {
    if s[0] != '\'' {
      ScanQuotedEnds(s[1..]);
    } else if |s| > 1 && s[1] == '\'' {
      ScanQuotedEnds(s[2..]);
    }
  }

  /** Lexing can be cut at a place outside literals unless quotes meet there. */
  lemma {:induction false} LexJoins(s: string, rest: string)
    requires Closed(s) && (s == "" || !EndsWithQuote(s) || !StartsWithQuote(rest))
    ensures Lex(s + rest) == Lex(s) + Lex(rest)
    decreases |s|
  {
    if s == "" {
      assert s + rest == rest;
    } else if s[0] != '\'' {
      assert (s + rest)[1..] == s[1..] + rest;
      LexJoins(s[1..], rest);
    } else {
      assert ScanQuoted(s[1..]).Some?;
      ScanQuotedEnds(s[1..]);
      ScanQuotedJoins(s[1..], rest);
      assert (s + rest)[1..] == s[1..] + rest;
      LexJoins(ScanQuoted(s[1..]).value.rest, rest);
    }
  }

  lemma {:induction false} DoubledScans(s: string, rest: string)
    requires !StartsWithQuote(rest)
    ensures ScanQuoted(Doubled(s) + "'" + rest) == Some(Quoted(s, rest))
  {
    if s == "" {
      var text := Doubled(s) + "'" + rest;
      assert text == "'" + rest && text[1..] == rest;
    } else {
      DoubledScans(s[1..], rest);
      var first, tail := if s[0] == '\'' then "''" else [s[0]], Doubled(s[1..]) + "'" + rest;
      assert Doubled(s) + "'" + rest == first + tail;
      assert s == [s[0]] + s[1..];
    }
  }

  lemma {:induction false} PlainLexes(s: string)
    requires '\'' !in s
    ensures Lex(s) == Chars(s)
  {
    if s != "" {
      PlainLexes(s[1..]);
    }
  }

  lemma DigitsArePlain(n: nat)
    ensures '\'' !in Digits(n) && Digits(n) != ""
  {
    DigitsRoundTrip(n);
    var s := Digits(n);
    assert forall i :: 0 <= i < |s| ==> IsDigit(s[i]);
  }

  lemma IntsArePlain(n: int)
    ensures '\'' !in IntText(n) && IntText(n) != ""
  {
    DigitsArePlain(if n < 0 then -n else n);
  }

  lemma OtherLiteralsArePlain(v: Value)
    requires !v.Text?
    ensures '\'' !in SqlLiteral(v) && SqlLiteral(v) != ""
  {
    if v.Int? {
      IntsArePlain(v.n);
    }
  }

  /** A quote behind a closed literal runs on: its content grows, or it never ends. */
  lemma {:induction false} ScanQuotedRunsOn(s: string, rest: string)
    requires ScanQuoted(s).Some? && ScanQuoted(s).value.rest == "" && StartsWithQuote(rest)
    ensures ScanQuoted(s + rest).Some? ==> |ScanQuoted(s + rest).value.content| > |ScanQuoted(s).value.content|
    decreases |s|
  {
    if s[0] != '\'' {
      ScanQuotedRunsOn(s[1..], rest);
      assert (s + rest)[1..] == s[1..] + rest;
    } else if |s| > 1 && s[1] == '\'' {
      ScanQuotedRunsOn(s[2..], rest);
      assert (s + rest)[2..] == s[2..] + rest;
    } else {
      assert (s + rest)[1] == rest[0];
    }
  }

  /** Where two quotes meet, the last literal in front of them is lost. */
  lemma {:induction false} MeetingQuotesMerge(s: string, rest: string)
    requires Closed(s) && EndsWithQuote(s) && StartsWithQuote(rest)
    ensures !(Lex(s) <= Lex(s + rest))
    decreases |s|
  {
    assert (s + rest)[1..] == s[1..] + rest;
    if s[0] != '\'' {
      MeetingQuotesMerge(s[1..], rest);
      assert Lex(s)[1..] == Lex(s[1..]) && Lex(s + rest)[1..] == Lex(s[1..] + rest);
    } else {
      assert ScanQuoted(s[1..]).Some?;
      var q := ScanQuoted(s[1..]).value;
      ScanQuotedEnds(s[1..]);
      if q.rest == "" {
        ScanQuotedRunsOn(s[1..], rest);
        assert Lex(s)[0] == Lit(q.content) && Lex(s + rest)[0] != Lit(q.content);
      } else {
        ScanQuotedJoins(s[1..], rest);
        MeetingQuotesMerge(q.rest, rest);
        assert Lex(s)[1..] == Lex(q.rest) && Lex(s + rest)[1..] == Lex(q.rest + rest);
      }
    }
  }

  /** Only the last token can be a literal that never ends. */
  lemma {:induction false} OpenIsLast(s: string, i: nat)
    requires i < |Lex(s)| && Lex(s)[i] == Open
    ensures i == |Lex(s)| - 1
    decreases |s|
  {
    if s[0] != '\'' {
      OpenIsLast(s[1..], i - 1);
    } else if ScanQuoted(s[1..]).Some? {
      OpenIsLast(ScanQuoted(s[1..]).value.rest, i - 1);
    }
  }

  /** The literal of a text, on its own. */
  lemma TextLexes(text: string)
    ensures Lex(SqlLiteral(Text(text))) == [Lit(text)]
    ensures Closed(SqlLiteral(Text(text))) && EndsWithQuote(SqlLiteral(Text(text)))
  {
    var literal := SqlLiteral(Text(text));
    assert literal[1..] == Doubled(text) + "'" + "";
    DoubledScans(text, "");
  }

  lemma OtherLexes(v: Value, rest: string)
    requires !v.Text?
    ensures Lex(SqlLiteral(v) + rest) == ParamTokens(v) + Lex(rest)
    ensures !StartsWithQuote(SqlLiteral(v) + rest)
  {
    OtherLiteralsArePlain(v);
    PlainLexes(SqlLiteral(v));
    assert Open !in Chars(SqlLiteral(v));
    assert !EndsWithQuote(SqlLiteral(v));
    LexJoins(SqlLiteral(v), rest);
  }

  /** A literal reads as its parameter, whatever quotes it holds, unless a quote follows a text. */
  lemma LiteralLexes(v: Value, rest: string)
    ensures Lex(SqlLiteral(v) + rest) == ParamTokens(v) + Lex(rest) <==> !(v.Text? && StartsWithQuote(rest))
    ensures v.Text? && StartsWithQuote(rest) ==> !(ParamTokens(v) <= Lex(SqlLiteral(v) + rest))
  {
    if !v.Text? {
      OtherLexes(v, rest);
    } else {
      TextLexes(v.s);
      if StartsWithQuote(rest) {
        MeetingQuotesMerge(SqlLiteral(v), rest);
      } else {
        LexJoins(SqlLiteral(v), rest);
      }
    }
  }

  lemma FilledUnfolds(parts: seq<string>, params: seq<Value>)
    requires |parts| == |params| + 1 && params != []
    ensures Filled(parts, params) == parts[0] + (SqlLiteral(params[0]) + Filled(parts[1..], params[1..]))
  {
    assert Literals(params)[1..] == Literals(params[1..]);
    var literal, rest := Literals(params)[0], Weave(Literals(params[1..]), parts[1..][1..]);
    assert parts[0] + (literal + parts[1] + rest) == parts[0] + (literal + (parts[1] + rest));
  }

  /** When the filled text starts with a quote. */
  lemma FilledStarts(parts: seq<string>, params: seq<Value>)
    requires |parts| == |params| + 1
    ensures StartsWithQuote(Filled(parts, params)) <==>
              StartsWithQuote(parts[0]) || (parts[0] == "" && params != [] && params[0].Text?)
  {
    if params == [] {
      assert Filled(parts, params) == parts[0] + "" == parts[0];
    } else {
      var rest := Filled(parts[1..], params[1..]);
      FilledUnfolds(parts, params);
      if params[0].Text? {
        assert (SqlLiteral(params[0]) + rest)[0] == '\'';
      } else {
        OtherLexes(params[0], rest);
        OtherLiteralsArePlain(params[0]);
      }
    }
  }

  /** The place in front of a literal where the lexer can be cut. */
  lemma CutInFront(before: string, v: Value, rest: string)
    requires Closed(before) && !(v.Text? && EndsWithQuote(before))
    ensures Lex(before + (SqlLiteral(v) + rest)) == Lex(before) + Lex(SqlLiteral(v) + rest)
  {
    if !v.Text? {
      OtherLexes(v, rest);
    }
    LexJoins(before, SqlLiteral(v) + rest);
  }

  /** A placeholder behind an open or a closing quote is lost. */
  lemma LostInFront(before: string, v: Value, rest: string)
    requires !Closed(before) || (v.Text? && EndsWithQuote(before))
    ensures !(Lex(before) + ParamTokens(v) <= Lex(before + (SqlLiteral(v) + rest)))
  {
    if !Closed(before) {
      OpenStaysInFront(before, v, before + (SqlLiteral(v) + rest));
    } else {
      MeetingQuotesMerge(before, SqlLiteral(v) + rest);
    }
  }

  predicate StandsFree(before: string, v: Value, rest: string) {
    Closed(before) && (v.Text? ==> !EndsWithQuote(before) && !StartsWithQuote(rest))
  }

  /** One placeholder reads as its parameter exactly when it stands outside quotes and touches none. */
  lemma LexAround(before: string, v: Value, rest: string)
    ensures var whole := Lex(before + (SqlLiteral(v) + rest));
            && (Lex(before) + ParamTokens(v) <= whole <==> StandsFree(before, v, rest))
            && (StandsFree(before, v, rest) ==> whole == Lex(before) + ParamTokens(v) + Lex(rest))
  {
    if !Closed(before) || (v.Text? && EndsWithQuote(before)) {
      LostInFront(before, v, rest);
    } else {
      CutInFront(before, v, rest);
      LiteralLexes(v, rest);
      LexBehind(Lex(before), ParamTokens(v), Lex(SqlLiteral(v) + rest), Lex(rest), StandsFree(before, v, rest));
    }
  }

  lemma LexBehind(front: seq<Token>, param: seq<Token>, behind: seq<Token>, rest: seq<Token>, free: bool)
    requires behind == param + rest <==> free
    requires !free ==> !(param <= behind)
    ensures front + param <= front + behind <==> free
    ensures free ==> front + behind == front + param + rest
  {
    PrefixBehind(front, param, behind);
    assert front + (param + rest) == front + param + rest;
  }

  lemma PrefixBehind(p: seq<Token>, q: seq<Token>, tail: seq<Token>)
    ensures p + q <= p + tail <==> q <= tail
  {
    assert p + q <= p + tail ==> (p + tail)[|p|..][..|q|] == q;
    assert (p + tail)[|p|..] == tail;
    assert q <= tail ==> (p + tail)[..|p| + |q|] == p + q;
  }

  /** An open quote takes everything behind it, so no parameter follows it. */
  lemma OpenStaysInFront(before: string, v: Value, text: string)
    requires !Closed(before)
    ensures !(Lex(before) + ParamTokens(v) <= Lex(text))
  {
    var i :| 0 <= i < |Lex(before)| && Lex(before)[i] == Open;
    if Lex(before) + ParamTokens(v) <= Lex(text) {
      assert (Lex(before) + ParamTokens(v))[i] == Open;
      OpenIsLast(text, i);
    }
  }

  lemma SeparatedUnfolds(parts: seq<string>, params: seq<Value>)
    requires |parts| == |params| + 1 && params != []
    ensures Separated(parts, params) <==>
              && Closed(parts[0])
              && (params[0].Text? ==>
                    !EndsWithQuote(parts[0]) && !StartsWithQuote(Filled(parts[1..], params[1..])))
              && Separated(parts[1..], params[1..])
  {
    FilledStarts(parts[1..], params[1..]);
    var ps, vs := parts[1..], params[1..];
    forall i | 0 <= i < |vs| ensures SeparatedAt(ps, vs, i) <==> SeparatedAt(parts, params, i + 1) {
      assert i + 1 < |vs| ==> vs[i + 1] == params[i + 2];
    }
    if Separated(ps, vs) && SeparatedAt(parts, params, 0) {
      forall i | 0 <= i < |params| ensures SeparatedAt(parts, params, i) {
        assert i > 0 ==> SeparatedAt(ps, vs, i - 1);
      }
    }
  }

  /**
   The rendered statement reads as the template with each parameter in its place, a text as one literal
   of exactly that text, if and only if no quote of a text literal touches another quote and every
   placeholder stands outside quotes. What the texts hold makes no difference.
   */
  lemma {:induction false} RenderedReadsAsTemplate(parts: seq<string>, params: seq<Value>)
    requires |parts| == |params| + 1
    ensures Lex(Filled(parts, params)) == Expected(parts, params) <==> Separated(parts, params)
  {
    if params == [] {
      assert Filled(parts, params) == parts[0];
    } else {
      var ps, vs := parts[1..], params[1..];
      var front := Lex(parts[0]) + ParamTokens(params[0]);
      FilledUnfolds(parts, params);
      SeparatedUnfolds(parts, params);
      LexAround(parts[0], params[0], Filled(ps, vs));
      RenderedReadsAsTemplate(ps, vs);
      SameBehind(front, Lex(Filled(ps, vs)), Expected(ps, vs));
      assert Expected(parts, params) == front + Expected(ps, vs);
    }
  }

  lemma SameBehind(front: seq<Token>, a: seq<Token>, b: seq<Token>)
    ensures front + a == front + b <==> a == b
  {
    assert (front + a)[|front|..] == a && (front + b)[|front|..] == b;
  }

  /** The string literals of a template stay whole for all parameters exactly when every placeholder is well placed. */
  lemma {:induction false} TemplateReadsBackExactlyWhenWellPlaced(parts: seq<string>)
    requires parts != []
    ensures (forall params: seq<Value> :: |params| == |parts| - 1 ==> Lex(Filled(parts, params)) == Expected(parts, params))
            <==> WellPlaced(parts)
  {
    if WellPlaced(parts) {
      forall params: seq<Value> | |params| == |parts| - 1 ensures Lex(Filled(parts, params)) == Expected(parts, params) {
        RenderedReadsAsTemplate(parts, params);
      }
    } else {
      var texts := seq(|parts| - 1, i => Text("a"));
      TextsNeedWellPlaced(parts, texts);
      RenderedReadsAsTemplate(parts, texts);
    }
  }

  lemma TextsNeedWellPlaced(parts: seq<string>, texts: seq<Value>)
    requires |parts| == |texts| + 1 && forall i :: 0 <= i < |texts| ==> texts[i].Text?
    ensures Separated(parts, texts) ==> WellPlaced(parts)
  {
    if Separated(parts, texts) {
      forall i | 0 <= i < |parts| - 1 ensures Closed(parts[i]) && !EndsWithQuote(parts[i]) {
        assert SeparatedAt(parts, texts, i) && texts[i].Text?;
      }
      forall i | 0 < i < |parts| ensures !StartsWithQuote(parts[i]) && (i < |parts| - 1 ==> parts[i] != "") {
        assert SeparatedAt(parts, texts, i - 1) && texts[i - 1].Text?;
        assert i < |texts| ==> texts[i].Text?;
      }
    }
  }

  lemma QuotedLetter(c: char)
    requires c != '\''
    ensures SqlLiteral(Text([c])) == ['\'', c, '\'']
  {
    assert [c][1..] == "" && Doubled("") == "";
    assert Doubled([c]) == [c] + "" == [c];
  }

  lemma TwoLiterals(v: Value, w: Value)
    ensures Filled(["", "", ""], [v, w]) == SqlLiteral(v) + SqlLiteral(w)
  {
    var literals := Literals([v, w]);
    assert literals == [SqlLiteral(v), SqlLiteral(w)];
    var tails := ["", "", ""][1..];
    assert tails == ["", ""] && tails[1..] == [""] && [""][1..] == [];
    assert literals[1..] == [SqlLiteral(w)] && [SqlLiteral(w)][1..] == [];
    assert Weave(literals[1..], tails[1..]) == SqlLiteral(w) + "" + "";
  }

  /** Two placeholders side by side are outside this promise: their literals run together. */
  lemma AdjacentPlaceholdersMerge()
    ensures Parts("%s%s") == ["", "", ""]
    ensures Lex(Filled(["", "", ""], [Text("a"), Text("b")])) == [Lit("a'b")]
  {
    TwoLiterals(Text("a"), Text("b"));
    QuotedLetter('a');
    QuotedLetter('b');
    assert ['\'', 'a', '\''] + ['\'', 'b', '\''] == "'a''b'";
    LexMerged();
  }

  lemma LexMerged()
    ensures Lex("'a''b'") == [Lit("a'b")]
  {
    assert "'"[1..] == "" && ScanQuoted("'") == Some(Quoted("", ""));
    assert "b'"[1..] == "'" && ['b'] + "" == "b" && ScanQuoted("b'") == Some(Quoted("b", ""));
    assert "'" + "b" == "'b" && ['a'] + "'b" == "a'b";
    assert "''b'"[2..] == "b'" && ScanQuoted("''b'") == Some(Quoted("'b", ""));
    assert "a''b'"[1..] == "''b'" && ScanQuoted("a''b'") == Some(Quoted("a'b", ""));
    assert "'a''b'"[1..] == "a''b'";
  }
}
