/**
 Quoting of SQL strings and identifiers, and array literals, with readers that follow the lexical rules
 of sections 4.1.1 and 4.1.2.1 of the PostgreSQL documentation: a doubled quote inside stands for one,
 a single one ends the token, and a backslash is an ordinary character.
 */
module SqlText {
  import opened Prelude
  import Decimal

  // ---------- quoted tokens ----------

  function Doubled(s: string, q: char): string {
    if s == "" then "" else (if s[0] == q then [q, q] else [s[0]]) + Doubled(s[1..], q)
  }

  function Quoted(s: string, q: char): string {
    [q] + Doubled(s, q) + [q]
  }

  function QuoteIdent(identifier: string): string {
    Quoted(identifier, '"')
  }

  function SqlString(value: string): string {
    Quoted(value, '\'')
  }

  datatype Token = Token(text: string, rest: string)

  /** Reads up to the closing quote; nothing is read if there is none. */
  function ReadBody(s: string, q: char): Option<Token> {
    if s == "" then None
    else if s[0] != q then Prepend([s[0]], ReadBody(s[1..], q))
    else if |s| > 1 && s[1] == q then Prepend([q], ReadBody(s[2..], q))
    else Some(Token("", s[1..]))
  }

  function Prepend(a: string, t: Option<Token>): Option<Token> {
    match t
    case Some(token) => Some(Token(a + token.text, token.rest))
    case None => None
  }

  function ReadQuoted(s: string, q: char): Option<Token> {
    if s != "" && s[0] == q then ReadBody(s[1..], q) else None
  }

  lemma PrependTwice(a: string, b: string, t: Option<Token>)
    ensures Prepend(a, Prepend(b, t)) == Prepend(a + b, t)
  {
    if t.Some? {
      assert a + (b + t.value.text) == (a + b) + t.value.text;
    }
  }

  lemma PrependNothing(t: Option<Token>)
    ensures Prepend("", t) == t
  {
    if t.Some? {
      assert "" + t.value.text == t.value.text;
    }
  }

  /** One character of the text, doubled if need be, is read as itself. */
  lemma ReadOne(c: char, q: char, more: string)
    ensures ReadBody((if c == q then [q, q] else [c]) + more, q) == Prepend([c], ReadBody(more, q))
  {
    if c == q {
      assert ([q, q] + more)[2..] == more;
    } else {
      assert ([c] + more)[1..] == more;
    }
  }

  /** Whatever follows, a doubled text is read as the text. */
  lemma {:induction false} ReadDoubled(s: string, q: char, tail: string)
    ensures ReadBody(Doubled(s, q) + tail, q) == Prepend(s, ReadBody(tail, q))
  {
    if s == "" {
      assert Doubled(s, q) + tail == tail;
      PrependNothing(ReadBody(tail, q));
    } else {
      var head := if s[0] == q then [q, q] else [s[0]];
      assert Doubled(s, q) + tail == head + (Doubled(s[1..], q) + tail);
      ReadOne(s[0], q, Doubled(s[1..], q) + tail);
      ReadDoubled(s[1..], q, tail);
      PrependTwice([s[0]], s[1..], ReadBody(tail, q));
      assert s == [s[0]] + s[1..];
    }
  }

  /** The reader recovers the text and stops exactly at its end if and only if no further quote follows. */
  lemma QuotedReadsBackIff(s: string, q: char, rest: string)
    ensures ReadQuoted(Quoted(s, q) + rest, q) == Some(Token(s, rest)) <==> rest == "" || rest[0] != q
  {
    var tail := [q] + rest;
    assert (Quoted(s, q) + rest)[1..] == Doubled(s, q) + tail;
    ReadDoubled(s, q, tail);
    assert tail[1..] == rest;
    assert s + "" == s;
    if rest != "" && rest[0] == q && ReadBody(tail, q).Some? {
      assert ReadBody(tail, q) == Prepend([q], ReadBody(tail[2..], q));
      assert |(s + ReadBody(tail, q).value.text)| > |s|;
    }
  }

  /** In the dump a quoted identifier is followed by a comma, a space, a bracket or nothing. */
  lemma IdentReadsBack(identifier: string, rest: string)
    ensures ReadQuoted(QuoteIdent(identifier) + rest, '"') == Some(Token(identifier, rest)) <==> !(['"'] <= rest)
  {
    QuotedReadsBackIff(identifier, '"', rest);
  }

  /** Different texts are quoted differently, even when more text follows. */
  lemma QuotedInjective(s: string, t: string, q: char, a: string, b: string)
    requires Quoted(s, q) + a == Quoted(t, q) + b
    requires (a == "" || a[0] != q) && (b == "" || b[0] != q)
    ensures s == t && a == b
  {
    QuotedReadsBackIff(s, q, a);
    QuotedReadsBackIff(t, q, b);
  }

  // ---------- array literals ----------

  datatype Value = Null | Bool(b: bool) | Int(n: int) | Str(s: string) | Array(items: seq<Value>)

  function Format(v: Value): string {
    match v
    case Null => "NULL"
    case Bool(b) => if b then "TRUE" else "FALSE"
    case Int(n) => Decimal.OfInt(n)
    case Str(s) => SqlString(s)
    case Array(items) => "ARRAY[" + Joined(items) + "]"
  }

  function Joined(items: seq<Value>): string {
    if items == [] then ""
    else if |items| == 1 then Format(items[0])
    else Format(items[0]) + ", " + Joined(items[1..])
  }

  function JoinParts(parts: seq<string>): string {
    if parts == [] then "" else if |parts| == 1 then parts[0] else parts[0] + ", " + JoinParts(parts[1..])
  }

  method FormatArray(values: seq<Value>) returns (literal: string)
    ensures literal == Format(Array(values))
    decreases values
  {
    var parts: seq<string> := [];
    for i := 0 to |values|
      invariant |parts| == i && forall k :: 0 <= k < i ==> parts[k] == Format(values[k])
    {
      match values[i]
      case Null => parts := parts + ["NULL"];
      case Array(items) =>
        var inner := FormatArray(items);
        parts := parts + [inner];
      case Bool(b) => parts := parts + [if b then "TRUE" else "FALSE"];
      case Int(n) => parts := parts + [Decimal.OfInt(n)];
      case Str(s) => parts := parts + [SqlString(s)];
    }
    JoinedParts(values, parts);
    literal := "ARRAY[" + JoinParts(parts) + "]";
  }

  lemma {:induction false} JoinedParts(values: seq<Value>, parts: seq<string>)
    requires |parts| == |values| && forall k :: 0 <= k < |values| ==> parts[k] == Format(values[k])
    ensures JoinParts(parts) == Joined(values)
  {
    if |values| > 1 {
      JoinedParts(values[1..], parts[1..]);
    }
  }

  // ---------- the reader ----------

  function Digits(s: string): (d: string)
    ensures Decimal.AllDigits(d) && d <= s
  {
    if s != "" && Decimal.IsDigit(s[0]) then [s[0]] + Digits(s[1..]) else ""
  }

  datatype Read = Read(value: Value, rest: string) | Fail

  function ReadNat(s: string): (r: Read)
    ensures r.Read? ==> r.value.Int? && |r.rest| < |s|
  {
    var d := Digits(s);
    if d == "" then Fail else Read(Int(Decimal.ToNat(d)), s[|d|..])
  }

  function ReadInt(s: string): (r: Read)
    ensures r.Read? ==> |r.rest| < |s|
  {
    if s == "" || s[0] != '-' then ReadNat(s)
    else
      match ReadNat(s[1..])
      case Read(v, rest) => Read(Int(-v.n), rest)
      case Fail => Fail
  }

  function ReadValue(s: string): (r: Read)
    ensures r.Read? ==> |r.rest| < |s|
    decreases |s|, 0
  {
    if "NULL" <= s then Read(Null, s[4..])
    else if "TRUE" <= s then Read(Bool(true), s[4..])
    else if "FALSE" <= s then Read(Bool(false), s[5..])
    else if "ARRAY[" <= s then
      match ReadItems(s[6..])
      case Some(Items(items, rest)) => Read(Array(items), rest)
      case None => Fail
    else if s != "" && s[0] == '\'' then
      match ReadQuoted(s, '\'')
      case Some(token) => if |token.rest| < |s| then Read(Str(token.text), token.rest) else Fail
      case None => Fail
    else ReadInt(s)
  }

  datatype Items = Items(items: seq<Value>, rest: string)

  /** Items separated by ", " up to the closing bracket. */
  function ReadItems(s: string): (r: Option<Items>)
    ensures r.Some? ==> |r.value.rest| < |s|
    decreases |s|, 1
  {
    if s != "" && s[0] == ']' then Some(Items([], s[1..]))
    else
      match ReadValue(s)
      case Fail => None
      case Read(v, rest) =>
        if rest != "" && rest[0] == ']' then Some(Items([v], rest[1..]))
        else if ", " <= rest then
          match ReadItems(rest[2..])
          case Some(Items(items, end)) => if items == [] then None else Some(Items([v] + items, end))
          case None => None
        else None
  }

  /** What may follow a value: neither a digit nor a quote. */
  predicate Stops(rest: string) {
    rest == "" || (!Decimal.IsDigit(rest[0]) && rest[0] != '\'')
  }

  lemma {:induction false} DigitsStop(d: string, rest: string)
    requires Decimal.AllDigits(d) && (rest == "" || !Decimal.IsDigit(rest[0]))
    ensures Digits(d + rest) == d
  {
    if d == "" {
      assert d + rest == rest;
    } else {
      DigitsStop(d[1..], rest);
      assert (d + rest)[1..] == d[1..] + rest;
    }
  }

  lemma NatReadsBack(n: nat, rest: string)
    requires rest == "" || !Decimal.IsDigit(rest[0])
    ensures ReadNat(Decimal.OfNat(n) + rest) == Read(Int(n), rest)
  {
    var d := Decimal.OfNat(n);
    Decimal.NatRoundTrip(n);
    DigitsStop(d, rest);
    assert (d + rest)[|d|..] == rest;
  }

  lemma IntReadsBack(n: int, rest: string)
    requires rest == "" || !Decimal.IsDigit(rest[0])
    ensures ReadInt(Decimal.OfInt(n) + rest) == Read(Int(n), rest)
  {
    if n < 0 {
      NegativeReadsBack(n, rest);
    } else {
      assert (Decimal.OfInt(n) + rest)[0] == Decimal.OfInt(n)[0];
      NatReadsBack(n, rest);
    }
  }

  lemma NegativeReadsBack(n: int, rest: string)
    requires n < 0 && (rest == "" || !Decimal.IsDigit(rest[0]))
    ensures ReadInt("-" + Decimal.OfNat(-n) + rest) == Read(Int(n), rest)
  {
    var s := "-" + Decimal.OfNat(-n) + rest;
    assert s[0] == '-' && s[1..] == Decimal.OfNat(-n) + rest;
    NatReadsBack(-n, rest);
  }

  /** A value's first character tells its kind. */
  lemma FirstChar(v: Value)
    ensures Format(v) != ""
    ensures Format(v)[0] == match v
                            case Null => 'N'
                            case Bool(b) => if b then 'T' else 'F'
                            case Int(n) => Decimal.OfInt(n)[0]
                            case Str(s) => '\''
                            case Array(_) => 'A'
  {
  }

  lemma WordReadsBack(v: Value, rest: string)
    requires v.Null? || v.Bool?
    ensures ReadValue(Format(v) + rest) == Read(v, rest)
  {
    var s := Format(v) + rest;
    assert s[0] == Format(v)[0];
    assert s[|Format(v)|..] == rest;
  }

  lemma IntValueReadsBack(n: int, rest: string)
    requires Stops(rest)
    ensures ReadValue(Format(Int(n)) + rest) == Read(Int(n), rest)
  {
    var s := Format(Int(n)) + rest;
    assert s[0] == Decimal.OfInt(n)[0];
    IntReadsBack(n, rest);
  }

  lemma StrReadsBack(t: string, rest: string)
    requires Stops(rest)
    ensures ReadValue(Format(Str(t)) + rest) == Read(Str(t), rest)
  {
    var s := Format(Str(t)) + rest;
    assert s[0] == '\'';
    QuotedReadsBackIff(t, '\'', rest);
  }

  lemma OneItem(v: Value, s: string, rest: string)
    requires s != "" && s[0] != ']' && ReadValue(s) == Read(v, "]" + rest)
    ensures ReadItems(s) == Some(Items([v], rest))
  {
    assert ("]" + rest)[1..] == rest;
  }

  lemma NextItem(v: Value, s: string, next: string, items: seq<Value>, rest: string)
    requires s != "" && s[0] != ']' && ReadValue(s) == Read(v, ", " + next)
    requires ReadItems(next) == Some(Items(items, rest)) && items != []
    ensures ReadItems(s) == Some(Items([v] + items, rest))
  {
    assert (", " + next)[2..] == next;
  }

  lemma ArrayText(items: seq<Value>, rest: string)
    ensures Format(Array(items)) + rest == "ARRAY[" + (Joined(items) + ("]" + rest))
  {
    Regroup("ARRAY[", Joined(items), "]");
    Regroup("ARRAY[" + Joined(items), "]", rest);
    Regroup("ARRAY[", Joined(items), "]" + rest);
  }

  lemma OpensArray(inner: string)
    ensures "ARRAY[" <= "ARRAY[" + inner && ("ARRAY[" + inner)[6..] == inner && ("ARRAY[" + inner)[0] == 'A'
  {
  }

  lemma WholeArray(items: seq<Value>, rest: string)
    requires ReadItems(Joined(items) + ("]" + rest)) == Some(Items(items, rest))
    ensures ReadValue(Format(Array(items)) + rest) == Read(Array(items), rest)
  {
    ArrayText(items, rest);
    OpensArray(Joined(items) + ("]" + rest));
  }

  /** Every value, however deeply nested, is read back, and reading stops at its end. */
  lemma {:induction false} ValueReadsBack(v: Value, rest: string)
    requires v.Int? || v.Str? ==> Stops(rest)
    ensures ReadValue(Format(v) + rest) == Read(v, rest)
    decreases v
  {
    match v
    case Null => WordReadsBack(v, rest);
    case Bool(b) => WordReadsBack(v, rest);
    case Int(n) => IntValueReadsBack(n, rest);
    case Str(t) => StrReadsBack(t, rest);
    case Array(items) =>
      ItemsReadBack(items, rest);
      WholeArray(items, rest);
  }

  lemma {:induction false} ItemsReadBack(items: seq<Value>, rest: string)
    ensures ReadItems(Joined(items) + ("]" + rest)) == Some(Items(items, rest))
    decreases items
  {
    var tail := "]" + rest;
    var s := Joined(items) + tail;
    if items == [] {
      assert s == tail && tail[1..] == rest;
    } else {
      FirstChar(items[0]);
      assert s[0] == Format(items[0])[0];
      if |items| == 1 {
        ValueReadsBack(items[0], tail);
        OneItem(items[0], s, rest);
        assert items == [items[0]];
      } else {
        var next := Joined(items[1..]) + tail;
        assert s == Format(items[0]) + (", " + next);
        ValueReadsBack(items[0], ", " + next);
        ItemsReadBack(items[1..], rest);
        NextItem(items[0], s, next, items[1..], rest);
        assert items == [items[0]] + items[1..];
      }
    }
  }

  /** An array literal is read back whatever follows it. */
  lemma ArrayReadsBack(values: seq<Value>, rest: string)
    ensures ReadValue(Format(Array(values)) + rest) == Read(Array(values), rest)
  {
    ValueReadsBack(Array(values), rest);
  }
}
