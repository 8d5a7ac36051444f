/** The printer of replies in the Redis serialization protocol (RESP2), and a reader that inverts it. */
module Resp {
  import opened Options

  /** The value of a string token: JavaScript keeps numbers as they are, and undefined slips through. */
  datatype Scalar = Undefined | Text(text: string) | Number(n: int)

  datatype Token =
    | Status(text: string)
    | Error(text: string)
    | Integer(n: int)
    | Bulk(value: Scalar)
    | Array(items: seq<Token>)
    | Unknown(text: string)

  const CRLF: string := "\r\n"

  // ---------------------------------------------------------------- decimal numerals

  function Digit(d: nat): char
    requires d < 10
  {
    ['0', '1', '2', '3', '4', '5', '6', '7', '8', '9'][d]
  }

  function ReadDigit(c: char): Option<nat> {
    match c
    case '0' => Some(0)
    case '1' => Some(1)
    case '2' => Some(2)
    case '3' => Some(3)
    case '4' => Some(4)
    case '5' => Some(5)
    case '6' => Some(6)
    case '7' => Some(7)
    case '8' => Some(8)
    case '9' => Some(9)
    case _ => None
  }

  function Decimal(n: nat): (s: string)
    ensures |s| > 0 && ReadDigit(s[0]).Some?
  {
    if n < 10 then [Digit(n)] else Decimal(n / 10) + [Digit(n % 10)]
  }

  function Signed(n: int): string {
    if n < 0 then "-" + Decimal(-n) else Decimal(n)
  }

  function ReadNat(s: string): Option<nat> {
    if |s| == 0 then None
    else
      var d := ReadDigit(s[|s| - 1]);
      if d.None? || |s| == 1 then d
      else
        var front := ReadNat(s[..|s| - 1]);
        if front.None? then None else Some(10 * front.value + d.value)
  }

  function ReadInt(s: string): Option<int> {
    if |s| > 0 && s[0] == '-' then
      var r := ReadNat(s[1..]);
      if r.None? then None else
        var n: int := 0 - r.value;
        Some(n)
    else
      var r := ReadNat(s);
      if r.None? then None else Some(r.value)
  }

  lemma {:induction false} ReadDecimal(n: nat)
    ensures ReadNat(Decimal(n)) == Some(n)
  {
    if n >= 10 {
      ReadDecimal(n / 10);
      assert Decimal(n)[..|Decimal(n)| - 1] == Decimal(n / 10);
    }
  }

  lemma ReadSigned(n: int)
    ensures ReadInt(Signed(n)) == Some(n)
  {
    hide Decimal, ReadNat;
    if n < 0 {
      ReadDecimal(-n);
      assert Signed(n)[1..] == Decimal(-n);
    } else {
      ReadDecimal(n);
    }
  }

  // ---------------------------------------------------------------- the printed form

  function Show(v: Scalar): string {
    match v
    case Undefined => "undefined"
    case Text(text) => text
    case Number(n) => Signed(n)
  }

  /** What the source prints as a null bulk string: the falsy values, 0 among them. */
  predicate Falsy(v: Scalar) {
    v == Undefined || v == Text("") || v == Number(0)
  }

  function Wire(t: Token): string {
    match t
    case Status(text) => "+" + text + CRLF
    case Integer(n) => ":" + Signed(n) + CRLF
    case Bulk(v) => if Falsy(v) then "$-1" + CRLF else "$" + Decimal(|Show(v)|) + CRLF + Show(v) + CRLF
    case Array(items) => "*" + Decimal(|items|) + CRLF + WireAll(items)
    case Error(text) => "-" + text + CRLF
    case Unknown(text) => "-" + text + CRLF
  }

  function WireAll(ts: seq<Token>): string {
    if |ts| == 0 then "" else Wire(ts[0]) + WireAll(ts[1..])
  }

  lemma {:induction false} WireAllAppend(ts: seq<Token>, t: Token)
    ensures WireAll(ts + [t]) == WireAll(ts) + Wire(t)
  {
    if |ts| == 0 {
      assert ts + [t] == [t];
    } else {
      assert (ts + [t])[1..] == ts[1..] + [t];
      WireAllAppend(ts[1..], t);
    }
  }

  class RespSerialize {
    const message: Token
    var value: string

    constructor (message: Token)
      ensures this.message == message && value == ""
    {
      this.message := message;
      value := "";
    }

    /** A printer appends to what it has already printed. */
    method Serialize() returns (r: string)
      modifies this
      ensures value == old(value) + Wire(message) && r == value
      decreases message, 1
    {
      if message.Array? {
        SerializeItems(message.items);
      } else {
        SerializeLine();
      }
      r := value;
    }

    method SerializeItems(items: seq<Token>)
      requires message == Array(items)
      modifies this
      ensures value == old(value) + Wire(message)
      decreases message, 0
    {
      hide Decimal, Wire, WireAll;
      value := value + ("*" + Decimal(|items|) + CRLF);
      ghost var header := value;
      WireArray(items);
      for i := 0 to |items|
        invariant value == header + WireAll(items[..i])
      {
        var inner := new RespSerialize(items[i]);
        var printed := inner.Serialize();
        assert "" + Wire(items[i]) == Wire(items[i]);
        value := value + printed;
        assert items[..i + 1] == items[..i] + [items[i]];
        WireAllAppend(items[..i], items[i]);
      }
      assert items[..|items|] == items;
    }

    method SerializeLine()
      requires !message.Array?
      modifies this
      ensures value == old(value) + Wire(message)
    {
      hide Decimal, Signed;
      match message {
        case Status(text) =>
          value := value + ("+" + text + CRLF);
        case Integer(n) =>
          value := value + (":" + Signed(n) + CRLF);
        case Bulk(v) =>
          if !Falsy(v) && |Show(v)| > 0 {
            value := value + ("$" + Decimal(|Show(v)|) + CRLF + Show(v));
          } else {
            ShownUnlessFalsy(v);
            value := value + "$-1";
          }
          value := value + CRLF;
        case Error(text) =>
          value := value + ("-" + text + CRLF);
        case Unknown(text) =>
          value := value + ("-" + text + CRLF);
      }
    }
  }

  lemma WireArray(items: seq<Token>)
    ensures Wire(Array(items)) == "*" + Decimal(|items|) + CRLF + WireAll(items)
    ensures WireAll([]) == "" && items[..0] == []
  {
  }

  lemma ShownUnlessFalsy(v: Scalar)
    ensures !Falsy(v) ==> |Show(v)| > 0
  {
  }

  // ---------------------------------------------------------------- the reader

  datatype Reply =
    | RStatus(text: string)
    | RError(text: string)
    | RInteger(n: int)
    | RBulk(text: string)
    | RNull
    | RArray(items: seq<Reply>)

  /** What a client makes of a token. */
  function Meaning(t: Token): Reply {
    match t
    case Status(text) => RStatus(text)
    case Integer(n) => RInteger(n)
    case Bulk(v) => if Falsy(v) then RNull else RBulk(Show(v))
    case Array(items) => RArray(Meanings(items))
    case Error(text) => RError(text)
    case Unknown(text) => RError(text)
  }

  function Meanings(ts: seq<Token>): (rs: seq<Reply>)
    ensures |rs| == |ts|
  {
    if |ts| == 0 then [] else [Meaning(ts[0])] + Meanings(ts[1..])
  }

  /** Splits at the first line end. */
  function Line(s: string): (r: Option<(string, string)>)
    ensures r.Some? ==> s == r.value.0 + CRLF + r.value.1
  {
    if |s| < 2 then None
    else if s[0] == '\r' && s[1] == '\n' then Some(("", s[2..]))
    else
      var r := Line(s[1..]);
      if r.None? then None else Some(([s[0]] + r.value.0, r.value.1))
  }

  function Parse(s: string): (r: Option<(Reply, string)>)
    ensures r.Some? ==> |r.value.1| < |s|
    decreases |s|, 0
  {
    var split := Line(s);
    if split.None? || |split.value.0| == 0 then None
    else
      var (line, rest) := split.value;
      var body := line[1..];
      match line[0]
      case '+' => Some((RStatus(body), rest))
      case '-' => Some((RError(body), rest))
      case ':' =>
        var n := ReadInt(body);
        if n.None? then None else Some((RInteger(n.value), rest))
      case '$' =>
        if body == "-1" then Some((RNull, rest))
        else
          var n := ReadNat(body);
          if n.None? || |rest| < n.value + 2 || rest[n.value..n.value + 2] != CRLF then None
          else Some((RBulk(rest[..n.value]), rest[n.value + 2..]))
      case '*' =>
        var n := ReadNat(body);
        if n.None? then None
        else
          var items := ParseMany(n.value, rest);
          if items.None? then None else Some((RArray(items.value.0), items.value.1))
      case _ => None
  }

  function ParseMany(n: nat, s: string): (r: Option<(seq<Reply>, string)>)
    ensures r.Some? ==> |r.value.1| <= |s| && |r.value.0| == n
    decreases |s|, n + 1
  {
    if n == 0 then Some(([], s))
    else
      var first := Parse(s);
      if first.None? then None
      else
        var others := ParseMany(n - 1, first.value.1);
        if others.None? then None else Some(([first.value.0] + others.value.0, others.value.1))
  }

  // ---------------------------------------------------------------- round trips

  /** No line end inside. */
  predicate OneLine(s: string) {
    forall i {:trigger s[i]} :: 0 <= i < |s| - 1 ==> !(s[i] == '\r' && s[i + 1] == '\n')
  }

  /** Status and error texts are single lines, however deeply nested; bulk text may be anything. */
  predicate Clean(t: Token) {
    match t
    case Status(text) => OneLine(text)
    case Error(text) => OneLine(text)
    case Unknown(text) => OneLine(text)
    case Array(items) => CleanAll(items)
    case _ => true
  }

  predicate CleanAll(ts: seq<Token>) {
    |ts| == 0 || (Clean(ts[0]) && CleanAll(ts[1..]))
  }

  lemma {:induction false} LineOf(text: string, rest: string)
    ensures OneLine(text) ==> Line(text + CRLF + rest) == Some((text, rest))
    ensures !OneLine(text) ==> Line(text + CRLF + rest).Some? && |Line(text + CRLF + rest).value.0| < |text|
  {
    var s := text + CRLF + rest;
    if |text| == 0 {
      assert s == CRLF + rest && s[2..] == rest;
    } else {
      assert s[0] == text[0] && s[1] == (if |text| > 1 then text[1] else '\r');
      assert s[1..] == text[1..] + CRLF + rest;
      LineOf(text[1..], rest);
      assert [text[0]] + text[1..] == text;
      assert OneLine(text) <==> OneLine(text[1..]) && !(|text| > 1 && text[0] == '\r' && text[1] == '\n') by {
        assert forall i {:trigger text[1..][i]} :: 0 <= i < |text| - 1 ==> text[1..][i] == text[i + 1];
        assert forall i {:trigger text[i]} :: 1 <= i < |text| ==> text[i] == text[1..][i - 1];
      }
    }
  }

  lemma {:induction false} DecimalOneLine(n: nat)
    ensures forall i :: 0 <= i < |Decimal(n)| ==> Decimal(n)[i] != '\r'
  {
    if n >= 10 {
      DecimalOneLine(n / 10);
    }
  }

  /** A numeral behind its type character is a single line. */
  lemma NumeralLine(first: char, n: int)
    requires first != '\r'
    ensures OneLine([first] + Signed(n))
  {
    DecimalOneLine(if n < 0 then -n else n);
  }

  /** A token that is one line of text. */
  lemma TextLine(first: char, text: string, rest: string)
    requires first == '+' || first == '-'
    ensures var s := [first] + text + CRLF + rest; var r := Parse(s);
      && (OneLine(text) ==> r == Some((if first == '+' then RStatus(text) else RError(text), rest)))
      && (!OneLine(text) ==> r.Some? && r.value.0.RStatus? == (first == '+') && (r.value.0.RStatus? || r.value.0.RError?) && |r.value.0.text| < |text|)
  {
    var line := [first] + text;
    assert line[1..] == text;
    assert OneLine(line) <==> OneLine(text) by {
      assert forall i {:trigger text[i]} :: 0 <= i < |text| ==> text[i] == line[i + 1];
      assert forall i {:trigger line[i]} :: 1 <= i < |line| ==> line[i] == text[i - 1];
    }
    LineOf(line, rest);
    var s := [first] + text + CRLF + rest;
    assert s == line + CRLF + rest && s[0] == first;
    assert s[0] == (Line(s).value.0 + CRLF)[0];
  }

  lemma BulkRoundTrip(v: Scalar, rest: string)
    ensures Parse(Wire(Bulk(v)) + rest) == Some((Meaning(Bulk(v)), rest))
  {
    var body := Show(v);
    ShownUnlessFalsy(v);
    if Falsy(v) {
      LineOf("$-1", rest);
      assert "$-1"[1..] == "-1";
    } else {
      var n := |body|;
      var after := body + CRLF + rest;
      NumeralLine('$', n);
      ReadDecimal(n);
      LineOf("$" + Decimal(n), after);
      assert Wire(Bulk(v)) + rest == "$" + Decimal(n) + CRLF + after;
      assert ("$" + Decimal(n))[1..] == Decimal(n);
      assert after[..n] == body && after[n..n + 2] == CRLF && after[n + 2..] == rest;
    }
  }

  lemma IntegerRoundTrip(n: int, rest: string)
    ensures Parse(Wire(Integer(n)) + rest) == Some((RInteger(n), rest))
  {
    NumeralLine(':', n);
    LineOf(":" + Signed(n), rest);
    ReadSigned(n);
    assert (":" + Signed(n))[1..] == Signed(n);
  }

  /** The reader of an array's header goes on to its items. */
  lemma ArrayHeader(n: nat, after: string)
    ensures Parse("*" + Decimal(n) + CRLF + after) ==
            var items := ParseMany(n, after);
            if items.None? then None else Some((RArray(items.value.0), items.value.1))
  {
    NumeralLine('*', n);
    LineOf("*" + Decimal(n), after);
    ReadDecimal(n);
    assert ("*" + Decimal(n))[1..] == Decimal(n);
  }

  /** A token is read back, and what follows it left untouched, exactly when its lines are clean. */
  lemma {:induction false} RoundTrip(t: Token, rest: string)
    ensures Clean(t) ==> Parse(Wire(t) + rest) == Some((Meaning(t), rest))
    ensures !Clean(t) ==> Parse(Wire(t) + rest).None? || Parse(Wire(t) + rest).value.0 != Meaning(t)
    decreases t, 0
  {
    hide Decimal, Signed, Parse, ParseMany, OneLine;
    match t {
      case Array(items) =>
        assert Wire(t) + rest == "*" + Decimal(|items|) + CRLF + (WireAll(items) + rest);
        ArrayHeader(|items|, WireAll(items) + rest);
        RoundTripMany(items, rest);
      case Status(text) =>
        TextLine('+', text, rest);
      case Error(text) =>
        TextLine('-', text, rest);
      case Unknown(text) =>
        TextLine('-', text, rest);
      case Integer(n) =>
        IntegerRoundTrip(n, rest);
      case Bulk(v) =>
        BulkRoundTrip(v, rest);
    }
  }

  lemma {:induction false} RoundTripMany(ts: seq<Token>, rest: string)
    ensures var r := ParseMany(|ts|, WireAll(ts) + rest);
      && (CleanAll(ts) ==> r == Some((Meanings(ts), rest)))
      && (!CleanAll(ts) ==> r.None? || r.value.0 != Meanings(ts))
    decreases ts, 1
  {
    hide Parse, Wire, Meaning, Clean;
    if |ts| == 0 {
      assert WireAll(ts) + rest == rest;
    } else {
      var s := WireAll(ts) + rest;
      var tail := WireAll(ts[1..]) + rest;
      assert s == Wire(ts[0]) + tail;
      RoundTrip(ts[0], tail);
      RoundTripMany(ts[1..], rest);
      assert |ts[1..]| == |ts| - 1;
      var first := Parse(s);
      if first.Some? {
        var others := ParseMany(|ts| - 1, first.value.1);
        assert others.Some? ==> ([first.value.0] + others.value.0)[0] == first.value.0
                                && ([first.value.0] + others.value.0)[1..] == others.value.0;
        assert Meanings(ts)[0] == Meaning(ts[0]) && Meanings(ts)[1..] == Meanings(ts[1..]);
      }
    }
  }

  /** Output is uniquely decodable: equal bytes come from replies that mean the same. */
  lemma UniquelyDecodable(t: Token, u: Token, r: string, q: string)
    requires Clean(t) && Clean(u) && Wire(t) + r == Wire(u) + q
    ensures Meaning(t) == Meaning(u) && r == q
  {
    hide Parse, Wire, Meaning, Clean;
    RoundTrip(t, r);
    RoundTrip(u, q);
  }

  /** Without clean lines it is not: an error text with a line end prints like two replies. */
  lemma DirtyLinesCollide()
    ensures var t, u, v := Error("a\r\n+b"), Error("a"), Status("b");
      Wire(t) == Wire(u) + Wire(v) && Meaning(t) != Meaning(u)
  {
  }
}
