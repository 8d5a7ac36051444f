/** What a client reads for each token, and which tokens it cannot tell apart. */
module Decoding {
  import opened Options
  import opened Resp

  // ---------------------------------------------------------------- numerals

  /** Numerals are decimal: the digits in their order, the most significant first. */
  lemma DecimalDigits(n: nat, d: nat)
    requires d < 10
    ensures Decimal(d) == [('0' as int + d) as char]
    ensures n > 0 ==> Decimal(10 * n + d) == Decimal(n) + [('0' as int + d) as char]
  {
    DigitIs(d);
    if n > 0 {
      assert (10 * n + d) / 10 == n && (10 * n + d) % 10 == d;
    }
  }

  lemma DigitIs(d: nat)
    requires d < 10
    ensures Digit(d) == ('0' as int + d) as char
  {
  }

  lemma SignedIs(n: nat)
    ensures Signed(n) == Decimal(n) && (n > 0 ==> Signed(0 - n) == "-" + Decimal(n))
  {
    hide Decimal;
  }

  // ---------------------------------------------------------------- one token

  /** Text that is not empty comes through as it is, line ends and all. */
  lemma TextComesThrough(text: string, rest: string)
    requires text != ""
    ensures Parse(Wire(Bulk(Text(text))) + rest) == Some((RBulk(text), rest))
  {
    hide Parse, Wire;
    BulkRoundTrip(Text(text), rest);
  }

  /** A number in a bulk string comes through as its numeral, unless it is 0. */
  lemma NumberComesThrough(n: int, rest: string)
    requires n != 0
    ensures Parse(Wire(Bulk(Number(n))) + rest) == Some((RBulk(Signed(n)), rest))
  {
    hide Parse, Wire, Signed;
    BulkRoundTrip(Number(n), rest);
  }

  /** A client reads null for these three values, and for no other. */
  lemma NullIs(v: Scalar, rest: string)
    ensures Parse(Wire(Bulk(v)) + rest) == Some((RNull, rest)) <==> v == Undefined || v == Text("") || v == Number(0)
  {
    hide Parse, Wire, Signed;
    BulkRoundTrip(v, rest);
  }

  lemma IntegerComesThrough(n: int, rest: string)
    ensures Parse(Wire(Integer(n)) + rest) == Some((RInteger(n), rest))
  {
    IntegerRoundTrip(n, rest);
  }

  /** Status and error texts of one line come through as they are. */
  lemma LineComesThrough(text: string, rest: string)
    requires forall i {:trigger text[i]} :: 0 <= i < |text| - 1 ==> !(text[i] == '\r' && text[i + 1] == '\n')
    ensures Parse(Wire(Status(text)) + rest) == Some((RStatus(text), rest))
    ensures Parse(Wire(Error(text)) + rest) == Some((RError(text), rest))
    ensures Parse(Wire(Unknown(text)) + rest) == Some((RError(text), rest))
  {
    hide Parse, Wire;
    RoundTrip(Status(text), rest);
    RoundTrip(Error(text), rest);
    RoundTrip(Unknown(text), rest);
  }

  /** Of an array a client reads what it would read of each item alone, in order. */
  lemma ArrayComesThrough(items: seq<Token>, rest: string) returns (rs: seq<Reply>)
    requires CleanAll(items)
    ensures Parse(Wire(Array(items)) + rest) == Some((RArray(rs), rest)) && |rs| == |items|
    ensures forall i {:trigger rs[i]} :: 0 <= i < |items| ==> Parse(Wire(items[i])) == Some((rs[i], ""))
  {
    hide Parse, Wire, Meaning, Clean;
    rs := Meanings(items);
    assert Meaning(Array(items)) == RArray(rs) && Clean(Array(items)) by { OfArray(items); }
    RoundTrip(Array(items), rest);
    forall i | 0 <= i < |items|
      ensures Parse(Wire(items[i])) == Some((rs[i], ""))
    {
      ItemOf(items, i);
      RoundTrip(items[i], "");
      assert Wire(items[i]) + "" == Wire(items[i]);
    }
  }

  lemma OfArray(items: seq<Token>)
    ensures Meaning(Array(items)) == RArray(Meanings(items)) && Clean(Array(items)) == CleanAll(items)
  {
  }

  lemma {:induction false} ItemOf(items: seq<Token>, i: nat)
    requires i < |items|
    ensures Meanings(items)[i] == Meaning(items[i]) && (CleanAll(items) ==> Clean(items[i]))
  {
    hide Meaning, Clean;
    if i > 0 {
      ItemOf(items[1..], i - 1);
    }
  }

  // ---------------------------------------------------------------- the bytes

  /** The form that the Redis protocol gives to each kind of reply. */
  lemma Forms()
    ensures Wire(Status("OK")) == "+OK\r\n" && Wire(Error("no")) == "-no\r\n" && Wire(Integer(-7)) == ":-7\r\n"
    ensures Wire(Bulk(Text("ab"))) == "$2\r\nab\r\n" && Wire(Bulk(Undefined)) == "$-1\r\n"
  {
    assert Decimal(7) == "7" && Decimal(2) == "2";
  }

  lemma ArrayForms(t: Token, u: Token)
    ensures Wire(Array([])) == "*0\r\n" && Wire(Array([t, u])) == "*2\r\n" + Wire(t) + Wire(u)
  {
    assert Decimal(2) == "2" && Decimal(0) == "0";
    hide Decimal;
    WireArray([]);
    WireArray([t, u]);
    hide Wire;
    assert [t, u][1..] == [u] && [u][1..] == [];
    assert WireAll([u]) == Wire(u) + "" == Wire(u);
  }

  // ---------------------------------------------------------------- tokens that look the same

  predicate Null(v: Scalar) {
    v == Undefined || v == Text("") || v == Number(0)
  }

  /** Bulk strings look the same when both are null, or when they have one text; error tokens and those of
      an unexpected kind look the same. */
  predicate Same(t: Token, u: Token) {
    match (t, u)
    case (Status(a), Status(b)) => a == b
    case (Integer(m), Integer(n)) => m == n
    case (Bulk(v), Bulk(w)) => Null(v) == Null(w) && (!Null(v) ==> TextOf(v) == TextOf(w))
    case (Array(ts), Array(us)) => SameAll(ts, us)
    case (Error(a), Error(b)) => a == b
    case (Error(a), Unknown(b)) => a == b
    case (Unknown(a), Error(b)) => a == b
    case (Unknown(a), Unknown(b)) => a == b
    case _ => false
  }

  predicate SameAll(ts: seq<Token>, us: seq<Token>) {
    |ts| == |us| && (|ts| == 0 || (Same(ts[0], us[0]) && SameAll(ts[1..], us[1..])))
  }

  function TextOf(v: Scalar): string {
    match v
    case Undefined => ""
    case Text(text) => text
    case Number(n) => if n < 0 then "-" + Decimal(-n) else Decimal(n)
  }

  lemma {:induction false} SameMeaning(t: Token, u: Token)
    ensures Same(t, u) <==> Meaning(t) == Meaning(u)
    decreases t, 0
  {
    hide Decimal;
    if t.Array? && u.Array? {
      SameMeanings(t.items, u.items);
    }
  }

  lemma {:induction false} SameMeanings(ts: seq<Token>, us: seq<Token>)
    ensures SameAll(ts, us) <==> Meanings(ts) == Meanings(us)
    decreases ts, 1
  {
    hide Same, Meaning;
    if |ts| == |us| && |ts| > 0 {
      SameMeaning(ts[0], us[0]);
      SameMeanings(ts[1..], us[1..]);
      assert Meanings(ts)[0] == Meaning(ts[0]) && Meanings(ts)[1..] == Meanings(ts[1..]);
      assert Meanings(us)[0] == Meaning(us[0]) && Meanings(us)[1..] == Meanings(us[1..]);
    }
  }

  /** Output tells tokens apart exactly when they do not look the same. */
  lemma SameOutput(t: Token, u: Token, r: string, q: string)
    requires Clean(t) && Clean(u)
    ensures Wire(t) + r == Wire(u) + q ==> Same(t, u) && r == q
    ensures Same(t, u) ==> Wire(t) == Wire(u)
  {
    hide Parse, Wire, Meaning, Clean, Same;
    SameMeaning(t, u);
    if Wire(t) + r == Wire(u) + q {
      UniquelyDecodable(t, u, r, q);
    }
    if Same(t, u) {
      SameWire(t, u);
    }
  }

  lemma {:induction false} SameWire(t: Token, u: Token)
    requires Same(t, u)
    ensures Wire(t) == Wire(u)
    decreases t, 0
  {
    hide Decimal;
    if t.Array? {
      SameWires(t.items, u.items);
    }
  }

  lemma {:induction false} SameWires(ts: seq<Token>, us: seq<Token>)
    requires SameAll(ts, us)
    ensures WireAll(ts) == WireAll(us)
    decreases ts, 1
  {
    hide Same, Wire;
    if |ts| > 0 {
      SameWire(ts[0], us[0]);
      SameWires(ts[1..], us[1..]);
    }
  }
}
