/**
 * The structured text encoding the component applies to values before
 * storing them (JSON.stringify) and after reading them (JSON.parse).
 *
 * The model covers the JSON subset of null, booleans, integers, strings and
 * arrays, written in the canonical form JSON.stringify produces for them: no
 * whitespace, integers without leading zeros, strings with the quote and the
 * backslash escaped. Decode reads exactly that form and gives None for any
 * other text, standing for the exception JSON.parse throws on malformed
 * text. The point of the module is the round trip
 * Decode(Encode(v)) == Some(v), proved below for every value.
 */
module Json {
  import opened Wrappers

  datatype Value =
    | Null
    | Bool(b: bool)
    | Num(n: int)
    | Str(s: string)
    | Arr(items: seq<Value>)

  // ---------------------------------------------------------------------
  // Digits

  predicate IsDigit(c: char) {
    '0' <= c <= '9'
  }

  predicate AllDigits(s: string) {
    forall i :: 0 <= i < |s| ==> IsDigit(s[i])
  }

  function DigitChar(d: nat): (c: char)
    requires d < 10
    ensures IsDigit(c)
  {
    ('0' as int + d) as char
  }

  function DigitValue(c: char): (d: nat)
    requires IsDigit(c)
    ensures d < 10
  {
    c as int - '0' as int
  }

  /** Decimal text of a natural number, most significant digit first. */
  function NatText(n: nat): (t: string)
    ensures |t| > 0 && AllDigits(t)
    ensures |t| > 1 ==> t[0] != '0'
  {
    if n < 10 then [DigitChar(n)] else NatText(n / 10) + [DigitChar(n % 10)]
  }

  /** The number a run of decimal digits denotes. */
  function DigitsValue(ds: string): nat
    requires AllDigits(ds)
  {
    if ds == [] then 0 else DigitsValue(ds[..|ds| - 1]) * 10 + DigitValue(ds[|ds| - 1])
  }

  lemma {:induction false} DigitsValueOfNatText(n: nat)
    ensures DigitsValue(NatText(n)) == n
  {
    if n >= 10 {
      var t := NatText(n / 10) + [DigitChar(n % 10)];
      assert t[..|t| - 1] == NatText(n / 10);
      DigitsValueOfNatText(n / 10);
    }
  }

  /** Length of the run of digits at the start of s. */
  function DigitRun(s: string): (k: nat)
    ensures k <= |s| && AllDigits(s[..k])
    ensures k < |s| ==> !IsDigit(s[k])
  {
    if s == [] || !IsDigit(s[0]) then 0
    else
      var k := 1 + DigitRun(s[1..]);
      assert s[..k] == [s[0]] + s[1..][..k - 1];
      k
  }

  lemma {:induction false} DigitRunOfDigits(ds: string, rest: string)
    requires AllDigits(ds)
    requires rest == [] || !IsDigit(rest[0])
    ensures DigitRun(ds + rest) == |ds|
  {
    if ds != [] {
      assert (ds + rest)[1..] == ds[1..] + rest;
      DigitRunOfDigits(ds[1..], rest);
    }
  }

  /** A natural number in canonical decimal form: at least one digit, and no leading zero. */
  function ParseNat(s: string): (r: Option<(nat, string)>)
    ensures r.Some? ==> |r.value.1| < |s|
  {
    var k := DigitRun(s);
    if k == 0 || (k > 1 && s[0] == '0') then None
    else Some((DigitsValue(s[..k]), s[k..]))
  }

  lemma ParseNatText(n: nat, rest: string)
    requires rest == [] || !IsDigit(rest[0])
    ensures ParseNat(NatText(n) + rest) == Some((n, rest))
  {
    var t := NatText(n);
    DigitRunOfDigits(t, rest);
    assert (t + rest)[..|t|] == t;
    assert (t + rest)[|t|..] == rest;
    DigitsValueOfNatText(n);
  }

  // ---------------------------------------------------------------------
  // Strings

  /** The body of a string literal: quote and backslash get a backslash before them. */
  function Escape(s: string): (t: string)
  {
    if s == [] then []
    else if s[0] == '"' || s[0] == '\\' then ['\\', s[0]] + Escape(s[1..])
    else [s[0]] + Escape(s[1..])
  }

  /** Reads the body of a string literal up to and including its closing quote. */
  function ParseChars(s: string): (r: Option<(string, string)>)
    ensures r.Some? ==> |r.value.1| < |s|
  {
    if s == [] then None
    else if s[0] == '"' then Some(([], s[1..]))
    else if s[0] == '\\' then
      if |s| < 2 || (s[1] != '"' && s[1] != '\\') then None
      else match ParseChars(s[2..])
        case None => None
        case Some((cs, rest)) => Some(([s[1]] + cs, rest))
    else match ParseChars(s[1..])
      case None => None
      case Some((cs, rest)) => Some(([s[0]] + cs, rest))
  }

  lemma {:induction false} ParseCharsOfEscape(s: string, rest: string)
    ensures ParseChars(Escape(s) + "\"" + rest) == Some((s, rest))
  {
    if s == [] {
      assert Escape(s) + "\"" + rest == ['"'] + rest;
    } else if s[0] == '"' || s[0] == '\\' {
      assert Escape(s) + "\"" + rest == ['\\', s[0]] + (Escape(s[1..]) + "\"" + rest);
      ParseCharsOfEscape(s[1..], rest);
      assert [s[0]] + s[1..] == s;
    } else {
      assert Escape(s) + "\"" + rest == [s[0]] + (Escape(s[1..]) + "\"" + rest);
      ParseCharsOfEscape(s[1..], rest);
      assert [s[0]] + s[1..] == s;
    }
  }

  // ---------------------------------------------------------------------
  // Values

  /** JSON.stringify, on the modelled subset. */
  function Encode(v: Value): (t: string)
    ensures |t| > 0 && t[0] != ',' && t[0] != ']'
  {
    match v
    case Null => "null"
    case Bool(b) => if b then "true" else "false"
    case Num(n) => if n < 0 then "-" + NatText(-n) else NatText(n)
    case Str(s) => "\"" + Escape(s) + "\""
    case Arr(items) => "[" + EncodeItems(items) + "]"
  }

  /** The elements of an array, comma-separated. */
  function EncodeItems(items: seq<Value>): string
  {
    if items == [] then ""
    else if |items| == 1 then Encode(items[0])
    else Encode(items[0]) + "," + EncodeItems(items[1..])
  }

  /** Reads one value from the front of s and returns it with the text after it. */
  function ParseValue(s: string): (r: Option<(Value, string)>)
    ensures r.Some? ==> |r.value.1| < |s|
    decreases |s|, 0
  {
    if s == [] then None
    else if s[0] == 'n' then
      if |s| >= 4 && s[..4] == "null" then Some((Null, s[4..])) else None
    else if s[0] == 't' then
      if |s| >= 4 && s[..4] == "true" then Some((Bool(true), s[4..])) else None
    else if s[0] == 'f' then
      if |s| >= 5 && s[..5] == "false" then Some((Bool(false), s[5..])) else None
    else if s[0] == '-' then
      match ParseNat(s[1..])
      case None => None
      case Some((n, rest)) => var m: int := n; Some((Num(-m), rest))
    else if IsDigit(s[0]) then
      match ParseNat(s)
      case None => None
      case Some((n, rest)) => Some((Num(n), rest))
    else if s[0] == '"' then
      match ParseChars(s[1..])
      case None => None
      case Some((cs, rest)) => Some((Str(cs), rest))
    else if s[0] == '[' then
      if |s| >= 2 && s[1] == ']' then Some((Arr([]), s[2..]))
      else match ParseItems(s[1..])
        case None => None
        case Some((items, rest)) => Some((Arr(items), rest))
    else None
  }

  /** Reads the elements of a non-empty array up to and including its closing bracket. */
  function ParseItems(s: string): (r: Option<(seq<Value>, string)>)
    ensures r.Some? ==> |r.value.1| < |s|
    decreases |s|, 1
  {
    match ParseValue(s)
    case None => None
    case Some((v, rest)) =>
      if rest == [] then None
      else if rest[0] == ']' then Some(([v], rest[1..]))
      else if rest[0] == ',' then
        match ParseItems(rest[1..])
        case None => None
        case Some((vs, rest')) => Some(([v] + vs, rest'))
      else None
  }

  /** JSON.parse: None where JSON.parse would throw. */
  function Decode(t: string): Option<Value>
  {
    match ParseValue(t)
    case None => None
    case Some((v, rest)) => if rest == [] then Some(v) else None
  }

  /** What may follow a value inside the text: nothing, or the punctuation of an enclosing array. */
  predicate Delimited(rest: string) {
    rest == [] || rest[0] == ',' || rest[0] == ']'
  }

  lemma {:induction false} ParseValueOfEncode(v: Value, rest: string)
    requires Delimited(rest)
    ensures ParseValue(Encode(v) + rest) == Some((v, rest))
    decreases v, 1
  {
    match v
    case Null => ParseLiteral(v, "null", rest);
    case Bool(b) => if b { ParseLiteral(v, "true", rest); } else { ParseLiteral(v, "false", rest); }
    case Num(n) => ParseNum(n, rest);
    case Str(cs) => ParseStr(cs, rest);
    case Arr(items) =>
      if items == [] {
        ParseEmptyArr(rest);
      } else {
        ParseItemsOfEncode(items, rest);
        ParseArr(items, rest);
      }
  }

  lemma ParseLiteral(v: Value, word: string, rest: string)
    requires (v == Null && word == "null") || (v == Bool(true) && word == "true") || (v == Bool(false) && word == "false")
    ensures ParseValue(word + rest) == Some((v, rest))
  {
    var s := word + rest;
    assert s[..|word|] == word && s[|word|..] == rest;
  }

  lemma ParseNum(n: int, rest: string)
    requires Delimited(rest)
    ensures ParseValue(Encode(Num(n)) + rest) == Some((Num(n), rest))
  {
    var s := Encode(Num(n)) + rest;
    if n < 0 {
      assert s[1..] == NatText(-n) + rest;
      ParseNatText(-n, rest);
    } else {
      ParseNatText(n, rest);
    }
  }

  lemma ParseStr(cs: string, rest: string)
    ensures ParseValue(Encode(Str(cs)) + rest) == Some((Str(cs), rest))
  {
    var s := Encode(Str(cs)) + rest;
    assert s[0] == '"';
    assert s[1..] == Escape(cs) + "\"" + rest;
    ParseCharsOfEscape(cs, rest);
  }

  lemma ParseEmptyArr(rest: string)
    ensures ParseValue(Encode(Arr([])) + rest) == Some((Arr([]), rest))
  {
    var s := Encode(Arr([])) + rest;
    assert s == "[]" + rest;
    assert s[2..] == rest;
  }

  lemma ParseArr(items: seq<Value>, rest: string)
    requires items != []
    requires ParseItems(EncodeItems(items) + "]" + rest) == Some((items, rest))
    ensures ParseValue(Encode(Arr(items)) + rest) == Some((Arr(items), rest))
  {
    var s := Encode(Arr(items)) + rest;
    assert s[1..] == EncodeItems(items) + "]" + rest;
    assert EncodeItems(items)[0] == Encode(items[0])[0];
    assert s[0] == '[' && s[1] != ']';
  }

  lemma {:induction false} ParseItemsOfEncode(items: seq<Value>, rest: string)
    requires items != [] && Delimited(rest)
    ensures ParseItems(EncodeItems(items) + "]" + rest) == Some((items, rest))
    decreases items, 0
  {
    if |items| == 1 {
      ParseValueOfEncode(items[0], "]" + rest);
      ParseLastItem(items[0], rest);
      assert [items[0]] == items;
    } else {
      var tail := "," + EncodeItems(items[1..]) + "]" + rest;
      ParseValueOfEncode(items[0], tail);
      ParseItemsOfEncode(items[1..], rest);
      ParseNextItem(items[0], items[1..], rest);
      assert [items[0]] + items[1..] == items;
    }
  }

  lemma ParseLastItem(v: Value, rest: string)
    requires ParseValue(Encode(v) + ("]" + rest)) == Some((v, "]" + rest))
    ensures ParseItems(EncodeItems([v]) + "]" + rest) == Some(([v], rest))
  {
    assert EncodeItems([v]) + "]" + rest == Encode(v) + ("]" + rest);
    assert ("]" + rest)[1..] == rest;
  }

  lemma ParseNextItem(v: Value, more: seq<Value>, rest: string)
    requires more != []
    requires ParseValue(Encode(v) + ("," + EncodeItems(more) + "]" + rest)) == Some((v, "," + EncodeItems(more) + "]" + rest))
    requires ParseItems(EncodeItems(more) + "]" + rest) == Some((more, rest))
    ensures ParseItems(EncodeItems([v] + more) + "]" + rest) == Some(([v] + more, rest))
  {
    var items := [v] + more;
    assert items[0] == v && items[1..] == more;
    assert EncodeItems(items) == Encode(v) + "," + EncodeItems(more);
    ParseCons(Encode(v), EncodeItems(more), rest, v, more);
  }

  lemma ParseCons(e: string, m: string, rest: string, v: Value, more: seq<Value>)
    requires ParseValue(e + ("," + m + "]" + rest)) == Some((v, "," + m + "]" + rest))
    requires ParseItems(m + "]" + rest) == Some((more, rest))
    ensures ParseItems(e + "," + m + "]" + rest) == Some(([v] + more, rest))
  {
    CommaSplit(e, m, rest);
    ParseItemsStep(e + ("," + m + "]" + rest), v, "," + m + "]" + rest, more, rest);
  }

  lemma CommaSplit(e: string, m: string, rest: string)
    ensures e + "," + m + "]" + rest == e + ("," + m + "]" + rest)
    ensures ("," + m + "]" + rest)[1..] == m + "]" + rest
  {
  }

  lemma ParseItemsStep(s: string, v: Value, tail: string, more: seq<Value>, rest: string)
    requires ParseValue(s) == Some((v, tail))
    requires tail != [] && tail[0] == ','
    requires ParseItems(tail[1..]) == Some((more, rest))
    ensures ParseItems(s) == Some(([v] + more, rest))
  {
  }

  /** JSON.parse(JSON.stringify(v)) gives v back, for every modelled value. */
  lemma DecodeEncode(v: Value)
    ensures Decode(Encode(v)) == Some(v)
  {
    ParseValueOfEncode(v, []);
    assert Encode(v) + [] == Encode(v);
  }

  /** Two values with the same text are the same value. */
  lemma EncodeInjective(v: Value, w: Value)
    ensures Encode(v) == Encode(w) <==> v == w
  {
    if Encode(v) == Encode(w) {
      DecodeEncode(v);
      DecodeEncode(w);
    }
  }
}
