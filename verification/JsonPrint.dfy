/** The indented JSON printer. Styles are zero-width and left out of the text. */
module JsonPrint {
  import opened Output

  /** A number is kept as its text. */
  datatype Json =
    | Null
    | Bool(b: bool)
    | Number(lexeme: string)
    | String(text: string)
    | Array(items: seq<Json>)
    | Object(members: seq<Member>)

  datatype Member = Member(key: string, value: Json)

  // ----- numbers and strings

  predicate Digit(c: char) {
    '0' <= c <= '9'
  }

  lemma DigitsAre(c: char)
    ensures Digit(c) <==> c in "0123456789"
  {
  }

  predicate Digits(s: string) {
    s != "" && forall i :: 0 <= i < |s| ==> Digit(s[i])
  }

  /** `int` of section 6 of RFC 8259. */
  predicate IsInt(s: string) {
    Digits(s) && (s[0] == '0' ==> |s| == 1)
  }

  predicate IsExponent(s: string) {
    || s == ""
    || ((s[0] == 'e' || s[0] == 'E') && (Digits(s[1..]) || (|s| > 1 && (s[1] == '+' || s[1] == '-') && Digits(s[2..]))))
  }

  predicate IsUnsigned(s: string) {
    exists i, j :: 0 <= i <= j <= |s| && NumberSplit(s, i, j)
  }

  /** `s` is an integer part, a fraction and an exponent, cut at `i` and `j`. */
  predicate NumberSplit(s: string, i: nat, j: nat)
    requires i <= j <= |s|
  {
    && IsInt(s[..i])
    && (i == j || (s[i] == '.' && Digits(s[i + 1..j])))
    && IsExponent(s[j..])
  }

  predicate IsNumber(s: string) {
    IsUnsigned(s) || (s != "" && s[0] == '-' && IsUnsigned(s[1..]))
  }

  /** Every number of section 6 of RFC 8259 is one: an optional minus, digits with no zero in
      front of others, and optionally a point and digits, and an `e`, a sign and digits. */
  lemma NumbersAreNumbers(sign: string, whole: string, fraction: string, e: string, esign: string, power: string)
    requires (sign == "" || sign == "-") && Digits(whole) && (|whole| > 1 ==> whole[0] != '0')
    requires fraction == "" || Digits(fraction)
    requires e == "" || ((e == "e" || e == "E") && (esign == "" || esign == "+" || esign == "-") && Digits(power))
    ensures IsNumber(sign + (whole + ((if fraction == "" then "" else "." + fraction) +
                                      if e == "" then "" else e + (esign + power))))
  {
    hide IsExponent, IsUnsigned, Digits;
    var f, x := if fraction == "" then "" else "." + fraction, if e == "" then "" else e + (esign + power);
    var u := whole + (f + x);
    if e != "" {
      ExponentsAreExponents(e, esign, power);
    }
    NoExponent();
    UnsignedIsUnsigned(whole, fraction, f, x);
    SignedIsNumber(sign, u);
  }

  lemma SignedIsNumber(sign: string, u: string)
    requires (sign == "" || sign == "-") && IsUnsigned(u)
    ensures IsNumber(sign + u)
  {
    hide IsUnsigned;
    if sign == "" {
      assert sign + u == u;
    } else {
      assert (sign + u)[0] == '-' && (sign + u)[1..] == u;
    }
  }

  lemma NoExponent()
    ensures IsExponent("")
  {
  }

  lemma ExponentsAreExponents(e: string, sign: string, power: string)
    requires (e == "e" || e == "E") && (sign == "" || sign == "+" || sign == "-") && Digits(power)
    ensures IsExponent(e + (sign + power))
  {
    hide Digits;
    var x := e + (sign + power);
    assert x[0] == e[0];
    if sign == "" {
      assert x[1..] == power;
    } else {
      var rest := sign + power;
      assert x[1..] == rest && rest[0] == sign[0] && rest[1..] == power;
      assert x[2..] == rest[1..];
    }
  }

  lemma UnsignedIsUnsigned(whole: string, fraction: string, f: string, x: string)
    requires Digits(whole) && (|whole| > 1 ==> whole[0] != '0') && IsExponent(x)
    requires f == if fraction == "" then "" else "." + fraction
    requires fraction == "" || Digits(fraction)
    ensures IsUnsigned(whole + (f + x))
  {
    hide IsExponent;
    var u := whole + (f + x);
    var i, j := |whole|, |whole| + |f|;
    assert u[..i] == whole && u[j..] == x;
    assert fraction != "" ==> u[i] == '.' && u[i + 1..j] == fraction;
    assert NumberSplit(u, i, j);
  }

  function HexDigit(n: int): char
    requires 0 <= n < 16
  {
    "0123456789abcdef"[n]
  }

  function EscapedChar(c: char): string {
    if c == '\"' then "\\\""
    else if c == '\\' then "\\\\"
    else if c == '\U{08}' then "\\b"
    else if c == '\t' then "\\t"
    else if c == '\n' then "\\n"
    else if c == '\U{0C}' then "\\f"
    else if c == '\r' then "\\r"
    else if c < ' ' then "\\u00" + [HexDigit(c as int / 16), HexDigit(c as int % 16)]
    else [c]
  }

  function Escaped(s: string): string {
    if s == "" then "" else EscapedChar(s[0]) + Escaped(s[1..])
  }

  function Quoted(s: string): string {
    "\"" + Escaped(s) + "\""
  }

  // ----- the printed text

  function Pad(depth: nat): string {
    if depth == 0 then "" else "    " + Pad(depth - 1)
  }

  function Text(v: Json, depth: nat): string
    decreases v, 0
  {
    match v
    case Null => "null"
    case Bool(b) => if b then "true" else "false"
    case Number(n) => n
    case String(s) => Quoted(s)
    case Array(xs) =>
      if xs == [] then "[]" else "[\n" + (Rows(xs, 0, depth) + (Pad(depth) + "]"))
    case Object(m) =>
      if m == [] then "{}" else "{\n" + (MemberRows(m, 0, depth) + (Pad(depth) + "}"))
  }

  function Comma(more: bool): string {
    if more then ",\n" else "\n"
  }

  /** The rows of an array from item `i` on. */
  function Rows(xs: seq<Json>, i: nat, depth: nat): string
    requires i <= |xs|
    decreases xs, |xs| - i, 1
  {
    if i == |xs| then "" else Row(xs, i, depth) + Rows(xs, i + 1, depth)
  }

  function Row(xs: seq<Json>, i: nat, depth: nat): string
    requires i < |xs|
    decreases xs, |xs| - i, 0
  {
    Pad(depth + 1) + (Text(xs[i], depth + 1) + Comma(i + 1 < |xs|))
  }

  function MemberRows(m: seq<Member>, i: nat, depth: nat): string
    requires i <= |m|
    decreases m, |m| - i, 1
  {
    if i == |m| then "" else MemberRow(m, i, depth) + MemberRows(m, i + 1, depth)
  }

  function MemberRow(m: seq<Member>, i: nat, depth: nat): string
    requires i < |m|
    decreases m, |m| - i, 0
  {
    Pad(depth + 1) + (Quoted(m[i].key) + (": " + (Text(m[i].value, depth + 1) + Comma(i + 1 < |m|))))
  }

  method JsonValue(out: Sink<char>, v: Json, depth: nat)
    modifies out
    ensures out.written == old(out.written) + Text(v, depth)
    decreases v, 1
  {
    match v
    case Null => out.Write("null");
    case Bool(b) => out.Write(if b then "true" else "false");
    case Number(n) => out.Write(n);
    case String(s) => out.Write(Quoted(s));
    case Array(xs) =>
      if xs == [] {
        out.Write("[]");
      } else {
        JsonArray(out, xs, depth);
      }
    case Object(m) =>
      if m == [] {
        out.Write("{}");
      } else {
        JsonObject(out, m, depth);
      }
  }

  method JsonArray(out: Sink<char>, xs: seq<Json>, depth: nat)
    modifies out
    ensures out.written == old(out.written) + ("[\n" + (Rows(xs, 0, depth) + (Pad(depth) + "]")))
    decreases xs, 0
  {
    hide Text, Pad, Row;
    out.Write("[\n");
    ghost var before := out.written;
    for i := 0 to |xs|
      invariant out.written + Rows(xs, i, depth) == before + Rows(xs, 0, depth)
    {
      ghost var start := out.written;
      out.Write(Pad(depth + 1));
      JsonValue(out, xs[i], depth + 1);
      out.Write(Comma(i + 1 < |xs|));
      RowWritten(start, out.written, xs, i, depth);
      assert start + (Row(xs, i, depth) + Rows(xs, i + 1, depth)) == out.written + Rows(xs, i + 1, depth);
    }
    assert out.written == before + Rows(xs, 0, depth);
    Close(out, old(out.written), "[\n", Rows(xs, 0, depth), depth, "]");
  }

  lemma RowWritten(start: string, end: string, xs: seq<Json>, i: nat, depth: nat)
    requires i < |xs| && end == start + Pad(depth + 1) + Text(xs[i], depth + 1) + Comma(i + 1 < |xs|)
    ensures end == start + Row(xs, i, depth)
  {
  }

  /** The closing bracket, on its own line at the depth of the opening one. */
  method Close(
      out: Sink<char>, ghost before: string, ghost open: string, ghost rows: string, depth: nat, bracket: string)
    requires out.written == before + open + rows
    modifies out
    ensures out.written == before + (open + (rows + (Pad(depth) + bracket)))
  {
    hide Pad;
    out.Write(Pad(depth));
    out.Write(bracket);
  }

  method JsonObject(out: Sink<char>, m: seq<Member>, depth: nat)
    modifies out
    ensures out.written == old(out.written) + ("{\n" + (MemberRows(m, 0, depth) + (Pad(depth) + "}")))
    decreases m, 0
  {
    hide Text, Pad, Quoted, MemberRow;
    out.Write("{\n");
    ghost var before := out.written;
    for i := 0 to |m|
      invariant out.written + MemberRows(m, i, depth) == before + MemberRows(m, 0, depth)
    {
      ghost var start := out.written;
      out.Write(Pad(depth + 1));
      out.Write(Quoted(m[i].key));
      out.Write(": ");
      JsonValue(out, m[i].value, depth + 1);
      out.Write(Comma(i + 1 < |m|));
      MemberRowWritten(start, out.written, m, i, depth);
      assert start + (MemberRow(m, i, depth) + MemberRows(m, i + 1, depth)) ==
             out.written + MemberRows(m, i + 1, depth);
    }
    assert out.written == before + MemberRows(m, 0, depth);
    Close(out, old(out.written), "{\n", MemberRows(m, 0, depth), depth, "}");
  }

  lemma MemberRowWritten(start: string, end: string, m: seq<Member>, i: nat, depth: nat)
    requires i < |m|
    requires end == start + Pad(depth + 1) + Quoted(m[i].key) + ": " + Text(m[i].value, depth + 1) + Comma(i + 1 < |m|)
    ensures end == start + MemberRow(m, i, depth)
  {
    hide Text, Pad, Quoted;
  }
}
