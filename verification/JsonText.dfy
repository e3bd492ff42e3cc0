/**
 JSON as text: what `JSON.stringify` prints, and a reader by the grammar of RFC 8259, without
 white space, that recovers every value from what was printed.
 */
module JsonText {
  import opened Strings

  datatype Json =
    | Null
    | Bool(b: bool)
    | Num(token: string)  // the number as Number.prototype.toString prints it
    | Str(s: string)
    | Arr(items: seq<Json>)
    | Obj(entries: seq<Entry>)

  datatype Entry = Entry(key: string, value: Json)

  predicate NumericChar(c: char) {
    IsDigit(c) || c == '-' || c == '+' || c == '.' || c == 'e'
  }

  /** What a JavaScript value can be: number tokens are numeric, the keys of an object are distinct. */
  predicate WellFormed(j: Json)
    decreases j, 1
  {
    match j
    case Num(t) => t != "" && forall i :: 0 <= i < |t| ==> NumericChar(t[i])
    case Arr(items) => AllWellFormed(items)
    case Obj(entries) => EntriesWellFormed(entries)
    case _ => true
  }

  predicate AllWellFormed(items: seq<Json>)
    decreases items, 0
  {
    items == [] || (WellFormed(items[0]) && AllWellFormed(items[1..]))
  }

  predicate EntriesWellFormed(entries: seq<Entry>)
    decreases entries, 0
  {
    entries == []
    || (WellFormed(entries[0].value)
        && EntriesWellFormed(entries[1..])
        && forall e :: e in entries[1..] ==> e.key != entries[0].key)
  }

  // ---------------------------------------------------------------- printing

  /** The escapes of `JSON.stringify` for one character of a string. */
  function EscapeChar(c: char): (r: string)
    ensures |r| > 0
  {
    if c == '"' then "\\\""
    else if c == '\\' then "\\\\"
    else if c as int == 8 then "\\b"
    else if c as int == 9 then "\\t"
    else if c as int == 10 then "\\n"
    else if c as int == 12 then "\\f"
    else if c as int == 13 then "\\r"
    else if c as int < 32 then "\\u00" + [HexDigit(c as int / 16), HexDigit(c as int % 16)]
    else [c]
  }

  function Escape(s: string): string {
    if s == "" then "" else EscapeChar(s[0]) + Escape(s[1..])
  }

  function Quote(s: string): string {
    "\"" + Escape(s) + "\""
  }

  /** `JSON.stringify` without any sorting. */
  function Print(j: Json): string
    decreases j, 1
  {
    match j
    case Null => "null"
    case Bool(b) => if b then "true" else "false"
    case Num(t) => t
    case Str(s) => Quote(s)
    case Arr(items) => "[" + PrintItems(items) + "]"
    case Obj(entries) => "{" + PrintEntries(entries) + "}"
  }

  function PrintItems(items: seq<Json>): string
    decreases items, 0
  {
    if items == [] then ""
    else if |items| == 1 then Print(items[0])
    else Print(items[0]) + "," + PrintItems(items[1..])
  }

  function PrintEntries(entries: seq<Entry>): string
    decreases entries, 0
  {
    if entries == [] then ""
    else
      var head := Quote(entries[0].key) + ":" + Print(entries[0].value);
      if |entries| == 1 then head else head + "," + PrintEntries(entries[1..])
  }

  // The text after a value: empty, or a separator or closing bracket.
  predicate Stops(x: string) {
    x == "" || x[0] == ',' || x[0] == ']' || x[0] == '}'
  }

  // ---------------------------------------------------------------- reading

  /** What was read, and the text behind it. */
  datatype Read<+T> = Failed | Got(value: T, rest: string)

  /** The two-character escapes of section 7 of RFC 8259, other than `u`. */
  function Unescaped(c: char): Option<char> {
    if c == '"' || c == '\\' || c == '/' then Some(c)
    else if c == 'b' then Some(8 as char)
    else if c == 'f' then Some(12 as char)
    else if c == 'n' then Some(10 as char)
    else if c == 'r' then Some(13 as char)
    else if c == 't' then Some(9 as char)
    else None
  }

  /** The character with the given four hexadecimal digits; surrogates are not read. */
  function FourDigits(s: string): Option<char>
    requires |s| == 4
  {
    if IsHexDigit(s[0]) && IsHexDigit(s[1]) && IsHexDigit(s[2]) && IsHexDigit(s[3]) then
      var code := HexDigitValue(s[0]) * 4096 + HexDigitValue(s[1]) * 256 + HexDigitValue(s[2]) * 16
                  + HexDigitValue(s[3]);
      if code < 0xD800 || 0xE000 <= code then Some(code as char) else None
    else None
  }

  /** One character of a string; control characters must be escaped. */
  function ReadChar(s: string): (r: Read<char>)
    requires s != ""
    ensures r.Got? ==> |r.rest| < |s|
  {
    if s[0] != '\\' then
      if s[0] as int < 32 then Failed else Got(s[0], s[1..])
    else if |s| < 2 then Failed
    else if s[1] == 'u' then
      if |s| >= 6 && FourDigits(s[2..6]).Some? then Got(FourDigits(s[2..6]).value, s[6..]) else Failed
    else if Unescaped(s[1]).Some? then Got(Unescaped(s[1]).value, s[2..])
    else Failed
  }

  /** The characters of a string up to its closing quotation mark. */
  function ReadChars(s: string): (r: Read<string>)
    ensures r.Got? ==> |r.rest| < |s|
  {
    if s == "" then Failed
    else if s[0] == '"' then Got("", s[1..])
    else
      var c := ReadChar(s);
      if c.Failed? then Failed
      else
        var later := ReadChars(c.rest);
        if later.Failed? then Failed else Got([c.value] + later.value, later.rest)
  }

  function TokenLength(s: string): (n: nat)
    ensures n <= |s|
  {
    if s == "" || !NumericChar(s[0]) then 0 else 1 + TokenLength(s[1..])
  }

  /** The literal names of section 3. */
  function ReadName(s: string): (r: Read<Json>)
    ensures r.Got? ==> |r.rest| < |s|
  {
    if "null" <= s then Got(Null, s[4..])
    else if "true" <= s then Got(Bool(true), s[4..])
    else if "false" <= s then Got(Bool(false), s[5..])
    else Failed
  }

  function ReadValue(s: string): (r: Read<Json>)
    ensures r.Got? ==> |r.rest| < |s|
    decreases |s|, 0
  {
    if s == "" then Failed
    else if s[0] == '"' then
      var chars := ReadChars(s[1..]);
      if chars.Got? then Got(Str(chars.value), chars.rest) else Failed
    else if s[0] == '[' then
      if |s| > 1 && s[1] == ']' then Got(Arr([]), s[2..])
      else
        var items := ReadItems(s[1..]);
        if items.Got? then Got(Arr(items.value), items.rest) else Failed
    else if s[0] == '{' then
      if |s| > 1 && s[1] == '}' then Got(Obj([]), s[2..])
      else
        var entries := ReadEntries(s[1..]);
        if entries.Got? then Got(Obj(entries.value), entries.rest) else Failed
    else if NumericChar(s[0]) then Got(Num(s[..TokenLength(s)]), s[TokenLength(s)..])
    else ReadName(s)
  }

  /** Values between commas, and the closing bracket. */
  function ReadItems(s: string): (r: Read<seq<Json>>)
    ensures r.Got? ==> |r.rest| < |s|
    decreases |s|, 1
  {
    var head := ReadValue(s);
    if head.Failed? || head.rest == "" then Failed
    else if head.rest[0] == ']' then Got([head.value], head.rest[1..])
    else if head.rest[0] != ',' then Failed
    else
      var later := ReadItems(head.rest[1..]);
      if later.Failed? then Failed else Got([head.value] + later.value, later.rest)
  }

  /** Members between commas, and the closing brace. */
  function ReadEntries(s: string): (r: Read<seq<Entry>>)
    ensures r.Got? ==> |r.rest| < |s|
    decreases |s|, 1
  {
    if s == "" || s[0] != '"' then Failed
    else
      var key := ReadChars(s[1..]);
      if key.Failed? || key.rest == "" || key.rest[0] != ':' then Failed
      else
        var value := ReadValue(key.rest[1..]);
        if value.Failed? || value.rest == "" then Failed
        else if value.rest[0] == '}' then Got([Entry(key.value, value.value)], value.rest[1..])
        else if value.rest[0] != ',' then Failed
        else
          var later := ReadEntries(value.rest[1..]);
          if later.Failed? then Failed else Got([Entry(key.value, value.value)] + later.value, later.rest)
  }

  // ---------------------------------------------------------------- what is printed is read

  lemma ControlReads(c: char, x: string)
    requires c as int < 32
    ensures var digits := [HexDigit(c as int / 16), HexDigit(c as int % 16)];
            ReadChar("\\u00" + digits + x) == Got(c, x)
  {
    var digits := [HexDigit(c as int / 16), HexDigit(c as int % 16)];
    var s := "\\u00" + digits + x;
    HexDigitReads(c as int / 16);
    HexDigitReads(c as int % 16);
    assert s[2..6] == "00" + digits && s[6..] == x;
  }

  lemma EscapeReads(c: char, x: string)
    ensures ReadChar(EscapeChar(c) + x) == Got(c, x)
  {
    var s := EscapeChar(c) + x;
    if |EscapeChar(c)| == 6 {
      ControlReads(c, x);
    } else {
      assert s[|EscapeChar(c)|..] == x;
    }
  }

  lemma {:induction false} CharsRead(s: string, x: string)
    ensures ReadChars(Escape(s) + "\"" + x) == Got(s, x)
  {
    EscapeHead(s, x);
    if s == "" {
      assert ("\"" + x)[1..] == x;
    } else {
      CharsRead(s[1..], x);
      EscapeReads(s[0], Escape(s[1..]) + "\"" + x);
      assert s == [s[0]] + s[1..];
    }
  }

  lemma {:induction false} TokenEnds(t: string, x: string)
    requires (forall i :: 0 <= i < |t| ==> NumericChar(t[i])) && Stops(x)
    ensures TokenLength(t + x) == |t|
  {
    if t == "" {
      assert t + x == x;
    } else {
      TokenEnds(t[1..], x);
      assert (t + x)[1..] == t[1..] + x;
    }
  }

  lemma EscapeHead(s: string, x: string)
    ensures s == "" ==> Escape(s) + "\"" + x == "\"" + x
    ensures s != "" ==> Escape(s) + "\"" + x == EscapeChar(s[0]) + (Escape(s[1..]) + "\"" + x)
    ensures s != "" ==> (Escape(s) + "\"" + x)[0] == EscapeChar(s[0])[0] != '"'
  {
    if s != "" {
      Assoc(EscapeChar(s[0]), Escape(s[1..]), "\"");
      Assoc(EscapeChar(s[0]), Escape(s[1..]) + "\"", x);
    }
  }

  /** The first character tells the kind of a value. */
  lemma PrintHead(j: Json, x: string)
    requires WellFormed(j)
    ensures Print(j) != "" && (Print(j) + x)[0] == Print(j)[0]
    ensures match j
            case Null => Print(j)[0] == 'n'
            case Bool(b) => Print(j)[0] == if b then 't' else 'f'
            case Num(t) => NumericChar(Print(j)[0])
            case Str(s) => Print(j)[0] == '"'
            case Arr(items) => Print(j)[0] == '['
            case Obj(entries) => Print(j)[0] == '{'
  {
  }

  /** What follows the first element of a printed array or object. */
  function Tail(n: nat, rest: string, close: string, x: string): string
    requires n > 0
  {
    if n == 1 then close + x else "," + (rest + close + x)
  }

  lemma ItemsSplit(a: seq<Json>, x: string)
    requires a != [] && AllWellFormed(a)
    ensures PrintItems(a) + "]" + x == Print(a[0]) + Tail(|a|, PrintItems(a[1..]), "]", x)
    ensures (PrintItems(a) + "]" + x)[0] != ']'
  {
    PrintHead(a[0], Tail(|a|, PrintItems(a[1..]), "]", x));
    var p, r := Print(a[0]), PrintItems(a[1..]);
    if |a| > 1 {
      Assoc5(p, ",", r, "]", x);
    } else {
      Assoc(p, "]", x);
    }
  }

  lemma EntriesSplit(a: seq<Entry>, x: string)
    requires a != []
    ensures PrintEntries(a) + "}" + x
         == Quote(a[0].key) + (":" + (Print(a[0].value) + Tail(|a|, PrintEntries(a[1..]), "}", x)))
    ensures (PrintEntries(a) + "}" + x)[0] == '"'
  {
    var q, v, r := Quote(a[0].key), Print(a[0].value), PrintEntries(a[1..]);
    assert q[0] == '"';
    if |a| == 1 {
      Regroup(q, v, "}" + x);
      Assoc(q + ":" + v, "}", x);
    } else {
      Regroup(q, v, "," + (r + "}" + x));
      Assoc5(q + ":" + v, ",", r, "}", x);
    }
  }

  lemma Regroup(q: string, v: string, z: string)
    ensures q + ":" + v + z == q + (":" + (v + z))
  {
    Assoc(q, ":", v);
    Assoc(q, ":" + v, z);
    Assoc(":", v, z);
  }

  lemma NameReads(j: Json, x: string)
    requires j.Null? || j.Bool?
    ensures ReadValue(Print(j) + x) == Got(j, x)
  {
    var s := Print(j) + x;
    assert s[|Print(j)|..] == x && s[..|Print(j)|] == Print(j);
    assert s[0] == Print(j)[0];
  }

  lemma NumberReads(t: string, x: string)
    requires WellFormed(Num(t)) && Stops(x)
    ensures ReadValue(t + x) == Got(Num(t), x)
  {
    TokenEnds(t, x);
    assert (t + x)[..|t|] == t && (t + x)[|t|..] == x && (t + x)[0] == t[0];
  }

  lemma ArrayReads(items: seq<Json>, x: string)
    requires AllWellFormed(items) && (items != [] ==> ReadItems(PrintItems(items) + "]" + x) == Got(items, x))
    ensures ReadValue(Print(Arr(items)) + x) == Got(Arr(items), x)
  {
    Opened("[", PrintItems(items), "]", x);
    if items == [] {
      assert ("[]" + x)[2..] == x;
    } else {
      ItemsSplit(items, x);
    }
  }

  lemma BraceFrom(t: string)
    requires t != "" && t[0] != '}' && ReadEntries(t).Got?
    ensures ReadValue("{" + t) == Got(Obj(ReadEntries(t).value), ReadEntries(t).rest)
  {
    assert ("{" + t)[1..] == t && ("{" + t)[0] == '{';
  }

  lemma ObjectReads(entries: seq<Entry>, x: string)
    requires entries != [] ==> ReadEntries(PrintEntries(entries) + "}" + x) == Got(entries, x)
    ensures ReadValue(Print(Obj(entries)) + x) == Got(Obj(entries), x)
  {
    if entries == [] {
      assert Print(Obj(entries)) == "{}" && ("{}" + x)[2..] == x;
    } else {
      var t := PrintEntries(entries) + "}" + x;
      EntriesSplit(entries, x);
      BraceFrom(t);
      Assoc("{", PrintEntries(entries), "}");
      Assoc("{", PrintEntries(entries) + "}", x);
    }
  }

  /** Reading what was printed gives the value back, and the text that followed it. */
  lemma {:induction false} PrintReads(j: Json, x: string)
    requires WellFormed(j) && Stops(x)
    ensures ReadValue(Print(j) + x) == Got(j, x)
    decreases j, 1
  {
    match j
    case Null => NameReads(j, x);
    case Bool(_) => NameReads(j, x);
    case Num(t) => NumberReads(t, x);
    case Str(c) => StringReads(c, x);
    case Arr(items) =>
      if items != [] { ItemsRead(items, x, PrintItems(items) + "]" + x); }
      ArrayReads(items, x);
    case Obj(entries) =>
      if entries != [] { EntriesRead(entries, x, PrintEntries(entries) + "}" + x); }
      ObjectReads(entries, x);
  }

  lemma Opened(open: string, s: string, close: string, x: string)
    requires |open| == 1
    ensures (open + s + close + x)[0] == open[0] && (open + s + close + x)[1..] == s + close + x
  {
    Assoc(open, s, close);
    Assoc(open, s + close, x);
  }

  lemma StringReads(c: string, x: string)
    ensures (Quote(c) + x)[0] == '"' && ReadChars((Quote(c) + x)[1..]) == Got(c, x)
  {
    Opened("\"", Escape(c), "\"", x);
    CharsRead(c, x);
  }

  /** After an element comes a comma and the rest, or the closing bracket. */
  lemma TailReads(n: nat, rest: string, close: string, x: string)
    requires n > 0 && |close| == 1
    ensures var t := Tail(n, rest, close, x);
            t != "" && (if n == 1 then t[0] == close[0] && t[1..] == x
                        else t[0] == ',' && t[1..] == rest + close + x)
  {
  }

  /** The first element in front of those that follow it. */
  lemma ItemsStep(s: string, a: seq<Json>, t: string, x: string)
    requires a != [] && ReadValue(s) == Got(a[0], t) && t != ""
    requires if |a| == 1 then t[0] == ']' && t[1..] == x else t[0] == ',' && ReadItems(t[1..]) == Got(a[1..], x)
    ensures ReadItems(s) == Got(a, x)
  {
    assert a == [a[0]] + a[1..];
    assert |a| == 1 ==> a == [a[0]];
  }

  /** What follows the first element: the closing bracket, or a comma and the others. */
  lemma ItemsBehind(a: seq<Json>, x: string) returns (t: string)
    requires a != [] && AllWellFormed(a)
    ensures PrintItems(a) + "]" + x == Print(a[0]) + t && Stops(t) && t != ""
    ensures if |a| == 1 then t[0] == ']' && t[1..] == x else t[0] == ',' && t[1..] == PrintItems(a[1..]) + "]" + x
  {
    t := Tail(|a|, PrintItems(a[1..]), "]", x);
    ItemsSplit(a, x);
    TailReads(|a|, PrintItems(a[1..]), "]", x);
  }

  lemma {:induction false} ItemsRead(a: seq<Json>, x: string, s: string)
    requires a != [] && AllWellFormed(a) && s == PrintItems(a) + "]" + x
    ensures ReadItems(s) == Got(a, x)
    decreases a, 0
  {
    var t := ItemsBehind(a, x);
    PrintReads(a[0], t);
    if |a| > 1 { ItemsRead(a[1..], x, t[1..]); }
    ItemsStep(s, a, t, x);
  }

  /** The first member in front of those that follow it. */
  lemma EntriesStep(s: string, a: seq<Entry>, v: string, t: string, x: string)
    requires a != [] && s != "" && s[0] == '"' && ReadChars(s[1..]) == Got(a[0].key, ":" + v)
    requires ReadValue(v) == Got(a[0].value, t) && t != ""
    requires if |a| == 1 then t[0] == '}' && t[1..] == x else t[0] == ',' && ReadEntries(t[1..]) == Got(a[1..], x)
    ensures ReadEntries(s) == Got(a, x)
  {
    assert (":" + v)[1..] == v;
    assert a == [a[0]] + a[1..] && a[0] == Entry(a[0].key, a[0].value);
    assert |a| == 1 ==> a == [a[0]];
  }

  lemma EntriesBehind(a: seq<Entry>, x: string) returns (t: string)
    requires a != []
    ensures var s := PrintEntries(a) + "}" + x;
            s != "" && s[0] == '"' && ReadChars(s[1..]) == Got(a[0].key, ":" + (Print(a[0].value) + t))
    ensures Stops(t) && t != ""
    ensures if |a| == 1 then t[0] == '}' && t[1..] == x else t[0] == ',' && t[1..] == PrintEntries(a[1..]) + "}" + x
  {
    t := Tail(|a|, PrintEntries(a[1..]), "}", x);
    EntriesSplit(a, x);
    TailReads(|a|, PrintEntries(a[1..]), "}", x);
    StringReads(a[0].key, ":" + (Print(a[0].value) + t));
  }

  lemma {:induction false} EntriesRead(a: seq<Entry>, x: string, s: string)
    requires a != [] && EntriesWellFormed(a) && s == PrintEntries(a) + "}" + x
    ensures ReadEntries(s) == Got(a, x)
    decreases a, 0
  {
    var t := EntriesBehind(a, x);
    PrintReads(a[0].value, t);
    if |a| > 1 { EntriesRead(a[1..], x, t[1..]); }
    EntriesStep(s, a, Print(a[0].value) + t, t, x);
  }

  /** So texts are uniquely decodable, even with something behind them. */
  lemma PrintDecodes(a: Json, x: string, b: Json, y: string)
    requires WellFormed(a) && WellFormed(b) && Stops(x) && Stops(y)
    requires Print(a) + x == Print(b) + y
    ensures a == b && x == y
  {
    PrintReads(a, x);
    PrintReads(b, y);
  }

  lemma QuoteDecodes(s: string, x: string, t: string, y: string)
    requires Quote(s) + x == Quote(t) + y
    ensures s == t && x == y
  {
    StringReads(s, x);
    StringReads(t, y);
  }
}
