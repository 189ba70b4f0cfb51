/**
 JSON trees, their printed form, and the parser, as functions.

 A node may have a key; the printer writes the key of every node but the root and the objects
 of an array. The parser reads what is left of a NUL-terminated text, so every call leaves less
 of it. Doubles are not part of this model: where the parser meets one it fails here.
 */
module Json {
  import opened Prelude

  /** A C string. */
  type CStr = s: string | '\0' !in s

  const INT64_MIN: int := -0x8000_0000_0000_0000
  const INT64_MAX: int := 0x7fff_ffff_ffff_ffff

  type Int64 = n: int | INT64_MIN <= n <= INT64_MAX

  datatype Value =
    | Obj(children: seq<Node>)
    | Arr(children: seq<Node>)
    | Str(text: CStr)
    | Int(n: Int64)
    | Bool(flag: Int64)
    | Null

  datatype Node = Node(key: Option<CStr>, value: Value)

  // ---------------------------------------------------------------- printing

  function Tabs(n: nat): string {
    if n == 0 then "" else "\t" + Tabs(n - 1)
  }

  function Digit(d: nat): char
    requires d < 10
  {
    '0' + d as char
  }

  function DecNat(n: nat): string {
    if n < 10 then [Digit(n)] else DecNat(n / 10) + [Digit(n % 10)]
  }

  function Dec(n: int): string {
    if n < 0 then "-" + DecNat(-n) else DecNat(n)
  }

  /** The text of a key; a missing one is printed as the C library prints a null pointer. */
  function KeyName(k: Option<CStr>): CStr {
    if k.Some? then k.value else "(null)"
  }

  function KeyText(k: Option<CStr>): string {
    "\"" + (KeyName(k) + ("\"" + ": "))
  }

  function PrintValue(v: Value, lvl: nat): string
    decreases v, 1, 0
  {
    match v
    case Obj(_) => "{\n" + (PrintFrom(v, 0, lvl + 1) + (Tabs(lvl) + "}"))
    case Arr(_) => "[\n" + (PrintFrom(v, 0, lvl + 1) + (Tabs(lvl) + "]"))
    case Str(text) => "\"" + (text + "\"")
    case Int(n) => Dec(n)
    case Bool(flag) => if flag == 1 then "true" else "false"
    case Null => ""
  }

  predicate HasKeyText(parent: Value, child: Node) {
    !(child.value.Obj? && parent.Arr?)
  }

  /** A child as it stands in its parent. */
  function PrintChild(v: Value, i: nat, lvl: nat): string
    requires (v.Obj? || v.Arr?) && i < |v.children|
    decreases v, 0, 0
  {
    var c := v.children[i];
    Tabs(lvl) + ((if HasKeyText(v, c) then KeyText(c.key) else "") + PrintValue(c.value, lvl))
  }

  /** The children from `i` on, one to a line. */
  function PrintFrom(v: Value, i: nat, lvl: nat): string
    requires (v.Obj? || v.Arr?) && i <= |v.children|
    decreases v, 0, |v.children| - i + 1
  {
    if i == |v.children| then ""
    else PrintChild(v, i, lvl) + ((if i + 1 < |v.children| then ",\n" else "\n") + PrintFrom(v, i + 1, lvl))
  }

  /** Nulls cannot be printed. */
  predicate Printable(v: Value) {
    match v
    case Obj(cs) => forall c | c in cs :: Printable(c.value)
    case Arr(cs) => forall c | c in cs :: Printable(c.value)
    case Null => false
    case _ => true
  }

  // ---------------------------------------------------------------- strings

  predicate Escapes(c: char) {
    c in "\\/\"bfnrt"
  }

  function Escaped(c: char): char
    requires Escapes(c)
    ensures Escaped(c) != '\0' && (Escaped(c) == '\\' <==> c == '\\')
  {
    if c == 'b' then '\U{0008}'
    else if c == 'f' then '\U{000C}'
    else if c == 'n' then '\n'
    else if c == 'r' then '\r'
    else if c == 't' then '\t'
    else c
  }

  /** The string up to the closing quote, unescaped, and what follows the quote. */
  function Unescape(s: string): (r: Option<(CStr, string)>)
    ensures r.Some? ==> |r.value.1| < |s|
  {
    if s == "" || s[0] == '\0' then None
    else if s[0] == '"' then Some(("", s[1..]))
    else if s[0] == '\\' && |s| > 1 && Escapes(s[1]) then Onto(Escaped(s[1]), Unescape(s[2..]))
    else Onto(s[0], Unescape(s[1..]))
  }

  function Onto(c: char, r: Option<(CStr, string)>): (r': Option<(CStr, string)>)
    requires c != '\0'
    ensures r.Some? ==> r' == Some(([c] + r.value.0, r.value.1))
    ensures r.None? ==> r'.None?
  {
    if r.None? then None else Some(([c] + r.value.0, r.value.1))
  }

  // ---------------------------------------------------------------- white space and comments

  predicate KeySpace(c: char) {
    c <= ' ' || c == ','
  }

  predicate ValueSpace(c: char) {
    c in " \t\n\r,"
  }

  /** What follows the first line feed. */
  function SkipLine(s: string): (r: Option<string>)
    ensures r.Some? ==> |r.value| < |s|
  {
    if s == "" || s[0] == '\0' then None else if s[0] == '\n' then Some(s[1..]) else SkipLine(s[1..])
  }

  /** What follows the first slash that has a star before it; the first character cannot be the slash. */
  function SkipBlock(s: string): (r: Option<string>)
    ensures r.Some? ==> |r.value| < |s|
  {
    if |s| < 2 || s[0] == '\0' || s[1] == '\0' then None
    else if s[0] == '*' && s[1] == '/' then Some(s[2..])
    else SkipBlock(s[1..])
  }

  /** What follows a comment; `s` is the text behind its first slash. */
  function SkipComment(s: string): (r: Option<string>)
    ensures r.Some? ==> |r.value| < |s|
  {
    if s == "" then None
    else if s[0] == '/' then SkipLine(s[1..])
    else if s[0] == '*' then SkipBlock(s[1..])
    else None
  }

  // ---------------------------------------------------------------- numbers

  /** The value of a digit; 16 for any other character. */
  function DigitOf(c: char): nat {
    if '0' <= c <= '9' then (c - '0') as nat
    else if 'a' <= c <= 'f' then (c - 'a') as nat + 10
    else if 'A' <= c <= 'F' then (c - 'A') as nat + 10
    else 16
  }

  /** Reads digits for as long as there are any. */
  function ReadDigits(s: string, radix: nat, acc: nat): (r: (nat, string))
    requires radix <= 16
    ensures |r.1| <= |s|
  {
    if s != "" && DigitOf(s[0]) < radix then ReadDigits(s[1..], radix, acc * radix + DigitOf(s[0])) else (acc, s)
  }

  /** The digits of a number in the base its prefix tells: hexadecimal, octal or decimal. */
  function ReadNumber(s: string): (r: Option<(nat, string)>)
    ensures r.Some? ==> |r.value.1| < |s|
  {
    if s == "" || DigitOf(s[0]) >= 10 then None
    else if |s| > 2 && s[0] == '0' && (s[1] == 'x' || s[1] == 'X') && DigitOf(s[2]) < 16 then
      Some(ReadDigits(s[2..], 16, 0))
    else if s[0] == '0' then Some(ReadDigits(s[1..], 8, 0))
    else Some(ReadDigits(s[1..], 10, DigitOf(s[0])))
  }

  /** `strtoll` with base 0; fails without digits and out of range. */
  function StrToll(s: string): (r: Option<(Int64, string)>)
    ensures r.Some? ==> |r.value.1| < |s|
  {
    var negative := s != "" && s[0] == '-';
    var r := ReadNumber(if negative then s[1..] else s);
    if r.None? then None else
      var m: int := r.value.0;
      var n := if negative then -m else m;
      if INT64_MIN <= n <= INT64_MAX then Some((n, r.value.1)) else None
  }

  // ---------------------------------------------------------------- parsing

  /** A key with what follows its colon, or the closing brace. */
  datatype KeyResult = NoKey | Close(rest: string) | Key(name: CStr, rest: string)

  function AfterKey(s: string): Option<string> {
    if s == "" then None
    else if s[0] == ':' then Some(s[1..])
    else if s[0] != '\0' && s[0] <= ' ' then AfterKey(s[1..])
    else None
  }

  lemma {:induction false} AfterKeyShorter(s: string)
    ensures AfterKey(s).Some? ==> |AfterKey(s).value| < |s|
  {
    if s == "" {
    } else {
      AfterKeyShorter(s[1..]);
    }
  }

  function ParseKey(s: string): (r: KeyResult)
    ensures r.Key? ==> |r.rest| + 1 < |s|
    ensures r.Close? ==> r.rest != "" && r.rest[0] == '}' && |r.rest| <= |s|
    decreases |s|
  {
    if s == "" || s[0] == '\0' then NoKey
    else if s[0] == '"' then
      var k := Unescape(s[1..]);
      if k.None? then NoKey else
        AfterKeyShorter(k.value.1);
        var after := AfterKey(k.value.1);
        if after.None? then NoKey else Key(k.value.0, after.value)
    else if KeySpace(s[0]) then ParseKey(s[1..])
    else if s[0] == '}' then Close(s)
    else if s[0] == '/' then
      var after := SkipComment(s[1..]);
      if after.None? then NoKey else ParseKey(after.value)
    else NoKey
  }

  /** `Nothing` is a closing bracket where a value was looked for. */
  datatype ValueResult = Fail | Nothing(rest: string) | Got(value: Value, rest: string)

  function ParseValue(s: string): (r: ValueResult)
    ensures r.Got? ==> |r.rest| < |s|
    ensures r.Nothing? ==> r.rest != "" && r.rest[0] == ']' && |r.rest| <= |s|
    decreases |s|, 0
  {
    if s == "" then Fail
    else if ValueSpace(s[0]) then ParseValue(s[1..])
    else if s[0] == '{' then ParseMembers(s[1..], [])
    else if s[0] == '[' then ParseItems(s[1..], [])
    else if s[0] == ']' then Nothing(s)
    else if s[0] == '"' then
      var t := Unescape(s[1..]);
      if t.None? then Fail else Got(Str(t.value.0), t.value.1)
    else if s[0] == '-' || '0' <= s[0] <= '9' then
      var n := StrToll(s);
      if n.None? || (n.value.1 != "" && n.value.1[0] in ".eE") then Fail else Got(Int(n.value.0), n.value.1)
    else if "true" <= s then Got(Bool(1), s[4..])
    else if "false" <= s then Got(Bool(0), s[5..])
    else if "null" <= s then Got(Null, s[4..])
    else if s[0] == '/' then
      var after := SkipComment(s[1..]);
      if after.None? then Fail else ParseValue(after.value)
    else Fail
  }

  /** The rest of an object, behind the members already read. A brace right behind a colon ends it too. */
  function ParseMembers(s: string, got: seq<Node>): (r: ValueResult)
    ensures r.Got? ==> |r.rest| < |s|
    ensures !r.Nothing?
    decreases |s|, 1
  {
    var k := ParseKey(s);
    if k.NoKey? then Fail
    else if k.rest != "" && k.rest[0] == '}' then Got(Obj(got), k.rest[1..])
    else
      var v := ParseValue(k.rest);
      match v
      case Fail => Fail
      case Nothing(rest) => ParseMembers(rest, got)
      case Got(value, rest) => ParseMembers(rest, got + [Node(Some(k.name), value)])
  }

  /** The rest of an array. */
  function ParseItems(s: string, got: seq<Node>): (r: ValueResult)
    ensures r.Got? ==> |r.rest| < |s|
    ensures !r.Nothing?
    decreases |s|, 1
  {
    var v := ParseValue(s);
    match v
    case Fail => Fail
    case Nothing(rest) => Got(Arr(got), rest[1..])
    case Got(value, rest) =>
      var got' := got + [Node(None, value)];
      if rest != "" && rest[0] == ']' then Got(Arr(got'), rest[1..]) else ParseItems(rest, got')
  }

  /** `nx_json_parse`; what follows the first value is ignored. */
  function Parse(s: string): Option<Node> {
    var v := ParseValue(s);
    if v.Got? then Some(Node(None, v.value)) else None
  }

  // ---------------------------------------------------------------- the trees that survive

  /** No quote, and no backslash that would begin an escape; the closing quote counts as following. */
  predicate Plain(s: string) {
    forall i | 0 <= i < |s| :: PlainAt(s, i)
  }

  predicate PlainAt(s: string, i: nat)
    requires i < |s|
  {
    s[i] != '"' && (s[i] == '\\' ==> i + 1 < |s| && !Escapes(s[i + 1]))
  }

  predicate Good(v: Value) {
    match v
    case Obj(cs) => forall c | c in cs :: c.key.Some? && Plain(c.key.value) && Good(c.value)
    case Arr(cs) => forall c | c in cs :: c.key.None? && c.value.Obj? && Good(c.value)
    case Str(text) => Plain(text)
    case Int(_) => true
    case Bool(flag) => flag == 0 || flag == 1
    case Null => false
  }
}
