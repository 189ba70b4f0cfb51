/**
 JSON texts as RFC 8259 writes them, apart from this library's printer: every value is read from its standard text.

 The texts are written in front of what follows them. Any white space may stand between two tokens; here the same
 stands everywhere.
 */
module JsonStandard {
  import opened Prelude
  import opened Json
  import opened JsonTrip

  // ---------------------------------------------------------------- strings

  /** The short escapes of section 7 of RFC 8259, by character code; a solidus may be escaped or not. */
  function QuotedChar(c: char, solidus: bool): string {
    var code := c as int;
    if code == 8 then "\\b"
    else if code == 9 then "\\t"
    else if code == 10 then "\\n"
    else if code == 12 then "\\f"
    else if code == 13 then "\\r"
    else if code == 34 then "\\\""
    else if code == 92 then "\\\\"
    else if code == 47 && solidus then "\\/"
    else [c]
  }

  /** What a backslash and the character behind it are read as; one that begins no escape stands for itself. */
  lemma EscapesAre(c: char, t: string)
    requires c != '\0'
    ensures var code := if c == 'b' then 8 else if c == 't' then 9 else if c == 'n' then 10
        else if c == 'f' then 12 else if c == 'r' then 13 else if c == '"' then 34
        else if c == '/' then 47 else if c == '\\' then 92 else 0;
      Unescape(['\\', c] + t)
      == if code != 0 then Onto(code as char, Unescape(t)) else Onto('\\', Unescape([c] + t))
  {
    hide Onto, Unescape;
    var s := ['\\', c] + t;
    UnescapeStep(s);
    assert s[0] == '\\' && s[1] == c && s[1..] == [c] + t && s[2..] == t;
  }

  function Quoted(s: string, solidus: bool): string {
    if s == "" then "" else QuotedChar(s[0], solidus) + Quoted(s[1..], solidus)
  }

  lemma UnquotedChar(c: char, solidus: bool, t: string)
    requires c != '\0'
    ensures Unescape(QuotedChar(c, solidus) + t) == Onto(c, Unescape(t))
  {
    hide Onto, Unescape;
    var q := QuotedChar(c, solidus);
    UnescapeStep(q + t);
    assert (q + t)[0] == q[0];
    if |q| == 2 {
      assert (q + t)[1] == q[1] && (q + t)[2..] == t;
    } else {
      assert (q + t)[1..] == t;
    }
  }

  /** Unescaping undoes the standard escapes, for every C string, and leaves what follows the closing quote. */
  lemma {:induction false} QuotedTrip(s: CStr, solidus: bool, rest: string)
    ensures Unescape(Quoted(s, solidus) + ("\"" + rest)) == Some((s, rest))
  {
    hide QuotedChar;
    var close := "\"" + rest;
    if s == "" {
      assert Quoted(s, solidus) + close == close && close[0] == '"' && close[1..] == rest;
    } else {
      QuotedTrip(s[1..], solidus, rest);
      var q, t := QuotedChar(s[0], solidus), Quoted(s[1..], solidus) + close;
      assert Quoted(s, solidus) + close == q + t;
      UnquotedChar(s[0], solidus, t);
      assert [s[0]] + s[1..] == s;
    }
  }

  // ---------------------------------------------------------------- white space and comments

  /** White space as section 2 of RFC 8259 has it. */
  predicate Spaces(w: string) {
    forall i | 0 <= i < |w| :: w[i] as int in {9, 10, 13, 32}
  }

  lemma {:induction false} SpacesSkipped(w: string, s: string)
    requires Spaces(w)
    ensures ParseValue(w + s) == ParseValue(s) && ParseKey(w + s) == ParseKey(s) && AfterKey(w + s) == AfterKey(s)
  {
    hide ParseValue, ParseKey;
    if w == "" {
      assert w + s == s;
    } else {
      assert w + s == [w[0]] + (w[1..] + s);
      var c := w[0];
      SpacesSkipped(w[1..], s);
      ValueSkips(c, w[1..] + s);
      KeySkips(c, w[1..] + s);
      assert (w + s)[1..] == w[1..] + s;
    }
  }

  lemma CommaSkipped(s: string)
    ensures ParseValue("," + s) == ParseValue(s) && ParseKey("," + s) == ParseKey(s)
  {
    hide ParseValue, ParseKey;
    ValueSkips(',', s);
    KeySkips(',', s);
  }

  /** No star with a slash behind it, and no end of text. */
  predicate InComment(x: string) {
    '\0' !in x && forall i | 0 <= i < |x| - 1 :: !(x[i] == '*' && x[i + 1] == '/')
  }

  lemma {:induction false} LineSkipped(x: string, s: string)
    requires '\0' !in x && '\n' !in x
    ensures SkipLine(x + ("\n" + s)) == Some(s)
  {
    var t := x + ("\n" + s);
    if x == "" {
      assert t[0] == '\n' && t[1..] == s;
    } else {
      assert t[0] == x[0] && t[1..] == x[1..] + ("\n" + s);
      LineSkipped(x[1..], s);
    }
  }

  lemma {:induction false} BlockSkipped(x: string, s: string)
    requires InComment(x)
    ensures SkipBlock(x + ("*/" + s)) == Some(s)
  {
    var t := x + ("*/" + s);
    if x == "" {
      assert t[0] == '*' && t[1] == '/' && t[2..] == s;
    } else {
      assert t[0] == x[0] && t[1..] == x[1..] + ("*/" + s);
      assert t[1] == if |x| > 1 then x[1] else '*';
      BlockSkipped(x[1..], s);
    }
  }

  /** Comments of both kinds are skipped wherever a value or a key may stand. */
  lemma CommentSkipped(x: string, s: string)
    ensures '\0' !in x && '\n' !in x ==>
      ParseValue("//" + (x + ("\n" + s))) == ParseValue(s) && ParseKey("//" + (x + ("\n" + s))) == ParseKey(s)
    ensures InComment(x) ==>
      ParseValue("/*" + (x + ("*/" + s))) == ParseValue(s) && ParseKey("/*" + (x + ("*/" + s))) == ParseKey(s)
  {
    hide SkipLine, SkipBlock, InComment, Unescape, StrToll, ParseMembers, ParseItems;
    if '\0' !in x && '\n' !in x { LineSkipped(x, s); }
    if InComment(x) { BlockSkipped(x, s); }
    var t, u := "//" + (x + ("\n" + s)), "/*" + (x + ("*/" + s));
    assert t[0] == '/' && t[1] == '/' && t[1..][1..] == x + ("\n" + s);
    assert u[0] == '/' && u[1] == '*' && u[1..][1..] == x + ("*/" + s);
  }

  // ---------------------------------------------------------------- values

  /** Members have keys, items have none, and flags are zero or one. */
  predicate Shaped(v: Value) {
    match v
    case Obj(cs) => forall c | c in cs :: c.key.Some? && Shaped(c.value)
    case Arr(cs) => forall c | c in cs :: c.key.None? && Shaped(c.value)
    case Bool(flag) => flag == 0 || flag == 1
    case _ => true
  }

  /** The text of a value, in front of `rest`. */
  function Standard(v: Value, w: string, solidus: bool, rest: string): string
    decreases v, 1, 0
  {
    match v
    case Obj(cs) => "{" + (w + Members(v, 0, w, solidus, rest))
    case Arr(cs) => "[" + (w + Items(v, 0, w, solidus, rest))
    case Str(text) => "\"" + (Quoted(text, solidus) + ("\"" + rest))
    case Int(n) => Dec(n) + rest
    case Bool(flag) => (if flag == 1 then "true" else "false") + rest
    case Null => "null" + rest
  }

  function Members(v: Value, i: nat, w: string, solidus: bool, rest: string): string
    requires v.Obj? && i <= |v.children|
    decreases v, 0, |v.children| - i + 1
  {
    if i == |v.children| then "}" + rest else
      var c := v.children[i];
      var key := if c.key.Some? then c.key.value else "";
      var more := Members(v, i + 1, w, solidus, rest);
      "\"" + (Quoted(key, solidus) + ("\"" + (w + (":" + (w +
        Standard(c.value, w, solidus, w + (if i + 1 < |v.children| then "," + (w + more) else more)))))))
  }

  function Items(v: Value, i: nat, w: string, solidus: bool, rest: string): string
    requires v.Arr? && i <= |v.children|
    decreases v, 0, |v.children| - i + 1
  {
    if i == |v.children| then "]" + rest else
      var more := Items(v, i + 1, w, solidus, rest);
      Standard(v.children[i].value, w, solidus, w + (if i + 1 < |v.children| then "," + (w + more) else more))
  }

  /** What stands between two values: white space, with a comma in it unless the second is the closing bracket. */
  lemma BetweenSkipped(w: string, last: bool, more: string)
    requires Spaces(w) && (last ==> more != "" && more[0] in "]}")
    ensures var t := w + (if last then more else "," + (w + more));
      && ParseValue(t) == ParseValue(more) && ParseKey(t) == ParseKey(more) && Ends(t)
      && (t[0] in "]}" <==> last && w == "") && (last && w == "" ==> t == more)
  {
    hide ParseValue, ParseKey, AfterKey;
    var u := if last then more else "," + (w + more);
    SpacesSkipped(w, u);
    SpacesSkipped(w, more);
    CommaSkipped(w + more);
    var t := w + u;
    if w == "" {
      assert t == u;
    } else {
      assert t[0] == w[0];
      SpaceEnds(w[0]);
    }
  }

  lemma SpaceEnds(c: char)
    requires c as int in {9, 10, 13, 32}
    ensures c in " \t\n\r"
  {
  }

  /** Every value is read from its standard text, and what follows the text is left. */
  lemma {:induction false} StandardTrip(v: Value, w: string, solidus: bool, rest: string)
    requires Shaped(v) && Spaces(w) && Ends(rest)
    ensures ParseValue(Standard(v, w, solidus, rest)) == Got(v, rest)
    decreases v, 1, 0
  {
    hide ParseValue, ParseMembers, ParseItems, ParseKey, AfterKey, Unescape, Dec, Quoted, Members, Items, Spaces;
    match v
    case Obj(cs) =>
      Opened("{", w + Members(v, 0, w, solidus, rest));
      SpacesSkipped(w, Members(v, 0, w, solidus, rest));
      MembersSame(w + Members(v, 0, w, solidus, rest), Members(v, 0, w, solidus, rest), []);
      MembersStandard(v, 0, w, solidus, rest);
      assert cs[..0] == [];
    case Arr(cs) =>
      Opened("[", w + Items(v, 0, w, solidus, rest));
      SpacesSkipped(w, Items(v, 0, w, solidus, rest));
      ItemsSame(w + Items(v, 0, w, solidus, rest), Items(v, 0, w, solidus, rest), []);
      ItemsStandard(v, 0, w, solidus, rest);
      assert cs[..0] == [];
    case Str(text) =>
      QuotedTrip(text, solidus, rest);
      Opened("\"", Quoted(text, solidus) + ("\"" + rest));
    case Int(n) =>
      NumberTrip(n, rest);
    case Bool(flag) =>
      LiteralTrip(flag, rest);
    case Null =>
      NullStandard(rest);
  }

  lemma Opened(open: string, s: string)
    ensures open == "{" ==> ParseValue(open + s) == ParseMembers(s, [])
    ensures open == "[" ==> ParseValue(open + s) == ParseItems(s, [])
    ensures open == "\"" ==>
      ParseValue(open + s) == if Unescape(s).None? then Fail else Got(Str(Unescape(s).value.0), Unescape(s).value.1)
  {
    hide ParseMembers, ParseItems, Unescape;
    if |open| == 1 { assert (open + s)[0] == open[0] && (open + s)[1..] == s; }
  }

  lemma NullStandard(rest: string)
    ensures ParseValue("null" + rest) == Got(Null, rest)
  {
    var s := "null" + rest;
    assert s[0] == 'n' && "null" <= s && s[4..] == rest;
  }

  lemma {:induction false} MembersStandard(v: Value, i: nat, w: string, solidus: bool, rest: string)
    requires v.Obj? && Shaped(v) && i <= |v.children| && Spaces(w)
    ensures ParseMembers(Members(v, i, w, solidus, rest), v.children[..i]) == Got(v, rest)
    ensures i == |v.children| ==> Members(v, i, w, solidus, rest) == "}" + rest
    decreases v, 0, |v.children| - i + 1
  {
    hide ParseMembers, ParseKey, ParseValue, Quoted, Unescape, Standard, Spaces;
    if i == |v.children| {
      assert v.children[..i] == v.children;
      CloseObject(0, rest, v.children);
      assert Tabs(0) + ("}" + rest) == "}" + rest;
    } else {
      var c, more, last := v.children[i], Members(v, i + 1, w, solidus, rest), i + 1 == |v.children|;
      var after := w + (if last then more else "," + (w + more));
      assert c in v.children;
      MembersStandard(v, i + 1, w, solidus, rest);
      BetweenSkipped(w, last, more);
      StandardTrip(c.value, w, solidus, after);
      KeyStandard(c.key.value, w, solidus, Standard(c.value, w, solidus, after));
      ValueFirst(c.value, w, solidus, after);
      MemberRead(Members(v, i, w, solidus, rest), c, Standard(c.value, w, solidus, after), w, after, v.children[..i]);
      assert v.children[..i] + [c] == v.children[..i + 1];
      MembersSame(after, more, v.children[..i + 1]);
    }
  }

  /** A value's text does not begin like the end of an object. */
  lemma ValueFirst(v: Value, w: string, solidus: bool, rest: string)
    ensures Standard(v, w, solidus, rest) != "" && Standard(v, w, solidus, rest)[0] != '}'
  {
    hide Members, Items, Quoted, DecNat;
    if v.Int? {
      var i: int := v.n;
      DecNatDigits(if i < 0 then -i else i);
    }
  }

  lemma KeyStandard(name: CStr, w: string, solidus: bool, x: string)
    requires Spaces(w)
    ensures ParseKey("\"" + (Quoted(name, solidus) + ("\"" + (w + (":" + (w + x)))))) == Key(name, w + x)
  {
    hide Unescape, Quoted, Spaces;
    var t := Quoted(name, solidus) + ("\"" + (w + (":" + (w + x))));
    assert ("\"" + t)[0] == '"' && ("\"" + t)[1..] == t;
    QuotedTrip(name, solidus, w + (":" + (w + x)));
    SpacesSkipped(w, ":" + (w + x));
    assert (":" + (w + x))[1..] == w + x;
  }

  lemma MemberRead(s: string, c: Node, x: string, w: string, after: string, got: seq<Node>)
    requires c.key.Some? && ParseKey(s) == Key(c.key.value, w + x) && Spaces(w)
    requires ParseValue(x) == Got(c.value, after) && x != "" && x[0] != '}'
    ensures ParseMembers(s, got) == ParseMembers(after, got + [c])
  {
    hide ParseKey, ParseValue;
    SpacesSkipped(w, x);
    if w == "" { assert w + x == x; } else { assert (w + x)[0] == w[0]; }
  }

  lemma {:induction false} ItemsStandard(v: Value, i: nat, w: string, solidus: bool, rest: string)
    requires v.Arr? && Shaped(v) && i <= |v.children| && Spaces(w)
    ensures ParseItems(Items(v, i, w, solidus, rest), v.children[..i]) == Got(v, rest)
    ensures i == |v.children| ==> Items(v, i, w, solidus, rest) == "]" + rest
    decreases v, 0, |v.children| - i + 1
  {
    hide ParseItems, ParseKey, ParseValue, Quoted, Unescape, Standard, Spaces;
    if i == |v.children| {
      assert v.children[..i] == v.children;
      CloseArray(0, rest, v.children);
      assert Tabs(0) + ("]" + rest) == "]" + rest;
    } else {
      var c, more, last := v.children[i], Items(v, i + 1, w, solidus, rest), i + 1 == |v.children|;
      var after := w + (if last then more else "," + (w + more));
      assert c in v.children;
      ItemsStandard(v, i + 1, w, solidus, rest);
      BetweenSkipped(w, last, more);
      StandardTrip(c.value, w, solidus, after);
      assert v.children[..i] + [c] == v.children[..i + 1];
      ItemRead(Items(v, i, w, solidus, rest), c, after, more, v.children[..i], rest);
    }
  }

  lemma ItemRead(s: string, c: Node, after: string, more: string, got: seq<Node>, rest: string)
    requires c.key.None? && ParseValue(s) == Got(c.value, after) && ParseValue(after) == ParseValue(more)
    requires after != "" && (after[0] == ']' ==> after == "]" + rest == more)
    ensures ParseItems(s, got) == ParseItems(more, got + [c])
  {
    hide ParseValue;
    if after[0] == ']' {
      CloseArray(0, rest, got + [c]);
      assert Tabs(0) + ("]" + rest) == "]" + rest && after[1..] == rest;
    } else {
      ItemsSame(after, more, got + [c]);
    }
  }

  // ---------------------------------------------------------------- what is no value

  /** A text that begins with none of the characters a value or its leading space begins with is refused. */
  lemma Refused(s: string)
    ensures s == "" || s[0] !in " \t\n\r,{[]\"-0123456789tfn/" ==> ParseValue(s).Fail?
    ensures s != "" && s[0] == 't' && !("true" <= s) ==> ParseValue(s).Fail?
    ensures s != "" && s[0] == 'f' && !("false" <= s) ==> ParseValue(s).Fail?
    ensures s != "" && s[0] == 'n' && !("null" <= s) ==> ParseValue(s).Fail?
  {
    hide ParseMembers, ParseItems, Unescape, StrToll, SkipComment;
  }
}
