/** Exactly which trees the parser gives back from their printed form. */
module JsonTrip {
  import opened Prelude
  import opened Json

  // ---------------------------------------------------------------- strings

  lemma UnescapeStep(s: string)
    ensures s == "" || s[0] == '\0' ==> Unescape(s).None?
    ensures s != "" && s[0] == '"' ==> Unescape(s) == Some(("", s[1..]))
    ensures s != "" && s[0] != '\0' && s[0] != '"' ==>
      Unescape(s) == if s[0] == '\\' && |s| > 1 && Escapes(s[1]) then Onto(Escaped(s[1]), Unescape(s[2..]))
                       else Onto(s[0], Unescape(s[1..]))
  {
  }

  function Slashes(k: nat): string {
    seq(k, _ => '\\')
  }

  /** Unescaping never gets ahead of the text: it does not yield the text with backslashes put in front. */
  lemma {:induction false} NotAhead(k: nat, s: string, rest: string)
    requires k > 0 && '\0' !in s
    ensures var u := Unescape(s + ("\"" + rest)); u.Some? ==> u.value.0 != Slashes(k) + s
    decreases |s|
  {
    var t, w := s + ("\"" + rest), Slashes(k) + s;
    var u := Unescape(t);
    assert w[0] == '\\';
    if s == "" {
      assert t[0] == '"';
    } else if s[0] == '\\' {
      assert t[1..] == s[1..] + ("\"" + rest);
      if |s| > 1 && s[1] == '\\' {
        assert t[2..] == s[2..] + ("\"" + rest);
        NotAhead(k + 1, s[2..], rest);
        assert w[1..] == Slashes(k + 1) + s[2..];
        assert u.Some? ==> u.value.0[1..] == Unescape(t[2..]).value.0;
      } else if |s| > 1 && !Escapes(s[1]) {
        NotAhead(k, s[1..], rest);
        assert w[1..] == Slashes(k) + s[1..];
        assert u.Some? ==> u.value.0[1..] == Unescape(t[1..]).value.0;
      } else {
        assert Escapes(t[1]) && t[1] != '\\';
        assert u.Some? ==> u.value.0[0] == Escaped(t[1]);
      }
    } else {
      assert t[0] == s[0];
    }
  }

  /** A backslash that begins an escape is not read back. */
  lemma EscapeLost(s: CStr, rest: string)
    requires s != "" && s[0] == '\\' && Escapes((s + ("\"" + rest))[1])
    ensures !Plain(s)
    ensures var u := Unescape(s + ("\"" + rest)); u.Some? ==> u.value.0 != s
  {
    var t := s + ("\"" + rest);
    var u := Unescape(t);
    assert |s| > 1 ==> t[1] == s[1];
    assert !PlainAt(s, 0);
    if |s| > 1 && s[1] == '\\' {
      NotAhead(1, s[2..], rest);
      assert t[2..] == s[2..] + ("\"" + rest);
      assert s[1..] == Slashes(1) + s[2..];
      assert u.Some? ==> u.value.0[1..] == Unescape(t[2..]).value.0;
    } else {
      assert u.Some? ==> u.value.0[0] == Escaped(t[1]);
    }
  }

  lemma PlainTail(s: string)
    requires s != "" && s[0] != '"' && (s[0] == '\\' ==> |s| > 1 && !Escapes(s[1]))
    ensures Plain(s) <==> Plain(s[1..])
  {
    assert PlainAt(s, 0);
    forall i | 1 <= i < |s| ensures PlainAt(s, i) == PlainAt(s[1..], i - 1) {
    }
    if Plain(s) {
      forall i | 0 <= i < |s| - 1 ensures PlainAt(s[1..], i) { assert PlainAt(s, i + 1); }
    }
  }

  /** A string is read back exactly when it is plain, and then the text behind it is left. */
  lemma {:induction false} StringTrip(s: CStr, rest: string)
    ensures Plain(s) ==> Unescape(s + ("\"" + rest)) == Some((s, rest))
    ensures var u := Unescape(s + ("\"" + rest)); u.Some? && u.value.0 == s ==> Plain(s)
  {
    var t := s + ("\"" + rest);
    if s == "" {
      assert t[0] == '"' && t[1..] == rest;
    } else {
      assert t[0] == s[0] && t[1..] == s[1..] + ("\"" + rest);
      StringTrip(s[1..], rest);
      assert s == [s[0]] + s[1..];
      if s[0] == '\\' && Escapes(t[1]) {
        EscapeLost(s, rest);
      } else if s[0] != '"' {
        PlainTail(s);
      } else {
        assert !PlainAt(s, 0);
      }
    }
  }

  // ---------------------------------------------------------------- numbers

  /** What the printer puts behind a value. */
  predicate Stop(rest: string) {
    rest == "" || rest[0] == ',' || rest[0] == '\n'
  }

  /** What follows a number does not continue it. */
  predicate Ends(rest: string) {
    rest == "" || rest[0] in " \t\n\r,]}"
  }

  predicate Digits(s: string, base: nat) {
    forall c | c in s :: DigitOf(c) < base
  }

  /** The number that `s` continues `acc` to: the last digit counts once, those before it `base` times as much. */
  function Numeral(acc: nat, s: string, base: nat): nat {
    if s == "" then acc else Numeral(acc, s[..|s| - 1], base) * base + DigitOf(s[|s| - 1])
  }

  lemma DigitOfIs(c: char)
    ensures var d := DigitOf(c);
      if d < 16 then c == "0123456789abcdef"[d] || c == "0123456789ABCDEF"[d]
      else d == 16 && c !in "0123456789abcdefABCDEF"
  {
  }

  lemma DecDigit(d: nat)
    requires d < 10
    ensures Digit(d) == "0123456789"[d] && DigitOf(Digit(d)) == d
  {
  }

  lemma {:induction false} DecNatDigits(n: nat)
    ensures DecNat(n) != "" && DigitOf(DecNat(n)[0]) < 10 && (n > 0 ==> DecNat(n)[0] != '0')
  {
    if n < 10 {
    } else {
      DecNatDigits(n / 10);
    }
  }

  /** Printed numbers are numerals to base ten. */
  lemma {:induction false} PrintedNumeral(n: nat)
    ensures Digits(DecNat(n), 10) && Numeral(0, DecNat(n), 10) == n
  {
    hide Digit, DigitOf;
    var s := DecNat(n);
    DecDigit(n % 10);
    if n < 10 {
      assert s[..|s| - 1] == "";
    } else {
      PrintedNumeral(n / 10);
      assert s[..|s| - 1] == DecNat(n / 10);
    }
  }

  lemma DigitRead(c: char, s: string, base: nat, acc: nat)
    requires DigitOf(c) < base <= 16
    ensures ReadDigits([c] + s, base, acc) == ReadDigits(s, base, acc * base + DigitOf(c))
  {
    assert ([c] + s)[1..] == s;
  }

  /** Reading digits, one after the other, is evaluating the numeral. */
  lemma {:induction false} DigitsRead(acc: nat, s: string, base: nat, rest: string)
    requires base <= 16 && Digits(s, base)
    ensures ReadDigits(s + rest, base, acc) == ReadDigits(rest, base, Numeral(acc, s, base))
    decreases |s|
  {
    hide DigitOf, ReadDigits;
    if s == "" {
      assert s + rest == rest;
    } else {
      var n := |s| - 1;
      DigitsRead(acc, s[..n], base, [s[n]] + rest);
      assert s[n] in s && s + rest == s[..n] + ([s[n]] + rest);
      DigitRead(s[n], rest, base, Numeral(acc, s[..n], base));
    }
  }

  lemma DigitsEnd(rest: string, base: nat, acc: nat)
    requires Ends(rest) && base <= 16
    ensures ReadDigits(rest, base, acc) == (acc, rest)
  {
  }

  lemma FirstDigit(s: string)
    requires s != "" && DigitOf(s[0]) < 10
    ensures ReadDigits(s[1..], 10, DigitOf(s[0])) == ReadDigits(s, 10, 0)
  {
  }

  predicate Prefix(prefix: string, s: string) {
    if prefix == "" then s != "" && s[0] != '0' else prefix == "0" || (s != "" && (prefix == "0x" || prefix == "0X"))
  }

  function Base(prefix: string): nat {
    if prefix == "" then 10 else if prefix == "0" then 8 else 16
  }

  /** The base a prefix tells. */
  lemma PrefixRead(prefix: string, s: string, rest: string)
    requires Ends(rest) && Prefix(prefix, s) && Digits(s, Base(prefix))
    ensures ReadNumber(prefix + (s + rest)) == Some((Numeral(0, s, Base(prefix)), rest))
  {
    hide ReadDigits, Numeral;
    DigitsRead(0, s, Base(prefix), rest);
    DigitsEnd(rest, Base(prefix), Numeral(0, s, Base(prefix)));
    var t := prefix + (s + rest);
    if s == "" {
      assert t == "0" + rest && s + rest == rest && t[1..] == rest;
    } else {
      assert s[0] in s && t[|prefix|] == s[0] && t[|prefix|..] == s + rest;
      if prefix == "" {
        FirstDigit(t);
      } else {
        assert t[0] == '0' && t[1] == if prefix == "0" then s[0] else prefix[1];
      }
    }
  }

  lemma NumberFirst(prefix: string, s: string, rest: string)
    requires Prefix(prefix, s) && Digits(s, Base(prefix))
    ensures '0' <= (prefix + (s + rest))[0] <= '9'
  {
    var t := prefix + (s + rest);
    if prefix == "" { assert s[0] in s && t[0] == s[0]; } else { assert t[0] == prefix[0]; }
  }

  lemma Signed(negative: bool, t: string)
    requires t != "" && '0' <= t[0] <= '9' && ReadNumber(t).Some?
    ensures var m: int := ReadNumber(t).value.0;
      var n: int := if negative then -m else m;
      StrToll((if negative then "-" else "") + t)
      == if -0x8000_0000_0000_0000 <= n <= 0x7fff_ffff_ffff_ffff then Some((n, ReadNumber(t).value.1)) else None
  {
    hide ReadNumber;
    if negative { assert ("-" + t)[1..] == t; } else { assert "" + t == t; }
  }

  lemma ScalarNumber(s: string)
    requires s != "" && (s[0] == '-' || '0' <= s[0] <= '9')
    ensures StrToll(s).None? ==> ParseValue(s).Fail?
    ensures StrToll(s).Some? && Ends(StrToll(s).value.1) ==>
      ParseValue(s) == Got(Int(StrToll(s).value.0), StrToll(s).value.1)
  {
    hide StrToll;
  }

  /** A number in the range of `long long` is read to the base its prefix tells, with or without a minus sign. */
  lemma NumberRead(negative: bool, prefix: string, s: string, rest: string)
    requires Ends(rest) && Prefix(prefix, s)
    requires Digits(s, if prefix == "" then 10 else if prefix == "0" then 8 else 16)
    ensures var m: int := Numeral(0, s, if prefix == "" then 10 else if prefix == "0" then 8 else 16);
      var n: int := if negative then -m else m;
      ParseValue((if negative then "-" else "") + (prefix + (s + rest)))
      == if -0x8000_0000_0000_0000 <= n <= 0x7fff_ffff_ffff_ffff then Got(Int(n), rest) else Fail
  {
    hide Numeral, Digits, Prefix, ReadNumber, StrToll, ParseValue, Ends;
    var t := prefix + (s + rest);
    PrefixRead(prefix, s, rest);
    NumberFirst(prefix, s, rest);
    Signed(negative, t);
    var text := (if negative then "-" else "") + t;
    assert text[0] == if negative then '-' else t[0];
    ScalarNumber(text);
  }

  lemma NumberTrip(n: Int64, rest: string)
    requires Ends(rest)
    ensures ParseValue(Dec(n) + rest) == Got(Int(n), rest)
  {
    hide ParseValue, Numeral, Digits, Ends;
    var i: int := n;
    var m: nat := if i < 0 then -i else i;
    PrintedNumeral(m);
    DecNatDigits(m);
    if m == 0 {
      NoDigits();
      NumberRead(false, "0", "", rest);
      assert "" + ("0" + ("" + rest)) == Dec(0) + rest;
    } else {
      NumberRead(i < 0, "", DecNat(m), rest);
      assert "" + (DecNat(m) + rest) == DecNat(m) + rest;
      assert "-" + (DecNat(m) + rest) == "-" + DecNat(m) + rest;
    }
  }

  lemma NoDigits()
    ensures Digits("", 8) && Numeral(0, "", 8) == 0
  {
  }

  // ---------------------------------------------------------------- white space

  lemma ValueSkips(c: char, s: string)
    requires ValueSpace(c)
    ensures ParseValue([c] + s) == ParseValue(s)
  {
    assert ([c] + s)[1..] == s;
  }

  lemma {:induction false} ValueSkipsTabs(lvl: nat, s: string)
    ensures ParseValue(Tabs(lvl) + s) == ParseValue(s)
  {
    hide ParseValue;
    if lvl == 0 {
      assert Tabs(lvl) + s == s;
    } else {
      assert Tabs(lvl) + s == ['\t'] + (Tabs(lvl - 1) + s);
      ValueSkips('\t', Tabs(lvl - 1) + s);
      ValueSkipsTabs(lvl - 1, s);
    }
  }

  lemma KeySkips(c: char, s: string)
    requires KeySpace(c) && c != '\0'
    ensures ParseKey([c] + s) == ParseKey(s)
  {
    assert ([c] + s)[1..] == s;
  }

  lemma {:induction false} KeySkipsTabs(lvl: nat, s: string)
    ensures ParseKey(Tabs(lvl) + s) == ParseKey(s)
  {
    hide ParseKey;
    if lvl == 0 {
      assert Tabs(lvl) + s == s;
    } else {
      assert Tabs(lvl) + s == ['\t'] + (Tabs(lvl - 1) + s);
      KeySkips('\t', Tabs(lvl - 1) + s);
      KeySkipsTabs(lvl - 1, s);
    }
  }

  /** The lists skip what may stand before their next element. */
  lemma MembersSame(s: string, s': string, got: seq<Node>)
    requires ParseKey(s) == ParseKey(s')
    ensures ParseMembers(s, got) == ParseMembers(s', got)
  {
  }

  lemma ItemsSame(s: string, s': string, got: seq<Node>)
    requires ParseValue(s) == ParseValue(s')
    ensures ParseItems(s, got) == ParseItems(s', got)
  {
  }

  function Sep(v: Value, i: nat): string
    requires v.Obj? || v.Arr?
  {
    if i + 1 < |v.children| then ",\n" else "\n"
  }

  lemma SepStops(v: Value, i: nat, s: string)
    requires v.Obj? || v.Arr?
    ensures Stop(Sep(v, i) + s)
    ensures ParseKey(Sep(v, i) + s) == ParseKey(s) && ParseValue(Sep(v, i) + s) == ParseValue(s)
  {
    hide ParseKey, ParseValue;
    KeySkips('\n', s);
    ValueSkips('\n', s);
    KeySkips(',', "\n" + s);
    ValueSkips(',', "\n" + s);
    assert ",\n" + s == [','] + ("\n" + s);
  }

  // ---------------------------------------------------------------- keys

  lemma KeyTextIs(k: Option<CStr>, x: string)
    ensures KeyText(k) + x == "\"" + (KeyName(k) + ("\"" + (": " + x)))
  {
  }

  /** A printed key is read back exactly when its text is plain. */
  lemma KeyTrip(k: Option<CStr>, lvl: nat, x: string)
    ensures var r := ParseKey(Tabs(lvl) + (KeyText(k) + x));
      && (Plain(KeyName(k)) ==> r == Key(KeyName(k), " " + x))
      && (r.Key? && r.name == KeyName(k) ==> Plain(KeyName(k)))
      && !r.Close?
  {
    hide Unescape, Plain, KeyText;
    var name := KeyName(k);
    var t := name + ("\"" + (": " + x));
    KeySkipsTabs(lvl, KeyText(k) + x);
    KeyTextIs(k, x);
    assert ("\"" + t)[1..] == t;
    StringTrip(name, ": " + x);
    assert AfterKey(": " + x) == Some(" " + x) by { assert (": " + x)[1..] == " " + x; }
  }

  // ---------------------------------------------------------------- trees

  /** A child, the separator behind it and what follows. */
  lemma ChildSplit(v: Value, i: nat, lvl: nat, tail: string)
    requires (v.Obj? || v.Arr?) && i < |v.children|
    ensures var c, after := v.children[i], Sep(v, i) + (PrintFrom(v, i + 1, lvl) + tail);
      PrintFrom(v, i, lvl) + tail
      == Tabs(lvl) + ((if HasKeyText(v, c) then KeyText(c.key) else "") + (PrintValue(c.value, lvl) + after))
  {
    hide PrintValue, KeyText, Tabs, HasKeyText;
    var c := v.children[i];
    var k := if HasKeyText(v, c) then KeyText(c.key) else "";
    var sep := if i + 1 < |v.children| then ",\n" else "\n";
    Flatten(Tabs(lvl), k, PrintValue(c.value, lvl), sep, PrintFrom(v, i + 1, lvl), tail);
  }

  lemma Flatten(a: string, b: string, c: string, d: string, e: string, f: string)
    ensures a + (b + c) + (d + e) + f == a + (b + (c + (d + (e + f))))
  {
  }

  lemma Bracketed(a: string, b: string, c: string, d: string, rest: string)
    ensures a + (b + (c + d)) + rest == a + (b + (c + (d + rest)))
  {
  }

  /** A good tree is read back, and what follows it is left. */
  lemma {:induction false} ValueTrip(v: Value, lvl: nat, rest: string)
    requires Good(v) && Stop(rest)
    ensures ParseValue(PrintValue(v, lvl) + rest) == Got(v, rest)
    decreases v, 1, 0
  {
    hide ParseValue, ParseMembers, ParseItems, PrintFrom, Tabs, Plain, Dec;
    match v
    case Obj(cs) =>
      OpenObject(v, lvl, rest);
      MembersTrip(v, 0, lvl + 1, lvl, rest);
      assert cs[..0] == [];
    case Arr(cs) =>
      OpenArray(v, lvl, rest);
      ItemsTrip(v, 0, lvl + 1, lvl, rest);
      assert cs[..0] == [];
    case Str(text) =>
      TextTrip(text, rest);
    case Int(n) =>
      NumberTrip(n, rest);
    case Bool(flag) =>
      LiteralTrip(flag, rest);
  }

  lemma TextTrip(text: CStr, rest: string)
    ensures var r := ParseValue("\"" + (text + "\"") + rest);
      && (Plain(text) ==> r == Got(Str(text), rest))
      && (r.Got? && r.value == Str(text) ==> Plain(text))
      && (r.Got? ==> r.value.Str?)
  {
    hide Unescape, Plain;
    var t := text + ("\"" + rest);
    StringTrip(text, rest);
    assert "\"" + (text + "\"") + rest == "\"" + t && ("\"" + t)[1..] == t;
  }

  lemma LiteralTrip(flag: Int64, rest: string)
    ensures ParseValue((if flag == 1 then "true" else "false") + rest) == Got(Bool(if flag == 1 then 1 else 0), rest)
  {
    var s := (if flag == 1 then "true" else "false") + rest;
    if flag == 1 {
      assert "true" <= s && s[4..] == rest;
    } else {
      assert s[0] == 'f';
      assert "false" <= s && s[5..] == rest;
    }
  }

  lemma OpenObject(v: Value, lvl: nat, rest: string)
    requires v.Obj?
    ensures ParseValue(PrintValue(v, lvl) + rest)
         == ParseMembers(PrintFrom(v, 0, lvl + 1) + (Tabs(lvl) + ("}" + rest)), [])
  {
    hide PrintFrom, Tabs, ParseMembers, ParseItems, ParseKey;
    var body := PrintFrom(v, 0, lvl + 1) + (Tabs(lvl) + ("}" + rest));
    Bracketed("{\n", PrintFrom(v, 0, lvl + 1), Tabs(lvl), "}", rest);
    assert PrintValue(v, lvl) + rest == "{" + ("\n" + body);
    assert ("{" + ("\n" + body))[1..] == "\n" + body;
    KeySkips('\n', body);
    MembersSame("\n" + body, body, []);
  }

  lemma OpenArray(v: Value, lvl: nat, rest: string)
    requires v.Arr?
    ensures ParseValue(PrintValue(v, lvl) + rest)
         == ParseItems(PrintFrom(v, 0, lvl + 1) + (Tabs(lvl) + ("]" + rest)), [])
  {
    hide PrintFrom, Tabs, ParseMembers, ParseItems, ParseKey;
    var body := PrintFrom(v, 0, lvl + 1) + (Tabs(lvl) + ("]" + rest));
    Bracketed("[\n", PrintFrom(v, 0, lvl + 1), Tabs(lvl), "]", rest);
    assert PrintValue(v, lvl) + rest == "[" + ("\n" + body);
    assert ("[" + ("\n" + body))[1..] == "\n" + body;
    ValueSkips('\n', body);
    ItemsSame("\n" + body, body, []);
  }

  lemma CloseObject(lvl: nat, rest: string, got: seq<Node>)
    ensures ParseMembers(Tabs(lvl) + ("}" + rest), got) == Got(Obj(got), rest)
  {
    hide Tabs;
    KeySkipsTabs(lvl, "}" + rest);
    assert ("}" + rest)[1..] == rest;
  }

  lemma CloseArray(lvl: nat, rest: string, got: seq<Node>)
    ensures ParseItems(Tabs(lvl) + ("]" + rest), got) == Got(Arr(got), rest)
  {
    hide Tabs;
    ValueSkipsTabs(lvl, "]" + rest);
    assert ("]" + rest)[1..] == rest;
  }

  /** One member: its key and value are read and the rest of the object is left. */
  lemma MemberStep(c: Node, lvl: nat, after: string, got: seq<Node>)
    requires c.key.Some? && Plain(c.key.value)
    requires ParseValue(PrintValue(c.value, lvl) + after) == Got(c.value, after)
    ensures ParseMembers(Tabs(lvl) + (KeyText(c.key) + (PrintValue(c.value, lvl) + after)), got)
         == ParseMembers(after, got + [c])
  {
    hide Tabs, KeyText, PrintValue, ParseKey, ParseValue, Plain;
    var x := PrintValue(c.value, lvl) + after;
    KeyTrip(c.key, lvl, x);
    ValueSkips(' ', x);
    assert (" " + x)[0] == ' ';
  }

  lemma {:induction false} MembersTrip(v: Value, i: nat, lvl: nat, outer: nat, rest: string)
    requires v.Obj? && Good(v) && i <= |v.children|
    ensures ParseMembers(PrintFrom(v, i, lvl) + (Tabs(outer) + ("}" + rest)), v.children[..i]) == Got(v, rest)
    decreases v, 0, |v.children| - i + 1
  {
    hide PrintValue, Tabs, KeyText, ParseMembers, ParseKey, ParseValue, Plain;
    var tail := Tabs(outer) + ("}" + rest);
    if i == |v.children| {
      assert PrintFrom(v, i, lvl) + tail == tail;
      assert v.children[..i] == v.children;
      CloseObject(outer, rest, v.children);
    } else {
      var c, more := v.children[i], PrintFrom(v, i + 1, lvl) + tail;
      ChildSplit(v, i, lvl, tail);
      SepStops(v, i, more);
      assert c in v.children && Good(c.value);
      ValueTrip(c.value, lvl, Sep(v, i) + more);
      MemberStep(c, lvl, Sep(v, i) + more, v.children[..i]);
      assert v.children[..i] + [c] == v.children[..i + 1];
      MembersSame(Sep(v, i) + more, more, v.children[..i + 1]);
      MembersTrip(v, i + 1, lvl, outer, rest);
    }
  }

  lemma ItemStep(c: Node, lvl: nat, after: string, got: seq<Node>)
    requires c.key.None? && Stop(after)
    requires ParseValue(PrintValue(c.value, lvl) + after) == Got(c.value, after)
    ensures ParseItems(Tabs(lvl) + (PrintValue(c.value, lvl) + after), got) == ParseItems(after, got + [c])
  {
    hide Tabs, PrintValue, ParseValue;
    ValueSkipsTabs(lvl, PrintValue(c.value, lvl) + after);
  }

  lemma {:induction false} ItemsTrip(v: Value, i: nat, lvl: nat, outer: nat, rest: string)
    requires v.Arr? && Good(v) && i <= |v.children|
    ensures ParseItems(PrintFrom(v, i, lvl) + (Tabs(outer) + ("]" + rest)), v.children[..i]) == Got(v, rest)
    decreases v, 0, |v.children| - i + 1
  {
    hide PrintValue, Tabs, KeyText, ParseItems, ParseKey, ParseValue, Plain;
    var tail := Tabs(outer) + ("]" + rest);
    if i == |v.children| {
      assert PrintFrom(v, i, lvl) + tail == tail;
      assert v.children[..i] == v.children;
      CloseArray(outer, rest, v.children);
    } else {
      var c, more := v.children[i], PrintFrom(v, i + 1, lvl) + tail;
      ChildSplit(v, i, lvl, tail);
      SepStops(v, i, more);
      assert c in v.children && Good(c.value);
      ValueTrip(c.value, lvl, Sep(v, i) + more);
      assert "" + (PrintValue(c.value, lvl) + (Sep(v, i) + more)) == PrintValue(c.value, lvl) + (Sep(v, i) + more);
      ItemStep(c, lvl, Sep(v, i) + more, v.children[..i]);
      assert v.children[..i] + [c] == v.children[..i + 1];
      ItemsSame(Sep(v, i) + more, more, v.children[..i + 1]);
      ItemsTrip(v, i + 1, lvl, outer, rest);
    }
  }

  // ---------------------------------------------------------------- no other tree

  /** What has been read of an object or array stays in front. */
  lemma {:induction false} MembersPrefix(s: string, got: seq<Node>)
    ensures var r := ParseMembers(s, got); r.Got? ==> r.value.Obj? && got <= r.value.children
    decreases |s|
  {
    hide ParseKey, ParseValue;
    var k := ParseKey(s);
    if !k.NoKey? && !(k.rest != "" && k.rest[0] == '}') {
      var v := ParseValue(k.rest);
      if v.Nothing? { MembersPrefix(v.rest, got); }
      if v.Got? { MembersPrefix(v.rest, got + [Node(Some(k.name), v.value)]); }
    }
  }

  lemma {:induction false} ItemsPrefix(s: string, got: seq<Node>)
    ensures var r := ParseItems(s, got); r.Got? ==> r.value.Arr? && got <= r.value.children
    decreases |s|
  {
    hide ParseValue;
    var v := ParseValue(s);
    if v.Got? && !(v.rest != "" && v.rest[0] == ']') { ItemsPrefix(v.rest, got + [Node(None, v.value)]); }
  }

  /** Of the children from `i` on, each can be read back. */
  ghost predicate GoodFrom(v: Value, i: nat)
    requires v.Obj? || v.Arr?
  {
    forall j | i <= j < |v.children| :: GoodChild(v, v.children[j])
  }

  predicate GoodChild(v: Value, c: Node) {
    if v.Arr? then c.key.None? && c.value.Obj? && Good(c.value)
    else c.key.Some? && Plain(c.key.value) && Good(c.value)
  }

  /** A printable tree that is read back is good. */
  lemma {:induction false} ValueOnly(v: Value, lvl: nat, rest: string)
    requires Printable(v) && Stop(rest)
    requires var r := ParseValue(PrintValue(v, lvl) + rest); r.Got? && r.value == v
    ensures Good(v)
    decreases v, 1, 0
  {
    hide ParseValue, ParseMembers, ParseItems, PrintFrom, Tabs, Plain, Dec;
    match v
    case Obj(cs) =>
      OpenObject(v, lvl, rest);
      assert cs[..0] == [];
      MembersOnly(v, 0, lvl + 1, Tabs(lvl) + ("}" + rest));
    case Arr(cs) =>
      OpenArray(v, lvl, rest);
      assert cs[..0] == [];
      ItemsOnly(v, 0, lvl + 1, Tabs(lvl) + ("]" + rest));
    case Str(text) =>
      TextTrip(text, rest);
    case Int(_) =>
    case Bool(flag) =>
      LiteralTrip(flag, rest);
  }

  /** An object that gains a member reads a key and a value first. */
  lemma MembersGot(s: string, got: seq<Node>)
    requires var r := ParseMembers(s, got); r.Got? && r.value.Obj? && |r.value.children| > |got|
    ensures var k := ParseKey(s);
      k.Key? && var v := ParseValue(k.rest);
      v.Got? && ParseMembers(s, got) == ParseMembers(v.rest, got + [Node(Some(k.name), v.value)])
  {
    hide ParseKey, ParseValue;
    var k := ParseKey(s);
    var v := ParseValue(k.rest);
    if v.Nothing? { NoMember(v.rest, got); }
  }

  lemma Heads(got: seq<Node>, read: Node, cs: seq<Node>)
    requires got + [read] <= cs
    ensures cs[|got|] == read
  {
    assert (got + [read])[|got|] == read;
  }

  /** If the first member read is this one, its key is plain and its value was read from where it was printed. */
  lemma MemberOnly(c: Node, lvl: nat, after: string, got: seq<Node>, cs: seq<Node>)
    requires |got| < |cs| && cs[|got|] == c
    requires var r := ParseMembers(Tabs(lvl) + (KeyText(c.key) + (PrintValue(c.value, lvl) + after)), got);
      r.Got? && r.value == Obj(cs)
    ensures c.key.Some? && Plain(c.key.value)
    ensures var r := ParseValue(PrintValue(c.value, lvl) + after); r.Got? && r.value == c.value
  {
    hide Tabs, KeyText, PrintValue, ParseKey, ParseValue, ParseMembers, Plain;
    var x := PrintValue(c.value, lvl) + after;
    var s := Tabs(lvl) + (KeyText(c.key) + x);
    KeyTrip(c.key, lvl, x);
    MembersGot(s, got);
    var k := ParseKey(s);
    var v := ParseValue(k.rest);
    var read := Node(Some(k.name), v.value);
    MembersPrefix(v.rest, got + [read]);
    Heads(got, read, cs);
    ValueSkips(' ', x);
  }

  lemma NoMember(s: string, got: seq<Node>)
    requires s != "" && s[0] == ']'
    ensures ParseMembers(s, got).Fail?
  {
  }

  lemma {:induction false} MembersOnly(v: Value, i: nat, lvl: nat, tail: string)
    requires v.Obj? && Printable(v) && i <= |v.children|
    requires var r := ParseMembers(PrintFrom(v, i, lvl) + tail, v.children[..i]); r.Got? && r.value == v
    ensures GoodFrom(v, i)
    decreases v, 0, |v.children| - i + 1
  {
    hide PrintValue, Tabs, KeyText, ParseMembers, ParseKey, ParseValue, Plain;
    if i >= |v.children| {
    } else {
      var c, more := v.children[i], PrintFrom(v, i + 1, lvl) + tail;
      var after := Sep(v, i) + more;
      ChildSplit(v, i, lvl, tail);
      SepStops(v, i, more);
      MemberOnly(c, lvl, after, v.children[..i], v.children);
      assert c in v.children && Printable(c.value);
      ValueOnly(c.value, lvl, after);
      ValueTrip(c.value, lvl, after);
      MemberStep(c, lvl, after, v.children[..i]);
      assert v.children[..i] + [c] == v.children[..i + 1];
      MembersSame(after, more, v.children[..i + 1]);
      MembersOnly(v, i + 1, lvl, tail);
    }
  }

  lemma ItemsGot(s: string, got: seq<Node>)
    requires var r := ParseItems(s, got); r.Got? && r.value.Arr? && |r.value.children| > |got|
    ensures var v := ParseValue(s); v.Got? && got + [Node(None, v.value)] <= ParseItems(s, got).value.children
    ensures var v := ParseValue(s);
      !(v.rest != "" && v.rest[0] == ']') ==> ParseItems(v.rest, got + [Node(None, v.value)]).Got?
  {
    hide ParseValue;
    var v := ParseValue(s);
    if v.Got? && !(v.rest != "" && v.rest[0] == ']') { ItemsPrefix(v.rest, got + [Node(None, v.value)]); }
  }

  lemma ItemOnly(c: Node, lvl: nat, after: string, got: seq<Node>, cs: seq<Node>)
    requires |got| < |cs| && cs[|got|] == c
    requires var r := ParseItems(Tabs(lvl) + (PrintValue(c.value, lvl) + after), got); r.Got? && r.value == Arr(cs)
    ensures c.key.None?
    ensures var r := ParseValue(PrintValue(c.value, lvl) + after); r.Got? && r.value == c.value
  {
    hide Tabs, PrintValue, ParseValue, ParseItems;
    var x := PrintValue(c.value, lvl) + after;
    ValueSkipsTabs(lvl, x);
    ItemsGot(Tabs(lvl) + x, got);
    Heads(got, Node(None, ParseValue(x).value), cs);
  }

  /** An array item with a key in front of it is never read back. */
  lemma KeyedItem(c: Node, lvl: nat, x: string, got: seq<Node>, cs: seq<Node>)
    requires |got| < |cs| && cs[|got|] == c
    ensures var r := ParseItems(Tabs(lvl) + (KeyText(c.key) + x), got); !(r.Got? && r.value == Arr(cs))
  {
    hide Tabs, KeyText, ParseValue, ParseItems, Plain, Unescape;
    var name := KeyName(c.key);
    var s := Tabs(lvl) + (KeyText(c.key) + x);
    ValueSkipsTabs(lvl, KeyText(c.key) + x);
    KeyTextIs(c.key, x);
    assert "\"" + (name + ("\"" + (": " + x))) == "\"" + (name + "\"") + (": " + x);
    TextTrip(name, ": " + x);
    var v, r := ParseValue(s), ParseItems(s, got);
    if r.Got? && r.value == Arr(cs) {
      ItemsGot(s, got);
      Heads(got, Node(None, v.value), cs);
      NullIsPlain();
      ColonFails(x, got + [Node(None, v.value)]);
      assert false;
    }
  }

  lemma NullIsPlain()
    ensures Plain("(null)")
  {
  }

  lemma ColonFails(x: string, got: seq<Node>)
    ensures ParseItems(": " + x, got).Fail?
  {
  }

  lemma {:induction false} ItemsOnly(v: Value, i: nat, lvl: nat, tail: string)
    requires v.Arr? && Printable(v) && i <= |v.children|
    requires var r := ParseItems(PrintFrom(v, i, lvl) + tail, v.children[..i]); r.Got? && r.value == v
    ensures GoodFrom(v, i)
    decreases v, 0, |v.children| - i + 1
  {
    hide PrintValue, Tabs, KeyText, ParseItems, ParseKey, ParseValue, Plain;
    if i >= |v.children| {
    } else {
      var c, more := v.children[i], PrintFrom(v, i + 1, lvl) + tail;
      var after := Sep(v, i) + more;
      ChildSplit(v, i, lvl, tail);
      SepStops(v, i, more);
      var x := PrintValue(c.value, lvl) + after;
      if HasKeyText(v, c) { KeyedItem(c, lvl, x, v.children[..i], v.children); }
      assert c.value.Obj?;
      assert "" + x == x;
      ItemOnly(c, lvl, after, v.children[..i], v.children);
      assert c in v.children && Printable(c.value);
      ValueOnly(c.value, lvl, after);
      ValueTrip(c.value, lvl, after);
      ItemStep(c, lvl, after, v.children[..i]);
      assert v.children[..i] + [c] == v.children[..i + 1];
      ItemsSame(after, more, v.children[..i + 1]);
      ItemsOnly(v, i + 1, lvl, tail);
    }
  }

  // ---------------------------------------------------------------- the round trip

  lemma {:induction false} GoodIsPrintable(v: Value)
    requires Good(v)
    ensures Printable(v)
  {
    if v.Obj? || v.Arr? {
      forall c | c in v.children ensures Printable(c.value) { GoodIsPrintable(c.value); }
    }
  }

  /** The text `nx_json_serialize` makes of a root. */
  function Print(t: Node): string {
    PrintValue(t.value, 0)
  }

  lemma {:induction false} TabsAre(n: nat)
    ensures |Tabs(n)| == n && forall i | 0 <= i < n :: Tabs(n)[i] == '\t'
  {
    if n == 0 {
    } else {
      TabsAre(n - 1);
    }
  }

  /** The layout: a member to a line, with its key and a tab for each level. */
  lemma ObjectLayout(a: CStr, x: Value, b: CStr, y: Value, lvl: nat)
    ensures PrintValue(Obj([Node(Some(a), x), Node(Some(b), y)]), lvl)
      == "{\n" + (((Tabs(lvl + 1) + (("\"" + (a + "\": ")) + PrintValue(x, lvl + 1)))
         + (",\n" + ((Tabs(lvl + 1) + (("\"" + (b + "\": ")) + PrintValue(y, lvl + 1))) + "\n")))
         + (Tabs(lvl) + "}"))
    ensures PrintValue(Obj([]), lvl) == "{\n" + (Tabs(lvl) + "}")
  {
    hide Tabs;
    var v := Obj([Node(Some(a), x), Node(Some(b), y)]);
    assert PrintFrom(Obj([]), 0, lvl + 1) == "";
    assert PrintValue(v, lvl) == "{\n" + (PrintFrom(v, 0, lvl + 1) + (Tabs(lvl) + "}"));
    hide PrintValue, PrintFrom, KeyText;
    KeyTextOf(Some(a));
    KeyTextOf(Some(b));
    assert PrintChild(v, 0, lvl + 1) == Tabs(lvl + 1) + (KeyText(Some(a)) + PrintValue(x, lvl + 1));
    assert PrintChild(v, 1, lvl + 1) == Tabs(lvl + 1) + (KeyText(Some(b)) + PrintValue(y, lvl + 1));
    TwoLines(v, lvl + 1);
  }

  lemma KeyTextOf(k: Option<CStr>)
    ensures KeyText(k) == "\"" + ((if k.Some? then k.value else "(null)") + "\": ")
  {
  }

  lemma TwoLines(v: Value, lvl: nat)
    requires (v.Obj? || v.Arr?) && |v.children| == 2
    ensures PrintFrom(v, 0, lvl) == PrintChild(v, 0, lvl) + (",\n" + (PrintChild(v, 1, lvl) + "\n"))
  {
    hide PrintChild;
    assert PrintFrom(v, 2, lvl) == "";
    assert PrintFrom(v, 1, lvl) == PrintChild(v, 1, lvl) + "\n";
  }

  /** In an array an object has no key before it, and anything else has one: of a null pointer if there is none. */
  lemma ArrayLayout(cs: seq<Node>, x: Value, lvl: nat)
    requires !x.Obj?
    ensures PrintValue(Arr([Node(None, Obj(cs)), Node(None, x)]), lvl)
      == "[\n" + (((Tabs(lvl + 1) + PrintValue(Obj(cs), lvl + 1))
         + (",\n" + ((Tabs(lvl + 1) + ("\"(null)\": " + PrintValue(x, lvl + 1))) + "\n")))
         + (Tabs(lvl) + "]"))
  {
    hide Tabs;
    var v := Arr([Node(None, Obj(cs)), Node(None, x)]);
    assert PrintValue(v, lvl) == "[\n" + (PrintFrom(v, 0, lvl + 1) + (Tabs(lvl) + "]"));
    hide PrintValue, PrintFrom;
    assert PrintChild(v, 0, lvl + 1) == Tabs(lvl + 1) + ("" + PrintValue(Obj(cs), lvl + 1));
    assert "" + PrintValue(Obj(cs), lvl + 1) == PrintValue(Obj(cs), lvl + 1);
    assert PrintChild(v, 1, lvl + 1) == Tabs(lvl + 1) + (KeyText(None) + PrintValue(x, lvl + 1));
    assert KeyText(None) == "\"(null)\": ";
    TwoLines(v, lvl + 1);
  }

  /** Parsing gives back a printed tree exactly when the tree is good and its root has no key. */
  lemma RoundTrip(t: Node)
    requires Printable(t.value)
    ensures Parse(Print(t)) == Some(t) <==> t.key.None? && Good(t.value)
  {
    hide ParseValue, PrintValue, Good;
    assert PrintValue(t.value, 0) + "" == PrintValue(t.value, 0);
    if Good(t.value) { ValueTrip(t.value, 0, ""); }
    if Parse(Print(t)) == Some(t) { ValueOnly(t.value, 0, ""); }
  }

  /** An array of numbers does not survive: its items are printed with the text of a null key. */
  lemma NumbersAreLost()
    ensures var t := Node(None, Arr([Node(None, Int(7))])); Printable(t.value) && Parse(Print(t)) != Some(t)
  {
    var t := Node(None, Arr([Node(None, Int(7))]));
    assert t.value.children[0] in t.value.children && !t.value.children[0].value.Obj?;
    RoundTrip(t);
  }
}
