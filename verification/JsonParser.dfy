/**
 The parser as it runs: a cursor over the text, strings unescaped in place behind it.

 The array holds the text without its terminator: past the end a NUL is read. Nothing before
 the cursor a call starts from is ever written, so strings already read stay as they are.
 */
module JsonParser {
  import opened Prelude
  import opened Json
  import J = Json
  import opened JsonTrip
  import opened JsonStandard
  import opened JsonPrinter

  /** The character at the cursor. */
  function At(text: array<char>, p: nat): char
    reads text
  {
    if p < text.Length then text[p] else '\0'
  }

  function Behind(w: CStr, r: Option<(CStr, string)>): Option<(CStr, string)> {
    if r.None? then None else Some((w + r.value.0, r.value.1))
  }

  lemma BehindOnto(w: CStr, c: char, r: Option<(CStr, string)>)
    requires c != '\0'
    ensures Behind(w, Onto(c, r)) == Behind(w + [c], r)
  {
    if r.Some? { assert w + ([c] + r.value.0) == w + [c] + r.value.0; }
  }

  /** Unescapes the string that starts at `s`, in place, and ends it with a NUL. */
  method UnescapeString(text: array<char>, s: nat) returns (r: Option<CStr>, end: nat)
    requires s <= text.Length
    modifies text
    ensures text[..s] == old(text[..s])
    ensures var u := J.Unescape(old(text[s..])); r.Some? == u.Some? && (r.Some? ==> r.value == u.value.0)
    ensures r.Some? ==> s < end <= text.Length && text[end..] == J.Unescape(old(text[s..])).value.1
    ensures r.Some? ==> s + |r.value| < end && text[s..s + |r.value|] == r.value && text[s + |r.value|] == '\0'
    ensures forall q: CStr, solidus, rest | old(text[s..]) == Quoted(q, solidus) + ("\"" + rest) ::
      r == Some(q) && text[end..] == rest
  {
    hide J.Unescape, Behind, Onto, Quoted;
    forall q: CStr, solidus, rest | text[s..] == Quoted(q, solidus) + ("\"" + rest)
      ensures J.Unescape(text[s..]) == Some((q, rest))
    {
      QuotedTrip(q, solidus, rest);
    }
    ghost var s0 := text[..];
    var p, d := s, s;
    end := s;
    BehindNothing(J.Unescape(s0[s..]));
    assert text[s..s] == "";
    while p < text.Length && text[p] != '\0' && text[p] != '"'
      invariant s <= d <= p <= text.Length == |s0|
      invariant text[..s] == s0[..s] && text[p..] == s0[p..]
      invariant '\0' !in text[s..d]
      invariant J.Unescape(s0[s..]) == Behind(text[s..d], J.Unescape(s0[p..]))
    {
      ghost var w := text[s..d];
      var c := text[p];
      assert c == s0[p] && text[p + 1..] == s0[p + 1..];
      Advance(s0, p, w);
      p := p + 1;
      if c == '\\' && Escapes(At(text, p)) {
        assert text[p] == s0[p];
        c := Escaped(text[p]);
        p := p + 1;
      }
      text[d] := c;
      assert text[s..d + 1] == w + [c];
      d := d + 1;
    }
    Stops(s0, p);
    assert old(text[s..]) == s0[s..];
    r := None;
    if p < text.Length && text[p] == '"' {
      assert text[p + 1..] == s0[p + 1..];
      BehindEmpty(text[s..d], s0[p + 1..]);
      r, end := Some(text[s..d]), p + 1;
      text[d] := '\0';
    } else {
      BehindEmpty(text[s..d], "");
    }
  }

  lemma BehindNothing(r: Option<(CStr, string)>)
    ensures Behind("", r) == r
  {
    if r.Some? { assert "" + r.value.0 == r.value.0; }
  }

  lemma BehindEmpty(w: CStr, rest: string)
    ensures Behind(w, Some(("", rest))) == Some((w, rest)) && Behind(w, None).None?
  {
    assert w + "" == w;
  }

  /** One character of a string, or one escape. */
  lemma Advance(s: string, p: nat, w: CStr)
    requires p < |s| && s[p] != '\0' && s[p] != '"'
    ensures var escape := s[p] == '\\' && p + 1 < |s| && Escapes(s[p + 1]);
      Behind(w, J.Unescape(s[p..]))
      == if escape then Behind(w + [Escaped(s[p + 1])], J.Unescape(s[p + 2..]))
         else Behind(w + [s[p]], J.Unescape(s[p + 1..]))
  {
    hide J.Unescape, Behind, Onto;
    var t := s[p..];
    UnescapeStep(t);
    assert t[0] == s[p] && t[1..] == s[p + 1..];
    if s[p] == '\\' && p + 1 < |s| && Escapes(s[p + 1]) {
      assert t[1] == s[p + 1] && t[2..] == s[p + 2..];
      BehindOnto(w, Escaped(s[p + 1]), J.Unescape(s[p + 2..]));
    } else {
      BehindOnto(w, s[p], J.Unescape(s[p + 1..]));
    }
  }

  lemma Stops(s: string, p: nat)
    requires p <= |s| && (p == |s| || s[p] == '\0' || s[p] == '"')
    ensures J.Unescape(s[p..]) == if p < |s| && s[p] == '"' then Some(("", s[p + 1..])) else None
  {
    UnescapeStep(s[p..]);
    if p < |s| { assert s[p..][0] == s[p] && s[p..][1..] == s[p + 1..]; }
  }

  // ---------------------------------------------------------------- comments

  lemma Tail(s: string, p: nat)
    requires p < |s|
    ensures s[p..] != "" && s[p..][0] == s[p] && s[p..][1..] == s[p + 1..]
  {
  }

  method SkipLineAt(text: array<char>, p: nat) returns (q: Option<nat>)
    requires p <= text.Length
    ensures var r := SkipLine(text[p..]);
      && q.Some? == r.Some?
      && (q.Some? ==> p < q.value <= text.Length && text[q.value..] == r.value)
  {
    var i := p;
    while i < text.Length && text[i] != '\0' && text[i] != '\n'
      invariant p <= i <= text.Length && SkipLine(text[p..]) == SkipLine(text[i..])
    {
      Tail(text[..], i);
      assert text[..][i..] == text[i..] && text[..][i + 1..] == text[i + 1..];
      i := i + 1;
    }
    if i < text.Length && text[i] == '\n' {
      Tail(text[..], i);
      assert text[..][i..] == text[i..] && text[..][i + 1..] == text[i + 1..];
      return Some(i + 1);
    }
    q := None;
  }

  method SkipBlockAt(text: array<char>, p: nat) returns (q: Option<nat>)
    requires p <= text.Length
    ensures var r := SkipBlock(text[p..]);
      && q.Some? == r.Some?
      && (q.Some? ==> p < q.value <= text.Length && text[q.value..] == r.value)
  {
    if At(text, p) == '\0' {
      return None;
    }
    var i := p + 1;
    while i < text.Length && text[i] != '\0' && !(text[i] == '/' && text[i - 1] == '*')
      invariant p < i <= text.Length && text[i - 1] != '\0' && SkipBlock(text[p..]) == SkipBlock(text[i - 1..])
    {
      assert text[i - 1..][1..] == text[i..] && text[i - 1..][0] == text[i - 1] && text[i - 1..][1] == text[i];
      i := i + 1;
    }
    if i < text.Length && text[i] == '/' && text[i - 1] == '*' {
      assert text[i - 1..][0] == '*' && text[i - 1..][1] == '/' && text[i - 1..][2..] == text[i + 1..];
      return Some(i + 1);
    }
    assert i < text.Length ==> text[i - 1..][1] == text[i];
    q := None;
  }

  /** `p` is behind the first slash. */
  method SkipCommentAt(text: array<char>, p: nat) returns (q: Option<nat>)
    requires p <= text.Length
    ensures var r := SkipComment(text[p..]);
      && q.Some? == r.Some?
      && (q.Some? ==> p < q.value <= text.Length && text[q.value..] == r.value)
  {
    hide SkipLine, SkipBlock;
    q := None;
    if p < text.Length {
      assert text[p..][0] == text[p] && text[p..][1..] == text[p + 1..];
      if text[p] == '/' {
        q := SkipLineAt(text, p + 1);
      } else if text[p] == '*' {
        q := SkipBlockAt(text, p + 1);
      }
    }
  }

  // ---------------------------------------------------------------- keys

  /** Skips white space behind a key and its colon. */
  method ColonAt(text: array<char>, p: nat) returns (q: Option<nat>)
    requires p <= text.Length
    ensures var r := AfterKey(text[p..]);
      && q.Some? == r.Some?
      && (q.Some? ==> p < q.value <= text.Length && text[q.value..] == r.value)
  {
    var i := p;
    while i < text.Length && text[i] != '\0' && text[i] <= ' '
      invariant p <= i <= text.Length && AfterKey(text[p..]) == AfterKey(text[i..])
    {
      assert text[i..][0] == text[i] && text[i..][1..] == text[i + 1..];
      i := i + 1;
    }
    assert i < text.Length ==> text[i..][0] == text[i] && text[i..][1..] == text[i + 1..];
    q := if At(text, i) == ':' then Some(i + 1) else None;
  }

  /** What the position reached tells of a key: none, the closing brace, or a name. */
  ghost predicate KeyAt(r: KeyResult, text: seq<char>, name: Option<CStr>, q: Option<nat>) {
    match r
    case NoKey => q.None?
    case Close(rest) => name.None? && q.Some? && q.value <= |text| && text[q.value..] == rest
    case Key(n, rest) => name == Some(n) && q.Some? && q.value <= |text| && text[q.value..] == rest
  }

  method ParseKeyAt(text: array<char>, p: nat) returns (name: Option<CStr>, q: Option<nat>)
    requires p <= text.Length
    modifies text
    ensures text[..p] == old(text[..p])
    ensures KeyAt(J.ParseKey(old(text[p..])), text[..], name, q)
    ensures q.Some? ==> p <= q.value && (name.Some? ==> p + 1 < q.value)
  {
    hide J.ParseKey, J.Unescape, AfterKey, SkipComment;
    ghost var s0 := text[..];
    var i := p;
    name, q := None, None;
    while At(text, i) != '\0'
      invariant p <= i <= text.Length && text[..] == s0
      invariant J.ParseKey(s0[p..]) == J.ParseKey(s0[i..])
      invariant name.None? && q.None?
      decreases text.Length - i
    {
      KeyStep(s0, i);
      assert text[i + 1..] == s0[i + 1..];
      if text[i] == '"' {
        var k, end := UnescapeString(text, i + 1);
        if k.Some? {
          var after := ColonAt(text, end);
          if after.Some? {
            name, q := k, after;
            assert text[..][after.value..] == text[after.value..];
          }
        }
        assert text[..p] == text[..i + 1][..p];
        return;
      } else if KeySpace(text[i]) {
        i := i + 1;
      } else if text[i] == '}' {
        return None, Some(i);
      } else if text[i] == '/' {
        var after := SkipCommentAt(text, i + 1);
        if after.None? {
          return;
        }
        i := after.value;
        assert text[i..] == s0[i..];
      } else {
        return;
      }
    }
    KeyEnds(s0, i);
  }

  lemma KeyStep(s: string, i: nat)
    requires i < |s| && s[i] != '\0'
    ensures J.ParseKey(s[i..]) ==
      if s[i] == '"' then
        var k := J.Unescape(s[i + 1..]);
        if k.None? then NoKey else
          var after := AfterKey(k.value.1);
          if after.None? then NoKey else Key(k.value.0, after.value)
      else if KeySpace(s[i]) then J.ParseKey(s[i + 1..])
      else if s[i] == '}' then Close(s[i..])
      else if s[i] == '/' then
        var after := SkipComment(s[i + 1..]);
        if after.None? then NoKey else J.ParseKey(after.value)
      else NoKey
  {
    hide J.Unescape, AfterKey, SkipComment;
    Tail(s, i);
  }

  lemma KeyEnds(s: string, i: nat)
    requires i <= |s| && (i < |s| ==> s[i] == '\0')
    ensures J.ParseKey(s[i..]).NoKey?
  {
    if i < |s| { Tail(s, i); }
  }

  // ---------------------------------------------------------------- values

  ghost predicate ValueAt(r: ValueResult, text: seq<char>, v: Option<Value>, q: Option<nat>) {
    match r
    case Fail => q.None?
    case Nothing(rest) => v.None? && q.Some? && q.value <= |text| && text[q.value..] == rest
    case Got(value, rest) => v == Some(value) && q.Some? && q.value <= |text| && text[q.value..] == rest
  }

  lemma {:induction false} DigitsLeave(s: string, radix: nat, acc: nat)
    requires radix <= 16
    ensures var rest := ReadDigits(s, radix, acc).1; s[|s| - |rest|..] == rest
  {
    if s != "" && DigitOf(s[0]) < radix {
      DigitsLeave(s[1..], radix, acc * radix + DigitOf(s[0]));
    }
  }

  lemma NumberLeaves(s: string)
    ensures ReadNumber(s).Some? ==> var rest := ReadNumber(s).value.1; s[|s| - |rest|..] == rest
  {
    hide ReadDigits;
    if s != "" {
      DigitsLeave(s[1..], 8, 0);
      DigitsLeave(s[1..], 10, DigitOf(s[0]));
      if |s| > 2 { DigitsLeave(s[2..], 16, 0); }
    }
  }

  /** `strtoll` leaves the end of the text. */
  lemma StrTollLeaves(s: string)
    ensures StrToll(s).Some? ==> var rest := StrToll(s).value.1; s[|s| - |rest|..] == rest
  {
    hide ReadNumber;
    NumberLeaves(s);
    if s != "" { NumberLeaves(s[1..]); }
  }

  method ParseNumberAt(text: array<char>, p: nat) returns (n: Option<Int64>, q: nat)
    requires p < text.Length
    ensures var r := StrToll(text[p..]);
      && n.Some? == r.Some?
      && (n.Some? ==> n.value == r.value.0 && p < q <= text.Length && text[q..] == r.value.1)
  {
    hide StrToll;
    var r := StrToll(text[p..]);
    StrTollLeaves(text[p..]);
    n, q := None, p;
    if r.Some? {
      n, q := Some(r.value.0), text.Length - |r.value.1|;
      assert text[q..] == text[p..][q - p..];
    }
  }

  method ParseValueAt(text: array<char>, p: nat) returns (v: Option<Value>, q: Option<nat>)
    requires p <= text.Length
    modifies text
    ensures text[..p] == old(text[..p])
    ensures ValueAt(J.ParseValue(old(text[p..])), text[..], v, q)
    ensures q.Some? ==> p <= q.value && (v.Some? ==> p < q.value)
    decreases text.Length - p, 0
  {
    hide J.ParseValue, J.ParseMembers, J.ParseItems, J.Unescape, StrToll, SkipComment;
    ghost var s0 := text[..];
    var i := p;
    v, q := None, None;
    while true
      invariant p <= i <= text.Length && text[..] == s0
      invariant J.ParseValue(s0[p..]) == J.ParseValue(s0[i..])
      invariant v.None? && q.None?
      decreases text.Length - i
    {
      if i == text.Length {
        NoValue();
        return;
      }
      ValueStep(s0, i);
      var c := text[i];
      assert text[i..] == s0[i..] && text[i + 1..] == s0[i + 1..];
      if ValueSpace(c) {
        i := i + 1;
      } else if c == '{' {
        v, q := ParseMembersAt(text, i + 1);
        assert text[..p] == text[..i + 1][..p];
        return;
      } else if c == '[' {
        v, q := ParseItemsAt(text, i + 1);
        assert text[..p] == text[..i + 1][..p];
        return;
      } else if c == ']' {
        return None, Some(i);
      } else if c == '/' {
        var after := SkipCommentAt(text, i + 1);
        if after.None? {
          return;
        }
        i := after.value;
        assert text[i..] == s0[i..];
      } else {
        v, q := ParseScalarAt(text, i);
        assert text[..p] == text[..i][..p];
        return;
      }
    }
  }

  /** Strings, numbers and the three literals; anything else is an error. */
  method ParseScalarAt(text: array<char>, i: nat) returns (v: Option<Value>, q: Option<nat>)
    requires i < text.Length && !ValueSpace(text[i]) && text[i] !in "{[]/"
    modifies text
    ensures text[..i] == old(text[..i])
    ensures ValueAt(J.ParseValue(old(text[i..])), text[..], v, q)
    ensures q.Some? ==> v.Some? && i < q.value
  {
    hide J.ParseValue, J.ParseMembers, J.ParseItems, J.Unescape, StrToll;
    ghost var s0 := text[..];
    ValueStep(s0, i);
    var c := text[i];
    assert text[i..] == s0[i..] && text[i + 1..] == s0[i + 1..];
    v, q := None, None;
    if c == '"' {
      var t, end := UnescapeString(text, i + 1);
      assert text[..i] == text[..i + 1][..i];
      if t.Some? {
        v, q := Some(Str(t.value)), Some(end);
        assert text[..][end..] == text[end..];
      }
    } else if c == '-' || '0' <= c <= '9' {
      var n, end := ParseNumberAt(text, i);
      if n.Some? {
        assert text[..][end..] == text[end..];
        assert end < text.Length ==> text[end..][0] == text[end];
        if !(At(text, end) in ".eE") {
          v, q := Some(Int(n.value)), Some(end);
        }
      }
    } else if "true" <= text[i..] {
      v, q := Some(Bool(1)), Some(i + 4);
    } else if "false" <= text[i..] {
      v, q := Some(Bool(0)), Some(i + 5);
    } else if "null" <= text[i..] {
      v, q := Some(Null), Some(i + 4);
    }
  }

  lemma NoValue()
    ensures J.ParseValue("").Fail?
  {
  }

  lemma ValueStep(s: string, i: nat)
    requires i < |s|
    ensures J.ParseValue(s[i..]) ==
      if ValueSpace(s[i]) then J.ParseValue(s[i + 1..])
      else if s[i] == '{' then J.ParseMembers(s[i + 1..], [])
      else if s[i] == '[' then J.ParseItems(s[i + 1..], [])
      else if s[i] == ']' then Nothing(s[i..])
      else if s[i] == '"' then
        var t := J.Unescape(s[i + 1..]);
        if t.None? then Fail else Got(Str(t.value.0), t.value.1)
      else if s[i] == '-' || '0' <= s[i] <= '9' then
        var n := StrToll(s[i..]);
        if n.None? || (n.value.1 != "" && n.value.1[0] in ".eE") then Fail else Got(Int(n.value.0), n.value.1)
      else if "true" <= s[i..] then Got(Bool(1), s[i + 4..])
      else if "false" <= s[i..] then Got(Bool(0), s[i + 5..])
      else if "null" <= s[i..] then Got(Null, s[i + 4..])
      else if s[i] == '/' then
        var after := SkipComment(s[i + 1..]);
        if after.None? then Fail else J.ParseValue(after.value)
      else Fail
  {
    hide J.ParseMembers, J.ParseItems, J.Unescape, StrToll, SkipComment;
    Tail(s, i);
    assert |s| - i >= 4 ==> s[i..][4..] == s[i + 4..];
    assert |s| - i >= 5 ==> s[i..][5..] == s[i + 5..];
  }

  method ParseMembersAt(text: array<char>, p: nat) returns (v: Option<Value>, q: Option<nat>)
    requires p <= text.Length
    modifies text
    ensures text[..p] == old(text[..p])
    ensures ValueAt(J.ParseMembers(old(text[p..]), []), text[..], v, q)
    ensures q.Some? ==> v.Some? && p < q.value
    decreases text.Length - p, 1
  {
    hide J.ParseValue, J.ParseMembers, J.ParseKey;
    ghost var s0 := text[p..];
    var i, got := p, [];
    v, q := None, None;
    while true
      invariant p <= i <= text.Length && text[..p] == old(text[..p])
      invariant J.ParseMembers(s0, []) == J.ParseMembers(text[i..], got)
      invariant v.None? && q.None?
      decreases text.Length - i
    {
      MembersStep(text[i..], got);
      var name, at := ParseKeyAt(text, i);
      assert text[..p] == text[..i][..p];
      if at.None? {
        return;
      }
      ghost var k := text[at.value..];
      assert text[..][at.value..] == k;
      assert at.value < text.Length ==> k[0] == text[at.value] && k[1..] == text[at.value + 1..];
      if At(text, at.value) == '}' {
        assert text[..][at.value + 1..] == text[at.value + 1..];
        return Some(Obj(got)), Some(at.value + 1);
      }
      var value, next := ParseValueAt(text, at.value);
      assert text[..p] == text[..at.value][..p];
      if next.None? {
        return;
      }
      assert text[..][next.value..] == text[next.value..];
      i := next.value;
      if value.Some? {
        got := got + [Node(name, value.value)];
      }
    }
  }

  lemma MembersStep(s: string, got: seq<Node>)
    ensures var k := J.ParseKey(s);
      J.ParseMembers(s, got) ==
        if k.NoKey? then Fail
        else if k.rest != "" && k.rest[0] == '}' then Got(Obj(got), k.rest[1..])
        else
          var v := J.ParseValue(k.rest);
          if v.Fail? then Fail
          else if v.Nothing? then J.ParseMembers(v.rest, got)
          else J.ParseMembers(v.rest, got + [Node(Some(k.name), v.value)])
    ensures var k := J.ParseKey(s); k.Close? ==> k.rest != "" && k.rest[0] == '}'
  {
    hide J.ParseKey, J.ParseValue;
  }

  method ParseItemsAt(text: array<char>, p: nat) returns (v: Option<Value>, q: Option<nat>)
    requires p <= text.Length
    modifies text
    ensures text[..p] == old(text[..p])
    ensures ValueAt(J.ParseItems(old(text[p..]), []), text[..], v, q)
    ensures q.Some? ==> v.Some? && p < q.value
    decreases text.Length - p, 1
  {
    hide J.ParseValue, J.ParseItems;
    ghost var s0 := text[p..];
    var i, got := p, [];
    v, q := None, None;
    while true
      invariant p <= i <= text.Length && text[..p] == old(text[..p])
      invariant J.ParseItems(s0, []) == J.ParseItems(text[i..], got)
      invariant v.None? && q.None?
      decreases text.Length - i
    {
      ItemsStep(text[i..], got);
      var value, next := ParseValueAt(text, i);
      assert text[..p] == text[..i][..p];
      if next.None? {
        return;
      }
      i := next.value;
      assert text[..][i..] == text[i..];
      assert i < text.Length ==> text[i..][0] == text[i] && text[i..][1..] == text[i + 1..];
      if value.Some? {
        got := got + [Node(None, value.value)];
      }
      if At(text, i) == ']' {
        assert text[..][i + 1..] == text[i + 1..];
        return Some(Arr(got)), Some(i + 1);
      }
    }
  }

  lemma ItemsStep(s: string, got: seq<Node>)
    ensures var v := J.ParseValue(s);
      J.ParseItems(s, got) ==
        if v.Fail? then Fail
        else if v.Nothing? then Got(Arr(got), v.rest[1..])
        else
          var got' := got + [Node(None, v.value)];
          if v.rest != "" && v.rest[0] == ']' then Got(Arr(got'), v.rest[1..]) else J.ParseItems(v.rest, got')
    ensures var v := J.ParseValue(s); v.Nothing? ==> v.rest != "" && v.rest[0] == ']'
  {
    hide J.ParseValue;
  }

  /** `nx_json_parse` on a copy of the text. */
  method ParseText(text: string) returns (t: Option<Node>)
    ensures t == J.Parse(text)
    ensures forall v, w, solidus, rest | Shaped(v) && Spaces(w) && Ends(rest) ::
      text == w + Standard(v, w, solidus, rest) ==> t == Some(Node(None, v))
  {
    hide J.ParseValue, Standard, Shaped, Spaces, Ends;
    forall v, w, solidus, rest | Shaped(v) && Spaces(w) && Ends(rest)
      ensures text == w + Standard(v, w, solidus, rest) ==> J.ParseValue(text) == Got(v, rest)
    {
      StandardTrip(v, w, solidus, rest);
      SpacesSkipped(w, Standard(v, w, solidus, rest));
    }
    var copy := new char[|text|](i requires 0 <= i < |text| => text[i]);
    assert copy[..] == text && copy[0..] == text;
    var v, q := ParseValueAt(copy, 0);
    t := if q.Some? && v.Some? then Some(Node(None, v.value)) else None;
  }

  /** Printing a tree and parsing the text, as both run, gives the tree back exactly when it is good. */
  method PrintThenParse(t: Node) returns (back: Option<Node>)
    ensures back == Some(t) <==> t.key.None? && Good(t.value)
  {
    hide J.Parse, Print, Good, Printable;
    var text := SerializeRoot(t);
    if Good(t.value) { GoodIsPrintable(t.value); }
    if text.None? {
      return None;
    }
    RoundTrip(t);
    back := ParseText(text.value);
  }
}
