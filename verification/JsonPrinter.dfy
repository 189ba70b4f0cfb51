/** The serializer: printed pieces are appended to a buffer that is doubled whenever a piece does not fit. */
module JsonPrinter {
  import opened Prelude
  import opened Json
  import opened JsonTrip

  class Serializer {
    var str: array<char>
    var off: nat
    var lvl: nat

    ghost predicate Valid()
      reads this, str
    {
      off < str.Length && str[off] == '\0'
    }

    ghost function Contents(): string
      reads this, str
      requires Valid()
    {
      str[..off]
    }

    constructor ()
      ensures Valid() && fresh(str) && Contents() == "" && lvl == 0 && str.Length == 512
    {
      str := new char[512](_ => '\0');
      off, lvl := 0, 0;
    }

    /** Twice the room, with the contents kept and the rest cleared. */
    method Resize()
      requires off <= str.Length && str.Length > 0
      modifies `str
      ensures fresh(str) && str.Length == 2 * old(str.Length)
      ensures str[..off] == old(str[..off])
    {
      var bigger := new char[str.Length * 2](_ => '\0');
      var i := 0;
      while i < off
        invariant i <= off <= str.Length < bigger.Length && str == old(str)
        invariant bigger[..i] == str[..i] && str[..off] == old(str[..off])
      {
        bigger[i] := str[i];
        i := i + 1;
      }
      str := bigger;
    }

    /** `vsnprintf` behind the contents: as much as fits, then a NUL; returns what it wanted to write. */
    method Vsnprintf(data: string) returns (wanted: nat)
      requires off < str.Length
      modifies str
      ensures wanted == |data|
      ensures str[..off] == old(str[..off])
      ensures |data| < str.Length - off ==> str[off..off + |data|] == data && str[off + |data|] == '\0'
    {
      var n := if |data| < str.Length - off then |data| else str.Length - off - 1;
      var i := 0;
      while i < n
        invariant i <= n && str[..off] == old(str[..off]) && str[off..off + i] == data[..i]
      {
        str[off + i] := data[i];
        i := i + 1;
      }
      str[off + n] := '\0';
      wanted := |data|;
      assert data[..n] == data[..i];
    }

    /** However often the buffer has to be doubled, the piece ends up behind the contents. */
    method Append(data: string)
      requires Valid()
      modifies this, str
      ensures Valid() && (str == old(str) || fresh(str)) && lvl == old(lvl)
      ensures Contents() == old(Contents()) + data
    {
      var wanted, more := 0, true;
      while more
        invariant off == old(off) < str.Length && lvl == old(lvl) && (str == old(str) || fresh(str))
        invariant str[..off] == old(Contents())
        invariant !more ==> wanted == |data| < str.Length - off
        invariant !more ==> str[off..off + |data|] == data && str[off + |data|] == '\0'
        invariant wanted == 0 || wanted == |data|
        invariant more && wanted != 0 ==> wanted >= str.Length - off
        decreases more, wanted == 0, |data| + off - str.Length
      {
        if wanted >= str.Length - off {
          Resize();
        }
        wanted := Vsnprintf(data);
        more := wanted >= str.Length - off;
      }
      off := off + wanted;
    }

    method Indent()
      requires Valid()
      modifies this, str
      ensures Valid() && (str == old(str) || fresh(str)) && lvl == old(lvl)
      ensures Contents() == old(Contents()) + Tabs(lvl)
    {
      hide Tabs;
      var i := 0;
      while i < lvl
        invariant i <= lvl && Valid() && (str == old(str) || fresh(str)) && lvl == old(lvl)
        invariant Contents() + Tabs(lvl - i) == old(Contents()) + Tabs(lvl)
      {
        ghost var before := Contents();
        Append("\t");
        OneTab(before, lvl - i);
        i := i + 1;
      }
      assert Contents() + Tabs(0) == Contents() by { NoTabs(); }
    }

    /** Appends a node; fails exactly when there is a null in it. */
    method Serialize(n: Node, root: bool, inArray: bool) returns (ok: bool)
      requires Valid()
      modifies this, str
      ensures Valid() && (str == old(str) || fresh(str))
      ensures ok == Printable(n.value)
      ensures ok ==> lvl == old(lvl) && Contents() == old(Contents()) + PrintNode(n, lvl, root, inArray)
      decreases n, 1
    {
      hide PrintValue, Tabs, KeyText;
      Indent();
      if !root && !(n.value.Obj? && inArray) {
        Append(KeyText(n.key));
      }
      ghost var before := Contents();
      ok := SerializeValue(n.value);
      if ok {
        Regroup(old(Contents()), Tabs(lvl), if root || (n.value.Obj? && inArray) then "" else KeyText(n.key),
                PrintValue(n.value, lvl));
      }
    }

    method SerializeValue(v: Value) returns (ok: bool)
      requires Valid()
      modifies this, str
      ensures Valid() && (str == old(str) || fresh(str))
      ensures ok == Printable(v)
      ensures ok ==> lvl == old(lvl) && Contents() == old(Contents()) + PrintValue(v, lvl)
      decreases v, 2
    {
      hide Tabs, PrintFrom, Dec, Good;
      ok := true;
      match v
      case Obj(_) => ok := SerializeList(v, "{\n", "}");
      case Arr(_) => ok := SerializeList(v, "[\n", "]");
      case Str(text) => Append("\"" + (text + "\""));
      case Int(n) => Append(Dec(n));
      case Bool(flag) => Append(if flag == 1 then "true" else "false");
      case Null => ok := false;
    }

    /** An object or array: its children, between its brackets. */
    method SerializeList(v: Value, left: string, right: string) returns (ok: bool)
      requires Valid() && (v.Obj? || v.Arr?)
      modifies this, str
      ensures Valid() && (str == old(str) || fresh(str))
      ensures ok == Printable(v)
      ensures ok ==> lvl == old(lvl)
      ensures ok ==> Contents() == old(Contents()) + (left + (PrintFrom(v, 0, lvl + 1) + (Tabs(lvl) + right)))
      decreases v, 1
    {
      hide PrintValue, Tabs, PrintFrom, Printable;
      Append(left);
      lvl := lvl + 1;
      ok := SerializeChildren(v);
      if ok {
        lvl := lvl - 1;
        Indent();
        Append(right);
        Regroup4(old(Contents()), left, PrintFrom(v, 0, lvl + 1), Tabs(lvl), right);
      }
    }

    method SerializeChildren(v: Value) returns (ok: bool)
      requires Valid() && (v.Obj? || v.Arr?)
      modifies this, str
      ensures Valid() && (str == old(str) || fresh(str))
      ensures ok == Printable(v)
      ensures ok ==> lvl == old(lvl) && Contents() == old(Contents()) + PrintFrom(v, 0, lvl)
      decreases v, 0
    {
      hide PrintValue, Tabs, KeyText, PrintChild, PrintFrom, PrintNode, Printable;
      var i := 0;
      while i < |v.children|
        invariant i <= |v.children| && lvl == old(lvl) && Valid() && (str == old(str) || fresh(str))
        invariant forall j | 0 <= j < i :: Printable(v.children[j].value)
        invariant Contents() + PrintFrom(v, i, lvl) == old(Contents()) + PrintFrom(v, 0, lvl)
      {
        ghost var before := Contents();
        PrintFromIs(v, i, lvl);
        var printed := Serialize(v.children[i], false, v.Arr?);
        if !printed {
          NotPrintable(v, i);
          return false;
        }
        var sep := if i + 1 < |v.children| then ",\n" else "\n";
        Append(sep);
        Regroup(before, PrintNode(v.children[i], lvl, false, v.Arr?), sep, PrintFrom(v, i + 1, lvl));
        i := i + 1;
      }
      PrintFromEnd(v, lvl);
      AllPrintable(v);
      ok := true;
    }
  }

  lemma OneTab(before: string, n: nat)
    requires n > 0
    ensures before + "\t" + Tabs(n - 1) == before + Tabs(n)
  {
  }

  lemma NoTabs()
    ensures Tabs(0) == ""
  {
  }

  lemma PrintFromIs(v: Value, i: nat, lvl: nat)
    requires (v.Obj? || v.Arr?) && i < |v.children|
    ensures PrintFrom(v, i, lvl) == PrintNode(v.children[i], lvl, false, v.Arr?)
      + ((if i + 1 < |v.children| then ",\n" else "\n") + PrintFrom(v, i + 1, lvl))
  {
    hide PrintValue, Tabs, KeyText;
  }

  lemma PrintFromEnd(v: Value, lvl: nat)
    requires v.Obj? || v.Arr?
    ensures PrintFrom(v, |v.children|, lvl) == ""
  {
  }

  lemma NotPrintable(v: Value, i: nat)
    requires (v.Obj? || v.Arr?) && i < |v.children| && !Printable(v.children[i].value)
    ensures !Printable(v)
  {
    assert v.children[i] in v.children;
  }

  lemma AllPrintable(v: Value)
    requires (v.Obj? || v.Arr?) && forall j | 0 <= j < |v.children| :: Printable(v.children[j].value)
    ensures Printable(v)
  {
  }

  /** A node as it stands in its place. */
  function PrintNode(n: Node, lvl: nat, root: bool, inArray: bool): string {
    Tabs(lvl) + ((if root || (n.value.Obj? && inArray) then "" else KeyText(n.key)) + PrintValue(n.value, lvl))
  }

  lemma Regroup(a: string, b: string, c: string, d: string)
    ensures a + b + c + d == a + (b + (c + d))
  {
  }

  lemma Regroup4(a: string, b: string, c: string, d: string, e: string)
    ensures a + b + c + d + e == a + (b + (c + (d + e)))
  {
  }

  /** `nx_json_serialize`: the text of a root, or nothing when the tree holds a null. */
  method SerializeRoot(t: Node) returns (text: Option<string>)
    ensures text == if Printable(t.value) then Some(Print(t)) else None
  {
    hide PrintValue, Printable;
    var s := new Serializer();
    var ok := s.Serialize(t, true, false);
    if !ok {
      return None;
    }
    text := Some(s.str[..s.off]);
    assert "" + (Tabs(0) + ("" + PrintValue(t.value, 0))) == PrintValue(t.value, 0);
  }
}
