/** Integers as little-endian byte strings of a fixed width, as the packed structures hold them. */
module LittleEndian {
  import opened Prelude

  function Le(n: nat, width: nat): (bs: Bytes)
    ensures |bs| == width
  {
    if width == 0 then [] else [(n % 0x100) as byte] + Le(n / 0x100, width - 1)
  }

  function FromLe(bs: Bytes): nat {
    if bs == [] then 0 else bs[0] as nat + 0x100 * FromLe(bs[1..])
  }

  function Pow256(width: nat): nat {
    if width == 0 then 1 else 0x100 * Pow256(width - 1)
  }

  lemma {:induction false} FromLeBound(bs: Bytes)
    ensures FromLe(bs) < Pow256(|bs|)
  {
    if bs == [] {
    } else {
      FromLeBound(bs[1..]);
    }
  }

  /** A value that fits is read back as written. */
  lemma {:induction false} LeRoundTrip(n: nat, width: nat)
    requires n < Pow256(width)
    ensures FromLe(Le(n, width)) == n
  {
    if width == 0 {
    } else {
      LeRoundTrip(n / 0x100, width - 1);
      assert Le(n, width)[1..] == Le(n / 0x100, width - 1);
    }
  }

  /** A value that does not fit is cut to its low bytes. */
  lemma {:induction false} LeWraps(n: nat, width: nat)
    ensures Pow256(width) > 0 && FromLe(Le(n, width)) == n % Pow256(width)
  {
    if width == 0 {
    } else {
      var p := Pow256(width - 1);
      LeWraps(n / 0x100, width - 1);
      assert Le(n, width)[1..] == Le(n / 0x100, width - 1);
      SplitMod(n, p);
    }
  }

  lemma SplitMod(n: nat, p: nat)
    requires p > 0
    ensures n % (0x100 * p) == n % 0x100 + 0x100 * ((n / 0x100) % p)
  {
    var q, r := n / 0x100, n % 0x100;
    var a, b := q / p, q % p;
    assert n == (0x100 * p) * a + (r + 0x100 * b);
    ModIs(n, 0x100 * p, a, r + 0x100 * b);
  }

  lemma ModIs(n: nat, m: nat, q: nat, r: nat)
    requires m > 0 && n == m * q + r && r < m
    ensures n % m == r
  {
    var q', r' := n / m, n % m;
    assert n == m * q' + r';
    OneQuotient(m, q, r, q', r');
  }

  lemma OneQuotient(m: nat, q: nat, r: nat, q': nat, r': nat)
    requires r < m && r' < m && m * q + r == m * q' + r'
    ensures r == r'
  {
    if q < q' { StepUp(m, q, q'); }
    if q' < q { StepUp(m, q', q); }
  }

  lemma {:induction false} StepUp(m: nat, q: nat, q': nat)
    requires q < q'
    ensures m * q + m <= m * q'
  {
    assert m * q' == m * (q' - 1) + m;
    if q + 1 >= q' {
    } else {
      StepUp(m, q, q' - 1);
    }
  }

  lemma Widths()
    ensures Pow256(2) == 0x1_0000 && Pow256(4) == 0x1_0000_0000
  {
    assert Pow256(2) == 0x100 * Pow256(1) && Pow256(1) == 0x100 * Pow256(0);
    assert Pow256(4) == 0x100 * Pow256(3) && Pow256(3) == 0x100 * Pow256(2);
  }

  /** What two and four bytes stand for: the first is the lowest. */
  lemma FromLeIs(bs: Bytes)
    ensures |bs| == 2 ==> FromLe(bs) == bs[0] as nat + 0x100 * bs[1] as nat
    ensures |bs| == 4 ==>
      FromLe(bs) == bs[0] as nat + 0x100 * bs[1] as nat + 0x1_0000 * bs[2] as nat + 0x100_0000 * bs[3] as nat
  {
    if |bs| == 2 {
      assert FromLe(bs) == bs[0] as nat + 0x100 * (bs[1] as nat + 0x100 * FromLe(bs[1..][1..]));
    } else if |bs| == 4 {
      var t := bs[2..];
      assert bs[1..][1..] == t && t[1..][1..] == [];
      assert FromLe(t) == t[0] as nat + 0x100 * (t[1] as nat + 0x100 * FromLe([]));
      assert FromLe(bs) == bs[0] as nat + 0x100 * (bs[1] as nat + 0x100 * FromLe(t));
    }
  }

  lemma Le16(n: nat)
    requires n < 0x1_0000
    ensures FromLe(Le(n, 2)) == n == Le(n, 2)[0] as nat + 0x100 * Le(n, 2)[1] as nat
  {
    hide Le, FromLe;
    Widths();
    LeRoundTrip(n, 2);
    FromLeIs(Le(n, 2));
  }

  lemma Le32(n: nat)
    requires n < 0x1_0000_0000
    ensures FromLe(Le(n, 4)) == n
    ensures var bs := Le(n, 4);
      n == bs[0] as nat + 0x100 * bs[1] as nat + 0x1_0000 * bs[2] as nat + 0x100_0000 * bs[3] as nat
  {
    hide Le, FromLe;
    Widths();
    LeRoundTrip(n, 4);
    FromLeIs(Le(n, 4));
  }
}
