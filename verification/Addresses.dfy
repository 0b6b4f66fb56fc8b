/** Dotted quads and subnets, in the arithmetic of internal/api/web/peers.js. */
module Addresses {
  import opened Wrappers
  import opened Bits
  import Decimal
  import opened Text

  // ----- dotted quads ------------------------------------------------------------------------------

  function Combine(a: nat, b: nat, c: nat, d: nat): nat { a * 16777216 + b * 65536 + c * 256 + d }

  /** Four groups of digits with dots, and the number they stand for; no group is limited to 255. */
  function Quad(s: string): Option<nat>
  {
    var g := Split(s, '.');
    if |g| == 4 && Decimal.Numeral(g[0]) && Decimal.Numeral(g[1]) && Decimal.Numeral(g[2]) && Decimal.Numeral(g[3]) then
      Some(Combine(Decimal.Value(g[0]), Decimal.Value(g[1]), Decimal.Value(g[2]), Decimal.Value(g[3])))
    else None
  }

  /** The four bytes of a number, taken with shifts and masks, from the highest, with dots between. */
  function Dotted(n: nat): string
  {
    Decimal.Print(And(Shr(n, 24), 255)) + "." + Decimal.Print(And(Shr(n, 16), 255)) + "."
    + Decimal.Print(And(Shr(n, 8), 255)) + "." + Decimal.Print(And(n, 255))
  }

  lemma NumeralHasNo(s: string, c: char)
    requires Decimal.AllDigits(s) && !Decimal.IsDigit(c)
    ensures c !in s
  {
  }

  /** The regular expression matches the texts of this form, and no others. */
  lemma QuadOf(a: string, b: string, c: string, d: string)
    requires Decimal.Numeral(a) && Decimal.Numeral(b) && Decimal.Numeral(c) && Decimal.Numeral(d)
    ensures Quad(a + "." + b + "." + c + "." + d)
            == Some(Combine(Decimal.Value(a), Decimal.Value(b), Decimal.Value(c), Decimal.Value(d)))
  {
    NumeralHasNo(a, '.'); NumeralHasNo(b, '.'); NumeralHasNo(c, '.'); NumeralHasNo(d, '.');
    hide Split, Decimal.Numeral, Quad, Combine, Decimal.Value, Decimal.AllDigits;
    SplitIn4(a, b, c, d, '.');
    QuadGroups(a + "." + b + "." + c + "." + d, [a, b, c, d]);
  }

  lemma QuadGroups(s: string, g: seq<string>)
    requires Split(s, '.') == g && |g| == 4 && Decimal.Numeral(g[0]) && Decimal.Numeral(g[1])
        && Decimal.Numeral(g[2]) && Decimal.Numeral(g[3])
    ensures Quad(s) == Some(Combine(Decimal.Value(g[0]), Decimal.Value(g[1]), Decimal.Value(g[2]), Decimal.Value(g[3])))
  {
    hide Split, Combine, Decimal.Value;
    hide Decimal.Numeral;
  }

  lemma SplitIn4(a: string, b: string, c: string, d: string, dot: char)
    requires dot !in a && dot !in b && dot !in c && dot !in d
    ensures Split(a + [dot] + b + [dot] + c + [dot] + d, dot) == [a, b, c, d]
  {
    hide Split;
    var s, s1, s2 := a + [dot] + b + [dot] + c + [dot] + d, b + [dot] + c + [dot] + d, c + [dot] + d;
    assert s == a + [dot] + s1;
    assert s1 == b + [dot] + s2;
    SplitFirst(a, s1, dot);
    SplitFirst(b, s2, dot);
    SplitFirst(c, d, dot);
    SplitNone(d, dot);
  }

  lemma QuadOnlyOf(s: string)
    requires Quad(s).Some?
    ensures exists a, b, c, d ::
              Decimal.Numeral(a) && Decimal.Numeral(b) && Decimal.Numeral(c) && Decimal.Numeral(d)
                  && s == a + "." + b + "." + c + "." + d
  {
    var g := Split(s, '.');
    SplitThenJoin(s, '.');
    hide Split, Decimal.Numeral;
    assert Join(g, '.') == g[0] + ['.'] + (g[1] + ['.'] + (g[2] + ['.'] + g[3])) by {
      assert Join(g[3..], '.') == g[3] && Join(g[2..], '.') == g[2] + ['.'] + Join(g[2..][1..], '.');
      assert g[2..][1..] == g[3..] && g[1..][1..] == g[2..];
    }
    assert s == g[0] + "." + g[1] + "." + g[2] + "." + g[3];
  }

  lemma Byte255(n: nat)
    ensures And(n, 255) == n % 256
  {
    Pow2Values();
    hide And, Shr, Shl, Pow2;
    AndLow(n, 8);
    ShlValues(Shr(n, 8));
  }

  lemma CombineBytes(n: nat)
    requires n < 0x1_0000_0000
    ensures Combine(n / 0x100 / 0x100 / 0x100, n / 0x100 / 0x100 % 256, n / 0x100 % 256, n % 256) == n
  {
  }

  lemma DottedBytes(n: nat)
    requires n < 0x1_0000_0000
    ensures Dotted(n)
            == Decimal.Print(n / 0x100 / 0x100 / 0x100) + "." + Decimal.Print(n / 0x100 / 0x100 % 256) + "."
            + Decimal.Print(n / 0x100 % 256) + "." + Decimal.Print(n % 256)
  {
    hide And, Shr, Decimal.Print;
    ShrValues(n);
    Byte255(Shr(n, 24)); Byte255(Shr(n, 16)); Byte255(Shr(n, 8)); Byte255(n);
  }

  /** Printing an address and reading it back gives the address, for every 32-bit address. */
  lemma DottedThenQuad(n: nat)
    requires n < 0x1_0000_0000
    ensures Quad(Dotted(n)) == Some(n)
  {
    hide Quad, Dotted, Combine, Decimal.Print, Decimal.Value;
    DottedBytes(n);
    CombineBytes(n);
    var a, b, c, d := n / 0x100 / 0x100 / 0x100, n / 0x100 / 0x100 % 256, n / 0x100 % 256, n % 256;
    Decimal.PrintThenValue(a); Decimal.PrintThenValue(b); Decimal.PrintThenValue(c); Decimal.PrintThenValue(d);
    QuadOf(Decimal.Print(a), Decimal.Print(b), Decimal.Print(c), Decimal.Print(d));
  }

  // ----- subnets -----------------------------------------------------------------------------------

  const ALL_ONES := 0xFFFF_FFFF

  /** The address an interface owns, and the network and broadcast addresses of its subnet. */
  datatype Subnet = Subnet(ip: nat, net: nat, bcast: nat)

  /** Four groups of digits with dots, a slash and digits: the address and the prefix length. */
  function Cidr(s: string): Option<(nat, nat)>
  {
    var g := Split(s, '/');
    if |g| == 2 && Quad(g[0]).Some?
        && Decimal.Numeral(g[1]) then Some((Quad(g[0]).value, Decimal.Value(g[1]))) else None
  }

  function QuadText(a: string, b: string, c: string, d: string): string { a + "." + b + "." + c + "." + d }

  function CidrText(a: string, b: string, c: string, d: string, p: string): string { QuadText(a, b, c, d) + "/" + p }

  /** A quad with a slash and digits matches, and has the values of both. */
  lemma CidrOf(a: string, b: string, c: string, d: string, p: string)
    requires Decimal.Numeral(a) && Decimal.Numeral(b) && Decimal.Numeral(c) && Decimal.Numeral(d) && Decimal.Numeral(p)
    ensures Cidr(CidrText(a, b, c, d, p))
            == Some((Combine(Decimal.Value(a), Decimal.Value(b), Decimal.Value(c), Decimal.Value(d)), Decimal.Value(p)))
  {
    NoSlash(a, b, c, d);
    QuadOf(a, b, c, d);
    assert Quad(QuadText(a, b, c, d)).Some?;
    assert CidrText(a, b, c, d, p) == QuadText(a, b, c, d) + "/" + p;
    hide *;
    CidrOfParts(QuadText(a, b, c, d), p);
  }

  lemma CidrOfParts(q: string, p: string)
    requires '/' !in q && Quad(q).Some? && Decimal.Numeral(p)
    ensures Cidr(q + "/" + p) == Some((Quad(q).value, Decimal.Value(p)))
  {
    NumeralHasNo(p, '/');
    hide Quad, Split, Cidr, Decimal.Numeral, Decimal.Value, Decimal.AllDigits;
    SplitIn2(q, p, '/');
    CidrGroups(q + "/" + p, [q, p]);
  }

  lemma NoSlash(a: string, b: string, c: string, d: string)
    requires Decimal.AllDigits(a) && Decimal.AllDigits(b) && Decimal.AllDigits(c) && Decimal.AllDigits(d)
    ensures '/' !in QuadText(a, b, c, d)
  {
    NumeralHasNo(a, '/'); NumeralHasNo(b, '/'); NumeralHasNo(c, '/'); NumeralHasNo(d, '/');
    hide Decimal.AllDigits;
  }

  lemma SplitIn2(a: string, b: string, c: char)
    requires c !in a && c !in b
    ensures Split(a + [c] + b, c) == [a, b]
  {
    hide Split;
    SplitFirst(a, b, c);
    SplitNone(b, c);
  }

  lemma CidrGroups(s: string, g: seq<string>)
    requires Split(s, '/') == g && |g| == 2 && Quad(g[0]).Some? && Decimal.Numeral(g[1])
    ensures Cidr(s) == Some((Quad(g[0]).value, Decimal.Value(g[1])))
  {
    hide Split, Quad, Decimal.Value;
    hide Decimal.Numeral;
  }

  /** Nothing else matches. */
  lemma CidrOnlyOf(s: string)
    requires Cidr(s).Some?
    ensures exists a, b, c, d, p ::
              && Decimal.Numeral(a) && Decimal.Numeral(b) && Decimal.Numeral(c) && Decimal.Numeral(d)
              && Decimal.Numeral(p) && Decimal.Value(p) == Cidr(s).value.1 && s == CidrText(a, b, c, d, p)
  {
    var g := Split(s, '/');
    SplitThenJoin(s, '/');
    QuadOnlyOf(g[0]);
    hide Split, Quad, Decimal.Numeral, Decimal.Value;
    var a, b, c, d :| Decimal.Numeral(a) && Decimal.Numeral(b) && Decimal.Numeral(c) && Decimal.Numeral(d)
                      && g[0] == a + "." + b + "." + c + "." + d;
    assert g[1..] == [g[1]] && Join(g, '/') == g[0] + ['/'] + g[1];
    assert s == CidrText(a, b, c, d, g[1]);
  }

  /** Ones in the upper `prefix` of 32 bits: all ones shifted left, cut to 32 bits. */
  function MaskOf(prefix: nat): nat
    requires 8 <= prefix <= 30
  {
    Shl(ALL_ONES, 32 - prefix) % 0x1_0000_0000
  }

  /** JavaScript's `&` and `|` on a number above 32 bits look at its low 32 bits. */
  function SubnetOf(ip: nat, prefix: nat): Subnet
    requires 8 <= prefix <= 30
  {
    var net := And(ip % 0x1_0000_0000, MaskOf(prefix));
    Subnet(ip, net, Or(net, ALL_ONES - MaskOf(prefix)))
  }

  function ReadSubnet(s: string): Option<Subnet>
  {
    var m := Cidr(s);
    if m.None? || m.value.1 < 8 || m.value.1 > 30 then None else Some(SubnetOf(m.value.0, m.value.1))
  }

  lemma {:induction false} ShlIsProduct(a: nat, k: nat)
    ensures Shl(a, k) == a * Pow2(k)
  {
    if k == 0 {
    } else {
      ShlIsProduct(a, k - 1);
      assert 2 * (a * Pow2(k - 1)) == a * (2 * Pow2(k - 1));
    }
  }

  lemma {:induction false} ShlOnes(j: nat, k: nat)
    ensures Shl(Pow2(j) - 1, k) == Pow2(j + k) - Pow2(k)
  {
    if k == 0 {
    } else {
      ShlOnes(j, k - 1);
    }
  }

  lemma {:induction false} Pow2Grows(j: nat, k: nat)
    requires j <= k
    ensures Pow2(j) <= Pow2(k)
    decreases k
  {
    if j >= k {
    } else {
      Pow2Grows(j, k - 1);
    }
  }

  lemma {:induction false} ShrSmaller(a: nat, j: nat, k: nat)
    requires a < Pow2(j + k)
    ensures Shr(a, k) < Pow2(j)
  {
    if k == 0 {
    } else {
      ShrSmaller(a / 2, j, k - 1);
    }
  }

  /** A mask of ones above what the number has changes nothing. */
  lemma {:induction false} AndAll(a: nat, j: nat)
    requires a < Pow2(j)
    ensures And(a, Pow2(j) - 1) == a
  {
    if a == 0 {
    } else {
      AndAll(a / 2, j - 1);
    }
  }

  lemma Pow2At32()
    ensures Pow2(32) == 0x1_0000_0000
  {
    Pow2Values();
    ShlIsProduct(0x1_0000, 16);
    ShlValues(0x1_0000);
    ShlOnes(16, 16);
    ShlIsProduct(Pow2(16) - 1, 16);
  }

  lemma MaskIsHighOnes(prefix: nat)
    requires 8 <= prefix <= 30
    ensures MaskOf(prefix) == Shl(Pow2(prefix) - 1, 32 - prefix) == 0x1_0000_0000 - Pow2(32 - prefix)
  {
    var h := 32 - prefix;
    Pow2At32();
    Pow2Grows(h, 32);
    ShlOnes(prefix, h);
    ShlIsProduct(ALL_ONES, h);
    hide Shl, Pow2;
    WrapOnes(Pow2(h));
  }

  lemma WrapOnes(p: nat)
    requires 0 < p <= 0x1_0000_0000
    ensures ALL_ONES * p % 0x1_0000_0000 == 0x1_0000_0000 - p
  {
    assert ALL_ONES * p == 0x1_0000_0000 * (p - 1) + (0x1_0000_0000 - p);
  }

  lemma RemainderOf(n: nat, q: nat, p: nat, r: nat)
    requires n == q * p + r && r < p
    ensures n % p == r
  {
    var m := n / p;
    assert n == m * p + n % p;
    if m < q {
      Above(m, q, p);
    } else if q < m {
      Above(q, m, p);
    }
  }

  lemma {:induction false} Above(a: nat, b: nat, p: nat)
    requires a < b
    ensures a * p + p <= b * p
  {
    if a + 1 >= b {
    } else {
      Above(a, b - 1, p);
    }
  }

  /** The masks and bit operators give the aligned block of 2^(32 - prefix) addresses around the interface's. */
  lemma SubnetIsAlignedBlock(ip: nat, prefix: nat)
    requires 8 <= prefix <= 30
    ensures var low, size := ip % 0x1_0000_0000, Pow2(32 - prefix);
            && SubnetOf(ip, prefix).net == low - low % size
            && SubnetOf(ip, prefix).bcast == low - low % size + size - 1 < 0x1_0000_0000
  {
    var h, low := 32 - prefix, ip % 0x1_0000_0000;
    Pow2At32();
    ShrSmaller(low, prefix, h);
    hide And, Or, Shr, Shl, Pow2, MaskOf;
    BlockInBits(low, prefix);
    AndLow(low, h);
    ShlIsProduct(Shr(low, h), h);
    RemainderOf(low, Shr(low, h), Pow2(h), And(low, Pow2(h) - 1));
    BlockFits(Shr(low, h), prefix, h);
  }

  lemma BlockInBits(low: nat, prefix: nat)
    requires 8 <= prefix <= 30 && low < 0x1_0000_0000
    ensures var h := 32 - prefix;
            var block := Shl(Shr(low, h), h);
            And(low, MaskOf(prefix)) == block && Or(block, ALL_ONES - MaskOf(prefix)) == block + Pow2(h) - 1
  {
    var h := 32 - prefix;
    MaskIsHighOnes(prefix);
    Pow2At32();
    ShrSmaller(low, prefix, h);
    hide And, Or, Shr, Shl, Pow2, MaskOf;
    assert And(low, MaskOf(prefix)) == Shl(Shr(low, h), h) by {
      AndHigh(low, Pow2(prefix) - 1, h);
      AndAll(Shr(low, h), prefix);
    }
    OrFields(Shr(low, h), Pow2(h) - 1, h);
  }

  lemma {:induction false} Pow2Product(j: nat, k: nat)
    ensures Shl(Pow2(j), k) == Pow2(j + k)
  {
    if k == 0 {
    } else {
      Pow2Product(j, k - 1);
    }
  }

  /** A block of 2^h addresses whose number has `prefix` bits lies below 2^32. */
  lemma BlockFits(q: nat, prefix: nat, h: nat)
    requires prefix + h == 32 && q < Pow2(prefix)
    ensures q * Pow2(h) + Pow2(h) <= 0x1_0000_0000
  {
    Pow2At32();
    Pow2Product(prefix, h);
    ShlIsProduct(Pow2(prefix), h);
    hide Pow2, Shl;
    Above(q, Pow2(prefix), Pow2(h));
  }
}
