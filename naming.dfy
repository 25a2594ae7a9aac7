/** Tile file names: `f{field}/f{field}_{x}_{y}_{edge}pix.jpg`, where every
    number is written as Python's `str()` writes an integer. */
module Naming {

  predicate IsDigit(c: char) { '0' <= c <= '9' }

  /** The characters an integer's decimal form can contain. */
  predicate IsNumeral(c: char) { IsDigit(c) || c == '-' }

  predicate AllNumeral(s: string) { forall i :: 0 <= i < |s| ==> IsNumeral(s[i]) }

  /** The decimal digits of a natural number, most significant first, without
      leading zeros. */
  function NatStr(n: nat): (s: string)
    ensures |s| > 0 && IsDigit(s[0])
    ensures forall i :: 0 <= i < |s| ==> IsDigit(s[i])
    decreases n
  {
    if n < 10 then [('0' as int + n) as char]
    else NatStr(n / 10) + [('0' as int + n % 10) as char]
  }

  /** The value of a string of decimal digits. */
  function NatValue(s: string): (v: nat)
    requires forall i :: 0 <= i < |s| ==> IsDigit(s[i])
  {
    if s == [] then 0
    else NatValue(s[..|s| - 1]) * 10 + DigitValue(s[|s| - 1])
  }

  function DigitValue(c: char): (d: nat)
    requires IsDigit(c)
  {
    c as int - '0' as int
  }

  /** Reading the decimal digits back gives the number. */
  lemma {:induction false} NatStrRoundTrip(n: nat)
    ensures NatValue(NatStr(n)) == n
    decreases n
  {
    var s := NatStr(n);
    if n >= 10 {
      assert s[..|s| - 1] == NatStr(n / 10);
      NatStrRoundTrip(n / 10);
    }
  }

  /** `str()` of an integer: a minus sign before the digits of a negative one. */
  function IntStr(i: int): (s: string)
    ensures |s| > 0 && AllNumeral(s)
    ensures s[0] == '-' <==> i < 0
  {
    if i < 0 then "-" + NatStr(-i) else NatStr(i)
  }

  /** Different integers are written differently. */
  lemma {:induction false} IntStrInjective(a: int, b: int)
    requires IntStr(a) == IntStr(b)
    ensures a == b
  {
    if a < 0 && b < 0 {
      assert NatStr(-a) == IntStr(a)[1..] == IntStr(b)[1..] == NatStr(-b);
      NatStrRoundTrip(-a);
      NatStrRoundTrip(-b);
    } else if a >= 0 && b >= 0 {
      NatStrRoundTrip(a);
      NatStrRoundTrip(b);
    }
  }

  /** A numeral followed by a separator that cannot occur in a numeral is read
      back unambiguously. */
  lemma {:induction false} SplitAtSeparator(s: string, t: string, s': string, t': string)
    requires AllNumeral(s) && AllNumeral(s')
    requires |t| > 0 && !IsNumeral(t[0]) && |t'| > 0 && !IsNumeral(t'[0])
    requires s + t == s' + t'
    ensures s == s' && t == t'
  {
    if |s| < |s'| {
      ConcatAt(s', t', |s|);
      assert false;
    } else if |s'| < |s| {
      ConcatAt(s, t, |s'|);
      assert false;
    } else {
      assert s == (s + t)[..|s|];
      assert s' == (s' + t')[..|s|];
      assert t == (s + t)[|s|..];
      assert t' == (s' + t')[|s|..];
    }
  }

  /** Indexing into a concatenation. */
  lemma {:induction false} ConcatAt(s: string, t: string, k: int)
    requires 0 <= k < |s| + |t|
    ensures (s + t)[k] == if k < |s| then s[k] else t[k - |s|]
  {
  }

  /** The name under which make_images saves the tile of edge `edge` for the
      catalog pixel (x, y) of `field`. */
  function TileName(field: int, x: int, y: int, edge: int): (name: string)
  {
    "f" + (IntStr(field) + ("/f" + (IntStr(field) + ("_" + (IntStr(x) + ("_" + (IntStr(y)
      + ("_" + (IntStr(edge) + "pix.jpg")))))))))
  }

  /** A tile lies in the directory of its field: its name starts with
      `f{field}/`. */
  lemma {:induction false} TileNameLayout(field: int, x: int, y: int, edge: int)
    ensures var name := TileName(field, x, y, edge);
            var f := IntStr(field);
            && |name| > |f| + 1
            && name[0] == 'f' && name[1..|f| + 1] == f && name[|f| + 1] == '/'
  {
    var f := IntStr(field);
    var rest := "/f" + (f + ("_" + (IntStr(x) + ("_" + (IntStr(y) + ("_" + (IntStr(edge) + "pix.jpg")))))));
    var name := TileName(field, x, y, edge);
    assert name == "f" + (f + rest);
    assert name[1..] == f + rest;
    assert (f + rest)[..|f|] == f;
    assert (f + rest)[|f|] == rest[0] == '/';
  }

  /** A tile name determines the field, the catalog pixel and the edge length. */
  lemma {:induction false} TileNameInjective(field: int, x: int, y: int, edge: int,
                          field': int, x': int, y': int, edge': int)
    requires TileName(field, x, y, edge) == TileName(field', x', y', edge')
    ensures field == field' && x == x' && y == y' && edge == edge'
  {
    var tail3 := "_" + (IntStr(edge) + "pix.jpg");
    var tail3' := "_" + (IntStr(edge') + "pix.jpg");
    var tail2 := "_" + (IntStr(y) + tail3);
    var tail2' := "_" + (IntStr(y') + tail3');
    var tail1 := "_" + (IntStr(x) + tail2);
    var tail1' := "_" + (IntStr(x') + tail2');
    var tail0 := "/f" + (IntStr(field) + tail1);
    var tail0' := "/f" + (IntStr(field') + tail1');
    var n := TileName(field, x, y, edge);
    var n' := TileName(field', x', y', edge');
    assert n == "f" + (IntStr(field) + tail0);
    assert n' == "f" + (IntStr(field') + tail0');
    assert n[1..] == IntStr(field) + tail0;
    assert n'[1..] == IntStr(field') + tail0';
    SplitAtSeparator(IntStr(field), tail0, IntStr(field'), tail0');
    IntStrInjective(field, field');
    assert tail0[2..] == IntStr(field) + tail1;
    assert tail0'[2..] == IntStr(field') + tail1';
    SplitAtSeparator(IntStr(field), tail1, IntStr(field'), tail1');
    assert tail1[1..] == IntStr(x) + tail2;
    assert tail1'[1..] == IntStr(x') + tail2';
    SplitAtSeparator(IntStr(x), tail2, IntStr(x'), tail2');
    IntStrInjective(x, x');
    assert tail2[1..] == IntStr(y) + tail3;
    assert tail2'[1..] == IntStr(y') + tail3';
    SplitAtSeparator(IntStr(y), tail3, IntStr(y'), tail3');
    IntStrInjective(y, y');
    assert tail3[1..] == IntStr(edge) + "pix.jpg";
    assert tail3'[1..] == IntStr(edge') + "pix.jpg";
    SplitAtSeparator(IntStr(edge), "pix.jpg", IntStr(edge'), "pix.jpg");
    IntStrInjective(edge, edge');
  }

  /** For one record, two different sizes of the size list give two different
      file names, so no tile overwrites another tile of the same record. */
  lemma {:induction false} DistinctSizesDistinctNames(field: int, x: int, y: int, size: int, size': int)
    requires size != size'
    ensures TileName(field, x, y, 2 * size) != TileName(field, x, y, 2 * size')
  {
    if TileName(field, x, y, 2 * size) == TileName(field, x, y, 2 * size') {
      TileNameInjective(field, x, y, 2 * size, field, x, y, 2 * size');
    }
  }

  /** The name of the field-3 tile of edge 10 for catalog pixel (42, -7). */
  lemma {:induction false} TileNameExample()
    ensures TileName(3, 42, -7, 10) == "f3/f3_42_-7_10pix.jpg"
  {
  }
}
