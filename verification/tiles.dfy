/** Tile coordinates, the string key the layer files tiles under, and the
    cached tile record. */
module Tiles {

  /** A tile request: tile column x, tile row y, tile zoom z and the GRIB
      element e ("UGRD", "VGRD", or the layer's own element). */
  datatype Coords = Coords(x: nat, y: nat, z: nat, e: string)

  /** A cached tile: its coordinates, whether the last request asked for it,
      whether its data has arrived, and the decoded values (row-major,
      tnx * tny of them once loaded). */
  datatype Tile = Tile(coords: Coords, current: bool, loaded: bool, data: seq<real>)

  /** A freshly created, not yet loaded tile. */
  function NewTile(c: Coords): (t: Tile)
    ensures t.coords == c && !t.loaded && !t.current
  {
    Tile(c, false, false, [])
  }

  function Digit(d: nat): char
    requires d < 10
  {
    ('0' as int + d) as char
  }

  function DigitValue(ch: char): int
  {
    ch as int - '0' as int
  }

  predicate IsDigit(ch: char) { '0' <= ch <= '9' }

  /** The decimal spelling of a natural number, as JavaScript's string
      concatenation produces it (no sign, no leading zeros). */
  function Dec(n: nat): (s: string)
    ensures |s| >= 1
    ensures forall i :: 0 <= i < |s| ==> IsDigit(s[i])
    ensures n >= 10 ==> |s| >= 2
  {
    if n < 10 then [Digit(n)] else Dec(n / 10) + [Digit(n % 10)]
  }

  /** The value of a string of decimal digits. */
  function DecValue(s: string): int
  {
    if s == [] then 0 else DecValue(s[..|s| - 1]) * 10 + DigitValue(s[|s| - 1])
  }

  /** Reading back a decimal spelling gives the number. */
  lemma {:induction false} DecRoundTrip(n: nat)
    ensures DecValue(Dec(n)) == n
  {
    if n >= 10 {
      DecRoundTrip(n / 10);
      var s := Dec(n);
      assert s[..|s| - 1] == Dec(n / 10);
    }
  }

  /** _tileCoordsToKey: "e:x:y:z". */
  function Key(c: Coords): string
  {
    c.e + ":" + Dec(c.x) + ":" + Dec(c.y) + ":" + Dec(c.z)
  }

  /** A key starts with the element and a ':' and ends with ':' and the
      zoom's digits. */
  lemma KeyParts(c: Coords)
    ensures var k := Key(c);
      |k| >= |c.e| + |Dec(c.z)| + 2 && k[..|c.e| + 1] == c.e + ":" &&
      k[|k| - |Dec(c.z)|..] == Dec(c.z) && k[|k| - |Dec(c.z)| - 1] == ':'
  {
    assert Key(c) == (c.e + ":") + (Dec(c.x) + ":" + Dec(c.y) + ":") + Dec(c.z);
  }

  /** Index of the last ':' in s, or -1 when there is none. */
  function LastColon(s: string): (i: int)
    ensures -1 <= i < |s|
  {
    if s == [] then -1
    else if s[|s| - 1] == ':' then |s| - 1
    else LastColon(s[..|s| - 1])
  }

  /** The last colon of a + ":" + u, for a colon-free u, is the one before u. */
  lemma {:induction false} LastColonBeforeField(a: string, u: string)
    requires forall i :: 0 <= i < |u| ==> u[i] != ':'
    ensures LastColon(a + ":" + u) == |a|
  {
    if u != [] {
      var s := a + ":" + u;
      var u' := u[..|u| - 1];
      assert s[..|s| - 1] == a + ":" + u';
      LastColonBeforeField(a, u');
    }
  }

  /** A string ending in ':' followed by a colon-free field splits in only one
      way at its last colon. */
  lemma SplitAtLastColon(a: string, u: string, b: string, v: string)
    requires a + ":" + u == b + ":" + v
    requires forall i :: 0 <= i < |u| ==> u[i] != ':'
    requires forall i :: 0 <= i < |v| ==> v[i] != ':'
    ensures a == b && u == v
  {
    var s := a + ":" + u;
    LastColonBeforeField(a, u);
    LastColonBeforeField(b, v);
    assert a == s[..|a|];
    assert b == s[..|b|];
    assert u == s[|a| + 1..];
    assert v == s[|b| + 1..];
  }

  lemma DecInjective(m: nat, n: nat)
    requires Dec(m) == Dec(n)
    ensures m == n
  {
    DecRoundTrip(m);
    DecRoundTrip(n);
  }

  lemma DecHasNoColon(n: nat)
    ensures forall i :: 0 <= i < |Dec(n)| ==> Dec(n)[i] != ':'
  {
    var s := Dec(n);
    forall i | 0 <= i < |s|
      ensures s[i] != ':'
    {
      assert IsDigit(s[i]);
    }
  }

  /** Distinct coordinates never share a key, even when the element name
      itself holds colons: the three numeric fields after the last three
      colons are colon-free, so they and the element are recovered from the
      key. */
  lemma KeyInjective(c1: Coords, c2: Coords)
    requires Key(c1) == Key(c2)
    ensures c1 == c2
  {
    DecHasNoColon(c1.x); DecHasNoColon(c1.y); DecHasNoColon(c1.z);
    DecHasNoColon(c2.x); DecHasNoColon(c2.y); DecHasNoColon(c2.z);
    SplitAtLastColon(c1.e + ":" + Dec(c1.x) + ":" + Dec(c1.y), Dec(c1.z),
                     c2.e + ":" + Dec(c2.x) + ":" + Dec(c2.y), Dec(c2.z));
    SplitAtLastColon(c1.e + ":" + Dec(c1.x), Dec(c1.y), c2.e + ":" + Dec(c2.x), Dec(c2.y));
    SplitAtLastColon(c1.e, Dec(c1.x), c2.e, Dec(c2.x));
    DecInjective(c1.x, c2.x);
    DecInjective(c1.y, c2.y);
    DecInjective(c1.z, c2.z);
  }
}
