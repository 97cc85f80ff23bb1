/**
 UTF-8 (RFC 3629): the lengths that the content limit and the budget are measured in
 (internal/crdt/op.go:107-115), and the byte order in which the server compares sites.
 */
module Utf8 {
  import opened Ids
  import opened Utf16
  import opened Docs

  /** A lead byte and `more` continuation bytes of six bits each. */
  function Packed(n: nat, more: nat, lead: int): seq<int>
    decreases more
  {
    if more == 0 then [lead + n] else Packed(n / 0x40, more - 1, lead) + [0x80 + n % 0x40]
  }

  function BytesOf(c: char): seq<int> {
    var n := c as int;
    if n <= 0x7F then Packed(n, 0, 0x00)
    else if n <= 0x7FF then Packed(n, 1, 0xC0)
    else if n <= 0xFFFF then Packed(n, 2, 0xE0)
    else Packed(n, 3, 0xF0)
  }

  function Encoded(s: string): seq<int> {
    if s == "" then [] else BytesOf(s[0]) + Encoded(s[1..])
  }

  lemma {:induction false} PackedSize(n: nat, more: nat, lead: int)
    ensures |Packed(n, more, lead)| == more + 1
    decreases more
  {
    if more > 0 { PackedSize(n / 0x40, more - 1, lead); }
  }

  /** The length the server counts is the number of bytes of the encoding. */
  lemma {:induction false} LengthIsEncoded(s: string)
    ensures Utf8Length(s) == |Encoded(s)|
    ensures |s| <= |Encoded(s)| <= 4 * |s|
  {
    if s != "" {
      var n := s[0] as int;
      PackedSize(n, if n <= 0x7F then 0 else if n <= 0x7FF then 1 else if n <= 0xFFFF then 2 else 3,
                 if n <= 0x7F then 0x00 else if n <= 0x7FF then 0xC0 else if n <= 0xFFFF then 0xE0 else 0xF0);
      LengthIsEncoded(s[1..]);
    }
  }

  // ----- byte order ------------------------------------------------------------------------

  lemma {:induction false} LastDecides(x: seq<int>, y: seq<int>, i: int, j: int, p: seq<int>, q: seq<int>)
    requires |x| == |y| && i != j
    ensures UnitsLess(x + [i] + p, y + [j] + q) <==> UnitsLess(x, y) || (x == y && i < j)
  {
    var a, b := x + [i] + p, y + [j] + q;
    if x == [] {
      assert a[0] == i && b[0] == j;
    } else {
      assert a[0] == x[0] && b[0] == y[0];
      assert a[1..] == x[1..] + [i] + p && b[1..] == y[1..] + [j] + q;
      assert x == [x[0]] + x[1..] && y == [y[0]] + y[1..];
      LastDecides(x[1..], y[1..], i, j, p, q);
    }
  }

  /** Sequences of one length that differ decide the order of whatever they start. */
  lemma {:induction false} StartDecides(x: seq<int>, y: seq<int>, p: seq<int>, q: seq<int>)
    requires |x| == |y| && x != y
    ensures UnitsLess(x + p, y + q) <==> UnitsLess(x, y)
  {
    assert (x + p)[0] == x[0] && (y + q)[0] == y[0];
    assert x == [x[0]] + x[1..] && y == [y[0]] + y[1..];
    if x[0] == y[0] {
      assert (x + p)[1..] == x[1..] + p && (y + q)[1..] == y[1..] + q;
      StartDecides(x[1..], y[1..], p, q);
    }
  }

  lemma {:induction false} PackedOrder(m: nat, n: nat, more: nat, lead: int)
    ensures UnitsLess(Packed(m, more, lead), Packed(n, more, lead)) <==> m < n
    ensures Packed(m, more, lead) == Packed(n, more, lead) <==> m == n
    decreases more
  {
    PackedSize(m, more, lead);
    PackedSize(n, more, lead);
    if more > 0 {
      var x, y := Packed(m / 0x40, more - 1, lead), Packed(n / 0x40, more - 1, lead);
      PackedSize(m / 0x40, more - 1, lead);
      PackedSize(n / 0x40, more - 1, lead);
      PackedOrder(m / 0x40, n / 0x40, more - 1, lead);
      assert m == m / 0x40 * 0x40 + m % 0x40 && n == n / 0x40 * 0x40 + n % 0x40;
      if m % 0x40 != n % 0x40 {
        LastDecides(x, y, 0x80 + m % 0x40, 0x80 + n % 0x40, [], []);
        assert x + [0x80 + m % 0x40] + [] == Packed(m, more, lead);
        assert y + [0x80 + n % 0x40] + [] == Packed(n, more, lead);
        assert Packed(m, more, lead)[more] != Packed(n, more, lead)[more];
      } else if m != n {
        StartDecides(x, y, [0x80 + m % 0x40], [0x80 + n % 0x40]);
        assert Packed(m, more, lead)[..more] == x && Packed(n, more, lead)[..more] == y;
      } else {
        NotBelowItself(Packed(m, more, lead));
      }
    } else {
      assert Packed(m, 0, lead)[1..] == [] && Packed(n, 0, lead)[1..] == [];
    }
  }

  lemma {:induction false} NotBelowItself(x: seq<int>)
    ensures !UnitsLess(x, x)
  {
    if x != [] { NotBelowItself(x[1..]); }
  }

  /** Longer forms have greater lead bytes. */
  lemma LeadByte(c: char)
    ensures BytesOf(c) != []
    ensures var n, b := c as int, BytesOf(c)[0];
      if n <= 0x7F then |BytesOf(c)| == 1 && 0x00 <= b <= 0x7F
      else if n <= 0x7FF then |BytesOf(c)| == 2 && 0xC2 <= b <= 0xDF
      else if n <= 0xFFFF then |BytesOf(c)| == 3 && 0xE0 <= b <= 0xEF
      else |BytesOf(c)| == 4 && 0xF0 <= b <= 0xF4
  {
    var n := c as int;
    if n > 0x7F { assert Packed(n / 0x40, 0, 0xC0) == [0xC0 + n / 0x40]; }
    if n > 0x7FF {
      var q := n / 0x40;
      assert Packed(q / 0x40, 0, 0xE0) == [0xE0 + q / 0x40];
      assert Packed(q, 1, 0xE0) == [0xE0 + q / 0x40, 0x80 + q % 0x40];
    }
    if n > 0xFFFF {
      var q := n / 0x40;
      var p := q / 0x40;
      assert Packed(p / 0x40, 0, 0xF0) == [0xF0 + p / 0x40];
      assert Packed(p, 1, 0xF0) == [0xF0 + p / 0x40, 0x80 + p % 0x40];
      assert Packed(q, 2, 0xF0) == [0xF0 + p / 0x40, 0x80 + p % 0x40, 0x80 + q % 0x40];
    }
  }

  lemma CharactersDecide(c: char, d: char, p: seq<int>, q: seq<int>)
    requires c != d
    ensures UnitsLess(BytesOf(c) + p, BytesOf(d) + q) <==> c < d
  {
    hide Packed;
    var x, y, m, n := BytesOf(c), BytesOf(d), c as int, d as int;
    LeadByte(c);
    LeadByte(d);
    if |x| == |y| {
      var more := |x| - 1;
      PackedOrder(m, n, more, if more == 0 then 0x00 else if more == 1 then 0xC0 else if more == 2 then 0xE0 else 0xF0);
      StartDecides(x, y, p, q);
    } else {
      assert (x + p)[0] == x[0] && (y + q)[0] == y[0];
    }
  }

  /** Code-point order is the order of the encoded bytes, which is how the server compares strings. */
  lemma {:induction false} ByteOrderIsCodePointOrder(a: string, b: string)
    ensures UnitsLess(Encoded(a), Encoded(b)) <==> StrLess(a, b)
  {
    if a != "" { LeadByte(a[0]); }
    if b != "" { LeadByte(b[0]); }
    if a != "" && b != "" {
      if a[0] == b[0] {
        CommonUnits(BytesOf(a[0]), Encoded(a[1..]), Encoded(b[1..]));
        ByteOrderIsCodePointOrder(a[1..], b[1..]);
      } else {
        CharactersDecide(a[0], b[0], Encoded(a[1..]), Encoded(b[1..]));
      }
    }
  }
}
