/** Little-endian numbers of a fixed width. */
module LittleEndian {
  import opened Bytes

  function FromLe(s: seq<byte>): (v: int)
    ensures v >= 0
  {
    if s == [] then 0 else s[0] + (FromLe(s[1..]) * 256)
  }

  /** The low n bytes of v in two's complement, as storing v in an n-byte field leaves them. */
  function ToLe(v: int, n: nat): (s: seq<byte>)
    ensures |s| == n
    decreases n
  {
    if n == 0 then [] else [v % 256] + ToLe(v / 256, n - 1)
  }

  function Pow256(n: nat): (p: nat)
    ensures p > 0
  {
    if n == 0 then 1 else 256 * Pow256(n - 1)
  }

  /** Reading a field back gives the value modulo the field's range. */
  lemma {:induction false} FieldRoundTrip(v: int, n: nat)
    ensures FromLe(ToLe(v, n)) == v % Pow256(n)
    decreases n
  {
    if n > 0 {
      var p := Pow256(n - 1);
      var q, r := v / 256, v % 256;
      var m := q % p;
      FieldRoundTrip(q, n - 1);
      assert ToLe(v, n)[1..] == ToLe(q, n - 1);
      Regroup(v, p, q / p, m, r);
      DivModOf(q / p, 256 * p, 256 * m + r);
    }
  }

  lemma Regroup(v: int, p: nat, k: int, m: int, r: int)
    requires v == 256 * (p * k + m) + r && 0 <= m < p && 0 <= r < 256
    ensures v == k * (256 * p) + (256 * m + r) && 0 <= 256 * m + r < 256 * p
  {
  }

  lemma FieldExact(v: nat, n: nat)
    requires v < Pow256(n)
    ensures FromLe(ToLe(v, n)) == v
  {
    FieldRoundTrip(v, n);
    DivModOf(0, Pow256(n), v);
  }

  lemma Widths()
    ensures Pow256(2) == 65536 && Pow256(4) == 0x1_0000_0000
  {
    assert Pow256(3) == 16777216;
  }

  /** Two and four bytes as numbers, the low byte first. */
  function Half(lo: byte, hi: byte): (v: int) {
    lo + 256 * hi
  }

  function Word(a: byte, b: byte, c: byte, d: byte): (v: int) {
    a + 256 * b + 65536 * c + 16777216 * d
  }

  lemma FromHalf(s: seq<byte>)
    requires |s| == 2
    ensures FromLe(s) == Half(s[0], s[1])
  {
    assert FromLe(s[1..]) == s[1] + FromLe(s[1..][1..]) * 256;
    assert s[1..][1..] == [];
  }

  lemma FromWord(s: seq<byte>)
    requires |s| == 4
    ensures FromLe(s) == Word(s[0], s[1], s[2], s[3])
  {
    var high := s[2..];
    FromHalf(high);
    assert s[1..][1..] == high;
    assert FromLe(s[1..]) == s[1] + FromLe(high) * 256;
  }
}
