/** Slug IDs: five random bytes as eight characters in base 36 (`generateSlugID`). */
module SlugIds {

  const WIDTH: nat := 8

  newtype Byte = b: int | 0 <= b < 256

  /** `big.Int.SetBytes`: the bytes as a big-endian number. */
  function Number(bs: seq<Byte>): nat {
    if bs == [] then 0 else Number(bs[..|bs| - 1]) * 256 + bs[|bs| - 1] as int
  }

  function Digit(d: nat): char
    requires d < 36
  {
    if d < 10 then '0' + d as char else 'a' + (d - 10) as char
  }

  predicate IsDigit(c: char) {
    '0' <= c <= '9' || 'a' <= c <= 'z'
  }

  function DigitValue(c: char): nat
    requires IsDigit(c)
  {
    if '0' <= c <= '9' then (c - '0') as nat else (c - 'a') as nat + 10
  }

  /** `big.Int.Text(36)`. */
  function Text(n: nat): string {
    if n < 36 then [Digit(n)] else Text(n / 36) + [Digit(n % 36)]
  }

  predicate AllDigits(s: string) {
    forall i :: 0 <= i < |s| ==> IsDigit(s[i])
  }

  function Decode(s: string): nat
    requires AllDigits(s)
  {
    if s == [] then 0 else Decode(s[..|s| - 1]) * 36 + DigitValue(s[|s| - 1])
  }

  function Pow36(k: nat): nat {
    if k == 0 then 1 else 36 * Pow36(k - 1)
  }

  function Pow256(k: nat): nat {
    if k == 0 then 1 else 256 * Pow256(k - 1)
  }

  lemma {:induction false} TextDecodes(n: nat)
    ensures AllDigits(Text(n)) && Decode(Text(n)) == n
  {
    if n >= 36 {
      TextDecodes(n / 36);
      assert Text(n)[..|Text(n)| - 1] == Text(n / 36);
    } else {
      assert Text(n)[..0] == [];
    }
  }

  lemma {:induction false} TextIsShort(n: nat, k: nat)
    requires k >= 1 && n < Pow36(k)
    ensures 1 <= |Text(n)| <= k
  {
    if n >= 36 {
      assert Pow36(1) == 36;
      assert n / 36 < Pow36(k - 1) by {
        assert n < 36 * Pow36(k - 1);
      }
      TextIsShort(n / 36, k - 1);
    }
  }

  lemma {:induction false} NumberIsSmall(bs: seq<Byte>)
    ensures Number(bs) < Pow256(|bs|)
  {
    if bs != [] {
      NumberIsSmall(bs[..|bs| - 1]);
    }
  }

  lemma LastByte(a: nat, x: Byte, b: nat, y: Byte)
    requires a * 256 + x as int == b * 256 + y as int
    ensures a == b && x == y
  {
  }

  lemma {:induction false} NumberIsInjective(a: seq<Byte>, b: seq<Byte>)
    requires |a| == |b| && Number(a) == Number(b)
    ensures a == b
  {
    if a != [] {
      var x, y := a[|a| - 1], b[|b| - 1];
      LastByte(Number(a[..|a| - 1]), x, Number(b[..|b| - 1]), y);
      NumberIsInjective(a[..|a| - 1], b[..|b| - 1]);
      assert a == a[..|a| - 1] + [x] && b == b[..|b| - 1] + [y];
    }
  }

  /** A leading zero does not change the value. */
  lemma {:induction false} PadKeepsValue(s: string)
    requires AllDigits(s)
    ensures AllDigits("0" + s) && Decode("0" + s) == Decode(s)
  {
    var t := "0" + s;
    assert forall i :: 0 <= i < |t| ==> t[i] == if i == 0 then '0' else s[i - 1];
    if s == [] {
      assert t[..0] == [];
    } else {
      PadKeepsValue(s[..|s| - 1]);
      assert t[..|t| - 1] == "0" + s[..|s| - 1];
    }
  }

  lemma FiveBytesFit()
    ensures Pow256(5) == 1_099_511_627_776 && Pow36(WIDTH) == 2_821_109_907_456
  {
    assert Pow256(2) == 65_536;
    assert Pow256(4) == 4_294_967_296;
    assert Pow36(2) == 1_296;
    assert Pow36(4) == 1_679_616;
    assert Pow36(6) == 2_176_782_336;
  }

  function Cut(s: string, k: nat): string {
    if |s| > k then s[..k] else s
  }

  function Padded(s: string, k: nat): string
    decreases k - |s|
  {
    if |s| >= k then s else Padded("0" + s, k)
  }

  /** The ID made of five bytes. */
  function SlugId(bs: seq<Byte>): string {
    Padded(Cut(Text(Number(bs)), WIDTH), WIDTH)
  }

  method GenerateSlugID(bs: seq<Byte>) returns (id: string)
    ensures id == SlugId(bs)
  {
    id := Text(Number(bs));
    if |id| > WIDTH {
      id := id[..WIDTH];
    }
    ghost var text := id;
    while |id| < WIDTH
      invariant Padded(id, WIDTH) == Padded(text, WIDTH)
      decreases WIDTH - |id|
    {
      id := "0" + id;
    }
  }

  lemma {:induction false} PaddedDecodes(s: string, k: nat)
    requires AllDigits(s) && |s| <= k
    ensures |Padded(s, k)| == k && AllDigits(Padded(s, k)) && Decode(Padded(s, k)) == Decode(s)
    decreases k - |s|
  {
    if |s| < k {
      PadKeepsValue(s);
      PaddedDecodes("0" + s, k);
    }
  }

  /** Whatever the five bytes, the ID is eight characters of base 36 that decode to their number;
      texts are never too long, so nothing is ever cut off. */
  lemma SlugIdDecodes(bs: seq<Byte>)
    requires |bs| == 5
    ensures |SlugId(bs)| == WIDTH && AllDigits(SlugId(bs)) && Decode(SlugId(bs)) == Number(bs)
    ensures |Text(Number(bs))| <= WIDTH
  {
    NumberIsSmall(bs);
    FiveBytesFit();
    TextDecodes(Number(bs));
    TextIsShort(Number(bs), WIDTH);
    PaddedDecodes(Text(Number(bs)), WIDTH);
  }

  // ---- The ID by its characters ----

  /** What the character with this code stands for in base 36. */
  function CodeValue(code: int): int {
    if code < 58 then code - 48 else code - 87
  }

  lemma FourDigits(s: string, t: string)
    requires |t| == 4 && AllDigits(s) && AllDigits(t)
    ensures AllDigits(s + t) && Decode(s + t) ==
              1_679_616 * Decode(s) + 46_656 * DigitValue(t[0]) + 1_296 * DigitValue(t[1]) + 36 * DigitValue(t[2]) + DigitValue(t[3])
  {
    var u := s + t;
    assert u[..|s| + 3][..|s| + 2] == u[..|s| + 2] && u[..|s| + 2][..|s| + 1] == u[..|s| + 1] && u[..|s| + 1][..|s|] == s;
    assert Decode(u[..|s| + 1]) == Decode(s) * 36 + DigitValue(t[0]);
    assert Decode(u[..|s| + 2]) == Decode(u[..|s| + 1]) * 36 + DigitValue(t[1]);
    assert Decode(u[..|s| + 3]) == Decode(u[..|s| + 2]) * 36 + DigitValue(t[2]);
  }

  lemma NumberOfFive(bs: seq<Byte>)
    requires |bs| == 5
    ensures Number(bs) == 4_294_967_296 * bs[0] as int + 16_777_216 * bs[1] as int + 65_536 * bs[2] as int
                            + 256 * bs[3] as int + bs[4] as int
  {
    assert bs[..4][..3] == bs[..3] && bs[..3][..2] == bs[..2] && bs[..2][..1] == bs[..1] && bs[..1][..0] == [];
    assert Number(bs[..1]) == bs[0] as int;
    assert Number(bs[..2]) == Number(bs[..1]) * 256 + bs[1] as int;
    assert Number(bs[..3]) == Number(bs[..2]) * 256 + bs[2] as int;
    assert Number(bs[..4]) == Number(bs[..3]) * 256 + bs[3] as int;
  }

  /** The ID written out: eight characters from `0` to `9` and `a` to `z`, the most significant
      first, with the value of the bytes, the most significant first. */
  lemma SlugIdIs(bs: seq<Byte>)
    requires |bs| == 5
    ensures |SlugId(bs)| == 8
    ensures forall i :: 0 <= i < 8 ==> 48 <= SlugId(bs)[i] as int < 58 || 97 <= SlugId(bs)[i] as int < 123
    ensures
      var v := seq(8, i requires 0 <= i < 8 => CodeValue(SlugId(bs)[i] as int));
      78_364_164_096 * v[0] + 2_176_782_336 * v[1] + 60_466_176 * v[2] + 1_679_616 * v[3]
      + 46_656 * v[4] + 1_296 * v[5] + 36 * v[6] + v[7]
      == 4_294_967_296 * bs[0] as int + 16_777_216 * bs[1] as int + 65_536 * bs[2] as int + 256 * bs[3] as int + bs[4] as int
  {
    SlugIdDecodes(bs);
    NumberOfFive(bs);
    var id := SlugId(bs);
    assert forall i :: 0 <= i < 8 ==> IsDigit(id[i]) && DigitValue(id[i]) == CodeValue(id[i] as int);
    FourDigits("", id[..4]);
    FourDigits(id[..4], id[4..]);
    assert id == id[..4] + id[4..] && "" + id[..4] == id[..4];
  }

  /** IDs are an injective code of five bytes. */
  lemma SlugIdsAreInjective(a: seq<Byte>, b: seq<Byte>)
    requires |a| == |b| == 5 && SlugId(a) == SlugId(b)
    ensures a == b
  {
    SlugIdDecodes(a);
    SlugIdDecodes(b);
    NumberIsInjective(a, b);
  }
}
