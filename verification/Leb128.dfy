/** Variable-length and fixed-length numbers, as in sections 7.6 and 7.23 of DWARF 4, and their readers.
    The readers shift each group of seven bits in an int. The model leaves open how wide that shift is:
    32 bits as coded, or the 64 that the length check after it provides for. A shift that is too long or
    whose result is not representable has no value. */
module Leb128 {
  import opened Wrappers

  type Byte = b: nat | b < 256

  /** A number that was read, and the position after it. */
  datatype Read = Read(value: int, next: nat)

  predicate IsWidth(w: nat) { w == 32 || w == 64 }

  const TWO64 := 0x1_0000_0000_0000_0000

  /** What a signed shift of the given width cannot reach. */
  function Limit(w: nat): nat
    requires IsWidth(w)
  {
    if w == 32 then 0x8000_0000 else 0x8000_0000_0000_0000
  }

  /** 128 to the power k. */
  function Weight(k: nat): (r: nat)
    ensures r > 0
  {
    if k == 0 then 1 else 128 * Weight(k - 1)
  }

  lemma SmallWeights()
    ensures Weight(0) == 1 && Weight(1) == 0x80 && Weight(2) == 0x4000 && Weight(3) == 0x20_0000
    ensures Weight(4) == 0x1000_0000 && Weight(5) == 0x8_0000_0000 && Weight(6) == 0x400_0000_0000
    ensures Weight(7) == 0x2_0000_0000_0000 && Weight(8) == 0x100_0000_0000_0000 && Weight(9) == Limit(64)
  {
    assert Weight(3) == 0x20_0000;
    assert Weight(6) == 0x400_0000_0000;
  }

  // ---- Reading ----

  /** The bytes from pos on as a number whose lowest group is the n-th: the groups have no bits in
      common, so that or-ing them together adds them. */
  function UlebFrom(w: nat, bytes: seq<Byte>, pos: nat, n: nat): Option<Read>
    requires IsWidth(w)
    decreases |bytes| - pos
  {
    if pos >= |bytes| then None
    else
      var group := bytes[pos] % 128;
      if 7 * n >= w || group * Weight(n) >= Limit(w) then None
      else if bytes[pos] < 128 then Some(Read(group * Weight(n), pos + 1))
      else Plus(group * Weight(n), UlebFrom(w, bytes, pos + 1, n + 1))
  }

  function Plus(x: int, r: Option<Read>): Option<Read> {
    if r.None? then None else Some(Read(x + r.value.value, r.value.next))
  }

  function Uleb(w: nat, bytes: seq<Byte>, pos: nat): Option<Read>
    requires IsWidth(w)
  {
    var r := UlebFrom(w, bytes, pos, 0);
    if r.None? || 7 * (r.value.next - pos) >= 64 then None else r
  }

  method ReadUleb128(w: nat, bytes: seq<Byte>, cur: nat) returns (r: Option<Read>)
    requires IsWidth(w)
    ensures r == Uleb(w, bytes, cur)
  {
    var working, pos := 0, cur;
    while true
      invariant cur <= pos
      invariant UlebFrom(w, bytes, cur, 0) == Plus(working, UlebFrom(w, bytes, pos, pos - cur))
      decreases |bytes| - pos
    {
      if pos >= |bytes| {
        return None;
      }
      var group := bytes[pos] % 128;
      if 7 * (pos - cur) >= w || group * Weight(pos - cur) >= Limit(w) {
        return None;
      }
      working := working + group * Weight(pos - cur);
      pos := pos + 1;
      if bytes[pos - 1] < 128 {
        break;
      }
    }
    var nbits := 7 * (pos - cur);
    return if nbits < 64 then Some(Read(working, pos)) else None;
  }

  function U64(x: int): nat { x % TWO64 }

  function Power2(n: nat): (r: nat)
    ensures r > 0
  {
    if n == 0 then 1 else 2 * Power2(n - 1)
  }

  function AsSigned(u: int): int {
    if u >= 0x8000_0000_0000_0000 then u - TWO64 else u
  }

  /** Shifts the top bit of the last group into the top position, and back down as a signed number. */
  function SignExtend(working: int, nbits: nat): int
    requires nbits < 64
  {
    AsSigned(working * Power2(64 - nbits) % TWO64) / Power2(64 - nbits)
  }

  function Sleb(w: nat, bytes: seq<Byte>, pos: nat): Option<Read>
    requires IsWidth(w)
  {
    var r := Uleb(w, bytes, pos);
    if r.None? || r.value.next < pos then None
    else Some(Read(SignExtend(r.value.value, 7 * (r.value.next - pos)), r.value.next))
  }

  method ReadSleb128(w: nat, bytes: seq<Byte>, cur: nat) returns (r: Option<Read>)
    requires IsWidth(w)
    ensures r == Sleb(w, bytes, cur)
  {
    var u := ReadUleb128(w, bytes, cur);
    if u.None? {
      return None;
    }
    UlebAdvances(w, bytes, cur, 0);
    var topBits := 64 - 7 * (u.value.next - cur);
    var scaledUp := AsSigned(u.value.value * Power2(topBits) % TWO64);
    return Some(Read(scaledUp / Power2(topBits), u.value.next));
  }

  lemma {:induction false} UlebAdvances(w: nat, bytes: seq<Byte>, pos: nat, n: nat)
    requires IsWidth(w) && UlebFrom(w, bytes, pos, n).Some?
    ensures pos < UlebFrom(w, bytes, pos, n).value.next <= |bytes|
    decreases |bytes| - pos
  {
    if bytes[pos] >= 128 { UlebAdvances(w, bytes, pos + 1, n + 1); }
  }

  // ---- Any encoding ----

  /** The bytes of one number: all but the last have their top bit set. */
  ghost predicate IsLeb(bs: seq<Byte>) {
    |bs| > 0 && bs[|bs| - 1] < 128 && forall i :: 0 <= i < |bs| - 1 ==> bs[i] >= 128
  }

  function LebValue(bs: seq<Byte>): nat {
    if bs == [] then 0 else bs[0] % 128 + 128 * LebValue(bs[1..])
  }

  lemma {:induction false} LebValueBelow(bs: seq<Byte>)
    ensures LebValue(bs) < Weight(|bs|)
  {
    if bs != [] { LebValueBelow(bs[1..]); }
  }

  lemma LimitIsMultiple(w: nat, k: nat) returns (q: nat)
    requires IsWidth(w) && 7 * k < w
    ensures Limit(w) == q * Weight(k)
  {
    SmallWeights();
    q := if w == 32 then
           (if k == 0 then 0x8000_0000 else if k == 1 then 0x100_0000 else if k == 2 then 0x2_0000
            else if k == 3 then 0x400 else 8)
         else
           (if k == 0 then 0x8000_0000_0000_0000 else if k == 1 then 0x100_0000_0000_0000
            else if k == 2 then 0x2_0000_0000_0000 else if k == 3 then 0x400_0000_0000
            else if k == 4 then 0x8_0000_0000 else if k == 5 then 0x1000_0000 else if k == 6 then 0x20_0000
            else if k == 7 then 0x4000 else if k == 8 then 0x80 else 1);
  }

  /** Adding a group below a multiple of the next weight stays below the limit. */
  lemma GroupFits(w: nat, group: nat, k: nat, v: nat)
    requires IsWidth(w) && group < 128 && 7 * (k + 1) < w
    ensures group * Weight(k) + Weight(k + 1) * v < Limit(w) <==> Weight(k + 1) * v < Limit(w)
  {
    var q := LimitIsMultiple(w, k + 1);
    var m := Weight(k + 1);
    assert group * Weight(k) < m by { Below(group, 128, Weight(k)); }
    if m * v < q * m {
      assert v < q by { if v >= q { Below2(q, v, m); } }
      Below2(v + 1, q, m);
      assert (v + 1) * m == m * v + m;
    }
  }

  lemma Below(a: nat, b: nat, m: nat)
    requires a < b && m > 0
    ensures a * m < b * m
  {
  }

  lemma Below2(a: nat, b: nat, m: nat)
    requires a <= b
    ensures a * m <= b * m
  {
  }

  /** A number in any encoding, padded or not, is read exactly when every shift has a value. */
  lemma {:induction false} UlebFromReads(w: nat, bytes: seq<Byte>, pos: nat, bs: seq<Byte>, n: nat)
    requires IsWidth(w) && IsLeb(bs) && pos + |bs| <= |bytes| && bytes[pos..pos + |bs|] == bs
    ensures var v := Weight(n) * LebValue(bs);
            UlebFrom(w, bytes, pos, n)
            == if 7 * (n + |bs| - 1) < w && v < Limit(w) then Some(Read(v, pos + |bs|)) else None
    decreases |bs|
  {
    hide Limit, IsWidth;
    assert bytes[pos] == bs[0];
    var group, m := bs[0] % 128, Weight(n);
    if |bs| == 1 {
      assert LebValue(bs) == group by { assert bs[1..] == []; }
      assert group * m == m * group;
    } else {
      var rest := bs[1..];
      UlebFromReads(w, bytes, pos + 1, rest, n + 1);
      assert LebValue(bs) == group + 128 * LebValue(rest);
      Distribute(m, group, LebValue(rest));
      if 7 * (n + 1) < w { GroupFits(w, group, n, LebValue(rest)); }
    }
  }

  lemma Distribute(m: nat, group: nat, v: nat)
    ensures m * (group + 128 * v) == group * m + (128 * m) * v
    ensures group * m <= m * (group + 128 * v) && (128 * m) * v <= m * (group + 128 * v)
  {
  }

  /** Reading any encoding of at most nine bytes, and of at most five with a 32-bit shift. */
  lemma UlebReads(w: nat, bytes: seq<Byte>, pos: nat, bs: seq<Byte>)
    requires IsWidth(w) && IsLeb(bs) && pos + |bs| <= |bytes| && bytes[pos..pos + |bs|] == bs
    ensures Uleb(w, bytes, pos)
            == if 7 * (|bs| - 1) < w && |bs| <= 9 && LebValue(bs) < Limit(w) then
                 Some(Read(LebValue(bs), pos + |bs|))
               else None
  {
    hide UlebFrom, IsLeb, LebValue, Limit;
    assert Weight(0) == 1;
    UlebFromReads(w, bytes, pos, bs, 0);
  }

  /** Sign extension takes the top bit of the last group for the sign. */
  lemma SignExtendValue(v: nat, k: nat)
    requires 1 <= k <= 9 && v < Weight(k)
    ensures SignExtend(v, 7 * k) == if v < Weight(k) / 2 then v else v - Weight(k)
  {
    hide Weight, Power2, AsSigned;
    ScaleUp(k);
    EvenWeight(k);
    Scaled(v, Weight(k), Power2(64 - 7 * k));
  }

  lemma {:induction false} DoublePower(n: nat)
    requires n >= 7
    ensures Power2(n) == 128 * Power2(n - 7)
  {
    assert Power2(n) == 2 * Power2(n - 1) == 4 * Power2(n - 2) == 8 * Power2(n - 3) == 16 * Power2(n - 4);
    assert Power2(n - 4) == 2 * Power2(n - 5) == 4 * Power2(n - 6) == 8 * Power2(n - 7);
  }

  lemma {:induction false} ScaleUp(k: nat)
    requires k <= 9
    ensures Weight(k) * Power2(64 - 7 * k) == TWO64
    decreases 9 - k
  {
    if k == 9 {
      SmallWeights();
      assert Power2(1) == 2;
    } else {
      ScaleUp(k + 1);
      DoublePower(64 - 7 * k);
      assert Weight(k + 1) == 128 * Weight(k);
      Reassociate(Weight(k), Power2(64 - 7 * (k + 1)));
    }
  }

  lemma Reassociate(w: nat, p: nat)
    ensures w * (128 * p) == 128 * w * p
  {
  }

  lemma Scaled(v: nat, a: nat, b: nat)
    requires v < a && b > 0 && a * b == TWO64 && a % 2 == 0
    ensures AsSigned(v * b % TWO64) / b == if v < a / 2 then v else v - a
  {
    Below(v, a, b);
    assert v * b % TWO64 == v * b;
    if v < a / 2 {
      Below(v, a / 2, b);
      assert (a / 2) * b == 0x8000_0000_0000_0000 by { assert 2 * ((a / 2) * b) == a * b; }
      DivExact(v, b);
    } else {
      Below2(a / 2, v, b);
      assert (a / 2) * b == 0x8000_0000_0000_0000 by { assert 2 * ((a / 2) * b) == a * b; }
      assert v * b - TWO64 == (v - a) * b;
      DivExact(v - a, b);
    }
  }

  lemma DivExact(q: int, b: nat)
    requires b > 0
    ensures q * b / b == q
  {
    var r, m := q * b / b, q * b % b;
    assert q * b == b * r + m;
    assert b * (q - r) == m;
    if q - r >= 1 {
      Product(b, q - r - 1);
    } else if q - r <= -1 {
      Product(b, r - q - 1);
    }
  }

  lemma Product(b: nat, x: nat)
    ensures b * (x + 1) == b * x + b && b * x >= 0
  {
  }

  // ---- Writing ----

  function EncodeUleb(v: nat): seq<Byte> {
    if v < 128 then [v] else [v % 128 + 128] + EncodeUleb(v / 128)
  }

  function EncodeSleb(v: int): seq<Byte>
    decreases if v < 0 then -v else v
  {
    if -64 <= v < 64 then [v % 128] else [v % 128 + 128] + EncodeSleb(v / 128)
  }

  lemma {:induction false} EncodeUlebIs(v: nat)
    ensures var bs := EncodeUleb(v);
            IsLeb(bs) && LebValue(bs) == v && (|bs| > 1 ==> Weight(|bs| - 1) <= v)
  {
    if v >= 128 {
      EncodeUlebIs(v / 128);
      var rest := EncodeUleb(v / 128);
      assert EncodeUleb(v)[1..] == rest;
      assert |rest| > 1 ==> 128 * Weight(|rest| - 1) <= v;
    } else {
      assert [v][1..] == [];
    }
  }

  /** The groups hold the number modulo the weight of the byte after the last. */
  lemma {:induction false} EncodeSlebIs(v: int)
    ensures var bs := EncodeSleb(v);
            && |bs| >= 1 && IsLeb(bs) && LebValue(bs) == (if v >= 0 then v else v + Weight(|bs|))
            && 0 - Weight(|bs|) <= 2 * v < Weight(|bs|)
            && (|bs| > 1 ==> 2 * v < 0 - Weight(|bs| - 1) || Weight(|bs| - 1) <= 2 * v)
    decreases if v < 0 then -v else v
  {
    hide Weight, LebValue, IsLeb;
    if -64 <= v < 64 {
      OneGroup(v);
    } else {
      EncodeSlebIs(v / 128);
      SlebStep(v, EncodeSleb(v / 128));
      PrependGroup(v, EncodeSleb(v / 128));
    }
  }

  lemma OneGroup(v: int)
    requires -64 <= v < 64
    ensures EncodeSleb(v) == [v % 128] && IsLeb(EncodeSleb(v)) && Weight(1) == 128
    ensures LebValue(EncodeSleb(v)) == if v >= 0 then v else v + Weight(1)
  {
    assert [v % 128][1..] == [];
    SmallWeights();
  }

  lemma PrependGroup(v: int, rest: seq<Byte>)
    requires IsLeb(rest)
    ensures IsLeb([v % 128 + 128] + rest)
    ensures LebValue([v % 128 + 128] + rest) == v % 128 + 128 * LebValue(rest)
    ensures |rest| > 0
  {
    var bs: seq<Byte> := [v % 128 + 128] + rest;
    assert bs[1..] == rest;
  }

  lemma SlebStep(v: int, rest: seq<Byte>)
    requires !(-64 <= v < 64) && |rest| > 0
    requires LebValue(rest) == if v / 128 >= 0 then v / 128 else v / 128 + Weight(|rest|)
    requires 0 - Weight(|rest|) <= 2 * (v / 128) < Weight(|rest|)
    requires |rest| > 1 ==> 2 * (v / 128) < 0 - Weight(|rest| - 1) || Weight(|rest| - 1) <= 2 * (v / 128)
    ensures v % 128 + 128 * LebValue(rest) == if v >= 0 then v else v + Weight(|rest| + 1)
    ensures 0 - Weight(|rest| + 1) <= 2 * v < Weight(|rest| + 1)
    ensures 2 * v < 0 - Weight(|rest|) || Weight(|rest|) <= 2 * v
  {
    hide Weight, LebValue;
    WeightStep(|rest|);
    if |rest| == 1 { SmallWeights(); } else { WeightStep(|rest| - 1); EvenWeight(|rest| - 1); }
    EvenWeight(|rest|);
    SlebArithmetic(v, v / 128, v % 128, Weight(|rest|), if |rest| == 1 then 1 else Weight(|rest| - 1));
  }

  lemma WeightStep(k: nat)
    ensures Weight(k + 1) == 128 * Weight(k)
  {
  }

  lemma SlebArithmetic(v: int, q: int, r: int, m: nat, l: nat)
    requires v == 128 * q + r && 0 <= r < 128 && m == 128 * l
    requires 0 - m <= 2 * q < m
    requires if l == 1 then !(-64 <= v < 64) else l % 2 == 0 && (2 * q < 0 - l || l <= 2 * q)
    ensures 0 - 128 * m <= 2 * v < 128 * m
    ensures 2 * v < 0 - m || m <= 2 * v
  {
  }

  lemma EvenWeight(k: nat)
    requires k > 0
    ensures Weight(k) % 2 == 0
  {
    assert Weight(k) == 2 * (64 * Weight(k - 1));
  }

  lemma {:induction false} WeightMono(j: nat, k: nat)
    requires j <= k
    ensures Weight(j) <= Weight(k)
  {
    if j < k { WeightMono(j, k - 1); }
  }

  /** Decoding undoes encoding exactly for the numbers below the limit of the shift. */
  lemma UlebRoundTrip(w: nat, bytes: seq<Byte>, pos: nat, v: nat)
    requires IsWidth(w)
    requires var bs := EncodeUleb(v); pos + |bs| <= |bytes| && bytes[pos..pos + |bs|] == bs
    ensures Uleb(w, bytes, pos) == if v < Limit(w) then Some(Read(v, pos + |EncodeUleb(v)|)) else None
  {
    hide Uleb, EncodeUleb, IsLeb, LebValue, Weight;
    var bs := EncodeUleb(v);
    EncodeUlebIs(v);
    UlebReads(w, bytes, pos, bs);
    SmallWeights();
    if v < Limit(w) {
      if w == 32 && |bs| >= 6 { WeightMono(5, |bs| - 1); }
      if w == 64 && |bs| >= 10 { WeightMono(9, |bs| - 1); }
    }
  }

  predicate SlebFits(w: nat, v: int)
    requires IsWidth(w)
  {
    if w == 32 then -0x800_0000 <= v < 0x8000_0000 else -0x4000_0000_0000_0000 <= v < 0x4000_0000_0000_0000
  }

  /** For signed numbers, the limit applies to the bits of all the groups. */
  lemma SlebRoundTrip(w: nat, bytes: seq<Byte>, pos: nat, v: int)
    requires IsWidth(w)
    requires var bs := EncodeSleb(v); pos + |bs| <= |bytes| && bytes[pos..pos + |bs|] == bs
    ensures Sleb(w, bytes, pos) == if SlebFits(w, v) then Some(Read(v, pos + |EncodeSleb(v)|)) else None
  {
    hide Uleb, EncodeSleb, SignExtend, IsLeb, LebValue, SlebFits;
    var bs := EncodeSleb(v);
    EncodeSlebIs(v);
    UlebReads(w, bytes, pos, bs);
    SlebFitsIff(w, v, |bs|);
    if SlebFits(w, v) {
      LebValueBelow(bs);
      SignExtendBack(v, |bs|, LebValue(bs));
    }
  }

  lemma SignExtendBack(v: int, k: nat, u: nat)
    requires 1 <= k <= 9 && 0 - Weight(k) <= 2 * v < Weight(k) && u < Weight(k)
    requires u == if v >= 0 then v else v + Weight(k)
    ensures SignExtend(u, 7 * k) == v
  {
    EvenWeight(k);
    SignExtendValue(u, k);
  }

  lemma SlebFitsIff(w: nat, v: int, k: nat)
    requires IsWidth(w) && k >= 1
    requires 0 - Weight(k) <= 2 * v < Weight(k)
    requires k > 1 ==> 2 * v < 0 - Weight(k - 1) || Weight(k - 1) <= 2 * v
    ensures SlebFits(w, v) <==> 7 * (k - 1) < w && k <= 9 && (if v >= 0 then v else v + Weight(k)) < Limit(w)
  {
    SmallWeights();
    if k >= 10 {
      WeightMono(9, k - 1);
    } else if k >= 6 {
      WeightMono(5, k - 1);
      WeightMono(k, 9);
    } else {
      WeightMono(k, 5);
    }
  }

  // ---- Reading a number in the encoding of the other kind ----

  /** The weight of the byte after the encoding. */
  function UlebWeight(v: nat): nat { Weight(|EncodeUleb(v)|) }

  function SlebWeight(v: int): nat { Weight(|EncodeSleb(v)|) }

  lemma UlebAsSleb(w: nat, bytes: seq<Byte>, pos: nat, v: nat)
    requires IsWidth(w)
    requires var bs := EncodeUleb(v); pos + |bs| <= |bytes| && bytes[pos..pos + |bs|] == bs
    ensures Sleb(w, bytes, pos)
            == if v >= Limit(w) then None
               else Some(Read(if v < UlebWeight(v) / 2 then v else v - UlebWeight(v), pos + |EncodeUleb(v)|))
  {
    var bs := EncodeUleb(v);
    UlebRoundTrip(w, bytes, pos, v);
    EncodeUlebIs(v);
    UlebReads(w, bytes, pos, bs);
    if v < Limit(w) {
      LebValueBelow(bs);
      SignExtendValue(v, |bs|);
    }
  }

  lemma SlebAsUleb(w: nat, bytes: seq<Byte>, pos: nat, v: int)
    requires IsWidth(w)
    requires var bs := EncodeSleb(v); pos + |bs| <= |bytes| && bytes[pos..pos + |bs|] == bs
    ensures Uleb(w, bytes, pos)
            == if SlebFits(w, v) then Some(Read(if v >= 0 then v else v + SlebWeight(v), pos + |EncodeSleb(v)|))
               else None
  {
    hide Uleb, IsLeb, SlebFits;
    var bs := EncodeSleb(v);
    EncodeSlebIs(v);
    UlebReads(w, bytes, pos, bs);
    SlebFitsIff(w, v, |bs|);
  }
}
