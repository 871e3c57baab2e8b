/**
  itoa: a 64-bit number in any base from 2 to 36.  The digits go through a
  21-byte buffer on the stack, which is long enough for every number exactly
  from base 9 on.
 */
module Numbers {
  import opened Bits
  import opened Bytes

  const BUFFER := 21

  /** The code of a digit: '0'..'9', then 'a'..'z'. */
  function DigitCode(d: nat): Byte
    requires d < 36
  {
    if d < 10 then d + 48 else d + 97 - 10
  }

  function DigitValue(c: Byte): int {
    if c < 97 then c - 48 else c - 97 + 10
  }

  /** v in base radix, most significant digit first. */
  function Digits(v: nat, radix: nat): seq<nat>
    requires radix >= 2
  {
    DivSmaller(v, radix);
    if v < radix then [v] else Digits(v / radix, radix) + [v % radix]
  }

  lemma DivSmaller(v: nat, radix: nat)
    requires radix >= 2
    ensures v >= radix ==> v / radix < v
  {
    var q := v / radix;
    assert v == radix * q + v % radix;
    if q > 0 {
      assert radix * q == 2 * q + (radix - 2) * q;
    }
  }

  lemma {:induction false} DigitsInRange(v: nat, radix: nat)
    requires radix >= 2
    ensures |Digits(v, radix)| >= 1 && forall d | d in Digits(v, radix) :: d < radix
  {
    DivSmaller(v, radix);
    if v >= radix {
      DigitsInRange(v / radix, radix);
    }
  }

  function Render(v: nat, radix: nat): (s: seq<Byte>)
    requires 2 <= radix <= 36
  {
    DigitsInRange(v, radix);
    var ds := Digits(v, radix);
    seq(|ds|, i requires 0 <= i < |ds| => assert ds[i] in ds; DigitCode(ds[i]))
  }

  /** The number a string of digit codes stands for. */
  function Decode(s: seq<Byte>, radix: nat): int {
    if s == [] then 0 else Decode(s[..|s| - 1], radix) * radix + DigitValue(s[|s| - 1])
  }

  /** The last digit, and the digits before it. */
  lemma DigitsStep(v: nat, radix: nat)
    requires radix >= 2
    ensures var ds := Digits(v, radix);
      && |ds| >= 1 && ds[|ds| - 1] == v % radix
      && (v < radix ==> |ds| == 1)
      && (v >= radix ==> ds[..|ds| - 1] == Digits(v / radix, radix) && |Digits(v / radix, radix)| >= 1)
    ensures v / radix != 0 <==> v >= radix
  {
    DivSmaller(v, radix);
    DigitsInRange(v, radix);
    QuotientBelow(v, radix, 1);
    if v >= radix {
      DigitsInRange(v / radix, radix);
    }
  }

  lemma RenderStep(v: nat, radix: nat)
    requires 2 <= radix <= 36
    ensures Render(v, radix) == if v < radix then [DigitCode(v)] else Render(v / radix, radix) + [DigitCode(v % radix)]
  {
    hide Digits;
    DigitsStep(v, radix);
    if v >= radix {
      var ds := Digits(v, radix);
      assert ds == ds[..|ds| - 1] + [ds[|ds| - 1]];
    }
  }

  /** Reading the printed digits back gives the number. */
  lemma {:induction false} RenderDecodes(v: nat, radix: nat)
    requires 2 <= radix <= 36
    ensures Decode(Render(v, radix), radix) == v
  {
    hide Render, Digits, Decode, DigitCode, DigitValue;
    DivSmaller(v, radix);
    RenderStep(v, radix);
    DigitOfCode(v % radix);
    if v < radix {
      DecodeOne(DigitCode(v), radix);
    } else {
      RenderDecodes(v / radix, radix);
      DecodeLast(Render(v / radix, radix), DigitCode(v % radix), radix);
      assert v / radix * radix + v % radix == v;
    }
  }

  lemma DigitOfCode(d: nat)
    requires d < 36
    ensures DigitValue(DigitCode(d)) == d
  {
  }

  lemma DecodeOne(c: Byte, radix: nat)
    ensures Decode([c], radix) == DigitValue(c)
  {
    assert Decode([], radix) == 0;
  }

  lemma DecodeLast(s: seq<Byte>, c: Byte, radix: nat)
    ensures Decode(s + [c], radix) == Decode(s, radix) * radix + DigitValue(c)
  {
    assert (s + [c])[..|s|] == s;
  }

  /** No leading zero, except in the number 0 itself. */
  lemma {:induction false} NoLeadingZero(v: nat, radix: nat)
    requires radix >= 2
    ensures v == 0 ==> Digits(v, radix) == [0]
    ensures v > 0 ==> |Digits(v, radix)| >= 1 && Digits(v, radix)[0] != 0
  {
    DivSmaller(v, radix);
    if v >= radix {
      DigitsInRange(v / radix, radix);
      QuotientPositive(v, radix);
      NoLeadingZero(v / radix, radix);
    }
  }

  lemma QuotientPositive(v: nat, radix: nat)
    requires v >= radix > 0
    ensures v / radix >= 1
  {
    QuotientBelow(v, radix, 1);
  }

  // ---------- How many digits ----------

  function Power(radix: nat, k: nat): nat {
    if k == 0 then 1 else radix * Power(radix, k - 1)
  }

  /** k digits suffice exactly below radix^k. */
  lemma {:induction false} DigitCount(v: nat, radix: nat, k: nat)
    requires radix >= 2 && k >= 1
    ensures |Digits(v, radix)| <= k <==> v < Power(radix, k)
    decreases k
  {
    DivSmaller(v, radix);
    if k == 1 {
      assert Power(radix, 1) == radix * Power(radix, 0);
      if v >= radix { DigitsInRange(v / radix, radix); }
    } else if v < radix {
      PowerPositive(radix, k - 1);
      Product(radix, Power(radix, k - 1));
    } else {
      DigitCount(v / radix, radix, k - 1);
      QuotientBelow(v, radix, Power(radix, k - 1));
    }
  }

  lemma {:induction false} PowerPositive(radix: nat, k: nat)
    requires radix >= 1
    ensures Power(radix, k) >= 1
  {
    if k > 0 {
      PowerPositive(radix, k - 1);
      Product(radix, Power(radix, k - 1));
    }
  }

  lemma Product(a: nat, b: nat)
    requires b >= 1
    ensures a * b >= a
  {
  }

  lemma QuotientBelow(v: nat, d: nat, b: nat)
    requires d > 0
    ensures v / d < b <==> v < d * b
  {
    var q, r := v / d, v % d;
    assert v == d * q + r;
    if q < b {
      Distribute(d, b, q);
      Product(d, b - q);
    } else {
      Distribute(d, q, b);
      assert d * (q - b) >= 0;
    }
  }

  lemma Distribute(d: nat, a: nat, b: nat)
    requires a >= b
    ensures d * (a - b) == d * a - d * b
  {
  }

  lemma {:induction false} PowerMonotone(a: nat, b: nat, k: nat)
    requires 1 <= a <= b
    ensures Power(a, k) <= Power(b, k)
  {
    if k > 0 {
      PowerMonotone(a, b, k - 1);
      MulMonotone(a, b, Power(a, k - 1), Power(b, k - 1));
    }
  }

  lemma MulMonotone(a: nat, b: nat, c: nat, d: nat)
    requires a <= b && c <= d
    ensures a * c <= b * d
  {
    Distribute(c, b, a);
    Distribute(b, d, c);
    assert c * (b - a) >= 0 && b * (d - c) >= 0;
  }

  lemma Thresholds()
    ensures Power(8, 21) < WORD_LIMIT <= Power(9, 21)
    ensures WORD_LIMIT <= Power(10, 20) && WORD_LIMIT <= Power(16, 16)
  {
    assert Power(8, 7) == 0x20_0000 && Power(9, 7) == 4782969 && Power(10, 7) == 10000000 && Power(16, 8) == 0x1_0000_0000;
    assert Power(8, 14) == 0x20_0000 * 0x20_0000;
    assert Power(9, 14) == 4782969 * 4782969;
    assert Power(10, 14) == 10000000 * 10000000;
  }

  /** Every 64-bit number fits the buffer if and only if the base is at least 9. */
  lemma BufferSufficesIff(radix: nat)
    requires radix >= 2
    ensures (forall v: Word :: |Digits(v, radix)| <= BUFFER) <==> radix >= 9
  {
    Thresholds();
    if radix >= 9 {
      PowerMonotone(9, radix, BUFFER);
      forall v: Word
        ensures |Digits(v, radix)| <= BUFFER
      {
        DigitCount(v, radix, BUFFER);
      }
    } else {
      PowerMonotone(radix, 8, BUFFER);
      var v: Word := WORD_LIMIT - 1;
      DigitCount(v, radix, BUFFER);
      assert |Digits(v, radix)| > BUFFER;
    }
  }

  lemma LargestOctalOverflows(v: Word)
    requires v == WORD_LIMIT - 1
    ensures |Digits(v, 8)| > BUFFER
  {
    Thresholds();
    DigitCount(v, 8, BUFFER);
  }

  /** The bounds of the two bases the kernel prints in. */
  lemma DecimalAndHexLengths(v: Word)
    ensures |Digits(v, 10)| <= 20 && |Digits(v, 16)| <= 16
  {
    Thresholds();
    DigitCount(v, 10, 20);
    DigitCount(v, 16, 16);
  }

  // ---------- The loops ----------

  /** Digits from the least significant up into tmp, then reversed into the caller's buffer. */
  method Itoa(value: Word, sp: array<Byte>, radix: int) returns (len: nat)
    requires 2 <= radix <= 36 ==> |Digits(value, radix)| <= BUFFER && |Digits(value, radix)| <= sp.Length
    modifies sp
    ensures !(2 <= radix <= 36) ==> len == 0 && sp[..] == old(sp[..])
    ensures 2 <= radix <= 36 ==>
              len == |Render(value, radix)| <= sp.Length && sp[..len] == Render(value, radix) && sp[len..] == old(sp[len..])
  {
    if radix < 2 || radix > 36 {
      return 0;
    }
    hide Render, Digits, DigitCode;
    ghost var text := Render(value, radix);
    RenderLength(value, radix);
    var tmp := new Byte[BUFFER];
    var tp := StoreDigits(value, radix, tmp, text);
    len := tp;
    CopyReversed(tmp, tp, sp, text);
    assert sp[..len] == text;
  }

  /** The first loop: the digits go into the buffer, last first. */
  method StoreDigits(value: nat, radix: nat, tmp: array<Byte>, ghost text: seq<Byte>) returns (tp: nat)
    requires 2 <= radix <= 36 && text == Render(value, radix) && 1 <= |text| <= tmp.Length
    modifies tmp
    ensures tp == |text| && forall k | 0 <= k < tp :: tmp[k] == text[tp - 1 - k]
  {
    hide Render, Digits, DigitCode;
    tp := 0;
    var v: nat := value;
    var more := true;
    while more
      invariant 0 <= tp <= |text| && (more ==> tp < |text|)
      invariant more ==> Render(v, radix) == text[..|text| - tp]
      invariant !more ==> tp == |text|
      invariant forall k | 0 <= k < tp :: tmp[k] == text[|text| - 1 - k]
      decreases |text| - tp, more
    {
      LastLetter(v, radix);
      TakeOne(text, tp, Render(v, radix));
      var i := v % radix;
      v := v / radix;
      tmp[tp] := if i < 10 then i + 48 else i + 97 - 10;
      tp := tp + 1;
      more := v != 0;
    }
  }

  /** The second loop: the digits come out of the buffer last first. */
  method CopyReversed(tmp: array<Byte>, tp: nat, sp: array<Byte>, ghost text: seq<Byte>)
    requires tmp != sp && tp == |text| <= tmp.Length && tp <= sp.Length
    requires forall k | 0 <= k < tp :: tmp[k] == text[tp - 1 - k]
    modifies sp
    ensures forall k | 0 <= k < tp :: sp[k] == text[k]
    ensures sp[tp..] == old(sp[tp..])
  {
    var left, out := tp, 0;
    while left > 0
      invariant 0 <= left <= tp && out == tp - left
      invariant forall k | 0 <= k < out :: sp[k] == text[k]
      invariant forall k | tp <= k < sp.Length :: sp[k] == old(sp[k])
    {
      left := left - 1;
      sp[out] := tmp[left];
      out := out + 1;
    }
  }

  lemma TakeOne(text: seq<Byte>, n: nat, rest: seq<Byte>)
    requires n < |text| && rest == text[..|text| - n]
    ensures rest[|rest| - 1] == text[|text| - 1 - n] && rest[..|rest| - 1] == text[..|text| - (n + 1)]
  {
  }

  lemma RenderLength(v: nat, radix: nat)
    requires 2 <= radix <= 36
    ensures |Render(v, radix)| == |Digits(v, radix)| >= 1
  {
    DigitsInRange(v, radix);
  }

  /** One round of the digit loop: the last letter of the text, and the text before it. */
  lemma LastLetter(v: nat, radix: nat)
    requires 2 <= radix <= 36
    ensures var s, d := Render(v, radix), v % radix;
      && |s| >= 1 && 0 <= d < 36 && s[|s| - 1] == (if d < 10 then d + 48 else d + 97 - 10)
      && (v / radix == 0 ==> |s| == 1)
      && (v / radix != 0 ==> |s| >= 2 && s[..|s| - 1] == Render(v / radix, radix))
  {
    hide Render, Digits;
    RenderStep(v, radix);
    DigitsStep(v, radix);
    RenderLength(v / radix, radix);
    if v < radix { assert v % radix == v; }
  }
}
