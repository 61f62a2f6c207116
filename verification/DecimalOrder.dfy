/**
 Zero-padded decimals in byte order. `printf("%016lld")` and `printf("%06lld")` pad to a
 width and never cut, so the order of the texts is the order of the numbers exactly as
 long as the numbers fit the width.
 */
module DecimalOrder {
  import opened Text

  function Pow10(k: nat): (r: nat)
    ensures r >= 1
  {
    if k == 0 then 1 else 10 * Pow10(k - 1)
  }

  lemma TenOut(x: nat, y: nat)
    ensures (10 * x) * y == 10 * (x * y)
  {
  }

  lemma {:induction false} PowersAdd(a: nat, b: nat)
    ensures Pow10(a + b) == Pow10(a) * Pow10(b)
  {
    if a > 0 {
      PowersAdd(a - 1, b);
      TenOut(Pow10(a - 1), Pow10(b));
    }
  }

  lemma PowersUsed()
    ensures Pow10(6) == 1_000_000 && Pow10(16) == 10_000_000_000_000_000
  {
    assert Pow10(2) == 10 * Pow10(1) && Pow10(1) == 10 * Pow10(0);
    PowersAdd(2, 2);
    PowersAdd(4, 2);
    PowersAdd(4, 4);
    PowersAdd(8, 8);
  }

  function Zeros(k: int): string {
    if k <= 0 then "" else Zeros(k - 1) + "0"
  }

  /** `%0<width>lld` of a number that is not negative. */
  function Padded(n: nat, width: nat): string {
    Zeros(width - |Decimal(n)|) + Decimal(n)
  }

  // ---- within the width ---------------------------------------------------

  /** Padding one digit less of the number without its last digit. */
  lemma PaddedDigit(n: nat, width: nat)
    requires width >= 2
    ensures Padded(n, width) == Padded(n / 10, width - 1) + [DigitChar(n % 10)]
  {
    if n < 10 {
      assert Decimal(0) == "0" && Decimal(n) == [DigitChar(n)];
    } else {
      assert Decimal(n) == Decimal(n / 10) + [DigitChar(n % 10)];
    }
  }

  lemma {:induction false} PaddedLength(n: nat, width: nat)
    requires 1 <= width && n < Pow10(width)
    ensures |Padded(n, width)| == width
  {
    if width == 1 {
      assert Pow10(1) == 10 * Pow10(0);
    } else {
      PaddedDigit(n, width);
      PaddedLength(n / 10, width - 1);
    }
  }

  lemma {:induction false} LessAppend(p: string, q: string, x: string, y: string)
    requires |p| == |q|
    ensures Less(p + x, q + y) <==> Less(p, q) || (p == q && Less(x, y))
  {
    if p == [] {
      assert p + x == x && q + y == y;
    } else {
      assert (p + x)[1..] == p[1..] + x && (q + y)[1..] == q[1..] + y;
      assert p == q <==> p[0] == q[0] && p[1..] == q[1..] by {
        assert p == [p[0]] + p[1..] && q == [q[0]] + q[1..];
      }
      LessAppend(p[1..], q[1..], x, y);
    }
  }

  lemma OneDigit(n: nat)
    requires n < 10
    ensures Padded(n, 1) == [DigitChar(n)]
  {
  }

  lemma DigitOrder(a: nat, b: nat)
    requires a < 10 && b < 10
    ensures Less([DigitChar(a)], [DigitChar(b)]) <==> a < b
  {
  }

  /** Within the width, byte order is numeric order. */
  lemma {:induction false} PaddedOrder(a: nat, b: nat, width: nat)
    requires 1 <= width && a < Pow10(width) && b < Pow10(width)
    ensures Less(Padded(a, width), Padded(b, width)) <==> a < b
    decreases width
  {
    hide Less, Padded;
    DigitOrder(a % 10, b % 10);
    if width == 1 {
      assert Pow10(1) == 10 * Pow10(0);
      OneDigit(a);
      OneDigit(b);
    } else {
      PaddedDigit(a, width);
      PaddedDigit(b, width);
      var (p, q) := (Padded(a / 10, width - 1), Padded(b / 10, width - 1));
      PaddedOrder(a / 10, b / 10, width - 1);
      PaddedOrder(b / 10, a / 10, width - 1);
      PaddedLength(a / 10, width - 1);
      PaddedLength(b / 10, width - 1);
      LessIrreflexive(p);
      LessAppend(p, q, [DigitChar(a % 10)], [DigitChar(b % 10)]);
    }
  }

  // ---- beyond it ----------------------------------------------------------

  lemma TenTimes(d: nat, p: nat, n: nat)
    requires d >= 1 && p >= 1 && d * (10 * p) <= n < (d + 1) * (10 * p)
    ensures d * p <= n / 10 < (d + 1) * p && n >= 10
  {
    var (x, y) := (d * p, (d + 1) * p);
    assert d * (10 * p) == 10 * x && (d + 1) * (10 * p) == 10 * y && x >= 1;
  }

  lemma {:induction false} LeadingDigit(n: nat, k: nat, d: nat)
    requires 1 <= d <= 9 && d * Pow10(k) <= n < (d + 1) * Pow10(k)
    ensures |Decimal(n)| == k + 1 && Decimal(n)[0] == DigitChar(d)
  {
    if k > 0 {
      TenTimes(d, Pow10(k - 1), n);
      LeadingDigit(n / 10, k - 1, d);
    }
  }

  /** The last number of a width comes, as text, after the first number that is too wide for it. */
  lemma WiderComesFirst(width: nat, pre: string, post: string)
    requires width >= 1
    ensures !Less(pre + Padded(Pow10(width) - 1, width) + post, pre + Padded(Pow10(width), width) + post)
  {
    var p := Pow10(width - 1);
    var (a, b) := (Padded(10 * p - 1, width), Padded(10 * p, width));
    LeadingDigit(10 * p - 1, width - 1, 9);
    LeadingDigit(10 * p, width, 1);
    assert (a + post)[0] == '9' && (b + post)[0] == '1';
    LessPrefix(pre, a + post, b + post);
    assert pre + a + post == pre + (a + post) && pre + b + post == pre + (b + post);
  }

  /** Texts made of a common start, a padded number and a common end. */
  function Label(pre: string, n: nat, width: nat, post: string): string { pre + Padded(n, width) + post }

  lemma LabelOrder(pre: string, post: string, width: nat, a: nat, b: nat)
    requires 1 <= width && a < Pow10(width) && b < Pow10(width)
    ensures Less(Label(pre, a, width, post), Label(pre, b, width, post)) <==> a < b
  {
    hide Less, Padded, Pow10;
    var (p, q) := (Padded(a, width), Padded(b, width));
    PaddedOrder(a, b, width);
    PaddedLength(a, width);
    PaddedLength(b, width);
    LessIrreflexive(post);
    LessAppend(p, q, post, post);
    LessPrefix(pre, p + post, q + post);
    assert pre + p + post == pre + (p + post) && pre + q + post == pre + (q + post);
  }

  /** The labels of 0, 1, .. n-1 ascend in byte order exactly when the numbers fit the width. */
  ghost predicate LabelsAscend(pre: string, post: string, width: nat, n: nat) {
    forall a: nat, b: nat :: a < b < n ==> Less(Label(pre, a, width, post), Label(pre, b, width, post))
  }

  lemma LabelsAscendExactly(pre: string, post: string, width: nat, n: nat)
    requires width >= 1
    ensures LabelsAscend(pre, post, width, n) <==> n <= Pow10(width)
  {
    if n <= Pow10(width) {
      forall a: nat, b: nat | a < b < n ensures Less(Label(pre, a, width, post), Label(pre, b, width, post)) {
        LabelOrder(pre, post, width, a, b);
      }
    } else {
      WiderComesFirst(width, pre, post);
      assert !Less(Label(pre, Pow10(width) - 1, width, post), Label(pre, Pow10(width), width, post));
    }
  }

  lemma {:induction false} ZerosAreZero(k: int)
    ensures AllDigits(Zeros(k)) && NatOf(Zeros(k)) == 0
  {
    if k > 0 {
      ZerosAreZero(k - 1);
      assert Zeros(k)[..|Zeros(k)| - 1] == Zeros(k - 1);
    }
  }

  lemma {:induction false} NatOfPadded(zeros: string, digits: string)
    requires AllDigits(zeros) && NatOf(zeros) == 0 && AllDigits(digits)
    ensures NatOf(zeros + digits) == NatOf(digits)
  {
    var s := zeros + digits;
    if digits == [] {
      assert s == zeros;
    } else {
      var short := digits[..|digits| - 1];
      NatOfPadded(zeros, short);
      assert s[..|s| - 1] == zeros + short;
    }
  }

  lemma NatOfPaddedNumber(n: nat, width: nat)
    ensures AllDigits(Padded(n, width)) && NatOf(Padded(n, width)) == n
  {
    hide NatOf;
    ZerosAreZero(width - |Decimal(n)|);
    NatOfPadded(Zeros(width - |Decimal(n)|), Decimal(n));
    NatOfDecimal(n);
  }

  lemma {:induction false} ZerosLength(k: int)
    ensures |Zeros(k)| == if k < 0 then 0 else k
  {
    if k > 0 { ZerosLength(k - 1); }
  }

  /** A label is its common start, the digits of its number, as many as the width or more, and its common end. */
  lemma LabelText(pre: string, n: nat, width: nat, post: string)
    ensures var l := Label(pre, n, width, post); var e := |l| - |post|;
      && e >= |pre| + width && (n < Pow10(width) && width >= 1 ==> e == |pre| + width)
      && l[..|pre|] == pre && l[e..] == post && AllDigits(l[|pre|..e]) && NatOf(l[|pre|..e]) == n
  {
    hide NatOf, Pow10;
    var p := Padded(n, width);
    ZerosLength(width - |Decimal(n)|);
    NatOfPaddedNumber(n, width);
    if n < Pow10(width) && width >= 1 { PaddedLength(n, width); }
    hide Padded;
    var l := Label(pre, n, width, post);
    assert l[|pre|..|l| - |post|] == p;
  }

  /** Different numbers have different labels, whatever their widths. */
  lemma LabelInjective(pre: string, post: string, width: nat, a: nat, b: nat)
    requires Label(pre, a, width, post) == Label(pre, b, width, post)
    ensures a == b
  {
    hide Padded, NatOf;
    var (p, q) := (Padded(a, width), Padded(b, width));
    assert pre + p + post == pre + q + post && |p| == |q|;
    assert p == (pre + p + post)[|pre|..|pre| + |p|] && q == (pre + q + post)[|pre|..|pre| + |q|];
    NatOfPaddedNumber(a, width);
    NatOfPaddedNumber(b, width);
  }
}
