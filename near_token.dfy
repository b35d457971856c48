/** `NearToken`'s `Display`, which `format!("{}")` applies to an attached deposit.
    It shows a rounded amount of NEAR, not the yoctoNEAR count, in one of four forms:
    exactly zero, below one milliNEAR, milliNEAR with three decimals for amounts up
    to 0.999 NEAR, and NEAR with two decimals above that; the last two round up. */
module NearToken {
  import opened Encoding

  const YoctoPerMilliNear: nat := 1_000_000_000_000_000_000_000
  const YoctoPerCentiNear: nat := 10_000_000_000_000_000_000_000
  const MaxMilliNearShown: nat := 999

  /** What the display keeps of an amount: the range it falls in and, for the last two,
      the amount rounded up to the unit of the last digit shown. */
  datatype Shown = NoNear | UnderMilliNear | MilliNear(m: nat) | CentiNear(c: nat)

  predicate Renderable(p: Shown) {
    (p.MilliNear? ==> 1 <= p.m <= MaxMilliNearShown) && (p.CentiNear? ==> p.c >= 100)
  }

  function Precision(yocto: nat): (p: Shown)
    ensures Renderable(p)
    ensures p == NoNear <==> yocto == 0
    ensures p == UnderMilliNear <==> 0 < yocto < YoctoPerMilliNear
    ensures p.MilliNear? <==> YoctoPerMilliNear <= yocto <= MaxMilliNearShown * YoctoPerMilliNear
    ensures p.MilliNear? ==> (p.m - 1) * YoctoPerMilliNear < yocto <= p.m * YoctoPerMilliNear
    ensures p.CentiNear? ==> (p.c - 1) * YoctoPerCentiNear < yocto <= p.c * YoctoPerCentiNear
  {
    if yocto == 0 then NoNear
    else if yocto < YoctoPerMilliNear then UnderMilliNear
    else if yocto <= MaxMilliNearShown * YoctoPerMilliNear then
      MilliNear((yocto + YoctoPerMilliNear - 1) / YoctoPerMilliNear)
    else
      CentiNear((yocto + YoctoPerCentiNear - 1) / YoctoPerCentiNear)
  }

  /** The text for each range: "0 NEAR", "<0.001 NEAR", "0.{:03} NEAR" and "{}.{:02} NEAR". */
  function Render(p: Shown): (s: string)
    requires Renderable(p)
    ensures |s| >= 6 && s[|s| - 5..] == " NEAR"
  {
    match p
    case NoNear => "0 NEAR"
    case UnderMilliNear => "<0.001 NEAR"
    case MilliNear(m) => "0." + [DecimalDigit(m / 100), DecimalDigit(m / 10 % 10), DecimalDigit(m % 10)] + " NEAR"
    case CentiNear(c) => DecimalString(c / 100) + "." + [DecimalDigit(c / 10 % 10), DecimalDigit(c % 10)] + " NEAR"
  }

  /** `impl Display for NearToken`. */
  function Display(yocto: nat): (s: string)
    ensures |s| >= 6 && s[|s| - 5..] == " NEAR"
  {
    Render(Precision(yocto))
  }

  /** The forms differ in length or first character: only the two-decimal form starts
      with a non-zero digit, and the zero, below-milliNEAR and three-decimal forms have
      lengths 6, 11 and 10. */
  lemma RenderShape(p: Shown)
    requires Renderable(p)
    ensures Render(p)[0] != '0' && Render(p)[0] != '<' <==> p.CentiNear?
    ensures p.NoNear? ==> |Render(p)| == 6
    ensures p.UnderMilliNear? ==> |Render(p)| == 11 && Render(p)[0] == '<'
    ensures p.MilliNear? ==> |Render(p)| == 10 && Render(p)[0] == '0'
  {
  }

  lemma RenderCentiInjective(c1: nat, c2: nat)
    requires c1 >= 100 && c2 >= 100 && Render(CentiNear(c1)) == Render(CentiNear(c2))
    ensures c1 == c2
  {
    var d1, d2 := DecimalString(c1 / 100), DecimalString(c2 / 100);
    var r1 := "." + [DecimalDigit(c1 / 10 % 10), DecimalDigit(c1 % 10)] + " NEAR";
    var r2 := "." + [DecimalDigit(c2 / 10 % 10), DecimalDigit(c2 % 10)] + " NEAR";
    assert Render(CentiNear(c1)) == d1 + r1;
    assert Render(CentiNear(c2)) == d2 + r2;
    SplitAtSameSuffixLength(d1, r1, d2, r2);
    DecimalStringInjective(c1 / 100, c2 / 100);
    assert r1[1] == r2[1] && r1[2] == r2[2];
    SplitDigits(c1);
    SplitDigits(c2);
  }

  lemma SplitAtSameSuffixLength(d1: string, r1: string, d2: string, r2: string)
    requires d1 + r1 == d2 + r2 && |r1| == |r2|
    ensures d1 == d2 && r1 == r2
  {
    assert d1 == (d1 + r1)[..|d1|];
    assert d2 == (d2 + r2)[..|d2|];
    assert r1 == (d1 + r1)[|d1|..];
    assert r2 == (d2 + r2)[|d2|..];
  }

  lemma RenderMilliInjective(m1: nat, m2: nat)
    requires 1 <= m1 <= MaxMilliNearShown && 1 <= m2 <= MaxMilliNearShown
    requires Render(MilliNear(m1)) == Render(MilliNear(m2))
    ensures m1 == m2
  {
    var s := Render(MilliNear(m1));
    assert s[2] == DecimalDigit(m1 / 100) == DecimalDigit(m2 / 100);
    assert s[3] == DecimalDigit(m1 / 10 % 10) == DecimalDigit(m2 / 10 % 10);
    assert s[4] == DecimalDigit(m1 % 10) == DecimalDigit(m2 % 10);
    SplitDigits(m1);
    SplitDigits(m2);
  }

  /** A number is its hundreds, tens and units digit put back together. */
  lemma SplitDigits(m: nat)
    ensures m == 100 * (m / 100) + 10 * (m / 10 % 10) + m % 10
  {
    assert m == 10 * (m / 10) + m % 10;
    assert m / 10 == 10 * (m / 10 / 10) + m / 10 % 10;
    assert m / 10 / 10 == m / 100;
  }

  lemma RenderInjective(p: Shown, q: Shown)
    requires Renderable(p) && Renderable(q) && Render(p) == Render(q)
    ensures p == q
  {
    RenderShape(p);
    RenderShape(q);
    if p.CentiNear? && q.CentiNear? {
      RenderCentiInjective(p.c, q.c);
    } else if p.MilliNear? && q.MilliNear? {
      RenderMilliInjective(p.m, q.m);
    }
  }

  /** Two amounts print alike exactly when they fall in the same range and round to
      the same shown value: the text is far from injective in the amount. */
  lemma DisplayExact(a: nat, b: nat)
    ensures Display(a) == Display(b) <==> Precision(a) == Precision(b)
  {
    if Display(a) == Display(b) {
      RenderInjective(Precision(a), Precision(b));
    }
  }
}
