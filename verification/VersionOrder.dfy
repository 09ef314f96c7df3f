/** The natural sort in terms of characters: what the digits are worth, and which of two
    paths comes first. */
module VersionOrder {
  import opened NaturalSort

  /** Strictly before in the order of the sort. */
  predicate Before(s: string, t: string) { Leq(s, t) && !Leq(t, s) }

  // ----------------------------------------------------------------- numerals

  lemma DigitsAre(c: char)
    ensures IsDigit(c) <==> c in "0123456789"
  {
    var all := "0123456789";
    assert all[0] == '0' && all[1] == '1' && all[2] == '2' && all[3] == '3' && all[4] == '4';
    assert all[5] == '5' && all[6] == '6' && all[7] == '7' && all[8] == '8' && all[9] == '9';
    if IsDigit(c) {
      assert c == all[Digit(c)] by { DigitAt(Digit(c)); }
    }
  }

  lemma DigitAt(d: nat)
    requires d < 10
    ensures "0123456789"[d] as int == '0' as int + d
    ensures IsDigit("0123456789"[d]) && Digit("0123456789"[d]) == d
  {
  }

  predicate Digits(s: string) { forall i :: 0 <= i < |s| ==> IsDigit(s[i]) }

  /** A numeral is worth ten times what it is worth without its last digit, and that digit. */
  lemma ValueOfNumeral(s: string, d: nat)
    requires Digits(s) && d < 10
    ensures IsDigit("0123456789"[d])
    ensures ToNat("") == 0 && ToNat(s + ["0123456789"[d]]) == 10 * ToNat(s) + d
  {
    DigitAt(d);
    assert (s + ["0123456789"[d]])[..|s|] == s;
  }

  /** And this is how numbers are written. */
  lemma DecimalOf(n: nat)
    ensures n < 10 ==> Decimal(n) == ["0123456789"[n]]
    ensures n >= 10 ==> Decimal(n) == Decimal(n / 10) + ["0123456789"[n % 10]]
  {
    DigitAt(n % 10);
  }

  function Pow10(k: nat): (p: nat)
    ensures p > 0
  {
    if k == 0 then 1 else 10 * Pow10(k - 1)
  }

  lemma {:induction false} ValueOfConcat(s: string, t: string)
    requires Digits(s) && Digits(t)
    ensures ToNat(s + t) == ToNat(s) * Pow10(|t|) + ToNat(t)
    decreases |t|
  {
    if t == "" {
      assert s + t == s;
    } else {
      var n := |t| - 1;
      ValueOfConcat(s, t[..n]);
      assert (s + t)[..|s| + n] == s + t[..n];
      TimesTen(ToNat(s), Pow10(n), ToNat(t[..n]), Digit(t[n]));
    }
  }

  lemma TimesTen(a: nat, p: nat, b: nat, d: nat)
    ensures (a * p + b) * 10 + d == a * (10 * p) + (b * 10 + d)
  {
  }

  lemma {:induction false} ValueBound(s: string)
    requires Digits(s)
    ensures ToNat(s) < Pow10(|s|)
  {
    if s != "" { ValueBound(s[..|s| - 1]); }
  }

  /** Without a leading zero, a longer numeral is worth more. */
  lemma LongerIsMore(s: string, t: string)
    requires Digits(s) && Digits(t) && |s| < |t| && t[0] != '0'
    ensures ToNat(s) < ToNat(t)
  {
    assert t == t[..1] + t[1..];
    ValueOfConcat(t[..1], t[1..]);
    assert t[..1][..0] == "";
    ValueBound(s);
    Pow10Grows(|s|, |t| - 1);
    AtLeast(ToNat(t[..1]), Pow10(|t| - 1));
  }

  lemma AtLeast(a: nat, p: nat)
    requires a > 0
    ensures a * p >= p
  {
  }

  lemma {:induction false} Pow10Grows(j: nat, k: nat)
    requires j <= k
    ensures Pow10(j) <= Pow10(k)
    decreases k
  {
    if j < k { Pow10Grows(j, k - 1); }
  }

  /** Of two numerals of the same length, the first different digit decides. */
  lemma LargerDigitIsMore(s: string, t: string, k: nat)
    requires Digits(s) && Digits(t) && k < |s| == |t| && s[..k] == t[..k] && s[k] < t[k]
    ensures ToNat(s) < ToNat(t)
  {
    hide ToNat;
    assert s == s[..k + 1] + s[k + 1..] && t == t[..k + 1] + t[k + 1..];
    assert s[..k + 1] == s[..k] + [s[k]] && t[..k + 1] == s[..k] + [t[k]];
    LastDigit(s[..k], s[k], t[k]);
    LargerLeadIsMore(s[..k + 1], t[..k + 1], s[k + 1..], t[k + 1..]);
  }

  lemma LastDigit(p: string, c: char, d: char)
    requires Digits(p) && IsDigit(c) && IsDigit(d) && c < d
    ensures ToNat(p + [c]) < ToNat(p + [d])
  {
    assert (p + [c])[..|p|] == p && (p + [d])[..|p|] == p;
  }

  lemma LargerLeadIsMore(a: string, b: string, x: string, y: string)
    requires Digits(a) && Digits(b) && Digits(x) && Digits(y) && |x| == |y| && ToNat(a) < ToNat(b)
    ensures Digits(a + x) && Digits(b + y) && ToNat(a + x) < ToNat(b + y)
  {
    hide ToNat, Pow10;
    ValueOfConcat(a, x);
    ValueOfConcat(b, y);
    ValueBound(x);
    LeadDecides(ToNat(a), ToNat(b), Pow10(|x|), ToNat(x), ToNat(y));
  }

  lemma LeadDecides(a: nat, b: nat, p: nat, x: nat, y: nat)
    requires a < b && x < p
    ensures a * p + x < b * p + y
  {
    assert b * p == (b - 1) * p + p;
    AtMost(a, b - 1, p);
  }

  lemma AtMost(a: nat, b: nat, p: nat)
    requires a <= b
    ensures a * p <= b * p
  {
  }

  // ------------------------------------------------------------ version paths

  /** Below any parent, of two version directories the one with the shorter name comes first,
      unless zeros lead the longer one. */
  lemma ShorterVersionFirst(parent: string, s: string, t: string)
    requires AllDigits(s) && AllDigits(t) && |s| < |t| && t[0] != '0'
    ensures Before(parent + "/" + s, parent + "/" + t)
  {
    LongerIsMore(s, t);
    ByValue(parent, s, t);
  }

  /** With names of the same length, the one with the smaller character at the first
      difference comes first. */
  lemma SmallerDigitFirst(parent: string, s: string, t: string, k: nat)
    requires AllDigits(s) && AllDigits(t) && k < |s| == |t| && s[..k] == t[..k] && s[k] < t[k]
    ensures Before(parent + "/" + s, parent + "/" + t)
  {
    LargerDigitIsMore(s, t, k);
    ByValue(parent, s, t);
  }

  lemma ByValue(parent: string, s: string, t: string)
    requires AllDigits(s) && AllDigits(t)
    ensures Leq(parent + "/" + s, parent + "/" + t) <==> ToNat(s) <= ToNat(t)
    ensures Leq(parent + "/" + t, parent + "/" + s) <==> ToNat(t) <= ToNat(s)
  {
    NameIsVersion(parent, s);
    NameIsVersion(parent, t);
    VersionsSortNumerically(parent, parent + "/" + s, parent + "/" + t);
    VersionsSortNumerically(parent, parent + "/" + t, parent + "/" + s);
  }

  lemma NameIsVersion(parent: string, s: string)
    requires AllDigits(s)
    ensures IsVersionPath(parent, parent + "/" + s) && VersionOf(parent + "/" + s) == ToNat(s)
  {
    var path := parent + "/" + s;
    assert path[|parent| + 1..] == s;
    BaseNameOfJoin(parent, s);
  }

  // -------------------------------------------------------------------- texts

  /** Texts without digits are ordered by the first different character, and a prefix comes
      first. */
  lemma TextsByCharacter(p: string, c: char, d: char, x: string, y: string)
    requires DigitFree(p + [c] + x) && DigitFree(p + [d] + y) && c < d
    ensures Before(p + [c] + x, p + [d] + y) && Before(p, p + [c] + x)
  {
    var s, t := p + [c] + x, p + [d] + y;
    assert DigitFree(p) by { assert forall i :: 0 <= i < |p| ==> p[i] == s[i]; }
    KeyOfText(s);
    KeyOfText(t);
    KeyOfText(p);
    ByCharacter(p, c, d, x, y);
    PrefixFirst(p, [c] + x);
    assert p + ([c] + x) == s;
  }

  lemma KeyOfText(s: string)
    requires DigitFree(s)
    ensures Key(s) == [Text(s)]
  {
    assert Concat([s]) == s + Concat([]);
    SplitExact(s, [s]);
  }

  lemma {:induction false} ByCharacter(p: string, c: char, d: char, x: string, y: string)
    requires c < d
    ensures CompareText(p + [c] + x, p + [d] + y) == Less && CompareText(p + [d] + y, p + [c] + x) == Greater
  {
    if p != "" {
      ByCharacter(p[1..], c, d, x, y);
      assert (p + [c] + x)[1..] == p[1..] + [c] + x && (p + [d] + y)[1..] == p[1..] + [d] + y;
    }
  }

  lemma {:induction false} PrefixFirst(p: string, x: string)
    requires x != ""
    ensures CompareText(p, p + x) == Less && CompareText(p + x, p) == Greater
  {
    if p != "" {
      PrefixFirst(p[1..], x);
      assert (p + x)[1..] == p[1..] + x;
    }
  }

  /** In general, paths whose pieces agree up to two different numbers are in the order of
      these, and likewise for texts. */
  lemma FirstPieceDecides(s: string, t: string, k: seq<Piece>, x: Piece, y: Piece, a: seq<Piece>, b: seq<Piece>)
    requires Key(s) == k + ([x] + a) && Key(t) == k + ([y] + b) && x != y
    ensures x.Num? && y.Num? ==> (Before(s, t) <==> x.value < y.value)
    ensures x.Text? && y.Text? ==> (Leq(s, t) <==> CompareText(x.text, y.text) == Less)
  {
    CommonPrefix(k, [x] + a, [y] + b);
    CommonPrefix(k, [y] + b, [x] + a);
    if x.Text? && y.Text? {
      TextOrder(x.text, y.text);
    }
  }

  /** For example, 2 comes before 10, and the version after 10 is 11. */
  lemma TwoBeforeTen(parent: string)
    ensures Before(parent + "/" + "2", parent + "/" + "10")
    ensures Decimal(11) == "11" && Digits("10") && ToNat("10") == 10
  {
    hide Before, ToNat, Decimal;
    ShorterVersionFirst(parent, "2", "10");
    DecimalOf(11);
    DecimalOf(1);
    ValueOfNumeral("", 1);
    ValueOfNumeral("1", 0);
    assert "" + ["0123456789"[1]] == "1" && "1" + ["0123456789"[0]] == "10";
    assert ["0123456789"[1]] == "1" && "1" + "1" == "11";
  }
}
