/**
  The names the worker gives to pages: `page_NNN.jpg` for encoded images,
  `page_NNN` as the OPF page id, `page_NNN.xhtml` for per-page markup and
  `img_NNN` as the OPF image id, with NNN the number formatted as `{:03d}`.
*/
module Naming {
  import opened Text
  import Lex

  /** The page stem: `page_` and the number zero-padded to three digits. */
  function PageStem(n: nat): string {
    "page_" + PadDecimal(n, 3)
  }

  /** The file a page's JPEG is saved under: the page stem and `.jpg`. */
  function PageName(n: nat): string {
    PageStem(n) + ".jpg"
  }

  /** The file of a page's markup: the page stem and `.xhtml`. */
  function XhtmlName(n: nat): string {
    PageStem(n) + ".xhtml"
  }

  /** The OPF manifest id of a page's image: `img_` and the number zero-padded to three digits. */
  function ImageId(n: nat): string {
    "img_" + PadDecimal(n, 3)
  }

  /** The three digits of a number below 1000, as `{:03d}` writes them. */
  lemma ThreeDigits(n: nat)
    requires n < 1000
    ensures PadDecimal(n, 3) == [DigitChar(n / 10 / 10), DigitChar(n / 10 % 10), DigitChar(n % 10)]
  {
    var m := n / 10;
    if n < 10 {
      assert Decimal(n) == [DigitChar(n)];
      assert Zeros(2) == ['0', '0'];
    } else if n < 100 {
      assert Decimal(m) == [DigitChar(m)];
      assert Decimal(n) == [DigitChar(m), DigitChar(n % 10)];
      assert Zeros(1) == ['0'];
    } else {
      assert Decimal(m / 10) == [DigitChar(m / 10)];
      assert Decimal(m) == [DigitChar(m / 10), DigitChar(m % 10)];
      assert Decimal(n) == [DigitChar(m / 10), DigitChar(m % 10), DigitChar(n % 10)];
    }
  }

  lemma DigitCharLess(a: nat, b: nat)
    requires a < b < 10
    ensures DigitChar(a) < DigitChar(b)
  {
  }

  /** Three-digit fields compare as the numbers they hold. */
  lemma ThreeDigitOrder(i: nat, j: nat)
    requires i < j < 1000
    ensures Lex.Less(PadDecimal(i, 3), PadDecimal(j, 3))
  {
    ThreeDigits(i);
    ThreeDigits(j);
    var a, b, c := i / 10 / 10, i / 10 % 10, i % 10;
    var a', b', c' := j / 10 / 10, j / 10 % 10, j % 10;
    assert i == 100 * a + 10 * b + c;
    assert j == 100 * a' + 10 * b' + c';
    var s := [DigitChar(a), DigitChar(b), DigitChar(c)];
    var t := [DigitChar(a'), DigitChar(b'), DigitChar(c')];
    if a < a' {
      DigitCharLess(a, a');
    } else {
      assert a == a';
      assert s[1..] == [DigitChar(b), DigitChar(c)];
      assert t[1..] == [DigitChar(b'), DigitChar(c')];
      if b < b' {
        DigitCharLess(b, b');
      } else {
        assert b == b';
        assert s[1..][1..] == [DigitChar(c)];
        assert t[1..][1..] == [DigitChar(c')];
        DigitCharLess(c, c');
      }
    }
  }

  /**
    For page numbers 1..999, Python's `sorted` on the file names puts them in
    page order: this is what lets the comic archive take its pages from a
    sorted directory listing.
  */
  lemma PageNamesSortInPageOrder(i: nat, j: nat)
    requires 1 <= i < j <= 999
    ensures Lex.Less(PageName(i), PageName(j))
  {
    ThreeDigitOrder(i, j);
    ThreeDigits(i);
    ThreeDigits(j);
    Lex.LessExtend(PadDecimal(i, 3), PadDecimal(j, 3), ".jpg", ".jpg");
    assert PageName(i) == "page_" + (PadDecimal(i, 3) + ".jpg");
    assert PageName(j) == "page_" + (PadDecimal(j, 3) + ".jpg");
    Lex.LessAfterCommonPrefix("page_", PadDecimal(i, 3) + ".jpg", PadDecimal(j, 3) + ".jpg");
  }

  /** From page 1000 on the field grows a fourth digit and the order breaks: `page_1000.jpg` sorts before `page_999.jpg`. */
  lemma PageOrderBreaksAt1000()
    ensures Lex.Less(PageName(1000), PageName(999))
  {
    assert Decimal(1000) == "1000";
    assert PadDecimal(1000, 3) == "1000";
    ThreeDigits(999);
    assert PadDecimal(999, 3) == "999";
    assert PageName(1000) == "page_" + "1000.jpg";
    assert PageName(999) == "page_" + "999.jpg";
    Lex.LessAfterCommonPrefix("page_", "1000.jpg", "999.jpg");
  }

  /** Two different page numbers never share a file name, so no page overwrites another. */
  lemma PageNameInjective(i: nat, j: nat)
    requires PageName(i) == PageName(j)
    ensures i == j
  {
    var p, q := PageName(i), PageName(j);
    assert p[5..|p| - 4] == PadDecimal(i, 3);
    assert q[5..|q| - 4] == PadDecimal(j, 3);
    PadDecimalInjective(i, j, 3);
  }

  lemma XhtmlNameInjective(i: nat, j: nat)
    requires XhtmlName(i) == XhtmlName(j)
    ensures i == j
  {
    var p, q := XhtmlName(i), XhtmlName(j);
    assert p[5..|p| - 6] == PadDecimal(i, 3);
    assert q[5..|q| - 6] == PadDecimal(j, 3);
    PadDecimalInjective(i, j, 3);
  }

  /** Page file names are plain names: no directory separator, quote or line break. */
  lemma PageNameIsPlain(n: nat)
    ensures PageName(n) != [] && '/' !in PageName(n) && '"' !in PageName(n) && '\n' !in PageName(n)
    ensures PageName(n) != "mimetype"
  {
    var d := PadDecimal(n, 3);
    assert PageName(n) == "page_" + d + ".jpg";
    assert forall k :: 0 <= k < |d| ==> IsDigit(d[k]);
    assert PageName(n)[0] == 'p';
  }

  lemma PageStemIsPlain(n: nat)
    ensures '"' !in PageStem(n) && '\n' !in PageStem(n) && '"' !in XhtmlName(n) && '"' !in ImageId(n)
    ensures '\n' !in XhtmlName(n) && '\n' !in ImageId(n)
  {
    var d := PadDecimal(n, 3);
    assert forall k :: 0 <= k < |d| ==> IsDigit(d[k]);
    assert XhtmlName(n) == "page_" + d + ".xhtml";
    assert ImageId(n) == "img_" + d;
  }
}
