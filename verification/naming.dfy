/**
 * The name of the PNG file a decoded code is re-encoded into
 * (`var outFile` in `QR.run`).
 */
module Naming {
  import opened Paths
  import opened Digits

  /** The `--out` value with an extension of exactly `png` stripped; any other extension is kept. */
  function BaseName(out: string): (base: string)
    ensures PathExtension(out) == "png" ==> base + ".png" == out
    ensures PathExtension(out) != "png" ==> base == out
  {
    if PathExtension(out) == "png" then
      StripPngExtension(out);
      DeletingPathExtension(out)
    else out
  }

  /**
   * The file name for the code at zero-based `index` among `count` detected
   * codes: the base name, then `-` and the one-based position when more than
   * one code was detected, then `.png`.
   */
  function OutputFileName(out: string, count: nat, index: nat): (name: string)
    ensures |name| >= 4 && name[|name| - 4..] == ".png"
  {
    if count > 1 then BaseName(out) + "-" + Decimal(index + 1) + ".png"
    else BaseName(out) + ".png"
  }

  /** The reassignments of `var outFile` that turn the `--out` value into the file name for the code at `index` of `count`. */
  method DeriveOutFile(out: string, count: nat, index: nat) returns (outFile: string)
    ensures outFile == OutputFileName(out, count, index)
  {
    outFile := out;
    if PathExtension(outFile) == "png" {
      outFile := DeletingPathExtension(outFile);
    }
    if count > 1 {
      outFile := outFile + "-" + Decimal(index + 1) + ".png";
    } else {
      outFile := outFile + ".png";
    }
  }

  /**
   * With a single code there is no index suffix: an `--out` value ending in
   * the extension `png` is used as it is, any other value gets `.png` appended.
   */
  lemma SingleCodeName(out: string, count: nat, index: nat)
    requires count <= 1
    ensures PathExtension(out) == "png" ==> OutputFileName(out, count, index) == out
    ensures PathExtension(out) != "png" ==> OutputFileName(out, count, index) == out + ".png"
  {
  }

  /**
   * With several codes the name is the base name, `-`, the one-based position
   * in decimal and `.png`; the base is the `--out` value without a `.png`
   * extension, so `x.png` never becomes `x.png-2.png`.
   */
  lemma {:induction false} MultiCodeName(out: string, count: nat, index: nat)
    requires count > 1
    ensures PathExtension(out) == "png" ==>
      |out| >= 4 && OutputFileName(out, count, index) == out[..|out| - 4] + "-" + Decimal(index + 1) + ".png"
    ensures PathExtension(out) != "png" ==>
      OutputFileName(out, count, index) == out + "-" + Decimal(index + 1) + ".png"
  {
  }

  /** Two codes of the same run never get the same file name. */
  lemma {:induction false} NamesDistinct(out: string, count: nat, i: nat, j: nat)
    requires i < count && j < count && i != j
    ensures OutputFileName(out, count, i) != OutputFileName(out, count, j)
  {
    var base := BaseName(out);
    var di, dj := Decimal(i + 1), Decimal(j + 1);
    var ni, nj := base + "-" + di + ".png", base + "-" + dj + ".png";
    if ni == nj {
      assert |di| == |dj|;
      assert ni[|base| + 1..|base| + 1 + |di|] == di;
      assert nj[|base| + 1..|base| + 1 + |dj|] == dj;
      DecimalInjective(i + 1, j + 1);
    }
  }

  /** An upper-case `PNG` extension is not `png`: it is kept and `.png` is appended. */
  lemma UpperCaseExtensionKept()
    ensures OutputFileName("x.PNG", 1, 0) == "x.PNG.png"
  {
    var s := "x.PNG";
    assert s[1] == '.' && s[2..] == "PNG";
    assert LastIndexOf(s, '.') == 1 && LastIndexOf(s, '/') == -1;
  }

  /** `shot.png` with three codes names the second one `shot-2.png`. */
  lemma ThreeCodesExample()
    ensures OutputFileName("shot.png", 3, 1) == "shot-2.png"
  {
    var s := "shot.png";
    assert s[4] == '.' && s[5..] == "png" && s[..4] == "shot";
    assert LastIndexOf(s, '.') == 4 && LastIndexOf(s, '/') == -1;
    assert Decimal(2) == "2";
  }
}
