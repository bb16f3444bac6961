/**
 * The manifest that states its own length. Each attempt renders the text with the counts found so
 * far and counts again; the loop stops when the text holds its own length, or after ten attempts.
 */
module Manifest {
  import opened Text

  /** Lengths of the three documents beside the manifest. */
  datatype DocumentSizes = DocumentSizes(overview: nat, typescript: nat, prisma: nat) {
    function Total(): nat {
      overview + typescript + prisma
    }
  }

  /** The JSON from the section sizes to the manifest's own. */
  const OWN_COUNT: string := "  \"sectionChars\": {\n    \"manifest.json\": "

  /** The JSON between the manifest's own count and the combined count. */
  function Between(sizes: DocumentSizes): string {
    ",\n    \"overview.md\": " + Decimal(sizes.overview) + ",\n    \"typescript.md\": " + Decimal(sizes.typescript)
    + ",\n    \"prisma.md\": " + Decimal(sizes.prisma) + "\n  },\n  \"combinedChars\": "
  }

  /** The manifest; `head` is everything before the section sizes: versions, scope, fingerprint, output directory. */
  function ManifestText(head: string, sizes: DocumentSizes, manifestChars: nat, combinedChars: nat): string {
    head + OWN_COUNT + Decimal(manifestChars) + Between(sizes) + Decimal(combinedChars) + "\n}\n"
  }

  /** One line of the section sizes. */
  function SizeLine(file: string, size: nat): string {
    "    \"" + file + "\": " + Decimal(size)
  }

  /** The manifest line by line: every count stands under the name of what it counts. */
  function ManifestLines(head: string, sizes: DocumentSizes, manifestChars: nat, combinedChars: nat): string {
    head
    + "  \"sectionChars\": {\n"
    + SizeLine("manifest.json", manifestChars) + ",\n"
    + SizeLine("overview.md", sizes.overview) + ",\n"
    + SizeLine("typescript.md", sizes.typescript) + ",\n"
    + SizeLine("prisma.md", sizes.prisma) + "\n"
    + "  },\n"
    + "  \"combinedChars\": " + Decimal(combinedChars) + "\n"
    + "}\n"
  }

  lemma FirstSize(head: string, size: nat)
    ensures head + "  \"sectionChars\": {\n" + SizeLine("manifest.json", size) == head + OWN_COUNT + Decimal(size)
  {
    hide Decimal;
    var caption := "    \"" + "manifest.json" + "\": ";
    assert "  \"sectionChars\": {\n" + caption == OWN_COUNT;
    Regrouped(head, "  \"sectionChars\": {\n", caption, Decimal(size));
  }

  lemma NextSize(before: string, file: string, size: nat, caption: string)
    requires caption == ",\n" + ("    \"" + file + "\": ")
    ensures before + ",\n" + SizeLine(file, size) == before + caption + Decimal(size)
  {
    hide Decimal;
    Regrouped(before, ",\n", "    \"" + file + "\": ", Decimal(size));
  }

  lemma Regrouped(a: string, b: string, c: string, d: string)
    ensures a + b + (c + d) == a + (b + c) + d
  {
  }

  lemma SevenRegrouped(x: string, a: string, b: string, c: string, d: string, e: string, f: string, g: string)
    ensures x + (a + b + c + d + e + f + g) == x + a + b + c + d + e + f + g
  {
    Regrouped(x, a + b + c + d, e + f, g);
    assert a + b + c + d + e + f + g == a + b + c + d + (e + f) + g;
  }

  lemma SizeCaptions()
    ensures ",\n    \"overview.md\": " == ",\n" + ("    \"" + "overview.md" + "\": ")
    ensures ",\n    \"typescript.md\": " == ",\n" + ("    \"" + "typescript.md" + "\": ")
    ensures ",\n    \"prisma.md\": " == ",\n" + ("    \"" + "prisma.md" + "\": ")
  {
  }

  lemma ClosingLines()
    ensures "\n" + "  },\n" + "  \"combinedChars\": " == "\n  },\n  \"combinedChars\": "
    ensures "\n" + "}\n" == "\n}\n"
  {
  }

  lemma LastLines(before: string, all: string)
    ensures before + "\n" + "  },\n" + "  \"combinedChars\": " + all + "\n" + "}\n"
            == before + "\n  },\n  \"combinedChars\": " + all + "\n}\n"
  {
    ClosingLines();
    Regrouped(before, "\n", "  },\n", "  \"combinedChars\": ");
    assert before + "\n" + "  },\n" + "  \"combinedChars\": " == before + ("\n" + "  },\n" + "  \"combinedChars\": ");
    var x := before + "\n  },\n  \"combinedChars\": " + all;
    assert x + "\n" + "}\n" == x + ("\n" + "}\n");
  }

  lemma TextIsItsLines(head: string, sizes: DocumentSizes, manifestChars: nat, combinedChars: nat)
    ensures ManifestText(head, sizes, manifestChars, combinedChars) == ManifestLines(head, sizes, manifestChars, combinedChars)
  {
    hide Decimal, SizeLine, OWN_COUNT;
    var own, all := Decimal(manifestChars), Decimal(combinedChars);
    var a, b, c := Decimal(sizes.overview), Decimal(sizes.typescript), Decimal(sizes.prisma);
    var labelA, labelB, labelC, tail :=
      ",\n    \"overview.md\": ", ",\n    \"typescript.md\": ", ",\n    \"prisma.md\": ", "\n  },\n  \"combinedChars\": ";
    SizeCaptions();
    var x0 := head + OWN_COUNT + own;
    FirstSize(head, manifestChars);
    NextSize(x0, "overview.md", sizes.overview, labelA);
    NextSize(x0 + labelA + a, "typescript.md", sizes.typescript, labelB);
    NextSize(x0 + labelA + a + labelB + b, "prisma.md", sizes.prisma, labelC);
    LastLines(x0 + labelA + a + labelB + b + labelC + c, all);
    SevenRegrouped(x0, labelA, a, labelB, b, labelC, c, tail);
  }

  /** Does a manifest claiming length `n` have length `n`? */
  predicate StatesOwnLength(head: string, sizes: DocumentSizes, n: nat) {
    |ManifestText(head, sizes, n, n + sizes.Total())| == n
  }

  // ---------- counting digits ----------

  function Digits(n: nat): nat {
    |Decimal(n)|
  }

  lemma {:induction false} DigitsMonotone(m: nat, n: nat)
    requires m <= n
    ensures 1 <= Digits(m) <= Digits(n)
    decreases n
  {
    if n >= 10 && m >= 10 {
      DigitsMonotone(m / 10, n / 10);
    }
  }

  lemma DigitsTenfold(n: nat)
    requires n >= 1
    ensures Digits(10 * n) == Digits(n) + 1
  {
    assert 10 * n / 10 == n;
  }

  lemma {:induction false} DigitsSlow(n: nat, k: nat)
    ensures Digits(n + k) <= Digits(n) + k
    ensures n + k >= 1 ==> Digits(n + k) <= n + k
    decreases n + k
  {
    if n + k >= 10 {
      var a, b := n / 10, (n + k) / 10;
      DigitsSlow(a, b - a);
      assert Digits(n + k) == Digits(b) + 1;
      assert n >= 10 ==> Digits(n) == Digits(a) + 1;
      assert b - a <= k;
      if n < 10 {
        DigitsSlow(0, b);
      }
    }
  }

  /** Under ten times a number there is at most one digit more. */
  lemma DigitsWithinTenfold(m: nat, n: nat)
    requires 1 <= m <= n < 10 * m
    ensures Digits(m) <= Digits(n) <= Digits(m) + 1
  {
    DigitsMonotone(m, n);
    DigitsMonotone(n, 10 * m);
    DigitsTenfold(m);
  }

  // ---------- the lengths the loop goes through ----------

  /** Length of a manifest saying it is `n` long beside documents of `total` characters. */
  function NextLength(fixedChars: nat, total: nat, n: nat): nat {
    fixedChars + Digits(n) + Digits(n + total)
  }

  /** The length claimed in attempt `k`. */
  function Claim(fixedChars: nat, total: nat, k: nat): nat {
    if k == 0 then 0 else NextLength(fixedChars, total, Claim(fixedChars, total, k - 1))
  }

  lemma NextLengthMonotone(fixedChars: nat, total: nat, m: nat, n: nat)
    requires m <= n
    ensures NextLength(fixedChars, total, m) <= NextLength(fixedChars, total, n)
  {
    DigitsMonotone(m, n);
    DigitsMonotone(m + total, n + total);
  }

  /** Claims only rise. */
  lemma {:induction false} ClaimsRise(fixedChars: nat, total: nat, k: nat)
    ensures Claim(fixedChars, total, k) <= Claim(fixedChars, total, k + 1)
  {
    if k > 0 {
      ClaimsRise(fixedChars, total, k - 1);
      NextLengthMonotone(fixedChars, total, Claim(fixedChars, total, k - 1), Claim(fixedChars, total, k));
    }
  }

  /** And never pass a length that would fit. */
  lemma {:induction false} ClaimsStayBelow(fixedChars: nat, total: nat, k: nat, n: nat)
    requires NextLength(fixedChars, total, n) == n
    ensures Claim(fixedChars, total, k) <= n
  {
    if k > 0 {
      ClaimsStayBelow(fixedChars, total, k - 1, n);
      NextLengthMonotone(fixedChars, total, Claim(fixedChars, total, k - 1), n);
    }
  }

  /** From the first claim on, both counts stay within one digit of where they were. */
  lemma {:induction false} ClaimsStayClose(fixedChars: nat, total: nat, k: nat)
    requires k >= 1
    ensures var first := Claim(fixedChars, total, 1); var claim := Claim(fixedChars, total, k);
            && 2 <= first <= claim < 10 * first
            && Digits(first) <= Digits(claim) <= Digits(first) + 1
            && Digits(first + total) <= Digits(claim + total) <= Digits(first + total) + 1
  {
    hide Digits;
    var first, claim := Claim(fixedChars, total, 1), Claim(fixedChars, total, k);
    assert first == fixedChars + Digits(0) + Digits(total) by { assert Claim(fixedChars, total, 0) == 0; }
    DigitsMonotone(0, total);
    if k > 1 {
      ClaimsStayClose(fixedChars, total, k - 1);
      ClaimsRise(fixedChars, total, k - 1);
      DigitsSlow(0, first);
      DigitsSlow(total, first);
      assert first + total == total + first;
    }
    DigitsWithinTenfold(first, claim);
    DigitsWithinTenfold(first + total, claim + total);
  }

  lemma ClaimsUnroll(fixedChars: nat, total: nat, k: nat)
    requires k >= 1
    ensures Claim(fixedChars, total, k) == fixedChars + Digits(Claim(fixedChars, total, k - 1)) + Digits(Claim(fixedChars, total, k - 1) + total)
  {
  }

  /** Two counts can each gain a digit once, so the fifth claim already fits. */
  lemma FifthClaimFits(fixedChars: nat, total: nat)
    ensures Claim(fixedChars, total, 5) == Claim(fixedChars, total, 4)
  {
    hide Digits, Claim;
    ClaimsStayClose(fixedChars, total, 2);
    ClaimsStayClose(fixedChars, total, 3);
    ClaimsStayClose(fixedChars, total, 4);
    ClaimsRise(fixedChars, total, 1);
    ClaimsRise(fixedChars, total, 2);
    ClaimsRise(fixedChars, total, 3);
    ClaimsRise(fixedChars, total, 4);
    ClaimsUnroll(fixedChars, total, 2);
    ClaimsUnroll(fixedChars, total, 3);
    ClaimsUnroll(fixedChars, total, 4);
    ClaimsUnroll(fixedChars, total, 5);
    DigitsMonotone(Claim(fixedChars, total, 1), Claim(fixedChars, total, 2));
    DigitsMonotone(Claim(fixedChars, total, 2), Claim(fixedChars, total, 3));
    DigitsMonotone(Claim(fixedChars, total, 3), Claim(fixedChars, total, 4));
    DigitsMonotone(Claim(fixedChars, total, 1) + total, Claim(fixedChars, total, 2) + total);
    DigitsMonotone(Claim(fixedChars, total, 2) + total, Claim(fixedChars, total, 3) + total);
    DigitsMonotone(Claim(fixedChars, total, 3) + total, Claim(fixedChars, total, 4) + total);
  }

  // ---------- the loop ----------

  /** Characters of the manifest that are not one of the two counts. */
  function FixedChars(head: string, sizes: DocumentSizes): nat {
    |head| + |OWN_COUNT| + |Between(sizes)| + 3
  }

  lemma LengthOfManifest(head: string, sizes: DocumentSizes, n: nat)
    ensures |ManifestText(head, sizes, n, n + sizes.Total())| == NextLength(FixedChars(head, sizes), sizes.Total(), n)
  {
    hide Decimal, Between;
  }

  /**
   * The text states its own length, each document's and the real combined total, under their names and
   * for documents of every size, and it is the shortest text that does.
   */
  method BuildManifest(head: string, sizes: DocumentSizes) returns (text: string, combinedChars: nat)
    ensures combinedChars == |text| + sizes.overview + sizes.typescript + sizes.prisma
    ensures text == ManifestLines(head, sizes, |text|, combinedChars)
    ensures forall n: nat :: StatesOwnLength(head, sizes, n) ==> |text| <= n
  {
    hide ManifestText, ManifestLines, Claim, NextLength;
    ghost var fixedChars, total := FixedChars(head, sizes), sizes.Total();
    var manifestChars: nat := 0;
    combinedChars := sizes.Total();
    text := "";
    assert Claim(fixedChars, total, 0) == 0 by { ClaimStart(fixedChars, total); }
    var attempt := 0;
    while attempt < 10
      invariant 0 <= attempt <= 4
      invariant manifestChars == Claim(fixedChars, total, attempt) && combinedChars == manifestChars + total
      decreases 10 - attempt
    {
      text := ManifestText(head, sizes, manifestChars, combinedChars);
      LengthOfManifest(head, sizes, manifestChars);
      var nextManifestChars := |text|;
      var nextCombinedChars := nextManifestChars + sizes.Total();
      ClaimNext(fixedChars, total, attempt);
      if nextManifestChars == manifestChars && nextCombinedChars == combinedChars {
        forall n: nat | StatesOwnLength(head, sizes, n) ensures |text| <= n {
          LengthOfManifest(head, sizes, n);
          ClaimsStayBelow(fixedChars, total, attempt, n);
        }
        TextIsItsLines(head, sizes, manifestChars, combinedChars);
        return;
      }
      manifestChars := nextManifestChars;
      combinedChars := nextCombinedChars;
      FifthClaimFits(fixedChars, total);
      attempt := attempt + 1;
    }
  }

  lemma ClaimStart(fixedChars: nat, total: nat)
    ensures Claim(fixedChars, total, 0) == 0
  {
  }

  lemma ClaimNext(fixedChars: nat, total: nat, k: nat)
    ensures Claim(fixedChars, total, k + 1) == NextLength(fixedChars, total, Claim(fixedChars, total, k))
  {
    hide NextLength;
  }
}
