/**
 * The names the splitter gives its output files, built from Python's
 * decimal rendering of integers, and `os.path.join` on POSIX paths.
 */
module Naming {

  predicate IsDigit(ch: char) { '0' <= ch <= '9' }

  predicate AllDigits(s: string) { forall k :: 0 <= k < |s| ==> IsDigit(s[k]) }

  function DigitChar(d: nat): (ch: char)
    requires d < 10
  {
    ('0' as int + d) as char
  }

  function DigitValue(ch: char): nat
    requires IsDigit(ch)
  {
    ch as int - '0' as int
  }

  /** `str(n)` for a natural number: its decimal digits, without leading zeros. */
  function Decimal(n: nat): (s: string)
    ensures |s| >= 1 && AllDigits(s)
    ensures s[0] == '0' ==> n == 0
  {
    if n < 10 then [DigitChar(n)] else Decimal(n / 10) + [DigitChar(n % 10)]
  }

  /** Reads a string of decimal digits back as the number it denotes. */
  function ParseDecimal(s: string): nat
    requires AllDigits(s)
  {
    if s == [] then 0 else 10 * ParseDecimal(s[..|s| - 1]) + DigitValue(s[|s| - 1])
  }

  /** Decimal rendering is undone by parsing, so distinct numbers get distinct renderings. */
  lemma {:induction false} ParseDecimalInverts(n: nat)
    ensures ParseDecimal(Decimal(n)) == n
  {
    var s := Decimal(n);
    if n < 10 {
      assert s[..|s| - 1] == [];
    } else {
      assert s[..|s| - 1] == Decimal(n / 10);
      ParseDecimalInverts(n / 10);
    }
  }

  lemma DecimalInjective(a: nat, b: nat)
    requires a != b
    ensures Decimal(a) != Decimal(b)
  {
    ParseDecimalInverts(a);
    ParseDecimalInverts(b);
  }

  /**
   * A run of digits followed by a non-digit is read off unambiguously: two
   * different digit runs stay different whatever non-digit text follows them.
   */
  lemma DigitRunsDiffer(a: string, x: string, b: string, y: string)
    requires AllDigits(a) && AllDigits(b)
    requires |x| > 0 && |y| > 0 && !IsDigit(x[0]) && !IsDigit(y[0])
    requires a != b
    ensures a + x != b + y
  {
    if |a| < |b| {
      assert (a + x)[|a|] != (b + y)[|a|];
    } else if |b| < |a| {
      assert (a + x)[|b|] != (b + y)[|b|];
    } else {
      var k :| 0 <= k < |a| && a[k] != b[k];
      assert (a + x)[k] != (b + y)[k];
    }
  }

  /** Text that differs after a common prefix still differs with the prefix. */
  lemma PrefixKeepsDifference(p: string, u: string, v: string)
    requires u != v
    ensures p + u != p + v
  {
    assert (p + u)[|p|..] == u;
    assert (p + v)[|p|..] == v;
  }

  /** `split_part_{i+1}_cols_{lo+1}_to_{hi}.xlsx`: the 1-based part number and the 1-based inclusive column range. */
  function RangedName(i: nat, lo: nat, hi: nat): string
  {
    "split_part_" + (Decimal(i + 1) + ("_cols_" + Decimal(lo + 1) + "_to_" + Decimal(hi) + ".xlsx"))
  }

  /** `split_part_{i+1}.xlsx`: the 1-based part number only. */
  function NumberedName(i: nat): string
  {
    "split_part_" + (Decimal(i + 1) + ".xlsx")
  }

  /** Distinct parts get distinct ranged names, whatever their column ranges. */
  lemma RangedNamesDistinct(i: nat, lo: nat, hi: nat, i': nat, lo': nat, hi': nat)
    requires i != i'
    ensures RangedName(i, lo, hi) != RangedName(i', lo', hi')
  {
    var rest := "_cols_" + Decimal(lo + 1) + "_to_" + Decimal(hi) + ".xlsx";
    var rest' := "_cols_" + Decimal(lo' + 1) + "_to_" + Decimal(hi') + ".xlsx";
    DecimalInjective(i + 1, i' + 1);
    DigitRunsDiffer(Decimal(i + 1), rest, Decimal(i' + 1), rest');
    PrefixKeepsDifference("split_part_", Decimal(i + 1) + rest, Decimal(i' + 1) + rest');
  }

  /** Distinct parts get distinct numbered names. */
  lemma NumberedNamesDistinct(i: nat, i': nat)
    requires i != i'
    ensures NumberedName(i) != NumberedName(i')
  {
    DecimalInjective(i + 1, i' + 1);
    DigitRunsDiffer(Decimal(i + 1), ".xlsx", Decimal(i' + 1), ".xlsx");
    PrefixKeepsDifference("split_part_", Decimal(i + 1) + ".xlsx", Decimal(i' + 1) + ".xlsx");
  }

  /**
   * POSIX `os.path.join(dir, name)`: an absolute `name` replaces `dir`;
   * otherwise a '/' is inserted unless `dir` is empty or already ends in one.
   */
  function JoinPath(dir: string, name: string): (p: string)
    ensures |name| > 0 && name[0] == '/' ==> p == name
    ensures (|name| == 0 || name[0] != '/') ==> |dir| + |name| <= |p| && p[..|dir|] == dir && p[|p| - |name|..] == name
  {
    if |name| > 0 && name[0] == '/' then name
    else if dir == [] || dir[|dir| - 1] == '/' then dir + name
    else dir + "/" + name
  }

  /** Joining one directory with two relative names gives the same path only for the same name. */
  lemma JoinPathInjective(dir: string, a: string, b: string)
    requires |a| > 0 && a[0] != '/' && |b| > 0 && b[0] != '/'
    requires a != b
    ensures JoinPath(dir, a) != JoinPath(dir, b)
  {
  }
}
