/** Names of the files of a patch queue: four digits of index, a dash, the title
    of the commit (fatbuildr/git.py). */
module PatchNames {
  import opened Wrappers
  import opened Text

  /** f"{index:04}" */
  function Pad4(i: nat): (s: string)
    ensures s != [] && '-' !in s
  {
    Pad(Decimal(i))
  }

  function Pad(s: string): (p: string)
    requires s != []
    ensures p != [] && ('-' !in s ==> '-' !in p)
  {
    if |s| == 1 then "000" + s else if |s| == 2 then "00" + s else if |s| == 3 then "0" + s else s
  }

  function FileName(i: nat, title: string): string {
    Pad4(i) + "-" + title
  }

  /** The length of the part before the first dash. */
  function IndexLength(name: string): (n: nat)
    ensures n <= |name| && (n < |name| ==> name[n] == '-')
    ensures forall k :: 0 <= k < n ==> name[k] != '-'
  {
    if name == [] || name[0] == '-' then 0 else 1 + IndexLength(name[1..])
  }

  /** name.split('-', 1)[1], which raises without a dash. */
  function Title(name: string): Option<string> {
    var n := IndexLength(name);
    if n == |name| then None else Some(name[n + 1..])
  }

  lemma NameParts(i: nat, title: string)
    ensures IndexLength(FileName(i, title)) == |Pad4(i)|
    ensures FileName(i, title)[..|Pad4(i)|] == Pad4(i)
    ensures Title(FileName(i, title)) == Some(title)
  {
    var name, n := FileName(i, title), |Pad4(i)|;
    assert forall k :: 0 <= k < n ==> name[k] == Pad4(i)[k] && name[k] in Pad4(i);
    assert name[n] == '-';
  }

  // ---- distinct names ----

  function DigitValue(ch: char): nat {
    if '0' <= ch <= '9' then ch as nat - '0' as nat else 0
  }

  function Value(s: string): nat {
    if s == [] then 0 else 10 * Value(s[..|s| - 1]) + DigitValue(s[|s| - 1])
  }

  lemma {:induction false} ValueOfDecimal(n: nat)
    ensures Value(Decimal(n)) == n
  {
    if n < 10 {
      assert Decimal(n)[..0] == [];
    } else {
      ValueOfDecimal(n / 10);
      assert Decimal(n)[..|Decimal(n)| - 1] == Decimal(n / 10);
    }
  }

  lemma ValueOfZero(s: string)
    ensures Value("0" + s) == Value(s)
  {
    if s == [] {
      assert "0" + s == "0" && "0"[..0] == [];
    } else {
      ValueOfZero(s[..|s| - 1]);
      assert ("0" + s)[..|s|] == "0" + s[..|s| - 1];
    }
  }

  lemma ValueOfPad(s: string)
    requires s != []
    ensures Value(Pad(s)) == Value(s)
  {
    ValueOfZero(s);
    ValueOfZero("0" + s);
    ValueOfZero("00" + s);
    assert "0" + ("0" + s) == "00" + s && "0" + ("00" + s) == "000" + s;
  }

  lemma ValueOfPad4(i: nat)
    ensures Value(Pad4(i)) == i
  {
    ValueOfDecimal(i);
    ValueOfPad(Decimal(i));
  }

  /** Files of different indices never have the same name. */
  lemma NamesDiffer(i: nat, t: string, j: nat, u: string)
    requires i != j
    ensures FileName(i, t) != FileName(j, u)
  {
    NameParts(i, t);
    NameParts(j, u);
    ValueOfPad4(i);
    ValueOfPad4(j);
  }

  // ---- text order ----

  lemma Decimal2(i: nat)
    requires 10 <= i < 100
    ensures Decimal(i) == [Digit(i / 10), Digit(i % 10)]
  {
    assert Decimal(i / 10) == [Digit(i / 10)];
  }

  lemma Decimal3(i: nat)
    requires 100 <= i < 1000
    ensures Decimal(i) == [Digit(i / 100), Digit(i / 10 % 10), Digit(i % 10)]
  {
    Decimal2(i / 10);
    assert Decimal(i) == Decimal(i / 10) + [Digit(i % 10)];
    assert i / 10 / 10 == i / 100;
  }

  lemma Decimal4(i: nat)
    requires 1000 <= i < 10000
    ensures Decimal(i) == [Digit(i / 1000), Digit(i / 100 % 10), Digit(i / 10 % 10), Digit(i % 10)]
  {
    Decimal3(i / 10);
    assert Decimal(i) == Decimal(i / 10) + [Digit(i % 10)];
    assert i / 10 / 100 == i / 1000 && i / 10 / 10 == i / 100;
  }

  lemma PadBelow10000(i: nat)
    requires i <= 9999
    ensures Pad4(i) == [Digit(i / 1000), Digit(i / 100 % 10), Digit(i / 10 % 10), Digit(i % 10)]
  {
    if i < 10 {
      assert Decimal(i) == [Digit(i)];
    } else if i < 100 {
      Decimal2(i);
    } else if i < 1000 {
      Decimal3(i);
    } else {
      Decimal4(i);
    }
  }

  /** A file name is four decimal digits, a dash and the title, or more digits from 10000. */
  lemma NameIs(i: nat, title: string)
    ensures i < 10000 ==>
              FileName(i, title) == [('0' as int + i / 1000) as char, ('0' as int + i / 100 % 10) as char,
                                     ('0' as int + i / 10 % 10) as char, ('0' as int + i % 10) as char] + "-" + title
    ensures i >= 10000 ==> FileName(i, title) == Decimal(i) + "-" + title
  {
    if i < 10000 {
      PadBelow10000(i);
    } else {
      AtLeastFive(i);
    }
  }

  lemma AtLeastFive(i: nat)
    requires i >= 10000
    ensures |Decimal(i)| >= 5
  {
    assert |Decimal(i / 1000)| >= 2;
    assert i / 10 / 10 / 10 == i / 1000;
    assert |Decimal(i / 100)| >= 3;
    assert |Decimal(i / 10)| >= 4;
  }

  lemma DigitsAreOrdered(d: nat, e: nat)
    requires d < e < 10
    ensures Digit(d) < Digit(e)
  {
  }

  function FourDigits(a: nat, b: nat, c: nat, d: nat): string
    requires a < 10 && b < 10 && c < 10 && d < 10
  {
    [Digit(a), Digit(b), Digit(c), Digit(d)]
  }

  lemma FourDigitsAreOrdered(a: nat, b: nat, c: nat, d: nat, e: nat, f: nat, g: nat, h: nat) returns (k: nat)
    requires a < 10 && b < 10 && c < 10 && d < 10 && e < 10 && f < 10 && g < 10 && h < 10
    requires 1000 * a + 100 * b + 10 * c + d < 1000 * e + 100 * f + 10 * g + h
    ensures k < 4
    ensures FourDigits(a, b, c, d)[..k] == FourDigits(e, f, g, h)[..k]
    ensures FourDigits(a, b, c, d)[k] < FourDigits(e, f, g, h)[k]
  {
    if a < e {
      k := 0;
      DigitsAreOrdered(a, e);
    } else if b < f {
      k := 1;
      DigitsAreOrdered(b, f);
    } else if c < g {
      k := 2;
      DigitsAreOrdered(c, g);
    } else {
      k := 3;
      DigitsAreOrdered(d, h);
    }
  }

  lemma Expand(i: nat)
    requires i <= 9999
    ensures i / 1000 < 10
    ensures i == 1000 * (i / 1000) + 100 * (i / 100 % 10) + 10 * (i / 10 % 10) + i % 10
  {
    assert i / 100 / 10 == i / 1000 && i / 10 / 10 == i / 100;
  }

  /** Up to 9999 the text order of the names is the order of the indices. */
  lemma NamesAreOrdered(i: nat, t: string, j: nat, u: string)
    requires i < j <= 9999
    ensures Less(FileName(i, t), FileName(j, u))
  {
    PadBelow10000(i);
    PadBelow10000(j);
    Expand(i);
    Expand(j);
    var k := FourDigitsAreOrdered(i / 1000, i / 100 % 10, i / 10 % 10, i % 10,
                                  j / 1000, j / 100 % 10, j / 10 % 10, j % 10);
    var a, b := FileName(i, t), FileName(j, u);
    assert a[..k] == Pad4(i)[..k] && b[..k] == Pad4(j)[..k];
    LessAtFirstDifference(a, b, k);
  }

  /** Text order and numeric order agree on all files numbered from 1 to `n`, with
      whatever titles, if and only if `n` is at most 9999. */
  lemma TextOrderIsNumeric(n: nat)
    ensures (forall i: nat, j: nat, t, u :: 1 <= i < j <= n ==> Less(FileName(i, t), FileName(j, u))) <==> n <= 9999
  {
    if n <= 9999 {
      forall i: nat, j: nat, t, u | 1 <= i < j <= n
        ensures Less(FileName(i, t), FileName(j, u))
      {
        NamesAreOrdered(i, t, j, u);
      }
    } else {
      PadBelow10000(9999);
      Decimal4(1000);
      assert Decimal(10000) == Decimal(1000) + [Digit(0)];
      assert FileName(10000, "")[0] == '1' && FileName(9999, "")[0] == '9';
      assert !Less(FileName(9999, ""), FileName(10000, ""));
    }
  }
}
