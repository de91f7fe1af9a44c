/** Text as Python orders and prints it: decimal numbers, and the comparison of
    strings by code points. */
module Text {

  function Digit(d: nat): (ch: char)
    requires d < 10
    ensures ch != '-' && ch != '\n'
  {
    ('0' as nat + d) as char
  }

  /** str(n) */
  function Decimal(n: nat): (s: string)
    ensures s != [] && '-' !in s && '\n' !in s
  {
    if n < 10 then [Digit(n)] else Decimal(n / 10) + [Digit(n % 10)]
  }

  /** Plain digits, without a leading zero. */
  lemma {:induction false} DecimalIsPlain(n: nat)
    ensures forall ch :: ch in Decimal(n) ==> '0' <= ch <= '9'
    ensures Decimal(n)[0] == '0' <==> n == 0
    ensures n == 0 ==> Decimal(n) == "0"
    ensures n >= 10 ==> Decimal(n) == Decimal(n / 10) + [('0' as int + n % 10) as char]
    ensures 0 < n < 10 ==> Decimal(n) == [('0' as int + n) as char]
  {
    if n >= 10 {
      DecimalIsPlain(n / 10);
      assert Decimal(n)[0] == Decimal(n / 10)[0];
    }
  }

  /** What `.+` of a regular expression can reach: the text up to a newline. */
  function Line(s: string): (l: string)
    ensures l <= s && '\n' !in l
    ensures l == s || s[|l|] == '\n'
  {
    if s == [] || s[0] == '\n' then [] else [s[0]] + Line(s[1..])
  }

  lemma LineOfClean(s: string)
    requires '\n' !in s
    ensures Line(s) == s
  {
  }

  lemma {:induction false} LineIs(s: string, l: string, tail: string)
    requires s == l + tail && '\n' !in l && (tail == [] || tail[0] == '\n')
    ensures Line(s) == l
    decreases l
  {
    if l != [] {
      assert s[1..] == l[1..] + tail;
      LineIs(s[1..], l[1..], tail);
      assert l == [l[0]] + l[1..];
    }
  }

  predicate Less(a: string, b: string) {
    b != [] && (a == [] || a[0] < b[0] || (a[0] == b[0] && Less(a[1..], b[1..])))
  }

  /** The first difference decides, and a proper beginning comes first. */
  lemma {:induction false} LessIs(a: string, b: string)
    ensures Less(a, b) <==>
            (a <= b && a != b) || exists k :: 0 <= k < |a| && k < |b| && a[..k] == b[..k] && a[k] < b[k]
    decreases a
  {
    if Less(a, b) {
      if a != [] && a[0] == b[0] {
        LessIs(a[1..], b[1..]);
        if a[1..] <= b[1..] && a[1..] != b[1..] {
          assert a == [a[0]] + a[1..] && b == [b[0]] + b[1..];
        } else {
          var k :| 0 <= k < |a| - 1 && k < |b| - 1 && a[1..][..k] == b[1..][..k] && a[1..][k] < b[1..][k];
          assert a[..k + 1] == [a[0]] + a[1..][..k] && b[..k + 1] == [b[0]] + b[1..][..k];
        }
      } else if a != [] {
        assert a[..0] == b[..0] && a[0] < b[0];
      }
    } else if a <= b && a != b {
      if a != [] {
        LessIs(a[1..], b[1..]);
      }
      assert false;
    }
    if k :| 0 <= k < |a| && k < |b| && a[..k] == b[..k] && a[k] < b[k] {
      LessAtFirstDifference(a, b, k);
    }
  }

  lemma {:induction false} LessIsTransitive(a: string, b: string, c: string)
    requires Less(a, b) && Less(b, c)
    ensures Less(a, c)
    decreases |a|
  {
    if a != [] && a[0] == b[0] && b[0] == c[0] {
      LessIsTransitive(a[1..], b[1..], c[1..]);
    }
  }

  lemma {:induction false} LessIsTotal(a: string, b: string)
    ensures Less(a, b) || a == b || Less(b, a)
    ensures !(Less(a, b) && (a == b || Less(b, a)))
    decreases |a|
  {
    if a != [] && b != [] && a[0] == b[0] {
      LessIsTotal(a[1..], b[1..]);
      assert a == [a[0]] + a[1..] && b == [b[0]] + b[1..];
    }
  }

  lemma {:induction false} LessAtFirstDifference(a: string, b: string, k: nat)
    requires k < |a| && k < |b| && a[..k] == b[..k] && a[k] < b[k]
    ensures Less(a, b)
    decreases k
  {
    if k > 0 {
      assert a[0] == a[..k][0] == b[..k][0] == b[0];
      assert a[1..][..k - 1] == a[..k][1..] == b[..k][1..] == b[1..][..k - 1];
      LessAtFirstDifference(a[1..], b[1..], k - 1);
    }
  }

  /** sorted() on distinct names: insertion into a sorted list. */
  function Insert(name: string, names: seq<string>): seq<string> {
    if names == [] || Less(name, names[0]) then [name] + names else [names[0]] + Insert(name, names[1..])
  }

  function Sort(names: seq<string>): seq<string> {
    if names == [] then [] else Insert(names[0], Sort(names[1..]))
  }

  ghost predicate Sorted(names: seq<string>) {
    forall i, j :: 0 <= i < j < |names| ==> Less(names[i], names[j])
  }

  ghost function Elements(names: seq<string>): set<string> {
    set n | n in names
  }

  lemma {:induction false} InsertIsSorted(name: string, names: seq<string>)
    requires Sorted(names) && name !in names
    ensures Sorted(Insert(name, names)) && Elements(Insert(name, names)) == Elements(names) + {name}
    decreases names
  {
    if names == [] {
    } else if Less(name, names[0]) {
      var all := [name] + names;
      forall j | 1 <= j < |all|
        ensures Less(name, all[j])
      {
        if j > 1 {
          LessIsTransitive(name, names[0], names[j - 1]);
        }
      }
    } else {
      LessIsTotal(name, names[0]);
      InsertIsSorted(name, names[1..]);
      var rest := Insert(name, names[1..]);
      assert forall n :: n in rest ==> n in Elements(rest);
      assert forall n :: n in rest ==> Less(names[0], n);
      assert names == [names[0]] + names[1..];
      assert Elements(Insert(name, names)) == {names[0]} + Elements(rest);
    }
  }

  /** Sorting distinct names gives the sorted list of the same names. */
  lemma {:induction false} SortIsSorted(names: seq<string>)
    requires forall i, j :: 0 <= i < j < |names| ==> names[i] != names[j]
    ensures Sorted(Sort(names)) && Elements(Sort(names)) == Elements(names)
    decreases names
  {
    if names != [] {
      SortIsSorted(names[1..]);
      var rest := Sort(names[1..]);
      assert names[0] !in Elements(rest);
      InsertIsSorted(names[0], rest);
      assert names == [names[0]] + names[1..];
    }
  }

  lemma HasElement(names: seq<string>)
    requires names != []
    ensures Elements(names) != {}
  {
    assert names[0] in Elements(names);
  }

  /** There is only one sorted list of given names. */
  lemma {:induction false} SortedIsUnique(a: seq<string>, b: seq<string>)
    requires Sorted(a) && Sorted(b) && Elements(a) == Elements(b)
    ensures a == b
    decreases |a|
  {
    if a == [] {
      if b != [] {
        HasElement(b);
      }
    } else {
      assert a[0] in Elements(a) && a[0] in Elements(b);
      assert b[0] in Elements(b) && b[0] in Elements(a);
      LessIsTotal(a[0], b[0]);
      assert a[0] == b[0];
      forall n
        ensures n in Elements(a[1..]) <==> n in Elements(b[1..])
      {
        LessIsTotal(a[0], a[0]);
        assert n in Elements(a[1..]) <==> n in Elements(a) && n != a[0];
        assert n in Elements(b[1..]) <==> n in Elements(b) && n != b[0];
      }
      SortedIsUnique(a[1..], b[1..]);
      assert a == [a[0]] + a[1..] && b == [b[0]] + b[1..];
    }
  }
}
