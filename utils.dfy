/** The string helpers of pwcli that unittests/test_utils.py pins down:
    `clean`, `parse_list` and `shrink`. */
module Utils {
  import opened Wrappers
  import opened Text

  // ---------------------------------------------------------------------
  // clean
  // ---------------------------------------------------------------------

  /** clean: the text without its leading and trailing whitespace. It is
      modelled as `str.strip`, keeping whitespace inside the text, so its
      contract is the one `Text.Strip` keeps; CleanKeepsInner and
      CleanIdempotent are the properties the tests use. */
  function Clean(s: string): (r: string)
    ensures Lead(s) + |r| <= |s| && r == s[Lead(s)..Lead(s) + |r|]
    ensures AllSpace(s[..Lead(s)]) && AllSpace(s[Lead(s) + |r|..])
    ensures r == [] || (!IsSpace(r[0]) && !IsSpace(r[|r| - 1]))
  {
    Strip(s)
  }

  /** Cleaning a clean text changes nothing. */
  lemma CleanIdempotent(s: string)
    ensures Clean(Clean(s)) == Clean(s)
  {
    StripIdempotent(s);
  }

  /** Surrounding whitespace of any kind goes and the inner text stays. */
  lemma {:induction false} CleanKeepsInner(pre: string, inner: string, post: string)
    requires AllSpace(pre) && AllSpace(post)
    requires inner == [] || (!IsSpace(inner[0]) && !IsSpace(inner[|inner| - 1]))
    ensures Clean(pre + inner + post) == inner
  {
    var s := pre + inner + post;
    assert s[..|pre|] == pre;
    assert s[|pre| + |inner|..] == post;
    if inner == [] {
      assert s == pre + post;
      assert s[..|pre|] == pre && s[|pre|..] == post;
    } else {
      assert s[|pre|] == inner[0] && s[|pre| + |inner| - 1] == inner[|inner| - 1];
    }
    StripUnique(s, |pre|, |pre| + |inner|);
    assert s[|pre|..|pre| + |inner|] == inner;
  }

  /** test_clean: a newline, a tab and spaces before, spaces after. */
  lemma CleanExample()
    ensures Clean("\n\t  foo  ") == "foo"
  {
    assert "\n\t  foo  " == "\n\t  " + "foo" + "  ";
    CleanKeepsInner("\n\t  ", "foo", "  ");
  }

  // ---------------------------------------------------------------------
  // parse_list
  // ---------------------------------------------------------------------

  /** The model's ValueError for an item that is neither a numeral nor two
      numerals joined by one '-'. */
  datatype Error = ValueError(item: string)

  predicate IsDigit(c: char) {
    '0' <= c <= '9'
  }

  /** A decimal numeral: one or more ASCII digits. */
  predicate IsNumeral(s: string) {
    s != [] && forall i :: 0 <= i < |s| ==> IsDigit(s[i])
  }

  function DigitValue(c: char): nat
    requires IsDigit(c)
  {
    c as int - '0' as int
  }

  /** The value of a string of digits, most significant first. */
  function DecimalValue(s: string): nat
    requires forall i :: 0 <= i < |s| ==> IsDigit(s[i])
  {
    if s == [] then 0 else DecimalValue(s[..|s| - 1]) * 10 + DigitValue(s[|s| - 1])
  }

  /** The value of a decimal numeral; None for anything else, including a
      sign or surrounding spaces. */
  function ParseNat(s: string): (r: Option<nat>)
    ensures r.Some? <==> IsNumeral(s)
  {
    if IsNumeral(s) then Some(DecimalValue(s)) else None
  }

  /** The shortest decimal numeral of n: the reference ParseNat reads back. */
  function Decimal(n: nat): (s: string)
    ensures IsNumeral(s)
  {
    if n < 10 then [('0' as int + n) as char]
    else Decimal(n / 10) + [('0' as int + n % 10) as char]
  }

  /** Reading a number written in decimal gives the number back. */
  lemma {:induction false} ParseDecimal(n: nat)
    ensures ParseNat(Decimal(n)) == Some(n)
  {
    var s := Decimal(n);
    var d := ('0' as int + n % 10) as char;
    assert s[|s| - 1] == d && DigitValue(d) == n % 10;
    if n >= 10 {
      ParseDecimal(n / 10);
      assert s[..|s| - 1] == Decimal(n / 10);
    } else {
      assert s == [d] && s[..|s| - 1] == [];
      assert DecimalValue(s) == DigitValue(d);
    }
  }

  /** The integers lo, lo + 1, ..., hi in ascending order, the list
      `range(lo, hi + 1)` gives; in this model a reversed range is empty. */
  function Range(lo: nat, hi: nat): (r: seq<nat>)
    ensures forall x :: x in r <==> lo <= x <= hi
    ensures StrictlyIncreasing(r)
    decreases hi + 1 - lo
  {
    if lo > hi then [] else
      var rest := Range(lo + 1, hi);
      assert forall i :: 0 <= i < |rest| ==> lo < rest[i] by {
        forall i | 0 <= i < |rest| ensures lo < rest[i] { assert rest[i] in rest; }
      }
      [lo] + rest
  }

  predicate StrictlyIncreasing(s: seq<nat>) {
    forall i, j :: 0 <= i < j < |s| ==> s[i] < s[j]
  }

  /** The grammar of one comma-separated item: a numeral, or two numerals
      joined by a single '-'. */
  predicate MatchesItem(s: string) {
    || IsNumeral(s)
    || exists k :: 0 < k < |s| && s[k] == '-' && IsNumeral(s[..k]) && IsNumeral(s[k + 1..])
  }

  /** One item of the list: "n" gives [n], "a-b" gives a..b; anything else,
      including an item with two dashes, is a ValueError. */
  function ParseItem(item: string): (r: Result<seq<nat>, Error>)
    ensures r.Ok? <==> MatchesItem(item)
    ensures r.Err? ==> r.error == ValueError(item)
  {
    if '-' in item then
      var parts := Split(item, '-');
      if |parts| != 2 then
        assert !MatchesItem(item) by { RangeItemSplits(item); }
        Err(ValueError(item))
      else
        match (ParseNat(parts[0]), ParseNat(parts[1]))
        case (Some(lo), Some(hi)) =>
          assert MatchesItem(item) by { RangeItemJoin(item, parts); }
          Ok(Range(lo, hi))
        case _ =>
          assert !MatchesItem(item) by { RangeItemSplits(item); }
          Err(ValueError(item))
    else
      assert !exists k :: 0 < k < |item| && item[k] == '-' by {
        forall k | 0 < k < |item| ensures item[k] != '-' { assert item[k] in item; }
      }
      match ParseNat(item)
      case Some(n) => Ok([n])
      case None => Err(ValueError(item))
  }

  /** An item that matches "a-b" splits at its one dash into a and b. */
  lemma RangeItemSplits(item: string)
    ensures forall k :: 0 < k < |item| && item[k] == '-' && IsNumeral(item[..k]) && IsNumeral(item[k + 1..]) ==>
      Split(item, '-') == [item[..k], item[k + 1..]]
  {
    forall k | 0 < k < |item| && item[k] == '-' && IsNumeral(item[..k]) && IsNumeral(item[k + 1..])
      ensures Split(item, '-') == [item[..k], item[k + 1..]]
    {
      var a, b := item[..k], item[k + 1..];
      assert '-' !in a by { forall i | 0 <= i < |a| ensures a[i] != '-' { assert IsDigit(a[i]); } }
      assert '-' !in b by { forall i | 0 <= i < |b| ensures b[i] != '-' { assert IsDigit(b[i]); } }
      assert item == Join([a, b], '-');
      SplitJoin([a, b], '-');
    }
  }

  /** An item that splits at one dash into two numerals matches "a-b". */
  lemma RangeItemJoin(item: string, parts: seq<string>)
    requires parts == Split(item, '-') && |parts| == 2
    requires IsNumeral(parts[0]) && IsNumeral(parts[1])
    ensures MatchesItem(item)
  {
    JoinSplit(item, '-');
    var k := |parts[0]|;
    assert item == parts[0] + "-" + parts[1];
    assert item[k] == '-' && item[..k] == parts[0] && item[k + 1..] == parts[1];
  }

  /** An item "a-b" written in decimal stands for a..b, and an item "n" for n. */
  lemma ParseItemDecimal(lo: nat, hi: nat)
    ensures ParseItem(Decimal(lo) + "-" + Decimal(hi)) == Ok(Range(lo, hi))
    ensures ParseItem(Decimal(lo)) == Ok([lo])
  {
    var a, b := Decimal(lo), Decimal(hi);
    var item := a + "-" + b;
    assert item[..|a|] == a && item[|a| + 1..] == b && item[|a|] == '-';
    RangeItemSplits(item);
    assert '-' in item;
    ParseDecimal(lo);
    ParseDecimal(hi);
    assert '-' !in a by { forall i | 0 <= i < |a| ensures a[i] != '-' { assert IsDigit(a[i]); } }
  }

  /** Every item of `items` is well-formed. */
  predicate AllMatch(items: seq<string>) {
    forall i :: 0 <= i < |items| ==> MatchesItem(items[i])
  }

  /** x is one of the numbers that some well-formed item of `items` names. */
  predicate Named(items: seq<string>, x: nat) {
    exists i :: 0 <= i < |items| && ParseItem(items[i]).Ok? && x in ParseItem(items[i]).value
  }

  /** The numbers of all items, in the order written, or the first error. */
  function ParseItems(items: seq<string>): (r: Result<seq<nat>, Error>)
    ensures r.Ok? <==> AllMatch(items)
    ensures r.Ok? ==> forall x :: x in r.value <==> Named(items, x)
  {
    if items == [] then Ok([])
    else
      match ParseItem(items[0])
      case Err(e) => Err(e)
      case Ok(first) =>
        match ParseItems(items[1..])
        case Err(e) => Err(e)
        case Ok(rest) =>
          assert forall x :: x in first + rest <==> Named(items, x) by {
            forall x ensures x in first + rest <==> Named(items, x) {
              if x in rest {
                var i :| 0 <= i < |items[1..]| && ParseItem(items[1..][i]).Ok? && x in ParseItem(items[1..][i]).value;
                assert items[1..][i] == items[i + 1];
              }
              if Named(items, x) && x !in first {
                var i :| 0 <= i < |items| && ParseItem(items[i]).Ok? && x in ParseItem(items[i]).value;
                assert i != 0 && items[1..][i - 1] == items[i];
                assert Named(items[1..], x);
              }
            }
          }
          Ok(first + rest)
  }

  /** `sorted` with x added, still strictly increasing: x is dropped when
      already present. */
  function Insert(x: nat, sorted: seq<nat>): (r: seq<nat>)
    requires StrictlyIncreasing(sorted)
    ensures StrictlyIncreasing(r)
    ensures forall y :: y in r <==> y == x || y in sorted
  {
    if sorted == [] then [x]
    else if x < sorted[0] then [x] + sorted
    else if x == sorted[0] then sorted
    else
      var rest := Insert(x, sorted[1..]);
      assert forall i :: 0 <= i < |rest| ==> sorted[0] < rest[i] by {
        forall i | 0 <= i < |rest| ensures sorted[0] < rest[i] {
          assert rest[i] in rest;
          if rest[i] != x {
            var k :| 0 <= k < |sorted[1..]| && sorted[1..][k] == rest[i];
            assert sorted[k + 1] == rest[i];
          }
        }
      }
      [sorted[0]] + rest
  }

  /** The distinct numbers of xs in ascending order: list(set(xs)) sorted. */
  function Normalize(xs: seq<nat>): (r: seq<nat>)
    ensures StrictlyIncreasing(r)
    ensures forall y :: y in r <==> y in xs
  {
    if xs == [] then [] else Insert(xs[0], Normalize(xs[1..]))
  }

  /** Two ascending duplicate-free lists with the same members are equal: the
      result of parse_list depends only on the set of numbers named. */
  lemma {:induction false} IncreasingUnique(a: seq<nat>, b: seq<nat>)
    requires StrictlyIncreasing(a) && StrictlyIncreasing(b)
    requires forall y :: y in a <==> y in b
    ensures a == b
  {
    assert a != [] ==> a[0] in a;
    assert b != [] ==> b[0] in b;
    if a != [] && b != [] {
      // the least members agree
      assert a[0] == b[0] by {
        assert a[0] in b && b[0] in a;
        var i :| 0 <= i < |b| && b[i] == a[0];
        var j :| 0 <= j < |a| && a[j] == b[0];
        assert b[0] <= a[0] && a[0] <= b[0];
      }
      forall y ensures y in a[1..] <==> y in b[1..] {
        if y in a[1..] {
          var i :| 1 <= i < |a| && a[i] == y;
          assert y in b && y != b[0];
        }
        if y in b[1..] {
          var i :| 1 <= i < |b| && b[i] == y;
          assert y in a && y != a[0];
        }
      }
      IncreasingUnique(a[1..], b[1..]);
      assert a == [a[0]] + a[1..] && b == [b[0]] + b[1..];
    }
  }

  /** parse_list: a comma-separated list of numbers and inclusive ranges,
      returned as the numbers named, ascending, without duplicates. The empty
      string names none; any item that is not a numeral or a range of two
      numerals is a ValueError. */
  function ParseList(s: string): (r: Result<seq<nat>, Error>)
    ensures s == [] ==> r == Ok([])
    ensures s != [] ==> (r.Ok? <==> AllMatch(Split(s, ',')))
    ensures r.Ok? ==> StrictlyIncreasing(r.value)
    ensures r.Ok? && s != [] ==> forall x :: x in r.value <==> Named(Split(s, ','), x)
  {
    if s == [] then Ok([])
    else
      var items := Split(s, ',');
      var parsed := ParseItems(items);
      if parsed.Err? then Err(parsed.error)
      else
        Ok(Normalize(parsed.value))
  }

  /** The result is fixed by the set of numbers the items name, whatever
      their order or overlap. */
  lemma ParseListCanonical(s: string, t: string)
    requires ParseList(s).Ok? && ParseList(t).Ok?
    requires forall x :: x in ParseList(s).value <==> x in ParseList(t).value
    ensures ParseList(s) == ParseList(t)
  {
    IncreasingUnique(ParseList(s).value, ParseList(t).value);
  }

  /** One item as a user writes it: a number or an inclusive range. */
  datatype Item = Single(n: nat) | Span(lo: nat, hi: nat)

  function RenderItem(item: Item): string {
    match item
    case Single(n) => Decimal(n)
    case Span(lo, hi) => Decimal(lo) + "-" + Decimal(hi)
  }

  function RenderItems(items: seq<Item>): (r: seq<string>)
    ensures |r| == |items|
    ensures forall k :: 0 <= k < |items| ==> r[k] == RenderItem(items[k])
  {
    if items == [] then [] else [RenderItem(items[0])] + RenderItems(items[1..])
  }

  /** The numbers an item names. */
  function ValuesOf(item: Item): seq<nat> {
    match item
    case Single(n) => [n]
    case Span(lo, hi) => Range(lo, hi)
  }

  /** The numbers several items name, in the order written. */
  function Concat(items: seq<Item>): seq<nat> {
    if items == [] then [] else ValuesOf(items[0]) + Concat(items[1..])
  }

  /** A list written out in decimal parses to the ascending, duplicate-free
      list of the numbers its items name. */
  lemma ParseRendered(items: seq<Item>)
    requires |items| >= 1
    ensures ParseList(Join(RenderItems(items), ',')) == Ok(Normalize(Concat(items)))
  {
    var parts := RenderItems(items);
    forall k | 0 <= k < |parts| ensures ',' !in parts[k] && ParseItem(parts[k]) == Ok(ValuesOf(items[k])) {
      match items[k]
      case Single(n) =>
        ParseItemDecimal(n, n);
        NoComma(Decimal(n));
      case Span(lo, hi) =>
        ParseItemDecimal(lo, hi);
        NoComma(Decimal(lo));
        NoComma(Decimal(hi));
    }
    SplitJoin(parts, ',');
    ItemsConcat(items, parts);
    assert Join(parts, ',') != [] by {
      assert |parts[0]| > 0;
      if |parts| > 1 { assert Join(parts, ',') == parts[0] + [','] + Join(parts[1..], ','); }
    }
  }

  lemma NoComma(s: string)
    requires IsNumeral(s)
    ensures ',' !in s && '-' !in s
  {
    forall i | 0 <= i < |s| ensures s[i] != ',' && s[i] != '-' { assert IsDigit(s[i]); }
  }

  lemma {:induction false} ItemsConcat(items: seq<Item>, parts: seq<string>)
    requires |parts| == |items| && forall k :: 0 <= k < |items| ==> ParseItem(parts[k]) == Ok(ValuesOf(items[k]))
    ensures ParseItems(parts) == Ok(Concat(items))
  {
    if items != [] {
      ItemsConcat(items[1..], parts[1..]);
    }
  }

  /** A list one of whose items is malformed is rejected. */
  lemma ListRejected(s: string, items: seq<string>, bad: nat)
    requires |items| >= 1 && forall k :: 0 <= k < |items| ==> ',' !in items[k]
    requires s == Join(items, ',') && s != []
    requires bad < |items| && !IsNumeral(items[bad]) && '-' !in items[bad]
    ensures ParseList(s).Err?
  {
    SplitJoin(items, ',');
    assert !MatchesItem(items[bad]) by {
      forall k | 0 < k < |items[bad]| ensures items[bad][k] != '-' { assert items[bad][k] in items[bad]; }
    }
  }

  /** A list with an item "a-b" one of whose sides is not a numeral is rejected. */
  lemma ListRejectedRange(s: string, items: seq<string>, bad: nat, k: nat)
    requires |items| >= 1 && forall i :: 0 <= i < |items| ==> ',' !in items[i]
    requires s == Join(items, ',') && s != []
    requires bad < |items| && 0 < k < |items[bad]| && items[bad][k] == '-'
    requires '-' !in items[bad][..k] && '-' !in items[bad][k + 1..]
    requires !IsNumeral(items[bad][..k]) || !IsNumeral(items[bad][k + 1..])
    ensures ParseList(s).Err?
  {
    SplitJoin(items, ',');
    var item := items[bad];
    var a, b := item[..k], item[k + 1..];
    assert Split(item, '-') == [a, b] by {
      CutAt(item, k);
      JoinTwo(a, b, '-');
      SplitJoin([a, b], '-');
    }
    assert '-' in item by { assert item[k] == '-'; }
    assert ParseItem(item).Err?;
  }


  /** test_parse_list: the empty string names no numbers. */
  lemma ParseListEmpty()
    ensures ParseList("") == Ok([])
  {
  }

  /** A list that is already ascending and duplicate-free is its own
      normal form. */
  lemma NormalizeIncreasing(xs: seq<nat>)
    requires StrictlyIncreasing(xs)
    ensures Normalize(xs) == xs
  {
    IncreasingUnique(Normalize(xs), xs);
  }

  /** The normal form depends only on the numbers present. */
  lemma NormalizeSameMembers(xs: seq<nat>, ys: seq<nat>)
    requires forall x :: x in xs <==> x in ys
    ensures Normalize(xs) == Normalize(ys)
  {
    IncreasingUnique(Normalize(xs), Normalize(ys));
  }

  /** The text of a list written out from `items` parses to the normal form
      of the numbers they name. The example lemmas below establish the text
      and the normal form in lemmas of their own and meet here. */
  lemma ParseListIs(text: string, items: seq<Item>, expected: seq<nat>)
    requires |items| >= 1 && Join(RenderItems(items), ',') == text
    requires Normalize(Concat(items)) == expected
    ensures ParseList(text) == Ok(expected)
  {
    ParseRendered(items);
  }

  /** The numbers a list of items names: those of its first item, then
      those of the rest. */
  lemma ConcatFirst(a: Item, rest: seq<Item>)
    ensures Concat([a] + rest) == ValuesOf(a) + Concat(rest)
  {
    assert ([a] + rest)[1..] == rest;
  }

  /** The numbers four items name, item after item. */
  lemma Concat4(a: Item, b: Item, c: Item, d: Item)
    ensures Concat([a, b, c, d]) == ValuesOf(a) + (ValuesOf(b) + (ValuesOf(c) + ValuesOf(d)))
  {
    assert Concat([d]) == ValuesOf(d) by { assert [d][1..] == []; }
    assert Concat([c, d]) == ValuesOf(c) + ValuesOf(d) by { assert [c, d][1..] == [d]; }
    assert Concat([b, c, d]) == ValuesOf(b) + Concat([c, d]) by { assert [b, c, d][1..] == [c, d]; }
    assert [a, b, c, d][1..] == [b, c, d];
  }

  /** test_parse_list: a single number. */
  lemma ParseListSingle()
    ensures ParseList("99") == Ok([99])
  {
    SingleText();
    SingleValues();
    ParseListIs("99", [Single(99)], [99]);
  }

  lemma SingleText()
    ensures Join(RenderItems([Single(99)]), ',') == "99"
  {
    assert Decimal(99) == "99";
    assert RenderItems([Single(99)]) == ["99"];
  }

  lemma SingleValues()
    ensures Normalize(Concat([Single(99)])) == [99]
  {
    assert Concat([Single(99)]) == [99];
    NormalizeIncreasing([99]);
  }

  /** test_parse_list: a range. */
  lemma ParseListRange()
    ensures ParseList("1-3") == Ok([1, 2, 3])
  {
    RangeText();
    RangeValues();
    ParseListIs("1-3", [Span(1, 3)], [1, 2, 3]);
  }

  lemma RangeText()
    ensures Join(RenderItems([Span(1, 3)]), ',') == "1-3"
  {
    assert RenderItem(Span(1, 3)) == "1-3" by {
      assert Decimal(1) == "1" && Decimal(3) == "3" && "1" + "-" + "3" == "1-3";
    }
    assert RenderItems([Span(1, 3)]) == ["1-3"];
  }

  lemma RangeValues()
    ensures Normalize(Concat([Span(1, 3)])) == [1, 2, 3]
  {
    assert Concat([Span(1, 3)]) == Range(1, 3) == [1, 2, 3];
    NormalizeIncreasing([1, 2, 3]);
  }

  /** test_parse_list: several numbers. */
  lemma ParseListNumbers()
    ensures ParseList("0,77,7777") == Ok([0, 77, 7777])
  {
    NumbersText();
    NumbersValues();
    ParseListIs("0,77,7777", [Single(0), Single(77), Single(7777)], [0, 77, 7777]);
  }

  lemma NumbersText()
    ensures Join(RenderItems([Single(0), Single(77), Single(7777)]), ',') == "0,77,7777"
  {
    assert Decimal(0) == "0" && Decimal(77) == "77";
    assert Decimal(7777) == "7777" by { assert Decimal(777) == "777"; }
    assert RenderItems([Single(0), Single(77), Single(7777)]) == ["0", "77", "7777"];
    JoinCons("0", ["77", "7777"], ',');
    JoinTwo("77", "7777", ',');
    assert ["0", "77", "7777"] == ["0"] + ["77", "7777"];
  }

  lemma NumbersValues()
    ensures Normalize(Concat([Single(0), Single(77), Single(7777)])) == [0, 77, 7777]
  {
    assert Concat([Single(0), Single(77), Single(7777)]) == [0, 77, 7777];
    NormalizeIncreasing([0, 77, 7777]);
  }

  /** test_parse_list: a range and a number. */
  lemma ParseListMixed()
    ensures ParseList("0-3,5") == Ok([0, 1, 2, 3, 5])
  {
    MixedText();
    MixedValues();
    ParseListIs("0-3,5", [Span(0, 3), Single(5)], [0, 1, 2, 3, 5]);
  }

  lemma MixedText()
    ensures Join(RenderItems([Span(0, 3), Single(5)]), ',') == "0-3,5"
  {
    assert RenderItem(Span(0, 3)) == "0-3" by {
      assert Decimal(0) == "0" && Decimal(3) == "3" && "0" + "-" + "3" == "0-3";
    }
    assert RenderItem(Single(5)) == "5" by { assert Decimal(5) == "5"; }
    assert RenderItems([Span(0, 3), Single(5)]) == ["0-3", "5"];
    JoinTwo("0-3", "5", ',');
  }

  lemma MixedValues()
    ensures Normalize(Concat([Span(0, 3), Single(5)])) == [0, 1, 2, 3, 5]
  {
    assert Range(0, 3) == [0, 1, 2, 3];
    assert Concat([Span(0, 3), Single(5)]) == [0, 1, 2, 3, 5];
    NormalizeIncreasing([0, 1, 2, 3, 5]);
  }

  /** test_parse_list: numbers with a range among them. */
  lemma ParseListMany()
    ensures ParseList("10,11,12,14-15,16") == Ok([10, 11, 12, 14, 15, 16])
  {
    var items := [Single(10), Single(11), Single(12), Span(14, 15), Single(16)];
    ManyText(items);
    ManyValues(items);
    ParseListIs("10,11,12,14-15,16", items, [10, 11, 12, 14, 15, 16]);
  }

  lemma ManyText(items: seq<Item>)
    requires items == [Single(10), Single(11), Single(12), Span(14, 15), Single(16)]
    ensures Join(RenderItems(items), ',') == "10,11,12,14-15,16"
  {
    assert RenderItems(items) == ["10", "11", "12", "14-15", "16"] by {
      assert Decimal(10) == "10" && Decimal(11) == "11" && Decimal(12) == "12" && Decimal(16) == "16";
      assert RenderItem(Span(14, 15)) == "14-15" by {
        assert Decimal(14) == "14" && Decimal(15) == "15" && "14" + "-" + "15" == "14-15";
      }
    }
    ManyJoin(["10", "11", "12", "14-15", "16"]);
  }

  lemma ManyJoin(parts: seq<string>)
    requires parts == ["10", "11", "12", "14-15", "16"]
    ensures Join(parts, ',') == "10,11,12,14-15,16"
  {
    JoinCons("10", ["11", "12", "14-15", "16"], ',');
    JoinCons("11", ["12", "14-15", "16"], ',');
    JoinCons("12", ["14-15", "16"], ',');
    JoinTwo("14-15", "16", ',');
    assert parts == ["10"] + ["11", "12", "14-15", "16"];
  }

  lemma ManyValues(items: seq<Item>)
    requires items == [Single(10), Single(11), Single(12), Span(14, 15), Single(16)]
    ensures Normalize(Concat(items)) == [10, 11, 12, 14, 15, 16]
  {
    var rest := [Single(11), Single(12), Span(14, 15), Single(16)];
    ConcatFirst(Single(10), rest);
    ManyRest(rest);
    assert items == [Single(10)] + rest;
    assert [10] + [11, 12, 14, 15, 16] == [10, 11, 12, 14, 15, 16];
    ManyNormal();
  }

  lemma ManyRest(rest: seq<Item>)
    requires rest == [Single(11), Single(12), Span(14, 15), Single(16)]
    ensures Concat(rest) == [11, 12, 14, 15, 16]
  {
    Concat4(Single(11), Single(12), Span(14, 15), Single(16));
    RangeFourteen();
    assert ValuesOf(Span(14, 15)) + ValuesOf(Single(16)) == [14, 15, 16];
  }

  lemma RangeFourteen()
    ensures Range(14, 15) == [14, 15]
  {
    assert Range(16, 15) == [];
    assert Range(15, 15) == [15];
  }

  lemma ManyNormal()
    ensures Normalize([10, 11, 12, 14, 15, 16]) == [10, 11, 12, 14, 15, 16]
  {
    NormalizeIncreasing([10, 11, 12, 14, 15, 16]);
  }

  /** test_parse_list: a number inside a range is listed once. */
  lemma ParseListOverlap()
    ensures ParseList("0-3,2") == Ok([0, 1, 2, 3])
  {
    OverlapText();
    OverlapValues();
    ParseListIs("0-3,2", [Span(0, 3), Single(2)], [0, 1, 2, 3]);
  }

  lemma OverlapText()
    ensures Join(RenderItems([Span(0, 3), Single(2)]), ',') == "0-3,2"
  {
    assert RenderItem(Span(0, 3)) == "0-3" by {
      assert Decimal(0) == "0" && Decimal(3) == "3" && "0" + "-" + "3" == "0-3";
    }
    assert RenderItem(Single(2)) == "2" by { assert Decimal(2) == "2"; }
    assert RenderItems([Span(0, 3), Single(2)]) == ["0-3", "2"];
    JoinTwo("0-3", "2", ',');
  }

  lemma OverlapValues()
    ensures Normalize(Concat([Span(0, 3), Single(2)])) == [0, 1, 2, 3]
  {
    assert Range(0, 3) == [0, 1, 2, 3];
    assert Concat([Span(0, 3), Single(2)]) == [0, 1, 2, 3, 2];
    NormalizeSameMembers([0, 1, 2, 3, 2], [0, 1, 2, 3]);
    NormalizeIncreasing([0, 1, 2, 3]);
  }

  /** test_parse_list: overlapping ranges, out of order. */
  lemma ParseListOverlapping()
    ensures ParseList("1-4,0-3,2,1-2") == Ok([0, 1, 2, 3, 4])
  {
    var items := [Span(1, 4), Span(0, 3), Single(2), Span(1, 2)];
    OverlappingText(items);
    OverlappingValues(items);
    ParseListIs("1-4,0-3,2,1-2", items, [0, 1, 2, 3, 4]);
  }

  lemma OverlappingText(items: seq<Item>)
    requires items == [Span(1, 4), Span(0, 3), Single(2), Span(1, 2)]
    ensures Join(RenderItems(items), ',') == "1-4,0-3,2,1-2"
  {
    assert RenderItems(items) == ["1-4", "0-3", "2", "1-2"] by {
      assert Decimal(0) == "0" && Decimal(1) == "1" && Decimal(2) == "2";
      assert Decimal(3) == "3" && Decimal(4) == "4";
      assert "1" + "-" + "4" == "1-4" && "0" + "-" + "3" == "0-3" && "1" + "-" + "2" == "1-2";
    }
    OverlappingJoin(["1-4", "0-3", "2", "1-2"]);
  }

  lemma OverlappingJoin(parts: seq<string>)
    requires parts == ["1-4", "0-3", "2", "1-2"]
    ensures Join(parts, ',') == "1-4,0-3,2,1-2"
  {
    JoinCons("1-4", ["0-3", "2", "1-2"], ',');
    JoinCons("0-3", ["2", "1-2"], ',');
    JoinTwo("2", "1-2", ',');
    assert parts == ["1-4"] + ["0-3", "2", "1-2"];
  }

  lemma OverlappingValues(items: seq<Item>)
    requires items == [Span(1, 4), Span(0, 3), Single(2), Span(1, 2)]
    ensures Normalize(Concat(items)) == [0, 1, 2, 3, 4]
  {
    var xs := Concat(items);
    forall x: nat ensures x in xs <==> x <= 4 {
      OverlappingMembers(items, x);
    }
    ZeroToFourValues(xs);
  }

  lemma OverlappingMembers(items: seq<Item>, x: nat)
    requires items == [Span(1, 4), Span(0, 3), Single(2), Span(1, 2)]
    ensures x in Concat(items) <==> x <= 4
  {
    Concat4(Span(1, 4), Span(0, 3), Single(2), Span(1, 2));
    assert x in Concat(items) <==> x in Range(1, 4) || x in Range(0, 3) || x == 2 || x in Range(1, 2);
  }

  /** Any list naming exactly the numbers 0 to 4 normalises to [0, 1, 2, 3, 4]. */
  lemma ZeroToFourValues(xs: seq<nat>)
    requires forall x: nat :: x in xs <==> x <= 4
    ensures Normalize(xs) == [0, 1, 2, 3, 4]
  {
    var expected: seq<nat> := [0, 1, 2, 3, 4];
    assert forall x :: x in xs <==> x in expected;
    NormalizeSameMembers(xs, expected);
    ZeroToFourNormal();
  }

  lemma ZeroToFourNormal()
    ensures Normalize([0, 1, 2, 3, 4]) == [0, 1, 2, 3, 4]
  {
    NormalizeIncreasing([0, 1, 2, 3, 4]);
  }

  /** test_parse_list: a space inside a number. */
  lemma ParseListRejectsSpace()
    ensures ParseList("1 2").Err?
  {
    assert "1 2"[1] == ' ';
    ListRejected("1 2", ["1 2"], 0);
  }

  /** test_parse_list: a word. */
  lemma ParseListRejectsWord()
    ensures ParseList("foo").Err?
  {
    assert "foo"[0] == 'f';
    ListRejected("foo", ["foo"], 0);
  }

  /** test_parse_list: two words. */
  lemma ParseListRejectsWords()
    ensures ParseList("foo,bar").Err?
  {
    assert "foo"[0] == 'f';
    ListRejected("foo,bar", ["foo", "bar"], 0);
  }

  /** test_parse_list: a word after a number. */
  lemma ParseListRejectsWordAfter()
    ensures ParseList("1,bar").Err?
  {
    assert "bar"[0] == 'b';
    ListRejected("1,bar", ["1", "bar"], 1);
  }

  /** test_parse_list: a word before a number. */
  lemma ParseListRejectsWordBefore()
    ensures ParseList("bar,2").Err?
  {
    assert "bar"[0] == 'b';
    ListRejected("bar,2", ["bar", "2"], 0);
  }

  /** test_parse_list: a range of words. */
  lemma ParseListRejectsWordRange()
    ensures ParseList("foo-bar").Err?
  {
    assert "foo-bar"[..3] == "foo" && "foo-bar"[4..] == "bar";
    assert "foo"[0] == 'f';
    ListRejectedRange("foo-bar", ["foo-bar"], 0, 3);
  }

  /** test_parse_list: a range ending in a word. */
  lemma ParseListRejectsOpenRange()
    ensures ParseList("1-bar").Err?
  {
    assert "1-bar"[..1] == "1" && "1-bar"[2..] == "bar";
    assert "bar"[0] == 'b';
    ListRejectedRange("1-bar", ["1-bar"], 0, 1);
  }

  /** test_parse_list: a range starting with a word. */
  lemma ParseListRejectsRangeFromWord()
    ensures ParseList("bar-2").Err?
  {
    assert "bar-2"[..3] == "bar" && "bar-2"[4..] == "2";
    assert "bar"[0] == 'b';
    ListRejectedRange("bar-2", ["bar-2"], 0, 3);
  }

  // ---------------------------------------------------------------------
  // shrink
  // ---------------------------------------------------------------------

  const Ellipsis: string := "..."

  /** Python's s[:n]: the first n characters, or all but the last -n when n
      is negative. */
  function PyPrefix(s: string, n: int): (r: string)
    ensures StartsWith(s, r)
    ensures 0 <= n ==> |r| == if n < |s| then n else |s|
  {
    if n >= |s| then s
    else if n >= 0 then s[..n]
    else if |s| + n >= 0 then s[..|s| + n]
    else []
  }

  /** A trailing space becomes a dot, so the ellipsis does not look
      detached. */
  function DotTrailingSpace(h: string): (r: string)
    ensures |r| == |h|
  {
    if h != [] && h[|h| - 1] == ' ' then h[..|h| - 1] + "." else h
  }

  /** shrink: fit `s` into `width` characters. A string that fits is kept.
      Otherwise, without ellipsis it is cut to s[:width]; with ellipsis its
      first width - 3 characters are followed by "...", the last of them
      shown as '.' if it is a space, and a width of 3 or less leaves
      nothing. */
  function Shrink(s: string, width: int, ellipsis: bool): (r: string)
    ensures |s| <= width ==> r == s
    ensures width < |s| && !ellipsis && 0 <= width ==> r == s[..width]
    ensures width < |s| && ellipsis && width <= |Ellipsis| ==> r == []
    ensures width < |s| && ellipsis && width > |Ellipsis| ==>
      && |r| == width
      && r[width - |Ellipsis|..] == Ellipsis
      && (forall i :: 0 <= i < width - |Ellipsis| - 1 ==> r[i] == s[i])
      && r[width - |Ellipsis| - 1] == (if s[width - |Ellipsis| - 1] == ' ' then '.' else s[width - |Ellipsis| - 1])
  {
    if |s| <= width then s
    else if !ellipsis then PyPrefix(s, width)
    else if width <= |Ellipsis| then []
    else DotTrailingSpace(s[..width - |Ellipsis|]) + Ellipsis
  }

  /** test_shrink. */
  lemma ShrinkExamples()
    ensures Shrink("12345678", 5, true) == "12..."
    ensures Shrink("12345678", 5, false) == "12345"
    ensures Shrink("yyy kaa koo nee", 11, true) == "yyy kaa...."
    ensures Shrink("12345678", 4, true) == "1..."
    ensures Shrink("12345678", 3, true) == ""
    ensures Shrink("12345678", 0, true) == ""
    ensures Shrink("12345678", -10, true) == ""
  {
  }
}
