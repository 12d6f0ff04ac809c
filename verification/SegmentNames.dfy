/** The file names of segments, and the order in which a sorted directory listing gives them. */
module SegmentNames {
  import opened Proto
  import opened Recovery

  const NAME_WIDTH: nat := 12
  const SUFFIX := ".seg"

  function Digit(d: nat): char
    requires d < 10
  {
    ('0' as int + d) as char
  }

  /** Decimal digits, with leading zeros up to `width`. */
  function Padded(id: nat, width: nat): (s: string)
    ensures |s| >= 1 && |s| >= width
    decreases id, width
  {
    if width <= 1 && id < 10 then [Digit(id)]
    else Padded(id / 10, if width > 0 then width - 1 else 0) + [Digit(id % 10)]
  }

  function SegmentName(id: nat): string {
    Padded(id, NAME_WIDTH) + SUFFIX
  }

  function DigitValue(c: char): Option<nat> {
    if '0' <= c <= '9' then Some((c as int) - ('0' as int)) else None
  }

  /** Unsigned decimal numbers of any size. */
  function ParseDigits(s: string): Option<nat>
    decreases |s|
  {
    if s == "" then None
    else
      var last := DigitValue(s[|s| - 1]);
      if last.None? then None
      else if |s| == 1 then last
      else
        var front := ParseDigits(s[..|s| - 1]);
        if front.None? then None else Some(10 * front.value + last.value)
  }

  function TrimSuffix(name: string): string {
    if |name| >= |SUFFIX| && name[|name| - |SUFFIX|..] == SUFFIX then name[..|name| - |SUFFIX|] else name
  }

  /** The number of a segment file, when its name gives one that fits 64 bits. */
  function SegmentId(name: string): Option<nat> {
    var id := ParseDigits(TrimSuffix(name));
    if id.Some? && id.value < UINT64_LIMIT then id else None
  }

  // Round trip.

  lemma OneDigitParses(d: nat)
    requires d < 10
    ensures DigitValue(Digit(d)) == Some(d) && ParseDigits([Digit(d)]) == Some(d)
  {
  }

  lemma {:induction false} OneMoreDigitParses(front: string, d: nat)
    requires front != "" && d < 10 && ParseDigits(front).Some?
    ensures ParseDigits(front + [Digit(d)]) == Some(10 * ParseDigits(front).value + d)
  {
    OneDigitParses(d);
    var s := front + [Digit(d)];
    assert s[..|s| - 1] == front && s[|s| - 1] == Digit(d);
  }

  lemma {:induction false} PaddedParses(id: nat, width: nat)
    ensures ParseDigits(Padded(id, width)) == Some(id)
    decreases id, width
  {
    if width <= 1 && id < 10 {
      OneDigitParses(id);
    } else {
      var rest := if width > 0 then width - 1 else 0;
      PaddedParses(id / 10, rest);
      OneMoreDigitParses(Padded(id / 10, rest), id % 10);
    }
  }

  lemma {:induction false} PaddedZero(width: nat)
    requires width > 0
    ensures Padded(0, width) == seq(width, _ => '0')
    decreases width
  {
    if width > 1 {
      PaddedZero(width - 1);
      assert seq(width, _ => '0') == seq(width - 1, _ => '0') + ['0'];
    }
  }

  /** What a name looks like. */
  lemma FirstName()
    ensures SegmentName(1) == "000000000001.seg"
  {
    PaddedZero(NAME_WIDTH - 1);
    assert seq(11, _ => '0') == "00000000000";
    assert Padded(1, NAME_WIDTH) == Padded(0, NAME_WIDTH - 1) + ['1'];
  }

  /** A name gives a number if and only if digits, and nothing else, stand before its suffix, and the
      number fits 64 bits. */
  lemma ParsesIff(name: string)
    ensures SegmentId(name).Some? <==>
              var s := TrimSuffix(name);
              s != "" && (forall i | 0 <= i < |s| :: '0' <= s[i] <= '9')
              && ParseDigits(s).Some? && ParseDigits(s).value < UINT64_LIMIT
  {
    DigitsParse(TrimSuffix(name));
  }

  lemma {:induction false} DigitsParse(s: string)
    ensures ParseDigits(s).Some? <==> s != "" && forall i | 0 <= i < |s| :: '0' <= s[i] <= '9'
    decreases |s|
  {
    if |s| > 1 {
      DigitsParse(s[..|s| - 1]);
    }
  }

  /** Every 64-bit number is read back from the name made for it. */
  lemma NameReadsBack(id: nat)
    requires id < UINT64_LIMIT
    ensures SegmentId(SegmentName(id)) == Some(id)
  {
    PaddedParses(id, NAME_WIDTH);
    assert TrimSuffix(SegmentName(id)) == Padded(id, NAME_WIDTH);
  }

  // Order.

  /** The order of a sorted directory listing. */
  predicate Less(a: string, b: string) {
    b != "" && (a == "" || a[0] < b[0] || (a[0] == b[0] && Less(a[1..], b[1..])))
  }

  lemma {:induction false} NotLessThanItself(s: string)
    ensures !Less(s, s)
  {
    if s != "" {
      NotLessThanItself(s[1..]);
    }
  }

  lemma {:induction false} LessConcat(a: string, b: string, s: string, t: string)
    requires |a| == |b|
    ensures Less(a + s, b + t) <==> Less(a, b) || (a == b && Less(s, t))
  {
    if a == "" {
      assert a + s == s && b + t == t;
    } else {
      LessConcat(a[1..], b[1..], s, t);
      assert (a + s)[1..] == a[1..] + s && (b + t)[1..] == b[1..] + t;
      assert a == [a[0]] + a[1..] && b == [b[0]] + b[1..];
    }
  }

  lemma {:induction false} PaddedOrder(a: nat, b: nat, width: nat)
    requires |Padded(a, width)| == |Padded(b, width)|
    ensures Less(Padded(a, width), Padded(b, width)) <==> a < b
    ensures Padded(a, width) == Padded(b, width) <==> a == b
    decreases a, width
  {
    if !(width <= 1 && a < 10) {
      var rest := if width > 0 then width - 1 else 0;
      var x, y := Padded(a / 10, rest), Padded(b / 10, rest);
      PaddedOrder(a / 10, b / 10, rest);
      LessConcat(x, y, [Digit(a % 10)], [Digit(b % 10)]);
      PaddedParses(a, width);
      PaddedParses(b, width);
    }
  }

  /** `b` without its last `k` digits. */
  function Lead(b: nat, k: nat): nat {
    if k == 0 then b else Lead(b / 10, k - 1)
  }

  lemma {:induction false} WiderThanAsked(id: nat, width: nat)
    requires |Padded(id, width)| > width
    ensures Padded(id, width + 1) == Padded(id, width)
    decreases id, width
  {
    if !(width <= 1 && id < 10) && width > 0 {
      WiderThanAsked(id / 10, width - 1);
    }
  }

  lemma {:induction false} LeadIsPrefix(b: nat, width: nat, k: nat) returns (tail: string)
    requires width > 0 && |Padded(b, width)| >= width + k
    ensures |tail| == k && Padded(b, width) == Padded(Lead(b, k), width) + tail
    ensures forall i | 0 <= i < k :: '0' <= tail[i] <= '9'
    decreases k
  {
    if k == 0 {
      return "";
    }
    WiderThanAsked(b / 10, width - 1);
    var front := LeadIsPrefix(b / 10, width, k - 1);
    tail := front + [Digit(b % 10)];
  }

  /** How names sort: by number when they are equally long; otherwise the shorter one comes
      first exactly when it does not exceed the leading digits of the longer. */
  lemma {:induction false} NamesSortIff(a: nat, b: nat)
    requires |SegmentName(a)| <= |SegmentName(b)|
    ensures var k := |SegmentName(b)| - |SegmentName(a)|;
            Less(SegmentName(a), SegmentName(b)) <==> if k == 0 then a < b else a <= Lead(b, k)
  {
    var x, y, k := Padded(a, NAME_WIDTH), Padded(b, NAME_WIDTH), |SegmentName(b)| - |SegmentName(a)|;
    if k == 0 {
      PaddedOrder(a, b, NAME_WIDTH);
      LessConcat(x, y, SUFFIX, SUFFIX);
      NotLessThanItself(SUFFIX);
    } else {
      var tail := LeadIsPrefix(b, NAME_WIDTH, k);
      PaddedOrder(a, Lead(b, k), NAME_WIDTH);
      LessConcat(x, Padded(Lead(b, k), NAME_WIDTH), SUFFIX, tail + SUFFIX);
      assert y + SUFFIX == Padded(Lead(b, k), NAME_WIDTH) + (tail + SUFFIX);
    }
  }

  function Pow10(k: nat): nat {
    if k == 0 then 1 else 10 * Pow10(k - 1)
  }

  lemma {:induction false} PaddedWidth(id: nat, width: nat)
    requires width > 0
    ensures |Padded(id, width)| == width <==> id < Pow10(width)
    decreases width
  {
    if width > 1 {
      PaddedWidth(id / 10, width - 1);
    } else {
      assert Pow10(1) == 10;
    }
  }

  /** Below 10^12 the listing is in the order of the segments. */
  lemma SmallNamesSort(a: nat, b: nat)
    requires a < Pow10(NAME_WIDTH) && b < Pow10(NAME_WIDTH)
    ensures Less(SegmentName(a), SegmentName(b)) <==> a < b
  {
    PaddedWidth(a, NAME_WIDTH);
    PaddedWidth(b, NAME_WIDTH);
    NamesSortIff(a, b);
  }

  /** So a sorted listing of such names is what recovery expects: ids in ascending order. */
  lemma SortedListingAscends(files: seq<FoundFile>)
    requires forall file <- files :: file.id < Pow10(NAME_WIDTH)
    requires forall i, j | 0 <= i < j < |files| :: Less(SegmentName(files[i].id), SegmentName(files[j].id))
    ensures AscendingFiles(files)
  {
    forall i, j | 0 <= i < j < |files| ensures files[i].id < files[j].id {
      SmallNamesSort(files[i].id, files[j].id);
    }
  }

  lemma {:induction false} LeadShrinks(b: nat, k: nat)
    requires k > 0
    ensures Lead(b, k) <= b / 10
    decreases k
  {
    if k > 1 {
      LeadShrinks(b / 10, k - 1);
    }
  }

  /** At 10^12 the listing leaves the order of the segments: the next name does not sort after
      the one before it. */
  lemma WiderNameSortsEarly(n: nat)
    requires n == Pow10(NAME_WIDTH)
    ensures !Less(SegmentName(n - 1), SegmentName(n))
  {
    PaddedWidth(n - 1, NAME_WIDTH);
    PaddedWidth(n, NAME_WIDTH);
    NamesSortIff(n - 1, n);
    LeadShrinks(n, |SegmentName(n)| - |SegmentName(n - 1)|);
    assert n / 10 < n - 1;
  }
}
