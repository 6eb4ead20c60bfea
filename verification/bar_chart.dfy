/** The coefficient bar chart: the ten coefficients of largest magnitude,
    largest first, each labelled `Z` with its mode's order and frequency
    as subscript digits. */
module BarChart {
  import opened Numeric
  import opened Optional
  import opened Decimal
  import opened ZernikeBasis

  /** One bar: the coefficient's position, its magnitude and its mode. */
  datatype BarEntry = BarEntry(index: nat, value: real, mode: Mode)

  const BarCount: nat := 10

  /** `coefficients.enumerated().map { (offset, abs(element), modes[offset]) }`;
      reading `modes[offset]` needs a mode for every coefficient. */
  function Entries(coeffs: seq<real>, modes: seq<Mode>): (es: seq<BarEntry>)
    requires |coeffs| <= |modes|
    ensures |es| == |coeffs|
  {
    seq(|coeffs|, i requires 0 <= i < |coeffs| => BarEntry(i, Abs(coeffs[i]), modes[i]))
  }

  predicate SortedDesc(s: seq<BarEntry>)
  {
    forall i, j :: 0 <= i < j < |s| ==> s[i].value >= s[j].value
  }

  /** Insert `e` before the first entry it is not smaller than. */
  function InsertDesc(e: BarEntry, s: seq<BarEntry>): (r: seq<BarEntry>)
    ensures multiset(r) == multiset(s) + multiset{e}
    ensures |r| == |s| + 1
  {
    if s == [] then [e]
    else if s[0].value <= e.value then [e] + s
    else
      assert s == [s[0]] + s[1..];
      [s[0]] + InsertDesc(e, s[1..])
  }

  /** `sorted { $0.value > $1.value }`, by insertion. */
  function SortDesc(xs: seq<BarEntry>): (r: seq<BarEntry>)
    ensures multiset(r) == multiset(xs)
    ensures |r| == |xs|
  {
    if xs == [] then []
    else
      assert xs == [xs[0]] + xs[1..];
      InsertDesc(xs[0], SortDesc(xs[1..]))
  }

  lemma {:induction false} InsertKeepsSorted(e: BarEntry, s: seq<BarEntry>)
    requires SortedDesc(s)
    ensures SortedDesc(InsertDesc(e, s))
  {
    if s != [] && s[0].value > e.value {
      var rest := InsertDesc(e, s[1..]);
      assert SortedDesc(s[1..]);
      InsertKeepsSorted(e, s[1..]);
      forall k | 0 <= k < |rest|
        ensures s[0].value >= rest[k].value
      {
        assert rest[k] in multiset(rest);
        if rest[k] != e {
          assert rest[k] in multiset(s[1..]);
          var j :| 0 <= j < |s[1..]| && s[1..][j] == rest[k];
          assert s[j + 1] == rest[k];
        }
      }
    }
  }

  /** The sort orders by magnitude, largest first. */
  lemma {:induction false} SortDescSorted(xs: seq<BarEntry>)
    ensures SortedDesc(SortDesc(xs))
  {
    if xs != [] {
      SortDescSorted(xs[1..]);
      InsertKeepsSorted(xs[0], SortDesc(xs[1..]));
    }
  }

  /** `.prefix(10)` of the sorted entries. */
  function TopEntries(coeffs: seq<real>, modes: seq<Mode>): (r: seq<BarEntry>)
    requires |coeffs| <= |modes|
    ensures |r| == IMin(BarCount, |coeffs|)
  {
    var s := SortDesc(Entries(coeffs, modes));
    s[..IMin(BarCount, |s|)]
  }

  /** Every bar is some coefficient's magnitude with that coefficient's
      mode, and the bars run largest first. */
  lemma TopEntriesFaithful(coeffs: seq<real>, modes: seq<Mode>)
    requires |coeffs| <= |modes|
    ensures var r := TopEntries(coeffs, modes);
      && SortedDesc(r)
      && forall k :: 0 <= k < |r| ==>
           r[k].index < |coeffs| && r[k].value == Abs(coeffs[r[k].index]) && r[k].mode == modes[r[k].index]
  {
    var es := Entries(coeffs, modes);
    var s := SortDesc(es);
    SortDescSorted(es);
    forall k | 0 <= k < |s|
      ensures s[k] in es
    {
      assert s[k] in multiset(s);
    }
  }

  /** A coefficient without a bar is no larger in magnitude than any bar. */
  lemma TopEntriesDominate(coeffs: seq<real>, modes: seq<Mode>, i: nat)
    requires |coeffs| <= |modes| && i < |coeffs|
    requires forall k :: 0 <= k < |TopEntries(coeffs, modes)| ==> TopEntries(coeffs, modes)[k].index != i
    ensures forall k :: 0 <= k < |TopEntries(coeffs, modes)| ==> Abs(coeffs[i]) <= TopEntries(coeffs, modes)[k].value
  {
    var es := Entries(coeffs, modes);
    var s := SortDesc(es);
    var r := TopEntries(coeffs, modes);
    SortDescSorted(es);
    assert es[i] in multiset(s);
    var p :| 0 <= p < |s| && s[p] == es[i];
    forall k | 0 <= k < |r|
      ensures s[k] != s[p]
    {
      assert r[k] == s[k] && s[p].index == i;
    }
    AbsentFromPrefix(s, |r|, p);
    forall k | 0 <= k < |r|
      ensures Abs(coeffs[i]) <= r[k].value
    {
      assert r[k] == s[k];
    }
  }

  /** An element that differs from each of the first `n` is not among them. */
  lemma AbsentFromPrefix<T>(s: seq<T>, n: nat, p: nat)
    requires n <= |s| && p < |s|
    requires forall k :: 0 <= k < n ==> s[k] != s[p]
    ensures n <= p
  {
    var e := s[p];
    assert forall k :: 0 <= k < n ==> s[k] != e;
  }

  /** Elements of a list without repeats occur once. */
  lemma {:induction false} DistinctOccursOnce<T>(s: seq<T>, x: T)
    requires forall i, j :: 0 <= i < j < |s| ==> s[i] != s[j]
    requires x in s
    ensures multiset(s)[x] == 1
  {
    assert s == [s[0]] + s[1..];
    if x == s[0] {
      assert x !in s[1..];
    } else {
      assert forall i, j :: 0 <= i < j < |s[1..]| ==> s[1..][i] != s[1..][j] by {
        forall i, j | 0 <= i < j < |s[1..]|
          ensures s[1..][i] != s[1..][j]
        {
          assert s[1..][i] == s[i + 1] && s[1..][j] == s[j + 1];
        }
      }
      DistinctOccursOnce(s[1..], x);
    }
  }

  /** An element at two positions occurs at least twice. */
  lemma TwiceCounted<T>(s: seq<T>, p: nat, q: nat)
    requires p < q < |s| && s[p] == s[q]
    ensures multiset(s)[s[p]] >= 2
  {
    assert s == s[..q] + s[q..];
    assert s[p] in s[..q];
    assert s[q] in s[q..];
  }

  /** The bars are keyed by coefficient index, and no index appears twice. */
  lemma TopEntriesDistinct(coeffs: seq<real>, modes: seq<Mode>)
    requires |coeffs| <= |modes|
    ensures var r := TopEntries(coeffs, modes);
      forall k, l :: 0 <= k < l < |r| ==> r[k].index != r[l].index
  {
    var es := Entries(coeffs, modes);
    var s := SortDesc(es);
    var r := TopEntries(coeffs, modes);
    TopEntriesFaithful(coeffs, modes);
    forall k, l | 0 <= k < l < |r|
      ensures r[k].index != r[l].index
    {
      if r[k].index == r[l].index {
        var i := r[k].index;
        assert r[k] == es[i] && r[l] == es[i];
        assert s[k] == r[k] && s[l] == r[l];
        TwiceCounted(s, k, l);
        DistinctOccursOnce(es, es[i]);
        assert false;
      }
    }
  }

  // ---- subscript labels ----

  const SubscriptZero: int := 0x2080

  /** A decimal digit becomes its subscript form; anything else is kept. */
  function SubscriptChar(c: char): char
  {
    if IsDigit(c) then (SubscriptZero + (c as int - '0' as int)) as char else c
  }

  /** `subscriptString`: the number's text with every digit lowered. */
  function SubscriptString(k: int): (s: string)
    ensures |s| == |IntString(k)|
  {
    var t := IntString(k);
    seq(|t|, i requires 0 <= i < |t| => SubscriptChar(t[i]))
  }

  /** Reference inverse: subscript digits back to plain digits. */
  function PlainChar(c: char): char
  {
    if SubscriptZero <= c as int <= SubscriptZero + 9 then ('0' as int + (c as int - SubscriptZero)) as char else c
  }

  function Plain(s: string): (t: string)
    ensures |t| == |s|
  {
    seq(|s|, i requires 0 <= i < |s| => PlainChar(s[i]))
  }

  /** Lowering the digits loses nothing: raising them back gives the
      number's text, which parses back to the number. */
  lemma SubscriptRoundTrip(k: int)
    requires InInt64(k)
    ensures Plain(SubscriptString(k)) == IntString(k)
    ensures ParseInt(Plain(SubscriptString(k))) == Some(k)
  {
    ParseIntString(k);
  }

  /** Every character is a subscript digit except a leading minus sign,
      which is kept as it is. */
  lemma SubscriptChars(k: int)
    ensures var s := SubscriptString(k);
      forall i :: 0 <= i < |s| ==>
        (SubscriptZero <= s[i] as int <= SubscriptZero + 9) || (s[i] == '-' && i == 0 && k < 0)
  {
    var t := IntString(k);
    if k < 0 {
      assert t == "-" + NatString(-k);
    }
  }

  /** The bar's axis label `Z` + subscript `n` + subscript `m`. */
  function ModeLabel(md: Mode): string
  {
    "Z" + SubscriptString(md.n) + SubscriptString(md.m)
  }

  lemma SingleDigitLabel(n: int)
    requires 0 <= n <= 9
    ensures SubscriptString(n) == [(SubscriptZero + n) as char]
  {
    assert IntString(n) == [DigitChar(n)];
  }

  /** For orders below 10, distinct modes get distinct labels. */
  lemma LabelsDistinct(a: Mode, b: Mode)
    requires 0 <= a.n <= 9 && 0 <= b.n <= 9 && InInt64(a.m) && InInt64(b.m)
    requires a != b
    ensures ModeLabel(a) != ModeLabel(b)
  {
    SingleDigitLabel(a.n);
    SingleDigitLabel(b.n);
    if ModeLabel(a) == ModeLabel(b) {
      assert ModeLabel(a)[1] == ModeLabel(b)[1];
      assert a.n == b.n;
      assert ModeLabel(a)[2..] == SubscriptString(a.m);
      assert ModeLabel(b)[2..] == SubscriptString(b.m);
      SubscriptRoundTrip(a.m);
      SubscriptRoundTrip(b.m);
    }
  }
}
