/** The segmentation page: a minimum-size guard in front of k-means, and the
    names "Segment 1" .. "Segment 4" given to the cluster numbers it returns.
    The clustering itself is an input here. */
module Segmentation {
  import opened Records

  /** The number of clusters asked for, which is also the fewest rows the page accepts. */
  const ClusterCount: nat := 4

  const SegmentPrefix: string := "Segment "

  /** Either the page's warning that the view is too small, or one segment label per
      row; a cluster number outside the name table has no label (`None`), as a
      dictionary lookup through `Series.map` gives a missing value. */
  datatype Segmentation = InsufficientData | Segmented(labels: seq<Option<string>>)

  // ---------------------------------------------------------------------
  // Decimal numerals

  function DigitChar(d: nat): (c: char)
    requires d < 10
    ensures '0' <= c <= '9'
  {
    "0123456789"[d]
  }

  function DigitValue(c: char): nat
  {
    if '0' <= c <= '9' then (c as int - '0' as int) as nat else 0
  }

  /** The decimal numeral of `n`, without leading zeros, as an f-string prints it. */
  function Decimal(n: nat): (s: string)
    ensures |s| >= 1
    ensures forall k :: 0 <= k < |s| ==> '0' <= s[k] <= '9'
  {
    if n < 10 then [DigitChar(n)] else Decimal(n / 10) + [DigitChar(n % 10)]
  }

  /** The number a string of digits denotes. */
  function NumeralValue(s: string): nat
  {
    if s == [] then 0 else NumeralValue(s[..|s| - 1]) * 10 + DigitValue(s[|s| - 1])
  }

  lemma DigitRoundTrip(d: nat)
    requires d < 10
    ensures DigitValue(DigitChar(d)) == d
  {
  }

  /** Reading back a printed numeral gives the number printed. */
  lemma {:induction false} DecimalRoundTrip(n: nat)
    ensures NumeralValue(Decimal(n)) == n
  {
    DigitRoundTrip(n % 10);
    if n < 10 {
      assert [DigitChar(n)][..0] == [];
    } else {
      DecimalRoundTrip(n / 10);
      var s := Decimal(n / 10) + [DigitChar(n % 10)];
      assert s[..|s| - 1] == Decimal(n / 10);
    }
  }

  lemma DecimalInjective(m: nat, n: nat)
    requires Decimal(m) == Decimal(n)
    ensures m == n
  {
    DecimalRoundTrip(m);
    DecimalRoundTrip(n);
  }

  // ---------------------------------------------------------------------
  // Segment names

  /** The name of cluster `i`: "Segment " followed by `i + 1`. */
  function SegmentName(i: nat): (name: string)
    ensures |name| > |SegmentPrefix| && name[..|SegmentPrefix|] == SegmentPrefix
  {
    SegmentPrefix + Decimal(i + 1)
  }

  /** Different clusters get different names. */
  lemma SegmentNamesDistinct(i: nat, j: nat)
    requires SegmentName(i) == SegmentName(j)
    ensures i == j
  {
    assert SegmentName(i)[|SegmentPrefix|..] == Decimal(i + 1);
    assert SegmentName(j)[|SegmentPrefix|..] == Decimal(j + 1);
    DecimalInjective(i + 1, j + 1);
  }

  /** The name table for `k` clusters. */
  function ClusterNames(k: nat): (names: map<int, string>)
    ensures forall i :: i in names <==> 0 <= i < k
    ensures forall i :: 0 <= i < k ==> names[i] == SegmentName(i)
  {
    map i | 0 <= i < k :: SegmentName(i)
  }

  /** No two entries of the name table share a name. */
  lemma ClusterNamesInjective(k: nat, i: int, j: int)
    requires i in ClusterNames(k) && j in ClusterNames(k)
    requires ClusterNames(k)[i] == ClusterNames(k)[j]
    ensures i == j
  {
    SegmentNamesDistinct(i, j);
  }

  /** Each row's cluster number looked up in the name table for four clusters. */
  function Labels(clusters: seq<int>): (labels: seq<Option<string>>)
    ensures |labels| == |clusters|
    ensures forall k :: 0 <= k < |clusters| ==>
      (labels[k].Some? <==> 0 <= clusters[k] < ClusterCount)
    ensures forall k :: 0 <= k < |clusters| && labels[k].Some? ==> labels[k].value == SegmentName(clusters[k])
  {
    var names := ClusterNames(ClusterCount);
    seq(|clusters|, k requires 0 <= k < |clusters| =>
      if clusters[k] in names then Some(names[clusters[k]]) else None)
  }

  /** Two rows with labels share a label exactly when they share a cluster. */
  lemma LabelsSeparateClusters(clusters: seq<int>, i: nat, j: nat)
    requires i < |clusters| && j < |clusters|
    requires Labels(clusters)[i].Some? && Labels(clusters)[j].Some?
    ensures Labels(clusters)[i] == Labels(clusters)[j] <==> clusters[i] == clusters[j]
  {
    if Labels(clusters)[i] == Labels(clusters)[j] {
      SegmentNamesDistinct(clusters[i], clusters[j]);
    }
  }

  /** The page: fewer rows than clusters gives the warning; otherwise every row is
      labelled with the name of the cluster `clusters` assigns it. The clustering
      gives one cluster number in 0..3 per row. */
  function Segment(view: seq<Player>, clusters: seq<int>): (result: Segmentation)
    requires |clusters| == |view|
    requires forall k :: 0 <= k < |clusters| ==> 0 <= clusters[k] < ClusterCount
    ensures result.InsufficientData? <==> |view| < ClusterCount
    ensures result.Segmented? ==> result.labels == Labels(clusters)
    ensures result.Segmented? ==> |result.labels| == |view|
    ensures result.Segmented? ==> forall k :: 0 <= k < |view| ==> result.labels[k] == Some(SegmentName(clusters[k]))
  {
    if |view| < ClusterCount then InsufficientData else Segmented(Labels(clusters))
  }
}
