/**
 * The palette extractor of components/ControlPanel.tsx (`extractColors`): a histogram over
 * every fifth pixel of an RGBA buffer, skipping pixels below half opacity, ranked by
 * descending count, cut to `colorCount` entries and written as `#RRGGBB`.
 * Decoding the image and reading the canvas are outside the model: it starts from the
 * byte buffer that `getImageData` returns.
 */
module ColorExtractor {
  import opened Wrappers

  type Byte = x: int | 0 <= x < 256

  /** An RGBA buffer as `getImageData` returns it: four bytes per pixel. */
  type RgbaBuffer = s: seq<Byte> | |s| % 4 == 0

  /** Bytes between two sampled pixels: every 5th RGBA quad. */
  const SampleStride := 20

  /** Sampled pixels whose alpha is below this are skipped. */
  const OpaqueAlpha := 128

  /** How many colours the logo upload asks for (the default of `colorCount`). */
  const DefaultColorCount := 5

  /** The key of the histogram: the source's `"r,g,b"` string, kept as the triple it encodes. */
  datatype Rgb = Rgb(r: Byte, g: Byte, b: Byte)

  predicate Distinct<T(==)>(s: seq<T>) {
    forall i, j :: 0 <= i < j < |s| ==> s[i] != s[j]
  }

  /** The last element of a sequence without repeats does not occur before it. */
  lemma DistinctSplit<T>(s: seq<T>)
    requires Distinct(s) && s != []
    ensures Distinct(s[..|s| - 1]) && s[|s| - 1] !in s[..|s| - 1]
  {
    var init := s[..|s| - 1];
    forall i | 0 <= i < |init| ensures init[i] != s[|s| - 1] {
      assert init[i] == s[i];
    }
    forall i, j | 0 <= i < j < |init| ensures init[i] != init[j] {
      assert init[i] == s[i] && init[j] == s[j];
    }
  }

  function Elements<T>(s: seq<T>): set<T> {
    set x | x in s
  }

  function Min(a: nat, b: nat): nat {
    if a <= b then a else b
  }

  // ---------------------------------------------------------------------------------------
  // Sampling (the loop header and the alpha test)
  // ---------------------------------------------------------------------------------------

  /** How many offsets `for (i = 0; i < n; i += 20)` visits: the ceiling of n / 20. */
  function SampleCount(n: nat): nat {
    (n + SampleStride - 1) / SampleStride
  }

  /** The j-th visited offset, 20 * j, lies inside the buffer exactly when j < SampleCount. */
  lemma SampleInBuffer(n: nat, j: nat)
    requires n % 4 == 0
    ensures j < SampleCount(n) <==> 20 * j < n
    ensures j < SampleCount(n) ==> 20 * j + 3 < n
  {
    var q := (n + 19) / 20;
    assert 20 * q <= n + 19 < 20 * q + 20;
  }

  /** The alpha byte of the j-th sampled pixel (byte offset 20 * j). */
  function SampleAlpha(data: RgbaBuffer, j: nat): Byte
    requires j < SampleCount(|data|)
  {
    SampleInBuffer(|data|, j);
    data[20 * j + 3]
  }

  /** The key `${data[i]},${data[i+1]},${data[i+2]}` of the pixel at byte offset i. */
  function PixelAt(data: RgbaBuffer, i: nat): Rgb
    requires i + 3 < |data|
  {
    Rgb(data[i], data[i + 1], data[i + 2])
  }

  /** The colour of the j-th sampled pixel. */
  function SampleColor(data: RgbaBuffer, j: nat): Rgb
    requires j < SampleCount(|data|)
  {
    SampleInBuffer(|data|, j);
    PixelAt(data, 20 * j)
  }

  /** The colours of the opaque pixels among the first k sampled ones, in visiting order. */
  function OpaqueSamplesBefore(data: RgbaBuffer, k: nat): seq<Rgb>
    requires k <= SampleCount(|data|)
  {
    if k == 0 then []
    else
      OpaqueSamplesBefore(data, k - 1)
      + (if SampleAlpha(data, k - 1) >= OpaqueAlpha then [SampleColor(data, k - 1)] else [])
  }

  /** The colours the histogram pass counts, one entry per counted pixel. */
  function OpaqueSamples(data: RgbaBuffer): seq<Rgb> {
    OpaqueSamplesBefore(data, SampleCount(|data|))
  }

  /** The distinct colours among the counted pixels. */
  function ImageColors(data: RgbaBuffer): set<Rgb> {
    Elements(OpaqueSamples(data))
  }

  /** How many counted pixels have colour c. */
  function Frequency(data: RgbaBuffer, c: Rgb): nat {
    multiset(OpaqueSamples(data))[c]
  }

  /** A colour is counted exactly when some sampled pixel carries it at alpha 128 or more. */
  lemma {:induction false} OpaqueSampleMembership(data: RgbaBuffer, k: nat, c: Rgb)
    requires k <= SampleCount(|data|)
    ensures c in OpaqueSamplesBefore(data, k) <==>
            exists j :: 0 <= j < k && SampleAlpha(data, j) >= OpaqueAlpha && SampleColor(data, j) == c
  {
    if k > 0 {
      OpaqueSampleMembership(data, k - 1, c);
    }
  }

  /**
   * At most one entry per visited pixel, and exactly one per visited pixel when all of
   * them are opaque.
   */
  lemma {:induction false} OpaqueSampleCount(data: RgbaBuffer, k: nat)
    requires k <= SampleCount(|data|)
    ensures |OpaqueSamplesBefore(data, k)| <= k
    ensures |OpaqueSamplesBefore(data, k)| == k <==>
            forall j :: 0 <= j < k ==> SampleAlpha(data, j) >= OpaqueAlpha
  {
    if k > 0 {
      OpaqueSampleCount(data, k - 1);
    }
  }

  /** A buffer whose sampled pixels are all below half opacity contributes no colour. */
  lemma {:induction false} TransparentSamplesNotCounted(data: RgbaBuffer, k: nat)
    requires k <= SampleCount(|data|)
    requires forall j :: 0 <= j < k ==> SampleAlpha(data, j) < OpaqueAlpha
    ensures OpaqueSamplesBefore(data, k) == []
  {
    if k > 0 {
      TransparentSamplesNotCounted(data, k - 1);
    }
  }

  // ---------------------------------------------------------------------------------------
  // The histogram (`colorMap`)
  // ---------------------------------------------------------------------------------------

  /**
   * The `colorMap` object: a count per colour, and its keys in insertion order (the order
   * `Object.keys` reports for keys of the form "r,g,b").
   */
  datatype ColorMap = ColorMap(keys: seq<Rgb>, count: map<Rgb, nat>)

  /** `colorMap[c] || 0` */
  function CountOf(count: map<Rgb, nat>, c: Rgb): nat {
    if c in count then count[c] else 0
  }

  /** `colorMap[c] = (colorMap[c] || 0) + 1`: a new key goes to the end of the key order. */
  function Bump(m: ColorMap, c: Rgb): ColorMap {
    if c in m.count then ColorMap(m.keys, m.count[c := m.count[c] + 1])
    else ColorMap(m.keys + [c], m.count[c := 1])
  }

  /** The object the loop builds from the given counted colours. */
  function Tally(s: seq<Rgb>): ColorMap
    decreases |s|
  {
    if s == [] then ColorMap([], map[]) else Bump(Tally(s[..|s| - 1]), s[|s| - 1])
  }

  /**
   * The histogram lists each counted colour once as a key, holds a count for exactly those
   * colours, and each count is the number of counted pixels of that colour.
   */
  lemma {:induction false} TallyCorrect(s: seq<Rgb>)
    ensures Distinct(Tally(s).keys)
    ensures forall c :: c in Tally(s).keys <==> c in s
    ensures forall c :: c in Tally(s).count <==> c in s
    ensures forall c :: CountOf(Tally(s).count, c) == multiset(s)[c]
    decreases |s|
  {
    if s != [] {
      var init, c := s[..|s| - 1], s[|s| - 1];
      assert s == init + [c];
      TallyCorrect(init);
    }
  }

  lemma TallySnoc(s: seq<Rgb>, c: Rgb)
    ensures Tally(s + [c]) == Bump(Tally(s), c)
  {
    assert (s + [c])[..|s|] == s;
  }

  /** Visiting sample k adds its colour to the counted ones exactly when it is opaque. */
  lemma OpaqueSamplesStep(data: RgbaBuffer, k: nat)
    requires k < SampleCount(|data|)
    ensures OpaqueSamplesBefore(data, k + 1) ==
            OpaqueSamplesBefore(data, k) + (if SampleAlpha(data, k) >= OpaqueAlpha then [SampleColor(data, k)] else [])
  {
  }

  /** One iteration of the histogram loop, on the tally of the samples before it. */
  lemma CountStep(data: RgbaBuffer, k: nat)
    requires k < SampleCount(|data|)
    ensures 20 * k + 3 < |data|
    ensures Tally(OpaqueSamplesBefore(data, k + 1)) ==
            if data[20 * k + 3] >= OpaqueAlpha then Bump(Tally(OpaqueSamplesBefore(data, k)), PixelAt(data, 20 * k))
            else Tally(OpaqueSamplesBefore(data, k))
  {
    SampleInBuffer(|data|, k);
    OpaqueSamplesStep(data, k);
    assert SampleAlpha(data, k) == data[20 * k + 3];
    assert SampleColor(data, k) == PixelAt(data, 20 * k);
    if data[20 * k + 3] >= OpaqueAlpha {
      TallySnoc(OpaqueSamplesBefore(data, k), PixelAt(data, 20 * k));
    } else {
      assert OpaqueSamplesBefore(data, k + 1) == OpaqueSamplesBefore(data, k) + [];
      assert OpaqueSamplesBefore(data, k) + [] == OpaqueSamplesBefore(data, k);
    }
  }

  /** The sum of the counts of the given keys. */
  function SumOf(keys: seq<Rgb>, count: map<Rgb, nat>): nat {
    if keys == [] then 0 else SumOf(keys[..|keys| - 1], count) + CountOf(count, keys[|keys| - 1])
  }

  lemma {:induction false} SumOfUntouched(keys: seq<Rgb>, count: map<Rgb, nat>, c: Rgb, v: nat)
    requires c !in keys
    ensures SumOf(keys, count[c := v]) == SumOf(keys, count)
  {
    if keys != [] {
      SumOfUntouched(keys[..|keys| - 1], count, c, v);
    }
  }

  lemma {:induction false} SumOfIncrement(keys: seq<Rgb>, count: map<Rgb, nat>, c: Rgb)
    requires Distinct(keys) && c in keys
    ensures SumOf(keys, count[c := CountOf(count, c) + 1]) == SumOf(keys, count) + 1
  {
    var init, last := keys[..|keys| - 1], keys[|keys| - 1];
    assert keys == init + [last];
    DistinctSplit(keys);
    if last == c {
      SumOfUntouched(init, count, c, CountOf(count, c) + 1);
    } else {
      assert c in init;
      SumOfIncrement(init, count, c);
    }
  }

  /** The counts in the histogram add up to the number of counted pixels. */
  lemma {:induction false} TallyTotal(s: seq<Rgb>)
    ensures SumOf(Tally(s).keys, Tally(s).count) == |s|
    decreases |s|
  {
    if s != [] {
      var init, c := s[..|s| - 1], s[|s| - 1];
      assert s == init + [c];
      TallyTotal(init);
      TallyCorrect(init);
      var m := Tally(init);
      if c in m.count {
        SumOfIncrement(m.keys, m.count, c);
      } else {
        SumOfUntouched(m.keys, m.count, c, 1);
        assert (m.keys + [c])[..|m.keys|] == m.keys;
      }
    }
  }

  /**
   * Lines 59-65: the stride-20 loop that fills `colorMap`. Its result is the tally of the
   * opaque sampled pixels.
   */
  method CountColors(data: RgbaBuffer) returns (colorMap: ColorMap)
    ensures colorMap == Tally(OpaqueSamples(data))
  {
    colorMap := ColorMap([], map[]);
    var i := 0;
    ghost var k := 0;
    while i < |data|
      invariant i == 20 * k
      invariant k <= SampleCount(|data|)
      invariant colorMap == Tally(OpaqueSamplesBefore(data, k))
    {
      SampleInBuffer(|data|, k);
      CountStep(data, k);
      if data[i + 3] >= OpaqueAlpha {
        var rgb := PixelAt(data, i);
        colorMap := Bump(colorMap, rgb);
      }
      i := i + SampleStride;
      k := k + 1;
    }
    SampleInBuffer(|data|, k);
  }

  // ---------------------------------------------------------------------------------------
  // Ranking (line 67): a stable sort of the keys by descending count
  // ---------------------------------------------------------------------------------------

  predicate NonIncreasing(s: seq<Rgb>, count: map<Rgb, nat>) {
    forall i, j :: 0 <= i < j < |s| ==> CountOf(count, s[i]) >= CountOf(count, s[j])
  }

  /** Places c after every key whose count is at least its own. */
  function InsertByCount(c: Rgb, sorted: seq<Rgb>, count: map<Rgb, nat>): seq<Rgb> {
    if sorted == [] then [c]
    else if CountOf(count, sorted[0]) >= CountOf(count, c) then [sorted[0]] + InsertByCount(c, sorted[1..], count)
    else [c] + sorted
  }

  /**
   * `Object.keys(colorMap).sort((a, b) => colorMap[b] - colorMap[a])`. The sort is stable, so
   * its result is the stable insertion sort of the keys in their insertion order.
   */
  function SortByCount(keys: seq<Rgb>, count: map<Rgb, nat>): seq<Rgb> {
    if keys == [] then []
    else InsertByCount(keys[|keys| - 1], SortByCount(keys[..|keys| - 1], count), count)
  }

  lemma ConsNonIncreasing(a: Rgb, t: seq<Rgb>, count: map<Rgb, nat>)
    requires NonIncreasing(t, count)
    requires forall x :: x in t ==> CountOf(count, x) <= CountOf(count, a)
    ensures NonIncreasing([a] + t, count)
  {
    var s := [a] + t;
    forall i, j | 0 <= i < j < |s| ensures CountOf(count, s[i]) >= CountOf(count, s[j]) {
      if i == 0 {
        assert s[j] == t[j - 1];
      } else {
        assert s[i] == t[i - 1] && s[j] == t[j - 1];
      }
    }
  }

  /** Inserting adds exactly one occurrence of c. */
  lemma {:induction false} InsertByCountPermutes(c: Rgb, sorted: seq<Rgb>, count: map<Rgb, nat>)
    ensures multiset(InsertByCount(c, sorted, count)) == multiset(sorted) + multiset{c}
    decreases |sorted|
  {
    if sorted != [] && CountOf(count, sorted[0]) >= CountOf(count, c) {
      assert sorted == [sorted[0]] + sorted[1..];
      InsertByCountPermutes(c, sorted[1..], count);
    }
  }

  /** Inserting into a non-increasing list keeps it non-increasing. */
  lemma {:induction false} InsertByCountSorted(c: Rgb, sorted: seq<Rgb>, count: map<Rgb, nat>)
    requires NonIncreasing(sorted, count)
    ensures NonIncreasing(InsertByCount(c, sorted, count), count)
    decreases |sorted|
  {
    if sorted == [] {
    } else if CountOf(count, sorted[0]) >= CountOf(count, c) {
      var rest := sorted[1..];
      assert NonIncreasing(rest, count) by {
        forall i, j | 0 <= i < j < |rest| ensures CountOf(count, rest[i]) >= CountOf(count, rest[j]) {
          assert rest[i] == sorted[i + 1] && rest[j] == sorted[j + 1];
        }
      }
      InsertByCountSorted(c, rest, count);
      InsertByCountPermutes(c, rest, count);
      var t := InsertByCount(c, rest, count);
      forall x | x in t ensures CountOf(count, x) <= CountOf(count, sorted[0]) {
        assert x in multiset(t);
        if x != c {
          assert x in multiset(rest);
          var i :| 0 <= i < |rest| && rest[i] == x;
          assert sorted[i + 1] == x;
        }
      }
      ConsNonIncreasing(sorted[0], t, count);
    } else {
      forall x | x in sorted ensures CountOf(count, x) <= CountOf(count, c) {
        var i :| 0 <= i < |sorted| && sorted[i] == x;
        assert i == 0 || CountOf(count, sorted[0]) >= CountOf(count, sorted[i]);
      }
      ConsNonIncreasing(c, sorted, count);
    }
  }

  /** The ranking is a permutation of the keys in non-increasing order of count. */
  lemma {:induction false} SortByCountCorrect(keys: seq<Rgb>, count: map<Rgb, nat>)
    ensures NonIncreasing(SortByCount(keys, count), count)
    ensures multiset(SortByCount(keys, count)) == multiset(keys)
    decreases |keys|
  {
    if keys != [] {
      var init, last := keys[..|keys| - 1], keys[|keys| - 1];
      assert keys == init + [last];
      SortByCountCorrect(init, count);
      InsertByCountSorted(last, SortByCount(init, count), count);
      InsertByCountPermutes(last, SortByCount(init, count), count);
    }
  }

  lemma {:induction false} DistinctIffSingletons(s: seq<Rgb>)
    ensures Distinct(s) <==> forall x :: multiset(s)[x] <= 1
    decreases |s|
  {
    if s != [] {
      var init, c := s[..|s| - 1], s[|s| - 1];
      assert s == init + [c];
      DistinctIffSingletons(init);
      if Distinct(s) {
        DistinctSplit(s);
      }
      if forall x :: multiset(s)[x] <= 1 {
        assert forall x :: multiset(init)[x] <= multiset(s)[x];
        assert multiset(init)[c] == 0;
        forall i, j | 0 <= i < j < |s| ensures s[i] != s[j] {
          if j == |s| - 1 {
            assert s[i] in init;
          } else {
            assert s[i] == init[i] && s[j] == init[j];
          }
        }
      }
    }
  }

  lemma {:induction false} DistinctCardinality(s: seq<Rgb>)
    requires Distinct(s)
    ensures |Elements(s)| == |s|
    decreases |s|
  {
    if s != [] {
      var init, c := s[..|s| - 1], s[|s| - 1];
      assert s == init + [c];
      DistinctSplit(s);
      DistinctCardinality(init);
      assert Elements(s) == Elements(init) + {c};
    }
  }

  // ---------------------------------------------------------------------------------------
  // The ranked palette (line 74)
  // ---------------------------------------------------------------------------------------

  /** `sortedColors`: every counted colour once, most frequent first. */
  function Ranking(data: RgbaBuffer): seq<Rgb> {
    var m := Tally(OpaqueSamples(data));
    SortByCount(m.keys, m.count)
  }

  /** `slice(0, n)` */
  function Take<T>(s: seq<T>, n: nat): seq<T> {
    if n <= |s| then s[..n] else s
  }

  /** The colours `extractColors(..., n)` returns, before hex encoding. */
  function TopColors(data: RgbaBuffer, colorCount: nat): seq<Rgb> {
    Take(Ranking(data), colorCount)
  }

  /** A permutation of a list without repeats has no repeats and the same elements. */
  lemma PermutationDistinct(a: seq<Rgb>, b: seq<Rgb>)
    requires multiset(a) == multiset(b) && Distinct(a)
    ensures Distinct(b) && Elements(b) == Elements(a)
  {
    DistinctIffSingletons(a);
    DistinctIffSingletons(b);
    forall x ensures x in b <==> x in a {
      assert x in b <==> x in multiset(b);
      assert x in a <==> x in multiset(a);
    }
  }

  /** The ranking lists each counted colour exactly once. */
  lemma RankingDistinct(data: RgbaBuffer)
    ensures Distinct(Ranking(data)) && Elements(Ranking(data)) == ImageColors(data)
  {
    var s := OpaqueSamples(data);
    var m := Tally(s);
    TallyCorrect(s);
    SortByCountCorrect(m.keys, m.count);
    PermutationDistinct(m.keys, Ranking(data));
    assert Elements(m.keys) == Elements(s);
  }

  /** Frequencies do not increase along the ranking. */
  lemma RankingOrdered(data: RgbaBuffer)
    ensures forall i, j :: 0 <= i < j < |Ranking(data)| ==>
              Frequency(data, Ranking(data)[i]) >= Frequency(data, Ranking(data)[j])
  {
    var s := OpaqueSamples(data);
    var m := Tally(s);
    TallyCorrect(s);
    SortByCountCorrect(m.keys, m.count);
    assert forall x :: CountOf(m.count, x) == Frequency(data, x);
  }

  /** The ranking lists each counted colour exactly once, in non-increasing frequency. */
  lemma RankingCorrect(data: RgbaBuffer)
    ensures Distinct(Ranking(data))
    ensures Elements(Ranking(data)) == ImageColors(data)
    ensures |Ranking(data)| == |ImageColors(data)|
    ensures forall i, j :: 0 <= i < j < |Ranking(data)| ==>
              Frequency(data, Ranking(data)[i]) >= Frequency(data, Ranking(data)[j])
  {
    RankingDistinct(data);
    RankingOrdered(data);
    DistinctCardinality(Ranking(data));
  }

  /** Result length is min(colorCount, number of distinct counted colours), without repeats. */
  lemma TopColorsSize(data: RgbaBuffer, colorCount: nat)
    ensures |TopColors(data, colorCount)| == Min(colorCount, |ImageColors(data)|)
    ensures Distinct(TopColors(data, colorCount))
  {
    RankingCorrect(data);
  }

  /** Every returned colour is a colour of a counted pixel. */
  lemma TopColorsFromImage(data: RgbaBuffer, colorCount: nat)
    ensures forall i :: 0 <= i < |TopColors(data, colorCount)| ==> TopColors(data, colorCount)[i] in ImageColors(data)
  {
    RankingCorrect(data);
    var r := Ranking(data);
    forall i | 0 <= i < |TopColors(data, colorCount)| ensures TopColors(data, colorCount)[i] in ImageColors(data) {
      assert TopColors(data, colorCount)[i] == r[i];
      assert r[i] in Elements(r);
    }
  }

  /**
   * The returned colours come in non-increasing order of frequency, and every colour left out
   * is at most as frequent as every colour returned.
   */
  lemma TopColorsAreMostFrequent(data: RgbaBuffer, colorCount: nat)
    ensures forall i, j :: 0 <= i < j < |TopColors(data, colorCount)| ==>
              Frequency(data, TopColors(data, colorCount)[i]) >= Frequency(data, TopColors(data, colorCount)[j])
    ensures forall c, i :: c in ImageColors(data) && c !in TopColors(data, colorCount) && 0 <= i < |TopColors(data, colorCount)| ==>
              Frequency(data, c) <= Frequency(data, TopColors(data, colorCount)[i])
  {
    RankingCorrect(data);
    var r := Ranking(data);
    var top := TopColors(data, colorCount);
    forall c, i | c in ImageColors(data) && c !in top && 0 <= i < |top|
      ensures Frequency(data, c) <= Frequency(data, top[i])
    {
      assert c in Elements(r);
      var j :| 0 <= j < |r| && r[j] == c;
      assert top == r[..|top|];
      assert top[i] == r[i];
    }
  }

  /** When the image has at most colorCount colours, every one of them is returned. */
  lemma TopColorsComplete(data: RgbaBuffer, colorCount: nat)
    requires |ImageColors(data)| <= colorCount
    ensures Elements(TopColors(data, colorCount)) == ImageColors(data)
  {
    RankingCorrect(data);
  }

  /** A buffer whose sampled pixels are all below half opacity yields no colour. */
  lemma TransparentImageHasNoColors(data: RgbaBuffer, colorCount: nat)
    requires forall j :: 0 <= j < SampleCount(|data|) ==> SampleAlpha(data, j) < OpaqueAlpha
    ensures TopColors(data, colorCount) == []
  {
    TransparentSamplesNotCounted(data, SampleCount(|data|));
    RankingCorrect(data);
  }

  // ---------------------------------------------------------------------------------------
  // `toHex` (lines 69-72)
  // ---------------------------------------------------------------------------------------

  function LowerHexDigit(d: nat): char
    requires d < 16
  {
    if d < 10 then ('0' as int + d) as char else ('a' as int + d - 10) as char
  }

  function UpperHexDigit(d: nat): char
    requires d < 16
  {
    if d < 10 then ('0' as int + d) as char else ('A' as int + d - 10) as char
  }

  /** `Number.prototype.toString(16)` on a non-negative integer: lower-case, no leading zeros. */
  function ToBase16(v: nat): (s: string)
    ensures |s| >= 1
    decreases v
  {
    if v < 16 then [LowerHexDigit(v)] else ToBase16(v / 16) + [LowerHexDigit(v % 16)]
  }

  /** `String.prototype.toUpperCase`, on the ASCII letters (the only letters `toString(16)` emits). */
  function ToUpperCase(s: string): string {
    seq(|s|, i requires 0 <= i < |s| => if 'a' <= s[i] <= 'z' then (s[i] as int - 32) as char else s[i])
  }

  /** `(1 << 24) + (r << 16) + (g << 8) + b`; no shift overflows 32 bits for bytes. */
  function Packed(c: Rgb): nat {
    0x100_0000 + c.r * 0x1_0000 + c.g * 0x100 + c.b
  }

  /** `#` + the hex digits of the packed value without its leading 1, upper-cased. */
  function ToHex(c: Rgb): string {
    "#" + ToUpperCase(ToBase16(Packed(c))[1..])
  }

  lemma Base16Step(q: nat, d: nat)
    requires q >= 1 && d < 16
    ensures ToBase16(16 * q + d) == ToBase16(q) + [LowerHexDigit(d)]
  {
  }

  /** The six nibbles of a colour, high nibble of red first. */
  function Nibbles(c: Rgb): (n: seq<nat>)
    ensures |n| == 6 && forall i :: 0 <= i < 6 ==> n[i] < 16
  {
    [c.r / 16, c.r % 16, c.g / 16, c.g % 16, c.b / 16, c.b % 16]
  }

  /** The packed value, digit by digit from the leading 1. */
  lemma PackedNibbles(c: Rgb)
    ensures var n := Nibbles(c);
            Packed(c) == 16 * (16 * (16 * (16 * (16 * (16 + n[0]) + n[1]) + n[2]) + n[3]) + n[4]) + n[5]
  {
    var n := Nibbles(c);
    assert 16 * n[0] + n[1] == c.r && 16 * n[2] + n[3] == c.g && 16 * n[4] + n[5] == c.b;
  }

  /** Six digits after a leading 1, written out by `toString(16)`. */
  lemma {:induction false} Base16Six(n: seq<nat>)
    requires |n| == 6 && forall i :: 0 <= i < 6 ==> n[i] < 16
    ensures ToBase16(16 * (16 * (16 * (16 * (16 * (16 + n[0]) + n[1]) + n[2]) + n[3]) + n[4]) + n[5])
            == ['1', LowerHexDigit(n[0]), LowerHexDigit(n[1]), LowerHexDigit(n[2]),
                LowerHexDigit(n[3]), LowerHexDigit(n[4]), LowerHexDigit(n[5])]
  {
    var q1 := 16 + n[0];
    var q2 := 16 * q1 + n[1];
    var q3 := 16 * q2 + n[2];
    var q4 := 16 * q3 + n[3];
    var q5 := 16 * q4 + n[4];
    var d := seq(6, i requires 0 <= i < 6 => LowerHexDigit(n[i]));
    assert ToBase16(1) == ['1'];
    Base16Step(1, n[0]);
    assert ToBase16(q1) == ['1', d[0]];
    Base16Step(q1, n[1]);
    assert ToBase16(q2) == ['1', d[0], d[1]];
    Base16Step(q2, n[2]);
    assert ToBase16(q3) == ['1', d[0], d[1], d[2]];
    Base16Step(q3, n[3]);
    assert ToBase16(q4) == ['1', d[0], d[1], d[2], d[3]];
    Base16Step(q4, n[4]);
    assert ToBase16(q5) == ['1', d[0], d[1], d[2], d[3], d[4]];
    Base16Step(q5, n[5]);
  }

  /** The packed value is a 1 followed by the six nibbles, in base 16. */
  lemma PackedBase16(c: Rgb)
    ensures var n := Nibbles(c);
            ToBase16(Packed(c)) == ['1', LowerHexDigit(n[0]), LowerHexDigit(n[1]), LowerHexDigit(n[2]),
                                   LowerHexDigit(n[3]), LowerHexDigit(n[4]), LowerHexDigit(n[5])]
  {
    PackedNibbles(c);
    Base16Six(Nibbles(c));
  }

  /** `toHex` writes two upper-case hex digits per channel, high nibble first. */
  lemma ToHexDigits(c: Rgb)
    ensures var n := Nibbles(c);
            ToHex(c) == ['#', UpperHexDigit(n[0]), UpperHexDigit(n[1]), UpperHexDigit(n[2]),
                         UpperHexDigit(n[3]), UpperHexDigit(n[4]), UpperHexDigit(n[5])]
  {
    var n := Nibbles(c);
    PackedBase16(c);
    var low := ToBase16(Packed(c))[1..];
    assert low == [LowerHexDigit(n[0]), LowerHexDigit(n[1]), LowerHexDigit(n[2]),
                   LowerHexDigit(n[3]), LowerHexDigit(n[4]), LowerHexDigit(n[5])];
    var up := ToUpperCase(low);
    forall i | 0 <= i < 6 ensures up[i] == UpperHexDigit(n[i]) {
      assert low[i] == LowerHexDigit(n[i]);
      UpperOfLower(n[i]);
    }
    assert |up| == 6;
  }

  /** Upper-casing a lower-case hex digit gives the upper-case digit of the same value. */
  lemma UpperOfLower(d: nat)
    requires d < 16
    ensures var ch := LowerHexDigit(d);
            (if 'a' <= ch <= 'z' then (ch as int - 32) as char else ch) == UpperHexDigit(d)
  {
  }

  predicate IsUpperHexDigit(ch: char) {
    '0' <= ch <= '9' || 'A' <= ch <= 'F'
  }

  /** `toHex` yields `#` and exactly six upper-case hex digits. */
  lemma ToHexFormat(c: Rgb)
    ensures |ToHex(c)| == 7 && ToHex(c)[0] == '#'
    ensures forall i :: 1 <= i < 7 ==> IsUpperHexDigit(ToHex(c)[i])
  {
    ToHexDigits(c);
  }

  /** The value of one hex digit of either case. */
  function HexDigitValue(ch: char): Option<nat> {
    if '0' <= ch <= '9' then Some(ch as int - '0' as int)
    else if 'A' <= ch <= 'F' then Some(ch as int - 'A' as int + 10)
    else if 'a' <= ch <= 'f' then Some(ch as int - 'a' as int + 10)
    else None
  }

  function ParseHexByte(hi: char, lo: char): Option<Byte> {
    var h :- HexDigitValue(hi);
    var l :- HexDigitValue(lo);
    if h < 16 && l < 16 then Some(16 * h + l) else None
  }

  /** Reads `#RRGGBB` back into a colour. */
  function ParseHexColor(s: string): Option<Rgb> {
    if |s| != 7 || s[0] != '#' then None
    else
      var r :- ParseHexByte(s[1], s[2]);
      var g :- ParseHexByte(s[3], s[4]);
      var b :- ParseHexByte(s[5], s[6]);
      Some(Rgb(r, g, b))
  }

  /** The two upper-case digits of a byte, high nibble first, read back as that byte. */
  lemma ParseHexByteDigits(x: Byte)
    ensures ParseHexByte(UpperHexDigit(x / 16), UpperHexDigit(x % 16)) == Some(x)
  {
  }

  /** Decoding the digit pairs of `toHex` gives back the channels. */
  lemma ToHexRoundTrip(c: Rgb)
    ensures ParseHexColor(ToHex(c)) == Some(c)
  {
    ToHexDigits(c);
    ParseHexByteDigits(c.r);
    ParseHexByteDigits(c.g);
    ParseHexByteDigits(c.b);
  }

  lemma ToHexInjective(c: Rgb, d: Rgb)
    ensures ToHex(c) == ToHex(d) <==> c == d
  {
    ToHexRoundTrip(c);
    ToHexRoundTrip(d);
  }

  // ---------------------------------------------------------------------------------------
  // `extractColors` on a buffer
  // ---------------------------------------------------------------------------------------

  function HexAll(cs: seq<Rgb>): seq<string> {
    seq(|cs|, i requires 0 <= i < |cs| => ToHex(cs[i]))
  }

  /** What `extractColors` resolves with, for the pixels the canvas returned. */
  function Palette(data: RgbaBuffer, colorCount: nat): seq<string> {
    HexAll(TopColors(data, colorCount))
  }

  /** Each palette entry decodes to the colour at the same rank, and no entry repeats. */
  lemma PaletteDecodes(data: RgbaBuffer, colorCount: nat)
    ensures |Palette(data, colorCount)| == |TopColors(data, colorCount)|
    ensures forall i :: 0 <= i < |Palette(data, colorCount)| ==>
              ParseHexColor(Palette(data, colorCount)[i]) == Some(TopColors(data, colorCount)[i])
    ensures Distinct(Palette(data, colorCount))
  {
    var top := TopColors(data, colorCount);
    var p := Palette(data, colorCount);
    TopColorsSize(data, colorCount);
    forall i | 0 <= i < |p| ensures ParseHexColor(p[i]) == Some(top[i]) {
      ToHexRoundTrip(top[i]);
    }
    forall i, j | 0 <= i < j < |p| ensures p[i] != p[j] {
      ToHexInjective(top[i], top[j]);
    }
  }

  /** Lines 58-74 on the pixel buffer: count, rank, keep `colorCount`, hex-encode. */
  method ExtractColors(data: RgbaBuffer, colorCount: nat) returns (palette: seq<string>)
    ensures palette == Palette(data, colorCount)
  {
    var colorMap := CountColors(data);
    var sortedColors := SortByCount(colorMap.keys, colorMap.count);
    palette := HexAll(Take(sortedColors, colorCount));
  }
}
