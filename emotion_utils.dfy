/**
 * The dashboard's emotion helpers (`utils/emotion_utils.py`): the chart colour of a stored
 * emotion label and the spread of the weighted emotion values behind the "variation index".
 */
module EmotionUtils {
  import Config

  /** An `rgba(r, g, b, alpha)` CSS colour; `alpha` is the text formatted into it. */
  datatype Rgba = Rgba(red: nat, green: nat, blue: nat, alpha: string)

  /** The labels with a colour of their own. */
  const ColoredLabels: set<string> := {"开心", "伤心", "愤怒", "平静", "惊讶", "疲惫"}

  /** `get_emotion_color`: the label's colour with the given alpha, grey for any other label. */
  function EmotionColor(emotion: string, alpha: string := "1"): (c: Rgba)
    ensures c.alpha == alpha
    ensures emotion !in ColoredLabels <==> c == Rgba(189, 195, 199, alpha)
  {
    if emotion == "开心" then Rgba(46, 204, 113, alpha)
    else if emotion == "伤心" then Rgba(231, 76, 60, alpha)
    else if emotion == "愤怒" then Rgba(230, 126, 34, alpha)
    else if emotion == "平静" then Rgba(52, 152, 219, alpha)
    else if emotion == "惊讶" then Rgba(155, 89, 182, alpha)
    else if emotion == "疲惫" then Rgba(149, 165, 166, alpha)
    else Rgba(189, 195, 199, alpha)
  }

  /** Distinct coloured labels never share a colour. */
  lemma ColorsDistinct(e1: string, e2: string, alpha: string)
    requires e1 in ColoredLabels && e2 in ColoredLabels && e1 != e2
    ensures EmotionColor(e1, alpha) != EmotionColor(e2, alpha)
  {
  }

  /**
   * Of the labels the server stores, exactly "恐惧" and "厌恶" fall back to grey, and the colour
   * for "疲惫" is never used, since no classifier label is stored as "疲惫".
   */
  lemma StoredLabelColors(alpha: string)
    ensures forall k :: k in Config.EmotionMap ==>
      (Config.EmotionMap[k] !in ColoredLabels <==> Config.EmotionMap[k] == "恐惧" || Config.EmotionMap[k] == "厌恶")
    ensures forall k :: k in Config.EmotionMap ==> Config.EmotionMap[k] != "疲惫"
  {
  }

  /** One row of the per-emotion statistics: a label and how often it was recorded. */
  datatype EmotionRecord = EmotionRecord(emotion: string, count: int)

  /**
   * The `emotion_values` table in tenths (开心 1 is 10, 愤怒 -0.8 is -8), so that every
   * weighted value is an integer number of tenths; any other label counts as 0.
   */
  function EmotionTenths(emotion: string): (t: int)
    ensures -10 <= t <= 10
    ensures emotion == "开心" ==> t == 10
    ensures emotion == "伤心" ==> t == -10
    ensures emotion !in {"开心", "平静", "惊讶", "伤心", "愤怒", "疲惫"} ==> t == 0
  {
    if emotion == "开心" then 10
    else if emotion == "平静" then 0
    else if emotion == "惊讶" then 5
    else if emotion == "伤心" then -10
    else if emotion == "愤怒" then -8
    else if emotion == "疲惫" then -3
    else 0
  }

  /** `emotion_values.get(record['emotion'], 0) * record['count']`, in tenths. */
  function WeightedTenths(r: EmotionRecord): int
  {
    EmotionTenths(r.emotion) * r.count
  }

  /** `sum(values)`, in tenths. */
  function Total(records: seq<EmotionRecord>): int
  {
    if records == [] then 0 else WeightedTenths(records[0]) + Total(records[1..])
  }

  function Squared(x: int): (s: nat)
    ensures s == 0 <==> x == 0
  {
    x * x
  }

  /**
   * `sum((x - mean) ** 2 for x in values)` scaled by `100 * n * n`: with `n` records and a
   * total of `total` tenths, `x - mean` is `(n * w - total) / (10 * n)` for a record weighing
   * `w` tenths.
   */
  function Deviations(records: seq<EmotionRecord>, n: int, total: int): nat
  {
    if records == [] then 0 else Squared(n * WeightedTenths(records[0]) - total) + Deviations(records[1..], n, total)
  }

  /**
   * The population variance `sum((x - mean) ** 2) / n` of the weighted values, in exact
   * arithmetic; `0` for no records. `calculate_emotion_variation` returns 100 times its
   * square root.
   */
  function Variance(records: seq<EmotionRecord>): (v: real)
    ensures v >= 0.0
    ensures records == [] ==> v == 0.0
    ensures records != [] ==>
      (v == 0.0 <==> Deviations(records, |records|, Total(records)) == 0)
  {
    if records == [] then 0.0
    else
      var n := |records|;
      Deviations(records, n, Total(records)) as real / (100 * n * n * n) as real
  }

  /** `calculate_emotion_variation`'s result `index` for the given records. */
  ghost predicate IsVariationIndex(records: seq<EmotionRecord>, index: real)
  {
    index >= 0.0 && (index / 100.0) * (index / 100.0) == Variance(records)
  }

  lemma {:induction false} DeviationsZero(records: seq<EmotionRecord>, n: int, total: int)
    ensures Deviations(records, n, total) == 0 <==>
      forall i :: 0 <= i < |records| ==> n * WeightedTenths(records[i]) == total
  {
    if records != [] {
      var rest := records[1..];
      DeviationsZero(rest, n, total);
      assert forall i :: 0 <= i < |rest| ==> rest[i] == records[i + 1];
      assert forall i :: 1 <= i < |records| ==> records[i] == rest[i - 1];
    }
  }

  lemma {:induction false} TotalOfUniform(records: seq<EmotionRecord>, c: int)
    requires forall i :: 0 <= i < |records| ==> WeightedTenths(records[i]) == c
    ensures Total(records) == |records| * c
  {
    if records != [] {
      var rest := records[1..];
      assert forall i :: 0 <= i < |rest| ==> rest[i] == records[i + 1];
      TotalOfUniform(rest, c);
      assert Total(records) == c + Total(rest);
      MulSucc(|rest|, c);
    }
  }

  lemma MulSucc(m: int, c: int)
    ensures (m + 1) * c == m * c + c
  {
  }

  lemma Cancel(n: int, a: int, b: int)
    requires n > 0 && n * a == n * b
    ensures a == b
  {
  }

  /** Every record carries the same weighted value. */
  predicate Uniform(records: seq<EmotionRecord>)
  {
    forall i, j :: 0 <= i < |records| && 0 <= j < |records| ==> WeightedTenths(records[i]) == WeightedTenths(records[j])
  }

  /**
   * The variation is zero exactly when every record carries the same weighted value
   * (the same label and count, or any labels and counts weighing the same).
   */
  lemma NoVariationIffUniform(records: seq<EmotionRecord>)
    ensures Variance(records) == 0.0 <==> Uniform(records)
  {
    if records != [] {
      var n, total := |records|, Total(records);
      DeviationsZero(records, n, total);
      if Uniform(records) {
        var c := WeightedTenths(records[0]);
        TotalOfUniform(records, c);
        assert forall i :: 0 <= i < n ==> n * WeightedTenths(records[i]) == total;
      }
      if Variance(records) == 0.0 {
        forall i, j | 0 <= i < n && 0 <= j < n
          ensures WeightedTenths(records[i]) == WeightedTenths(records[j])
        {
          Cancel(n, WeightedTenths(records[i]), WeightedTenths(records[j]));
        }
      }
    }
  }
}
