/** The constants of the `Config` class that the modelled helpers read. */
module Config {

  /** `FACE_RECOGNITION['min_quality_width']`, compared with `img.shape[0]`. */
  const MinQualityWidth: nat := 200
  /** `FACE_RECOGNITION['min_quality_height']`, compared with `img.shape[1]`. */
  const MinQualityHeight: nat := 200
  /** `FACE_RECOGNITION['face_distance_threshold']`. */
  const FaceDistanceThreshold: real := 0.4

  /** `EMOTION_MAP`: the classifier's English labels and the Chinese labels stored for them. */
  const EmotionMap: map<string, string> := map[
    "happy" := "开心",
    "sad" := "伤心",
    "angry" := "愤怒",
    "fear" := "恐惧",
    "surprise" := "惊讶",
    "neutral" := "平静",
    "disgust" := "厌恶"
  ]
}
