/**
 * The foreign libraries the server calls (OpenCV, face_recognition, NumPy's norm), seen only
 * through what they return. Their internals are not part of this model: a `Backend` value
 * fixes one behaviour of each, and every operation is modelled for all of them.
 */
module Vision {
  import opened Common
  import opened StoredEncoding

  /** A decoded colour raster: `img.shape[0]` is `height`, `img.shape[1]` is `width`. */
  datatype Image = Image(height: nat, width: nat, pixels: seq<Byte>)

  /** A landmark position in pixel coordinates. */
  datatype Point = Point(x: int, y: int)

  /** A face's bounding box `(top, right, bottom, left)` from `face_locations`. */
  datatype Box = Box(top: int, right: int, bottom: int, left: int)

  /** The two entries of a `face_landmarks` dictionary the core reads. */
  datatype FaceLandmarks = FaceLandmarks(leftEye: seq<Point>, rightEye: seq<Point>)

  datatype Backend = Backend(
    /** `cv2.imdecode(buffer, cv2.IMREAD_COLOR)`, `None` when the bytes are not an image. */
    imdecode: seq<Byte> -> Option<Image>,
    /** `face_recognition.face_locations(img)`. */
    faceLocations: Image -> seq<Box>,
    /** `face_recognition.face_encodings(img)`. */
    faceEncodings: Image -> seq<Signature>,
    /** `face_recognition.face_landmarks(img)`. */
    faceLandmarks: Image -> seq<FaceLandmarks>,
    /** One entry of `face_recognition.face_distance([known], probe)`. */
    faceDistance: (Signature, Signature) -> real,
    /** One entry of `face_recognition.compare_faces([known], probe, tolerance)`. */
    compareFaces: (Signature, Signature, real) -> bool,
    /** `np.linalg.norm(p - q)` for two landmark points. */
    norm: (Point, Point) -> real)

  /** What the matching decisions assume of `face_distance`: never negative, zero on equal encodings. */
  ghost predicate IsDistance(d: (Signature, Signature) -> real)
  {
    (forall p, q :: d(p, q) >= 0.0) && (forall p :: d(p, p) == 0.0)
  }

  /**
   * `face_recognition.face_distance(knowns, probe)`: one distance per known encoding, in order.
   */
  function FaceDistances(b: Backend, knowns: seq<Signature>, probe: Signature): seq<real>
  {
    seq(|knowns|, i requires 0 <= i < |knowns| => b.faceDistance(knowns[i], probe))
  }
}
