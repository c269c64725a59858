/**
 * The `FaceRecognition` helper class (`utils/face_recognition.py`): thin checks around the
 * face_recognition library, each raising `ValueError` where the library found nothing.
 */
module FaceRecognitionUtils {
  import opened Common
  import opened StoredEncoding
  import opened Vision
  import Config
  import Server = FaceAuthServer

  const NoFaceMessage := "未检测到人脸"
  const NoEncodingMessage := "未检测到人脸特征"
  const NoLandmarksMessage := "未检测到人脸特征点"

  /** `detect_face`: the detected boxes unchanged; raises when there are none. */
  function DetectFace(b: Backend, img: Image): (r: Result<seq<Box>, string>)
    ensures r.Err? <==> b.faceLocations(img) == []
    ensures r.Err? ==> r.error == NoFaceMessage
    ensures r.Ok? ==> r.value == b.faceLocations(img)
  {
    var locations := b.faceLocations(img);
    if locations == [] then Err(NoFaceMessage) else Ok(locations)
  }

  /** `get_face_encoding`: the first encoding; raises when there is none. */
  function GetFaceEncoding(b: Backend, img: Image): (r: Result<Signature, string>)
    ensures r.Err? <==> b.faceEncodings(img) == []
    ensures r.Err? ==> r.error == NoEncodingMessage
    ensures r.Ok? ==> r.value == b.faceEncodings(img)[0]
  {
    var encodings := b.faceEncodings(img);
    if encodings == [] then Err(NoEncodingMessage) else Ok(encodings[0])
  }

  /** `calculate_face_distance`: the single entry of `face_distance` over a one-element list. */
  function CalculateFaceDistance(b: Backend, known: Signature, probe: Signature): (d: real)
    ensures d == b.faceDistance(known, probe)
  {
    var ds := FaceDistances(b, [known], probe);
    ds[0]
  }

  /** `check_face_similarity`: the stored encoding is strictly closer than the threshold. */
  function CheckFaceSimilarity(b: Backend, encoding: Signature, stored: Signature): (similar: bool)
    ensures similar <==> b.faceDistance(stored, encoding) < Config.FaceDistanceThreshold
  {
    CalculateFaceDistance(b, stored, encoding) < Config.FaceDistanceThreshold
  }

  /** `get_face_landmarks`: the first face's landmarks; raises when there are none. */
  function GetFaceLandmarks(b: Backend, img: Image): (r: Result<FaceLandmarks, string>)
    ensures r.Err? <==> b.faceLandmarks(img) == []
    ensures r.Err? ==> r.error == NoLandmarksMessage
    ensures r.Ok? ==> r.value == b.faceLandmarks(img)[0]
  {
    var faces := b.faceLandmarks(img);
    if faces == [] then Err(NoLandmarksMessage) else Ok(faces[0])
  }

  /** An encoding is similar to itself, and the threshold itself is not similar. */
  lemma SimilarityBounds(b: Backend, encoding: Signature, stored: Signature)
    requires IsDistance(b.faceDistance)
    ensures CheckFaceSimilarity(b, encoding, encoding)
    ensures b.faceDistance(stored, encoding) == Config.FaceDistanceThreshold ==> !CheckFaceSimilarity(b, encoding, stored)
  {
    assert b.faceDistance(encoding, encoding) == 0.0;
  }

  /**
   * The helper's similarity test is the duplicate guard of `/register`: on a table that reads
   * back, enrollment stops early exactly when some stored encoding is similar to the probe.
   */
  lemma SimilarityIsTheEnrollmentGuard(b: Backend, users: seq<Server.User>, probe: Signature)
    requires Server.AllLoad(users)
    ensures Server.FirstWhere(Server.StoredDistances(b, users, probe), Server.StopsEnrollment).Some? <==>
      exists j :: 0 <= j < |users| && CheckFaceSimilarity(b, probe, Load(users[j].faceEncoding).value)
  {
    Server.EnrollmentRefusedIffCloseRow(b, users, probe);
    var ds := Server.Distances(b, users, probe);
    forall j | 0 <= j < |users|
      ensures CheckFaceSimilarity(b, probe, Load(users[j].faceEncoding).value) <==> ds[j] < Server.MatchThreshold
    {
      assert Some(ds[j]) == Server.StoredDistance(b, users[j], probe);
    }
  }
}
