/**
 * The identity decisions of the Flask server (`app.py`): the blink gate of `/detect_action`,
 * enrollment with its duplicate guard (`/register`), best-match recognition (`/check_face`)
 * and first-match login (`/login`). The `users` table is an in-memory sequence of rows and
 * the Flask session is an optional user id.
 */
module FaceAuthServer {
  import opened Common
  import opened Text
  import Base64
  import opened StoredEncoding
  import opened Vision
  import opened Liveness

  /** The strict distance bound of `/register` and `/check_face`. */
  const MatchThreshold: real := 0.4
  /** The `tolerance` passed to `compare_faces` by `/login`. */
  const LoginTolerance: real := 0.6
  /** The smallest accepted `img.shape[0]` and `img.shape[1]` at enrollment. */
  const MinSide: nat := 200

  const BlankNameMessage := "请输入姓名"
  const NoFaceMessage := "未检测到人脸"
  const LowQualityMessage := "图像质量太低，请调整距离"
  const DuplicateMessage := "已存在相似用户，请重试"
  const NoLandmarksMessage := "未检测到人脸特征点"
  const PleaseBlinkMessage := "请眨眼"
  const UnknownUserMessage := "用户不存在"

  /** A row of the `users` table: `id`, `username`, `face_encoding` (base 64 text). */
  datatype User = User(id: int, username: string, faceEncoding: string)

  /** The JSON body of a request: `image` (a data URI) and, for `/register`, `username`. */
  datatype Request = Request(image: Option<string>, username: Option<string>)

  /** The step whose exception a route catches and reports as `str(e)`. */
  datatype Fault =
    | MissingImage            // request.json['image'] raises KeyError
    | NoDataUriComma          // image_data.split(',')[1] raises IndexError
    | InvalidBase64           // base64.b64decode raises binascii.Error
    | UndecodableImage        // cv2.imdecode gave None and the next library call raises
    | NoFaceEncoding          // face_encodings(img)[0] raises IndexError
    | CorruptStoredEncoding   // a stored face_encoding does not read back as float64 values
    | TooFewEyePoints         // eye[5] raises IndexError

  /** `/detect_action`: `{'detected': True}` only for `Blink`. */
  datatype DetectReply = Blink | NoBlink(message: string) | DetectError(fault: Fault)

  /** `/register`: `{'success': True, 'username': ...}` only for `Registered`. */
  datatype RegisterReply = Registered(username: string) | Refused(message: string) | RegisterError(fault: Fault)

  /** `/check_face`: `exists: True` for `Known`, `exists: False` for `Unknown`. */
  datatype CheckReply = Known(username: string) | Unknown | CheckRefused(message: string) | CheckError(fault: Fault)

  /** `/login`: `{'success': True, 'username': ...}` only for `LoggedIn`. */
  datatype LoginReply = LoggedIn(username: string) | LoginRefused(message: string) | LoginError(fault: Fault)

  /** What `/register` has checked before it looks at the table. */
  datatype Enrollment = Enrollment(name: string, probe: Signature)

  /**
   * `base64.b64decode(image.split(',')[1])` followed by `cv2.imdecode`: the frame a route
   * works on, or the step that raised.
   */
  function DecodeFrame(image: string, b: Backend): (r: Result<Image, Fault>)
    ensures ',' !in image ==> r == Err(NoDataUriComma)
    ensures r.Ok? ==> ',' in image && Base64.Decode(SecondPiece(image, ',').value).Some?
    ensures r.Ok? ==> b.imdecode(Base64.Decode(SecondPiece(image, ',').value).value) == Some(r.value)
  {
    match SecondPiece(image, ',')
    case None => Err(NoDataUriComma)
    case Some(payload) =>
      match Base64.Decode(payload)
      case None => Err(InvalidBase64)
      case Some(bytes) =>
        match b.imdecode(bytes)
        case None => Err(UndecodableImage)
        case Some(img) => Ok(img)
  }

  /** Each step of decoding a frame either yields its value or names the step that raised. */
  lemma DecodeFrameCases(image: string, b: Backend)
    ensures ',' !in image ==> DecodeFrame(image, b) == Err(NoDataUriComma)
    ensures ',' in image ==>
      match Base64.Decode(SecondPiece(image, ',').value)
      case None => DecodeFrame(image, b) == Err(InvalidBase64)
      case Some(bytes) =>
        match b.imdecode(bytes)
        case None => DecodeFrame(image, b) == Err(UndecodableImage)
        case Some(img) => DecodeFrame(image, b) == Ok(img)
  {
  }

  // ---------------------------------------------------------------- /detect_action

  /** `/detect_action`: the first face's eyes decide; no landmarks is `detected: False`. */
  function DetectAction(req: Request, b: Backend): (r: DetectReply)
    ensures req.image.None? ==> r == DetectError(MissingImage)
    ensures r.Blink? <==>
      req.image.Some? && DecodeFrame(req.image.value, b).Ok? &&
      var faces := b.faceLandmarks(DecodeFrame(req.image.value, b).value);
      |faces| > 0 && |faces[0].leftEye| >= 6 && |faces[0].rightEye| >= 6 &&
      IsBlink(EyeAspectRatio(faces[0].leftEye, b.norm).value, EyeAspectRatio(faces[0].rightEye, b.norm).value)
    ensures (req.image.Some? && DecodeFrame(req.image.value, b).Ok? &&
             b.faceLandmarks(DecodeFrame(req.image.value, b).value) == []) ==> r == NoBlink(NoLandmarksMessage)
  {
    if req.image.None? then DetectError(MissingImage)
    else
      match DecodeFrame(req.image.value, b)
      case Err(f) => DetectError(f)
      case Ok(img) =>
        var faces := b.faceLandmarks(img);
        if faces == [] then NoBlink(NoLandmarksMessage)
        else
          var left, right := EyeAspectRatio(faces[0].leftEye, b.norm), EyeAspectRatio(faces[0].rightEye, b.norm);
          if left.None? || right.None? then DetectError(TooFewEyePoints)
          else if IsBlink(left.value, right.value) then Blink
          else NoBlink(PleaseBlinkMessage)
  }

  /** Faces after the first one never change the blink decision. */
  lemma DetectUsesFirstFaceOnly(req: Request, b: Backend, img: Image, others: seq<FaceLandmarks>)
    requires req.image.Some? && DecodeFrame(req.image.value, b) == Ok(img)
    requires |b.faceLandmarks(img)| > 0
    ensures var first := b.faceLandmarks(img)[0];
      DetectAction(req, b.(faceLandmarks := i => if i == img then [first] + others else b.faceLandmarks(i)))
      == DetectAction(req, b)
  {
    var first := b.faceLandmarks(img)[0];
    var b' := b.(faceLandmarks := i => if i == img then [first] + others else b.faceLandmarks(i));
    assert DecodeFrame(req.image.value, b') == Ok(img);
    assert b'.faceLandmarks(img)[0] == first;
  }

  // ---------------------------------------------------------------- scans over the table

  /** The distance of a stored row to the probe; `None` when its encoding does not read back. */
  function StoredDistance(b: Backend, u: User, probe: Signature): Option<real>
  {
    match Load(u.faceEncoding)
    case None => None
    case Some(stored) => Some(b.faceDistance(stored, probe))
  }

  /** The distance of every stored row to the probe, in table order. */
  function StoredDistances(b: Backend, users: seq<User>, probe: Signature): seq<Option<real>>
  {
    seq(|users|, j requires 0 <= j < |users| => StoredDistance(b, users[j], probe))
  }

  /** Every stored encoding reads back. */
  predicate AllLoad(users: seq<User>)
  {
    forall j :: 0 <= j < |users| ==> Load(users[j].faceEncoding).Some?
  }

  function Distances(b: Backend, users: seq<User>, probe: Signature): (ds: seq<real>)
    requires AllLoad(users)
    ensures |ds| == |users|
    ensures forall j :: 0 <= j < |users| ==> Some(ds[j]) == StoredDistance(b, users[j], probe)
  {
    seq(|users|, j requires 0 <= j < |users| => b.faceDistance(Load(users[j].faceEncoding).value, probe))
  }

  /** The first index whose element satisfies `p`. */
  function FirstWhere<T>(xs: seq<T>, p: T -> bool): (k: Option<nat>)
    ensures k.Some? ==> k.value < |xs| && p(xs[k.value]) && forall j :: 0 <= j < k.value ==> !p(xs[j])
    ensures k.None? ==> forall j :: 0 <= j < |xs| ==> !p(xs[j])
  {
    if xs == [] then None
    else if p(xs[0]) then Some(0)
    else
      match FirstWhere(xs[1..], p)
      case None => None
      case Some(k) => Some(k + 1)
  }

  /** An index whose element satisfies `p` and has none before it is the one `FirstWhere` finds. */
  lemma FirstWhereAt<T>(xs: seq<T>, p: T -> bool, i: nat)
    requires i < |xs| && p(xs[i]) && forall j :: 0 <= j < i ==> !p(xs[j])
    ensures FirstWhere(xs, p) == Some(i)
  {
  }

  /** What ends the enrollment scan: a row that does not read back, or one closer than 0.4. */
  predicate StopsEnrollment(o: Option<real>)
  {
    o.None? || o.value < MatchThreshold
  }

  /**
   * The loop of `/register` over the table: the index where it leaves early (by raising or
   * by finding a similar user), `None` when it runs to the end.
   */
  method FindDuplicate(b: Backend, users: seq<User>, probe: Signature) returns (stop: Option<nat>)
    ensures stop == FirstWhere(StoredDistances(b, users, probe), StopsEnrollment)
  {
    ghost var os := StoredDistances(b, users, probe);
    var i := 0;
    while i < |users|
      invariant 0 <= i <= |users| && |os| == |users|
      invariant forall j :: 0 <= j < |users| ==> os[j] == StoredDistance(b, users[j], probe)
      invariant forall j :: 0 <= j < i ==> !StopsEnrollment(os[j])
    {
      var stored := Load(users[i].faceEncoding);
      if stored.None? {
        FirstWhereAt(os, StopsEnrollment, i);
        return Some(i);
      }
      var distance := b.faceDistance(stored.value, probe);
      if distance < MatchThreshold {
        FirstWhereAt(os, StopsEnrollment, i);
        return Some(i);
      }
      i := i + 1;
    }
    return None;
  }

  /** The first index at minimal distance: the choice of a left-to-right scan with a strict `<`. */
  predicate IsFirstNearest(ds: seq<real>, k: int)
  {
    0 <= k < |ds| &&
    (forall j :: 0 <= j < |ds| ==> ds[k] <= ds[j]) &&
    (forall j :: 0 <= j < k ==> ds[k] < ds[j])
  }

  /** The `matched_user` index the `/check_face` scan ends with on a non-empty table. */
  function NearestIndex(ds: seq<real>): (k: nat)
    requires |ds| > 0
    ensures IsFirstNearest(ds, k)
  {
    if |ds| == 1 then 0
    else
      var k := NearestIndex(ds[..|ds| - 1]);
      assert forall j :: 0 <= j < |ds| - 1 ==> ds[..|ds| - 1][j] == ds[j];
      if ds[|ds| - 1] < ds[k] then |ds| - 1 else k
  }

  /** One more row: the scan keeps its choice unless the new distance is strictly smaller. */
  lemma NearestIndexSnoc(ds: seq<real>, d: real)
    requires |ds| > 0
    ensures NearestIndex(ds + [d]) == if d < ds[NearestIndex(ds)] then |ds| else NearestIndex(ds)
  {
    assert (ds + [d])[..|ds|] == ds;
  }

  /** `min_distance`: infinity until the first row, then the smallest distance seen. */
  datatype MinDistance = Infinity | Distance(value: real)

  datatype NearestScan = Corrupt | Scanned(matched: Option<nat>, minDistance: MinDistance)

  /** The distances seen so far, extended by the next row's. */
  lemma ExtendScan(b: Backend, users: seq<User>, probe: Signature, ds: seq<real>, d: real)
    requires |ds| < |users| && StoredDistance(b, users[|ds|], probe) == Some(d)
    requires forall j :: 0 <= j < |ds| ==> StoredDistance(b, users[j], probe) == Some(ds[j])
    ensures forall j :: 0 <= j < |ds| + 1 ==> StoredDistance(b, users[j], probe) == Some((ds + [d])[j])
  {
  }

  /** The loop of `/check_face`: the first nearest row and its distance. */
  method FindNearest(b: Backend, users: seq<User>, probe: Signature) returns (scan: NearestScan)
    ensures scan.Corrupt? <==> !AllLoad(users)
    ensures scan.Scanned? && users == [] ==> scan == Scanned(None, Infinity)
    ensures scan.Scanned? && users != [] ==>
      var k := NearestIndex(Distances(b, users, probe));
      scan == Scanned(Some(k), Distance(Distances(b, users, probe)[k]))
  {
    var minDistance := Infinity;
    var matched: Option<nat> := None;
    ghost var ds: seq<real> := [];
    var i := 0;
    while i < |users|
      invariant 0 <= i <= |users| && |ds| == i
      invariant forall j :: 0 <= j < i ==> StoredDistance(b, users[j], probe) == Some(ds[j])
      invariant i == 0 ==> matched == None && minDistance == Infinity
      invariant i > 0 ==> matched == Some(NearestIndex(ds)) && minDistance == Distance(ds[NearestIndex(ds)])
    {
      var stored := Load(users[i].faceEncoding);
      if stored.None? {
        return Corrupt;
      }
      var distance := b.faceDistance(stored.value, probe);
      assert StoredDistance(b, users[i], probe) == Some(distance);
      ghost var next := ds + [distance];
      ExtendScan(b, users, probe, ds, distance);
      ghost var k := NearestIndex(next);
      if i == 0 {
        assert k == 0;
      } else {
        NearestIndexSnoc(ds, distance);
      }
      if minDistance.Infinity? || distance < minDistance.value {
        minDistance := Distance(distance);
        matched := Some(i);
      }
      assert matched == Some(k) && minDistance == Distance(next[k]);
      ds := next;
      i := i + 1;
    }
    assert users != [] ==> ds == Distances(b, users, probe);
    return Scanned(matched, minDistance);
  }

  /** The `/check_face` verdict: the first nearest row, when it is closer than 0.4. */
  function Recognized(ds: seq<real>): (k: Option<nat>)
    ensures k.Some? ==> IsFirstNearest(ds, k.value) && ds[k.value] < MatchThreshold
    ensures k.None? <==> forall j :: 0 <= j < |ds| ==> ds[j] >= MatchThreshold
  {
    if ds == [] then None
    else
      var k := NearestIndex(ds);
      if ds[k] < MatchThreshold then Some(k) else None
  }

  /** The row `/login` accepts: `compare_faces` at tolerance 0.6, `None` when it does not read back. */
  function LoginVerdict(b: Backend, u: User, probe: Signature): Option<bool>
  {
    match Load(u.faceEncoding)
    case None => None
    case Some(stored) => Some(b.compareFaces(stored, probe, LoginTolerance))
  }

  /** The `compare_faces` verdict of every stored row, in table order. */
  function LoginVerdicts(b: Backend, users: seq<User>, probe: Signature): seq<Option<bool>>
  {
    seq(|users|, j requires 0 <= j < |users| => LoginVerdict(b, users[j], probe))
  }

  /** What ends the login scan: a row that does not read back, or one `compare_faces` passes. */
  predicate StopsLogin(v: Option<bool>)
  {
    v.None? || v.value
  }

  /** The loop of `/login`: the first row that raises or that `compare_faces` accepts. */
  method FindLoginMatch(b: Backend, users: seq<User>, probe: Signature) returns (stop: Option<nat>)
    ensures stop == FirstWhere(LoginVerdicts(b, users, probe), StopsLogin)
  {
    ghost var vs := LoginVerdicts(b, users, probe);
    for i := 0 to |users|
      invariant |vs| == |users|
      invariant forall j :: 0 <= j < |users| ==> vs[j] == LoginVerdict(b, users[j], probe)
      invariant forall j :: 0 <= j < i ==> !StopsLogin(vs[j])
    {
      var stored := Load(users[i].faceEncoding);
      if stored.None? {
        FirstWhereAt(vs, StopsLogin, i);
        return Some(i);
      }
      if b.compareFaces(stored.value, probe, LoginTolerance) {
        FirstWhereAt(vs, StopsLogin, i);
        return Some(i);
      }
    }
    return None;
  }

  // ---------------------------------------------------------------- what each route checks first

  /** `request.json.get('username', '').strip()`. */
  function RequestedName(req: Request): string
  {
    Strip(if req.username.Some? then req.username.value else "")
  }

  /**
   * The checks `/register` makes before it opens the database, in the order it makes them:
   * the `image` key, a blank name, the frame, a detected face, both sides at least 200, an
   * encoding.
   */
  function ValidateEnrollment(req: Request, b: Backend): (r: Result<Enrollment, RegisterReply>)
    ensures req.image.None? ==> r == Err(RegisterError(MissingImage))
    ensures req.image.Some? && RequestedName(req) == [] ==> r == Err(Refused(BlankNameMessage))
    ensures r.Ok? ==>
      req.image.Some? && DecodeFrame(req.image.value, b).Ok? &&
      var img := DecodeFrame(req.image.value, b).value;
      b.faceLocations(img) != [] && img.height >= MinSide && img.width >= MinSide && b.faceEncodings(img) != [] &&
      r.value == Enrollment(RequestedName(req), b.faceEncodings(img)[0]) && r.value.name != []
  {
    if req.image.None? then Err(RegisterError(MissingImage))
    else
      var name := RequestedName(req);
      if name == [] then Err(Refused(BlankNameMessage))
      else
        match DecodeFrame(req.image.value, b)
        case Err(f) => Err(RegisterError(f))
        case Ok(img) =>
          if b.faceLocations(img) == [] then Err(Refused(NoFaceMessage))
          else if img.height < MinSide || img.width < MinSide then Err(Refused(LowQualityMessage))
          else if b.faceEncodings(img) == [] then Err(RegisterError(NoFaceEncoding))
          else Ok(Enrollment(name, b.faceEncodings(img)[0]))
  }

  /**
   * The order of the `/register` checks, both ways: once the `image` key is present and the
   * stripped name is not blank, a frame that does not decode reports its fault, and a decoded
   * frame is refused for no face, then for its size, and is accepted exactly when it has an
   * encoding.
   */
  lemma EnrollmentChecks(req: Request, b: Backend)
    requires req.image.Some? && RequestedName(req) != []
    ensures
      var r := ValidateEnrollment(req, b);
      match DecodeFrame(req.image.value, b)
      case Err(f) => r == Err(RegisterError(f))
      case Ok(img) =>
        (b.faceLocations(img) == [] <==> r == Err(Refused(NoFaceMessage))) &&
        ((b.faceLocations(img) != [] && (img.height < MinSide || img.width < MinSide))
          <==> r == Err(Refused(LowQualityMessage))) &&
        (b.faceLocations(img) != [] && img.height >= MinSide && img.width >= MinSide ==>
          (b.faceEncodings(img) == [] <==> r == Err(RegisterError(NoFaceEncoding))) &&
          (b.faceEncodings(img) != [] ==> r == Ok(Enrollment(RequestedName(req), b.faceEncodings(img)[0]))))
  {
  }

  /** `/check_face` before the table: the `image` key, the frame, a detected face, an encoding. */
  function CheckProbe(req: Request, b: Backend): (r: Result<Signature, CheckReply>)
    ensures req.image.None? ==> r == Err(CheckError(MissingImage))
    ensures r.Ok? ==> (req.image.Some? && DecodeFrame(req.image.value, b).Ok? &&
      var img := DecodeFrame(req.image.value, b).value;
      b.faceLocations(img) != [] && b.faceEncodings(img) != [] && r.value == b.faceEncodings(img)[0])
  {
    if req.image.None? then Err(CheckError(MissingImage))
    else
      match DecodeFrame(req.image.value, b)
      case Err(f) => Err(CheckError(f))
      case Ok(img) =>
        if b.faceLocations(img) == [] then Err(CheckRefused(NoFaceMessage))
        else if b.faceEncodings(img) == [] then Err(CheckError(NoFaceEncoding))
        else Ok(b.faceEncodings(img)[0])
  }

  /**
   * What `/check_face` makes of a present `image`, both ways: the frame's fault, a refusal
   * exactly when no face is found, and otherwise the first encoding exactly when there is one.
   */
  lemma CheckProbeCases(req: Request, b: Backend)
    requires req.image.Some?
    ensures
      var r := CheckProbe(req, b);
      match DecodeFrame(req.image.value, b)
      case Err(f) => r == Err(CheckError(f))
      case Ok(img) =>
        (b.faceLocations(img) == [] <==> r == Err(CheckRefused(NoFaceMessage))) &&
        (b.faceLocations(img) != [] ==>
          (b.faceEncodings(img) == [] <==> r == Err(CheckError(NoFaceEncoding))) &&
          (b.faceEncodings(img) != [] ==> r == Ok(b.faceEncodings(img)[0])))
  {
  }

  /** `/login` before the table: the `image` key, the frame, an encoding (no face or size check). */
  function LoginProbe(req: Request, b: Backend): (r: Result<Signature, LoginReply>)
    ensures req.image.None? ==> r == Err(LoginError(MissingImage))
    ensures r.Ok? ==> (req.image.Some? && DecodeFrame(req.image.value, b).Ok? &&
      var img := DecodeFrame(req.image.value, b).value;
      b.faceEncodings(img) != [] && r.value == b.faceEncodings(img)[0])
    ensures r.Err? ==> r.error.LoginError?
  {
    if req.image.None? then Err(LoginError(MissingImage))
    else
      match DecodeFrame(req.image.value, b)
      case Err(f) => Err(LoginError(f))
      case Ok(img) =>
        if b.faceEncodings(img) == [] then Err(LoginError(NoFaceEncoding))
        else Ok(b.faceEncodings(img)[0])
  }

  /**
   * What `/login` makes of a present `image`, both ways: the frame's fault, and otherwise the
   * first encoding exactly when there is one.
   */
  lemma LoginProbeCases(req: Request, b: Backend)
    requires req.image.Some?
    ensures
      var r := LoginProbe(req, b);
      match DecodeFrame(req.image.value, b)
      case Err(f) => r == Err(LoginError(f))
      case Ok(img) =>
        (b.faceEncodings(img) == [] <==> r == Err(LoginError(NoFaceEncoding))) &&
        (b.faceEncodings(img) != [] ==> r == Ok(b.faceEncodings(img)[0]))
  {
  }

  /** User ids grow along the table, as `AUTO_INCREMENT` assigns them. */
  predicate IdsIncreasing(users: seq<User>)
  {
    forall i, j :: 0 <= i < j < |users| ==> users[i].id < users[j].id
  }

  lemma AppendRow(users: seq<User>, row: User, bound: int)
    requires IdsIncreasing(users) && (forall j :: 0 <= j < |users| ==> users[j].id < row.id) && row.id < bound
    ensures IdsIncreasing(users + [row]) && forall j :: 0 <= j < |users| + 1 ==> (users + [row])[j].id < bound
    ensures AllLoad(users) && Load(row.faceEncoding).Some? ==> AllLoad(users + [row])
  {
    assert forall j :: 0 <= j < |users| ==> (users + [row])[j] == users[j];
  }

  /** The server's state: the `users` table and the session's `user_id`. */
  class App {
    var users: seq<User>
    /** The id `AUTO_INCREMENT` gives the next inserted row. */
    var nextId: int
    /** `session['user_id']`, `None` while unset. */
    var session: Option<int>

    ghost predicate Valid()
      reads this
    {
      IdsIncreasing(users) && forall j :: 0 <= j < |users| ==> users[j].id < nextId
    }

    /**
     * The table as found and its `AUTO_INCREMENT` counter, which exceeds every id in the
     * table but may be more than one past the last after rows were deleted.
     */
    constructor (existing: seq<User>, counter: int)
      requires IdsIncreasing(existing) && forall j :: 0 <= j < |existing| ==> existing[j].id < counter
      ensures Valid() && users == existing && session == None && nextId == counter
    {
      users := existing;
      nextId := counter;
      session := None;
    }

    /** `/register`. */
    method Register(req: Request, b: Backend) returns (reply: RegisterReply)
      requires Valid()
      modifies this
      ensures Valid()
      ensures AllLoad(old(users)) ==> AllLoad(users)
      ensures ValidateEnrollment(req, b).Err? ==>
        reply == ValidateEnrollment(req, b).error &&
        users == old(users) && nextId == old(nextId) && session == old(session)
      ensures ValidateEnrollment(req, b).Ok? ==>
        var e := ValidateEnrollment(req, b).value;
        var os := StoredDistances(b, old(users), e.probe);
        match FirstWhere(os, StopsEnrollment)
        case None =>
          reply == Registered(e.name) &&
          users == old(users) + [User(old(nextId), e.name, Store(e.probe))] &&
          session == Some(old(nextId)) && nextId > old(nextId)
        case Some(k) =>
          reply == (if os[k].None? then RegisterError(CorruptStoredEncoding) else Refused(DuplicateMessage)) &&
          users == old(users) && nextId == old(nextId) && session == old(session)
    {
      var v := ValidateEnrollment(req, b);
      if v.Err? {
        return v.error;
      }
      var e := v.value;
      var stop := FindDuplicate(b, users, e.probe);
      if stop.Some? {
        if Load(users[stop.value].faceEncoding).None? {
          return RegisterError(CorruptStoredEncoding);
        }
        return Refused(DuplicateMessage);
      }
      var id := nextId;
      LoadStore(e.probe);
      AppendRow(users, User(id, e.name, Store(e.probe)), id + 1);
      users := users + [User(id, e.name, Store(e.probe))];
      nextId := nextId + 1;
      session := Some(id);
      return Registered(e.name);
    }

    /** `/check_face`. */
    method CheckFace(req: Request, b: Backend) returns (reply: CheckReply)
      modifies this`session
      ensures CheckProbe(req, b).Err? ==> reply == CheckProbe(req, b).error && session == old(session)
      ensures CheckProbe(req, b).Ok? && !AllLoad(users) ==>
        reply == CheckError(CorruptStoredEncoding) && session == old(session)
      ensures CheckProbe(req, b).Ok? && AllLoad(users) ==>
        match Recognized(Distances(b, users, CheckProbe(req, b).value))
        case Some(k) => reply == Known(users[k].username) && session == Some(users[k].id)
        case None => reply == Unknown && session == old(session)
    {
      var p := CheckProbe(req, b);
      if p.Err? {
        return p.error;
      }
      var scan := FindNearest(b, users, p.value);
      if scan.Corrupt? {
        return CheckError(CorruptStoredEncoding);
      }
      if scan.minDistance.Distance? && scan.minDistance.value < MatchThreshold {
        var k := scan.matched.value;
        session := Some(users[k].id);
        return Known(users[k].username);
      }
      return Unknown;
    }

    /** `/login`. */
    method Login(req: Request, b: Backend) returns (reply: LoginReply)
      modifies this`session
      ensures LoginProbe(req, b).Err? ==> reply == LoginProbe(req, b).error && session == old(session)
      ensures LoginProbe(req, b).Ok? ==>
        var vs := LoginVerdicts(b, users, LoginProbe(req, b).value);
        match FirstWhere(vs, StopsLogin)
        case None => reply == LoginRefused(UnknownUserMessage) && session == old(session)
        case Some(k) =>
          if vs[k].None? then reply == LoginError(CorruptStoredEncoding) && session == old(session)
          else reply == LoggedIn(users[k].username) && session == Some(users[k].id)
    {
      var p := LoginProbe(req, b);
      if p.Err? {
        return p.error;
      }
      var stop := FindLoginMatch(b, users, p.value);
      if stop.None? {
        return LoginRefused(UnknownUserMessage);
      }
      var k := stop.value;
      if Load(users[k].faceEncoding).None? {
        return LoginError(CorruptStoredEncoding);
      }
      session := Some(users[k].id);
      return LoggedIn(users[k].username);
    }
  }

  // ---------------------------------------------------------------- properties of the decisions

  /** A row within 0.4 of the probe always stops enrollment, at that row or before it. */
  lemma CloseRowStopsEnrollment(os: seq<Option<real>>, j: nat)
    requires j < |os| && os[j].Some? && os[j].value < MatchThreshold
    ensures FirstWhere(os, StopsEnrollment).Some? && FirstWhere(os, StopsEnrollment).value <= j
  {
    assert StopsEnrollment(os[j]);
  }

  /**
   * On a table that reads back, `/register` refuses exactly when some row, anywhere in the
   * table, is within 0.4 of the probe; the order of the rows does not matter.
   */
  lemma EnrollmentRefusedIffCloseRow(b: Backend, users: seq<User>, probe: Signature)
    requires AllLoad(users)
    ensures var stop := FirstWhere(StoredDistances(b, users, probe), StopsEnrollment);
      (stop.Some? <==> exists j :: 0 <= j < |users| && Distances(b, users, probe)[j] < MatchThreshold) &&
      (stop.Some? ==> StoredDistances(b, users, probe)[stop.value].Some?)
  {
    var os, ds := StoredDistances(b, users, probe), Distances(b, users, probe);
    var stop := FirstWhere(os, StopsEnrollment);
    if stop.Some? {
      assert os[stop.value] == Some(ds[stop.value]);
    }
    if exists j :: 0 <= j < |users| && ds[j] < MatchThreshold {
      var j :| 0 <= j < |users| && ds[j] < MatchThreshold;
      assert os[j] == Some(ds[j]);
      CloseRowStopsEnrollment(os, j);
    }
  }

  /** Enrolling a face already stored is refused as a duplicate. */
  lemma ReEnrollmentIsDuplicate(b: Backend, users: seq<User>, probe: Signature, j: nat)
    requires IsDistance(b.faceDistance) && AllLoad(users)
    requires j < |users| && Load(users[j].faceEncoding) == Some(probe)
    ensures var os := StoredDistances(b, users, probe);
      FirstWhere(os, StopsEnrollment).Some? && os[FirstWhere(os, StopsEnrollment).value].Some?
  {
    var os := StoredDistances(b, users, probe);
    assert os[j] == Some(b.faceDistance(probe, probe));
    CloseRowStopsEnrollment(os, j);
    EnrollmentRefusedIffCloseRow(b, users, probe);
  }

  /** A probe equal to a stored encoding is recognized, at distance 0. */
  lemma ExactMatchIsRecognized(b: Backend, users: seq<User>, probe: Signature, j: nat)
    requires IsDistance(b.faceDistance) && AllLoad(users)
    requires j < |users| && Load(users[j].faceEncoding) == Some(probe)
    ensures var ds := Distances(b, users, probe);
      Recognized(ds).Some? && ds[Recognized(ds).value] == 0.0
  {
    var ds := Distances(b, users, probe);
    assert Some(ds[j]) == StoredDistance(b, users[j], probe);
    assert ds[j] == 0.0;
    assert ds[NearestIndex(ds)] <= ds[j];
  }

  /**
   * `/login` takes the first row `compare_faces` passes, not the nearest: with
   * `compare_faces` read as "distance at most the tolerance", a table whose first row is at
   * 0.5 and second at 0.1 logs in the first user, while `/check_face` recognizes the second.
   */
  lemma LoginNeedNotPickNearest()
    ensures AllLoad(SplitTable())
    ensures FirstWhere(LoginVerdicts(SplitBackend(), SplitTable(), [2]), StopsLogin) == Some(0)
    ensures Recognized(Distances(SplitBackend(), SplitTable(), [2])) == Some(1)
  {
    SplitTableLoads();
    SplitLoginPicksFirst();
    SplitCheckPicksSecond();
  }

  /** The distances of the example: 0.5 to the stored `[0]`, 0.1 to anything else. */
  function SplitDistance(known: Signature, probe: Signature): real
  {
    if known == [0] then 0.5 else 0.1
  }

  /** A backend whose `compare_faces` is "distance at most the tolerance". */
  function SplitBackend(): Backend
  {
    Backend(_ => None, _ => [], _ => [], _ => [], SplitDistance,
      (k, p, t) => SplitDistance(k, p) <= t, (p, q) => 0.0)
  }

  /** The far user first, the near one second. */
  function SplitTable(): seq<User>
  {
    [User(1, "first", Store([0])), User(2, "second", Store([1]))]
  }

  lemma SplitTableLoads()
    ensures Load(SplitTable()[0].faceEncoding) == Some([0])
    ensures Load(SplitTable()[1].faceEncoding) == Some([1])
    ensures AllLoad(SplitTable())
  {
    LoadStore([0]);
    LoadStore([1]);
  }

  lemma SplitLoginPicksFirst()
    ensures FirstWhere(LoginVerdicts(SplitBackend(), SplitTable(), [2]), StopsLogin) == Some(0)
  {
    SplitTableLoads();
    var vs := LoginVerdicts(SplitBackend(), SplitTable(), [2]);
    assert vs[0] == Some(true);
    FirstWhereAt(vs, StopsLogin, 0);
  }

  lemma SplitCheckPicksSecond()
    ensures AllLoad(SplitTable())
    ensures Recognized(Distances(SplitBackend(), SplitTable(), [2])) == Some(1)
  {
    SplitTableLoads();
    var ds := Distances(SplitBackend(), SplitTable(), [2]);
    assert ds[0] == 0.5 && ds[1] == 0.1;
    assert ds[..1] == [0.5];
    assert NearestIndex(ds) == 1;
  }

  /** A table holding only the stored probe: enrollment stops at it and `/check_face` picks it. */
  lemma SingleStoredRow(b: Backend, row: User, probe: Signature)
    requires row.faceEncoding == Store(probe) && IsDistance(b.faceDistance)
    ensures AllLoad([row])
    ensures FirstWhere(StoredDistances(b, [row], probe), StopsEnrollment) == Some(0)
    ensures StoredDistances(b, [row], probe)[0].Some?
    ensures Recognized(Distances(b, [row], probe)) == Some(0)
  {
    LoadStore(probe);
    ReEnrollmentIsDuplicate(b, [row], probe, 0);
    ExactMatchIsRecognized(b, [row], probe, 0);
  }

  /**
   * End to end: on a fresh empty table (counter 1), a face is enrolled, the same face cannot be enrolled
   * again, and `/check_face` then recognizes it and sets the session.
   */
  method EnrollmentScenario(req: Request, b: Backend)
    returns (first: RegisterReply, second: RegisterReply, check: CheckReply, session: Option<int>)
    requires ValidateEnrollment(req, b).Ok? && IsDistance(b.faceDistance)
    ensures first == Registered(ValidateEnrollment(req, b).value.name)
    ensures second == Refused(DuplicateMessage)
    ensures check == Known(ValidateEnrollment(req, b).value.name) && session == Some(1)
  {
    var e := ValidateEnrollment(req, b).value;
    var app := new App([], 1);
    assert StoredDistances(b, [], e.probe) == [];
    first := app.Register(req, b);
    var row := User(1, e.name, Store(e.probe));
    assert app.users == [row];
    SingleStoredRow(b, row, e.probe);
    second := app.Register(req, b);
    assert app.users == [row];
    assert CheckProbe(req, b) == Ok(e.probe);
    check := app.CheckFace(req, b);
    session := app.session;
  }
}
