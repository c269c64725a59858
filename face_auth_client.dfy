/**
 * The login page's client (`static/js/main.js`, class `FaceAuth`): a button starts a chain
 * of `/detect_action` requests, one every 100 ms after each reply, until two blinks were
 * seen (then `/check_face` decides) or 50 attempts were spent.
 */
module FaceAuthClient {
  import opened Common
  import Server = FaceAuthServer

  // ---------------------------------------------------------------- the JSON exchanged

  /**
   * The fields of a reply body that the client or the server use; `existsFlag` is the
   * top-level `exists` and `nestedExists` is `data.data.exists`, missing when `data.data` is.
   */
  datatype ReplyBody = ReplyBody(
    status: Option<string>, success: Option<bool>, detected: Option<bool>,
    existsFlag: Option<bool>, nestedExists: Option<bool>, message: Option<string>)

  const BlinkDetectedMessage := "检测到眨眼"

  /** The body `/detect_action` sends; `errorText` is `str(e)` of a caught exception. */
  function DetectBody(r: Server.DetectReply, errorText: string): (body: ReplyBody)
    ensures body.status.None? && body.detected == Some(r.Blink?)
  {
    match r
    case Blink => ReplyBody(None, None, Some(true), None, None, Some(BlinkDetectedMessage))
    case NoBlink(m) => ReplyBody(None, None, Some(false), None, None, Some(m))
    case DetectError(_) => ReplyBody(None, None, Some(false), None, None, Some(errorText))
  }

  /** The body `/check_face` sends; `errorText` is `str(e)` of a caught exception. */
  function CheckBody(r: Server.CheckReply, errorText: string): (body: ReplyBody)
    ensures body.status.None? && body.nestedExists.None?
    ensures body.success == Some(r.Known? || r.Unknown?)
  {
    match r
    case Known(_) => ReplyBody(None, Some(true), None, Some(true), None, None)
    case Unknown => ReplyBody(None, Some(true), None, Some(false), None, None)
    case CheckRefused(m) => ReplyBody(None, Some(false), None, None, None, Some(m))
    case CheckError(_) => ReplyBody(None, Some(false), None, None, None, Some(errorText))
  }

  /** What the client makes of a `/detect_action` exchange. */
  datatype BlinkOutcome = BlinkSeen | NoBlinkSeen(message: Option<string>) | BlinkFetchFailed

  /** What the client makes of a `/check_face` exchange. */
  datatype CheckOutcome = FaceExists | FaceRejected(message: Option<string>) | CheckFetchFailed

  /** `detectBlink`'s test as written: `data.status === 'success'`. */
  function ReadBlinkAsWritten(body: ReplyBody): BlinkOutcome
  {
    if body.status == Some("success") then BlinkSeen else NoBlinkSeen(body.message)
  }

  /** `checkFace`'s test as written: `data.status === 'success' && data.data && data.data.exists`. */
  function ReadCheckAsWritten(body: ReplyBody): CheckOutcome
  {
    if body.status == Some("success") && body.nestedExists == Some(true) then FaceExists
    else FaceRejected(body.message)
  }

  /** The server never sends `status`, so as written no blink is ever counted. */
  lemma AsWrittenNeverSeesBlink(r: Server.DetectReply, errorText: string)
    ensures ReadBlinkAsWritten(DetectBody(r, errorText)).NoBlinkSeen?
    ensures ReadBlinkAsWritten(DetectBody(Server.Blink, errorText)) == NoBlinkSeen(Some(BlinkDetectedMessage))
  {
  }

  /** As written, not even a recognized face leads to the dashboard. */
  lemma AsWrittenNeverSeesMatch(r: Server.CheckReply, errorText: string)
    ensures ReadCheckAsWritten(CheckBody(r, errorText)).FaceRejected?
  {
  }

  /** The evidently intended test: the `detected` field `/detect_action` sends. */
  function ReadBlink(body: ReplyBody): (o: BlinkOutcome)
    ensures o.BlinkSeen? <==> body.detected == Some(true)
    ensures o.NoBlinkSeen? ==> o.message == body.message
  {
    if body.detected == Some(true) then BlinkSeen else NoBlinkSeen(body.message)
  }

  /** The evidently intended test: the `success` and `exists` fields `/check_face` sends. */
  function ReadCheck(body: ReplyBody): (o: CheckOutcome)
    ensures o.FaceExists? <==> body.success == Some(true) && body.existsFlag == Some(true)
    ensures o.FaceRejected? ==> o.message == body.message
  {
    if body.success == Some(true) && body.existsFlag == Some(true) then FaceExists else FaceRejected(body.message)
  }

  /** Read as intended, the client counts a blink exactly when the server saw one. */
  lemma ReadBlinkAgreesWithServer(r: Server.DetectReply, errorText: string)
    ensures ReadBlink(DetectBody(r, errorText)).BlinkSeen? <==> r.Blink?
    ensures r.NoBlink? ==> ReadBlink(DetectBody(r, errorText)) == NoBlinkSeen(Some(r.message))
  {
  }

  /** Read as intended, the client moves on exactly when the server recognized the face. */
  lemma ReadCheckAgreesWithServer(r: Server.CheckReply, errorText: string)
    ensures ReadCheck(CheckBody(r, errorText)).FaceExists? <==> r.Known?
    ensures r.CheckRefused? ==> ReadCheck(CheckBody(r, errorText)) == FaceRejected(Some(r.message))
  {
  }

  // ---------------------------------------------------------------- the counters

  /** Which callback the client waits for. */
  datatype Phase = Idle | AwaitingBlinkReply | RetryScheduled | AwaitingCheckReply | AtDashboard

  const CameraPrompt := "请眨眼..."
  const GaveUpText := "未检测到眨眼，请重试"
  const PleaseBlinkText := "请眨眼"
  const DetectErrorText := "检测出错，请重试"
  const VerifyingText := "正在验证..."
  const VerifyFailedText := "验证失败，请重试"
  const VerifyErrorText := "验证出错，请重试"

  function DigitChar(d: nat): char
    requires d < 10
  {
    "0123456789"[d]
  }

  /** A count in decimal, as a template literal prints it. */
  function Decimal(n: nat): (s: string)
    ensures |s| >= 1
  {
    if n < 10 then [DigitChar(n)] else Decimal(n / 10) + [DigitChar(n % 10)]
  }

  /** `检测到眨眼 ${n} 次`. */
  function BlinkCountText(n: nat): string
  {
    "检测到眨眼 " + Decimal(n) + " 次"
  }

  class FaceAuth {
    var blinkCount: nat
    var detectionAttempts: nat
    const maxDetectionAttempts: nat
    /** The text of the `blink-text` element. */
    var blinkText: string
    var phase: Phase

    ghost predicate Valid()
      reads this
    {
      detectionAttempts <= maxDetectionAttempts &&
      (phase == AwaitingBlinkReply ==> detectionAttempts < maxDetectionAttempts) &&
      (phase == Idle || phase == AwaitingBlinkReply || phase == RetryScheduled ==> blinkCount < 2) &&
      (phase == AwaitingCheckReply ==> blinkCount == 2)
    }

    /** `initializeElements`: both counters at zero, at most 50 attempts. */
    constructor (text: string)
      ensures Valid() && phase == Idle && blinkText == text
      ensures blinkCount == 0 && detectionAttempts == 0 && maxDetectionAttempts == 50
    {
      blinkCount := 0;
      maxDetectionAttempts := 50;
      detectionAttempts := 0;
      blinkText := text;
      phase := Idle;
    }

    /**
     * `detectBlink`: gives up, resetting the attempts (but not the blinks seen), once the
     * attempts are spent; otherwise sends the next frame.
     */
    method DetectBlink()
      requires Valid() && (phase == Idle || phase == RetryScheduled)
      modifies this
      ensures Valid() && blinkCount == old(blinkCount)
      ensures old(detectionAttempts) >= maxDetectionAttempts ==>
        detectionAttempts == 0 && phase == Idle && blinkText == GaveUpText
      ensures old(detectionAttempts) < maxDetectionAttempts ==>
        detectionAttempts == old(detectionAttempts) && phase == AwaitingBlinkReply && blinkText == old(blinkText)
    {
      if detectionAttempts >= maxDetectionAttempts {
        blinkText := GaveUpText;
        detectionAttempts := 0;
        phase := Idle;
        return;
      }
      phase := AwaitingBlinkReply;
    }

    /** `detectFace`: without a running camera only an alert is shown; otherwise the chain starts. */
    method DetectFace(videoReady: bool) returns (alerted: bool)
      requires Valid() && phase == Idle
      modifies this
      ensures Valid() && blinkCount == old(blinkCount)
      ensures alerted <==> !videoReady
      ensures !videoReady ==> detectionAttempts == old(detectionAttempts) && phase == Idle && blinkText == old(blinkText)
      ensures videoReady && old(detectionAttempts) < maxDetectionAttempts ==>
        detectionAttempts == old(detectionAttempts) && phase == AwaitingBlinkReply && blinkText == CameraPrompt
      ensures videoReady && old(detectionAttempts) >= maxDetectionAttempts ==>
        detectionAttempts == 0 && phase == Idle && blinkText == GaveUpText
    {
      if !videoReady {
        return true;
      }
      blinkText := CameraPrompt;
      DetectBlink();
      return false;
    }

    /**
     * The `/detect_action` callbacks: a blink is counted and the second one hands over to
     * `checkFace`; any other reply spends an attempt and schedules the next try; a failed
     * request ends the chain with both counters kept.
     */
    method OnBlinkReply(outcome: BlinkOutcome)
      requires Valid() && phase == AwaitingBlinkReply
      modifies this
      ensures Valid()
      ensures outcome.BlinkSeen? && old(blinkCount) + 1 >= 2 ==>
        blinkCount == old(blinkCount) + 1 && detectionAttempts == old(detectionAttempts) &&
        phase == AwaitingCheckReply && blinkText == VerifyingText
      ensures outcome.BlinkSeen? && old(blinkCount) + 1 < 2 ==>
        blinkCount == old(blinkCount) + 1 && detectionAttempts == old(detectionAttempts) + 1 &&
        phase == RetryScheduled && blinkText == BlinkCountText(blinkCount)
      ensures outcome.NoBlinkSeen? ==>
        blinkCount == old(blinkCount) && detectionAttempts == old(detectionAttempts) + 1 &&
        phase == RetryScheduled && blinkText == OrElse(outcome.message, PleaseBlinkText)
      ensures outcome.BlinkFetchFailed? ==>
        blinkCount == old(blinkCount) && detectionAttempts == old(detectionAttempts) &&
        phase == Idle && blinkText == DetectErrorText
    {
      match outcome {
        case BlinkSeen =>
          blinkCount := blinkCount + 1;
          blinkText := BlinkCountText(blinkCount);
          if blinkCount >= 2 {
            blinkText := VerifyingText;
            phase := AwaitingCheckReply;
            return;
          }
        case NoBlinkSeen(message) =>
          blinkText := OrElse(message, PleaseBlinkText);
        case BlinkFetchFailed =>
          blinkText := DetectErrorText;
          phase := Idle;
          return;
      }
      detectionAttempts := detectionAttempts + 1;
      phase := RetryScheduled;
    }

    /** The 100 ms timer set after a reply: the next `detectBlink`. */
    method OnRetryTimer()
      requires Valid() && phase == RetryScheduled
      modifies this
      ensures Valid() && blinkCount == old(blinkCount)
      ensures old(detectionAttempts) >= maxDetectionAttempts ==>
        detectionAttempts == 0 && phase == Idle && blinkText == GaveUpText
      ensures old(detectionAttempts) < maxDetectionAttempts ==>
        detectionAttempts == old(detectionAttempts) && phase == AwaitingBlinkReply && blinkText == old(blinkText)
    {
      DetectBlink();
    }

    /**
     * The `/check_face` callbacks: a recognized face leaves for the dashboard; a rejection or
     * a failed request resets both counters for a fresh start.
     */
    method OnCheckReply(outcome: CheckOutcome)
      requires Valid() && phase == AwaitingCheckReply
      modifies this
      ensures Valid()
      ensures outcome.FaceExists? ==>
        phase == AtDashboard && blinkCount == old(blinkCount) &&
        detectionAttempts == old(detectionAttempts) && blinkText == old(blinkText)
      ensures outcome.FaceRejected? ==>
        phase == Idle && blinkCount == 0 && detectionAttempts == 0 &&
        blinkText == OrElse(outcome.message, VerifyFailedText)
      ensures outcome.CheckFetchFailed? ==>
        phase == Idle && blinkCount == 0 && detectionAttempts == 0 && blinkText == VerifyErrorText
    {
      match outcome {
        case FaceExists =>
          phase := AtDashboard;
        case FaceRejected(message) =>
          blinkText := OrElse(message, VerifyFailedText);
          blinkCount := 0;
          detectionAttempts := 0;
          phase := Idle;
        case CheckFetchFailed =>
          blinkText := VerifyErrorText;
          blinkCount := 0;
          detectionAttempts := 0;
          phase := Idle;
      }
    }
  }

  /**
   * A camera that never shows a blink: after one click the client sends exactly as many
   * frames as attempts are left, then gives up with the attempts reset and the blinks seen
   * kept. Read as written, every server reply is such a reply.
   */
  method PollWithoutBlinks(client: FaceAuth, message: Option<string>) returns (sent: nat)
    requires client.Valid() && client.phase == Idle && client.detectionAttempts < client.maxDetectionAttempts
    modifies client
    ensures client.Valid() && client.phase == Idle
    ensures sent == client.maxDetectionAttempts - old(client.detectionAttempts)
    ensures client.detectionAttempts == 0 && client.blinkCount == old(client.blinkCount)
    ensures client.blinkText == GaveUpText
  {
    var alerted := client.DetectFace(true);
    sent := 1;
    while client.phase == AwaitingBlinkReply
      invariant client.Valid() && client.blinkCount == old(client.blinkCount)
      invariant client.phase == AwaitingBlinkReply || (client.phase == Idle && client.blinkText == GaveUpText && client.detectionAttempts == 0)
      invariant client.phase == AwaitingBlinkReply ==> sent == client.detectionAttempts - old(client.detectionAttempts) + 1
      invariant client.phase == Idle ==> sent == client.maxDetectionAttempts - old(client.detectionAttempts)
      decreases if client.phase == AwaitingBlinkReply then client.maxDetectionAttempts - client.detectionAttempts + 1 else 0
    {
      client.OnBlinkReply(NoBlinkSeen(message));
      client.OnRetryTimer();
      if client.phase == AwaitingBlinkReply {
        sent := sent + 1;
      }
    }
  }
}
