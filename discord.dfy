/**
 * The webhook client, src/services/discord.ts, as a function of the answer the
 * network gave to its one POST. Building the multipart body and the `fetch`
 * itself are not modelled; what is modelled is which answer becomes a file URL
 * and which becomes which error message.
 */
module DiscordService {
  import opened Common

  /** What the one `fetch` POST to the webhook produced. */
  datatype HttpOutcome =
    | NetworkFailure(thrown: Thrown)
    | Response(ok: bool, status: nat, statusText: string, bodyText: string, json: JsonBody)

  /** What `response.json()` gave, reduced to `attachments[0].url` when it parsed. */
  datatype JsonBody = Unparsable(thrown: Thrown) | Parsed(firstAttachmentUrl: Option<string>)

  /** What `uploadToDiscord` settles with: a `DiscordUploadResponse`, or a throw. */
  datatype Reply = Uploaded(fileUrl: string) | Threw(thrown: Thrown)

  const NotDefinedMessage := "Discord webhook URL is not defined."
  const UploadFailedPrefix := "Discord upload failed: "
  const MissingUrlMessage := "Failed to retrieve file URL from Discord response."

  function DigitChar(d: nat): char
    requires d < 10
  {
    "0123456789"[d]
  }

  /** The decimal text of a status code, as a template literal renders it. */
  function NatToString(n: nat): (r: string)
    ensures |r| >= 1
    ensures forall i :: 0 <= i < |r| ==> '0' <= r[i] <= '9'
  {
    if n < 10 then [DigitChar(n)] else NatToString(n / 10) + [DigitChar(n % 10)]
  }

  /** The message the client builds for a response whose status is not ok. */
  function StatusMessage(status: nat, statusText: string, bodyText: string): string
  {
    "Failed to upload to Discord: " + NatToString(status) + (" " + statusText + " - " + bodyText)
  }

  /** The message `catch (error: unknown)` extracts before rethrowing. */
  function CaughtMessage(t: Thrown): string
  {
    match t
    case ErrorObject(m) => m
    case NonErrorValue => "An unknown error occurred"
  }

  /** What the failed step inside the `try` threw, before the catch rewraps it. */
  function FailureInsideTry(http: HttpOutcome): Option<Thrown>
  {
    match http
    case NetworkFailure(t) => Some(t)
    case Response(ok, status, statusText, bodyText, json) =>
      if !ok then Some(ErrorObject(StatusMessage(status, statusText, bodyText)))
      else match json
        case Unparsable(t) => Some(t)
        case Parsed(url) =>
          if url.None? || url.value == "" then Some(ErrorObject(MissingUrlMessage)) else None
  }

  /**
   * `uploadToDiscord(file, filename, webhookUrl)`. An empty (or missing) webhook
   * throws before any request is made; every failure inside the request is
   * rethrown as an `Error` whose message carries the prefix
   * "Discord upload failed: ".
   */
  function UploadToDiscord(webhook: string, http: HttpOutcome): (r: Reply)
    ensures webhook == "" ==> r == Threw(ErrorObject(NotDefinedMessage))
    ensures r.Uploaded? <==>
      webhook != "" && http.Response? && http.ok && http.json.Parsed? &&
      http.json.firstAttachmentUrl.Some? && http.json.firstAttachmentUrl.value != ""
    ensures r.Uploaded? ==> r.fileUrl == http.json.firstAttachmentUrl.value
    ensures r.Threw? ==> r.thrown.ErrorObject?
    ensures webhook != "" && r.Threw? ==> StartsWith(r.thrown.message, UploadFailedPrefix)
  {
    if webhook == "" then Threw(ErrorObject(NotDefinedMessage))
    else match FailureInsideTry(http)
      case Some(t) => Threw(ErrorObject(UploadFailedPrefix + CaughtMessage(t)))
      case None => Uploaded(http.json.firstAttachmentUrl.value)
  }

  /** A response with an error status fails with a message that carries the status code. */
  lemma StatusCodeInMessage(webhook: string, status: nat, statusText: string, bodyText: string, json: JsonBody)
    requires webhook != ""
    ensures var r := UploadToDiscord(webhook, Response(false, status, statusText, bodyText, json));
      r.Threw? && r.thrown.ErrorObject? && Contains(r.thrown.message, NatToString(status))
  {
    var http := Response(false, status, statusText, bodyText, json);
    var msg := StatusMessage(status, statusText, bodyText);
    assert FailureInsideTry(http) == Some(ErrorObject(msg));
    assert UploadToDiscord(webhook, http) == Threw(ErrorObject(UploadFailedPrefix + msg));
    var head, code, tail := "Failed to upload to Discord: ", NatToString(status), " " + statusText + " - " + bodyText;
    assert msg == head + code + tail;
    assert UploadFailedPrefix + msg == (UploadFailedPrefix + head) + code + tail;
    ContainsMiddle(UploadFailedPrefix + head, code, tail);
  }
}
