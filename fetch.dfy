/**
 * `downloadFile`: the outcome of fetching the PDF into the workspace. The transport
 * (client, 300-second timeout, browser headers, streaming copy) is not modelled; each
 * of its steps enters as the outcome it had.
 */
module Fetch {
  import opened Wrappers
  import opened Bytes

  /** `http.StatusOK`: the only status the download accepts. */
  const StatusOK: int := 200

  datatype HttpReply = HttpReply(statusCode: int, body: seq<byte>)

  /** What each step of one download did. */
  datatype FetchEnv = FetchEnv(
    requestBuilt: bool,          // http.NewRequest accepted the URL
    reply: Option<HttpReply>,    // None: client.Do failed (connection, timeout)
    createOk: bool,              // os.Create of the destination file succeeded
    copyOk: bool)                // io.Copy of the body succeeded

  datatype FetchError =
    | RequestError             // the URL could not be turned into a request
    | TransportError           // no reply arrived
    | HttpStatus(code: int)    // "HTTP <code>": a reply other than 200
    | CreateError              // the destination file could not be created
    | CopyError                // writing the body failed

  /**
   * The bytes written to the destination file, or the first error met. A reply other than
   * exactly 200 is rejected with its code before the destination file is created, so the
   * file-system outcomes play no part in that answer.
   */
  function DownloadFile(env: FetchEnv): (r: Result<seq<byte>, FetchError>)
    ensures r.Success? <==>
      env.requestBuilt && env.reply.Some? && env.reply.value.statusCode == StatusOK && env.createOk && env.copyOk
    ensures r.Success? ==> r.value == env.reply.value.body
    ensures env.requestBuilt && env.reply.Some? && env.reply.value.statusCode != StatusOK ==>
      r == Failure(HttpStatus(env.reply.value.statusCode))
    ensures r.Failure? && r.error.HttpStatus? ==> r.error.code != StatusOK
  {
    if !env.requestBuilt then Failure(RequestError)
    else match env.reply
      case None => Failure(TransportError)
      case Some(resp) =>
        if resp.statusCode != StatusOK then Failure(HttpStatus(resp.statusCode))
        else if !env.createOk then Failure(CreateError)
        else if !env.copyOk then Failure(CopyError)
        else Success(resp.body)
  }
}
